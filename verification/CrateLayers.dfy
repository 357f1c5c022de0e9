/** Crate layering: the memoised depth-first search that gives every workspace crate its
    layer, and the check that reads those layers back.  The specification is the dependency
    graph itself: a layer is the length of the longest dependency chain below a crate. */
module CrateLayers {

  /** The Rust `u8` in which layers are stored. */
  type Layer = x: int | 0 <= x <= 255

  /** Workspace crates with their declared dependencies; a dependency outside the keys is external. */
  type Graph = map<string, seq<string>>

  /** The fields of a crate record that layering reads or writes. */
  datatype CrateInfo = CrateInfo(name: string, dependencies: seq<string>, layer: Layer)

  datatype VisitStatus = Visiting | Visited(layer: Layer)

  datatype LayerError = Cycle(chain: seq<string>) | Overflow(krate: string)

  datatype Outcome<T> = Ok(value: T) | Err(error: LayerError)

  // ----- Dependency chains -----

  /** `d` is a workspace-internal dependency of `n`. */
  predicate IsDep(g: Graph, n: string, d: string) {
    n in g && d in g && d in g[n]
  }

  /** The `i`-th step of `p` follows a dependency. */
  predicate StepIsDep(g: Graph, p: seq<string>, i: int) {
    0 <= i < |p| - 1 ==> IsDep(g, p[i], p[i + 1])
  }

  ghost predicate IsChain(g: Graph, p: seq<string>) {
    |p| > 0 && p[0] in g && forall i :: StepIsDep(g, p, i)
  }

  /** A closed chain: it comes back to the crate it started from. */
  ghost predicate IsCycle(g: Graph, p: seq<string>) {
    IsChain(g, p) && |p| >= 2 && p[0] == p[|p| - 1]
  }

  ghost predicate Acyclic(g: Graph) {
    forall p :: !IsCycle(g, p)
  }

  /** Every chain has at most `edges` edges. */
  ghost predicate ChainsWithin(g: Graph, edges: nat) {
    forall p :: IsChain(g, p) ==> |p| - 1 <= edges
  }

  /** The longest chain that starts at `n` has exactly `edges` edges. */
  ghost predicate IsLongestBelow(g: Graph, n: string, edges: nat) {
    && (exists p :: IsChain(g, p) && p[0] == n && |p| - 1 == edges)
    && (forall p :: IsChain(g, p) && p[0] == n ==> |p| - 1 <= edges)
  }

  lemma ChainMembers(g: Graph, p: seq<string>, i: int)
    requires IsChain(g, p) && 0 <= i < |p|
    ensures p[i] in g
  {
    assert StepIsDep(g, p, i - 1);
  }

  lemma ChainCons(g: Graph, n: string, p: seq<string>)
    requires IsChain(g, p) && IsDep(g, n, p[0])
    ensures IsChain(g, [n] + p)
  {
    forall i
      ensures StepIsDep(g, [n] + p, i)
    {
      assert StepIsDep(g, p, i - 1);
    }
  }

  lemma ChainSnoc(g: Graph, p: seq<string>, n: string)
    requires IsChain(g, p) && IsDep(g, p[|p| - 1], n)
    ensures IsChain(g, p + [n])
  {
    forall i
      ensures StepIsDep(g, p + [n], i)
    {
      assert StepIsDep(g, p, i);
    }
  }

  lemma ChainSlice(g: Graph, p: seq<string>, lo: nat, hi: nat)
    requires IsChain(g, p) && lo < hi <= |p|
    ensures IsChain(g, p[lo..hi])
  {
    ChainMembers(g, p, lo);
    forall i
      ensures StepIsDep(g, p[lo..hi], i)
    {
      assert StepIsDep(g, p, lo + i);
    }
  }

  // ----- What the status map records -----

  predicate IsVisited(status: map<string, VisitStatus>, n: string) {
    n in status && status[n].Visited?
  }

  /** A finished crate sits strictly above all its dependencies, and exactly one above some of them. */
  ghost predicate Settled(g: Graph, status: map<string, VisitStatus>, n: string)
    requires IsVisited(status, n)
  {
    && n in g
    && (forall d :: IsDep(g, n, d) ==> IsVisited(status, d) && status[d].layer < status[n].layer)
    && (status[n].layer > 0 ==>
          exists d :: IsDep(g, n, d) && IsVisited(status, d) && status[d].layer + 1 == status[n].layer)
  }

  ghost predicate AllSettled(g: Graph, status: map<string, VisitStatus>) {
    forall n {:trigger Settled(g, status, n)} :: IsVisited(status, n) ==> Settled(g, status, n)
  }

  lemma {:induction false} LayerBoundsChains(g: Graph, status: map<string, VisitStatus>, p: seq<string>)
    requires AllSettled(g, status) && IsChain(g, p) && IsVisited(status, p[0])
    ensures |p| - 1 <= status[p[0]].layer
    ensures forall i :: 0 < i < |p| ==> IsVisited(status, p[i]) && status[p[i]].layer < status[p[0]].layer
    decreases |p|
  {
    if |p| > 1 {
      assert Settled(g, status, p[0]) && StepIsDep(g, p, 0);
      ChainSlice(g, p, 1, |p|);
      LayerBoundsChains(g, status, p[1..|p|]);
      forall i | 0 < i < |p|
        ensures IsVisited(status, p[i]) && status[p[i]].layer < status[p[0]].layer
      {
        if i > 1 { assert p[i] == p[1..|p|][i - 1]; }
      }
    }
  }

  lemma {:induction false} LayerHasChain(g: Graph, status: map<string, VisitStatus>, n: string) returns (p: seq<string>)
    requires AllSettled(g, status) && IsVisited(status, n)
    ensures IsChain(g, p) && p[0] == n && |p| - 1 == status[n].layer
    decreases status[n].layer
  {
    p := [n];
    assert Settled(g, status, n);
    if status[n].layer > 0 {
      var d :| IsDep(g, n, d) && IsVisited(status, d) && status[d].layer + 1 == status[n].layer;
      var q := LayerHasChain(g, status, d);
      ChainCons(g, n, q);
      p := [n] + q;
    }
  }

  /** A settled layer is the longest dependency chain, not merely a bound on it. */
  lemma LayerIsLongestChain(g: Graph, status: map<string, VisitStatus>, n: string)
    requires AllSettled(g, status) && IsVisited(status, n)
    ensures IsLongestBelow(g, n, status[n].layer)
  {
    var q := LayerHasChain(g, status, n);
    forall p | IsChain(g, p) && p[0] == n
      ensures |p| - 1 <= status[n].layer
    {
      LayerBoundsChains(g, status, p);
    }
  }

  // ----- The search -----

  predicate NoDuplicates(s: seq<string>) {
    forall i, j :: 0 <= i < j < |s| ==> s[i] != s[j]
  }

  /** Everything recorded in `before` is still recorded, unchanged, in `after`. */
  predicate Extends(before: map<string, VisitStatus>, after: map<string, VisitStatus>) {
    forall n :: n in before ==> n in after && after[n] == before[n]
  }

  /** The evidence that goes with each error: a genuine cycle, or a chain of 256 edges. */
  ghost predicate ErrorIsGenuine(g: Graph, e: LayerError) {
    match e
    case Cycle(chain) => IsCycle(g, chain)
    case Overflow(krate) => exists p :: IsChain(g, p) && p[0] == krate && |p| - 1 == 256
  }

  /** When a dependency already has layer 255, the crate above it starts a chain of 256 edges. */
  lemma OverflowHasChain(g: Graph, status: map<string, VisitStatus>, name: string)
    requires AllSettled(g, status) && exists d :: IsDep(g, name, d) && IsVisited(status, d) && status[d].layer == 255
    ensures ErrorIsGenuine(g, Overflow(name))
  {
    var d :| IsDep(g, name, d) && IsVisited(status, d) && status[d].layer == 255;
    var q := LayerHasChain(g, status, d);
    ChainCons(g, name, q);
    assert ([name] + q)[0] == name;
  }

  /** Recording one more layer, above finished dependencies, keeps every record settled. */
  lemma SettleOne(g: Graph, status: map<string, VisitStatus>, name: string, max: int)
    requires AllSettled(g, status) && name in g && !IsVisited(status, name) && -1 <= max < 255
    requires forall d :: IsDep(g, name, d) ==> IsVisited(status, d) && status[d].layer <= max
    requires max >= 0 ==> exists d :: IsDep(g, name, d) && IsVisited(status, d) && status[d].layer == max
    ensures AllSettled(g, status[name := Visited(max + 1)])
  {
    var after := status[name := Visited(max + 1)];
    assert forall d :: IsVisited(status, d) ==> IsVisited(after, d) && after[d] == status[d];
    forall n | IsVisited(after, n)
      ensures Settled(g, after, n)
    {
      if n != name { assert Settled(g, status, n); }
    }
  }

  /** The path holds exactly the crates being visited, each once. */
  ghost predicate IsOpenPath(status: map<string, VisitStatus>, path: seq<string>) {
    NoDuplicates(path) && forall n :: n in path <==> n in status && status[n].Visiting?
  }

  lemma PopOne(status: map<string, VisitStatus>, path: seq<string>, l: Layer)
    requires IsOpenPath(status, path) && path != []
    ensures IsOpenPath(status[path[|path| - 1] := Visited(l)], path[..|path| - 1])
  {
    var name, rest := path[|path| - 1], path[..|path| - 1];
    assert path == rest + [name] && name !in rest;
  }

  /** Marking an unseen crate leaves every record settled. */
  lemma MarkOne(g: Graph, status: map<string, VisitStatus>, name: string)
    requires AllSettled(g, status) && name !in status
    ensures AllSettled(g, status[name := Visiting])
  {
    var after := status[name := Visiting];
    assert forall d :: IsVisited(status, d) <==> IsVisited(after, d);
    forall n | IsVisited(after, n) ensures Settled(g, after, n) { assert Settled(g, status, n); }
  }

  class LayerSearch {
    const graph: Graph
    var status: map<string, VisitStatus>
    var path: seq<string>
    ghost var expanded: multiset<string>  // crates whose dependencies were walked, with repetitions

    ghost predicate Valid()
      reads this
    {
      && status.Keys <= graph.Keys
      && (path != [] ==> IsChain(graph, path))
      && IsOpenPath(status, path)
      && AllSettled(graph, status)
      && (forall n :: expanded[n] == if n in status then 1 else 0)
    }

    constructor (g: Graph)
      ensures Valid() && graph == g && status == map[] && path == [] && expanded == multiset{}
    {
      graph, status, path, expanded := g, map[], [], multiset{};
    }

    /** The closed chain reported when the search meets a crate that is still being visited. */
    method CyclePath(name: string) returns (chain: seq<string>)
      requires Valid() && name in path && IsDep(graph, path[|path| - 1], name)
      ensures IsCycle(graph, chain) && chain[0] == name
    {
      var start := 0;
      while path[start] != name
        invariant 0 <= start < |path| && name !in path[..start]
        decreases |path| - start
      {
        start := start + 1;
        assert path[..|path|] == path;
      }
      chain := path[start..|path|] + [name];
      ChainSlice(graph, path, start, |path|);
      ChainSnoc(graph, path[start..|path|], name);
    }

    /** The answer for a crate met before: its stored layer, or the cycle it closes. */
    method Recall(name: string) returns (r: Outcome<Layer>)
      requires Valid() && name in status
      requires path != [] && name in graph ==> IsDep(graph, path[|path| - 1], name)
      ensures r.Ok? ==> status[name] == Visited(r.value)
      ensures r.Err? ==> status[name].Visiting? && ErrorIsGenuine(graph, r.error)
    {
      match status[name] {
        case Visited(layer) => r := Ok(layer);
        case Visiting =>
          assert name in path;
          var chain := CyclePath(name);
          r := Err(Cycle(chain));
      }
    }

    method GetLayer(name: string) returns (r: Outcome<Layer>)
      requires Valid()
      requires path != [] && name in graph ==> IsDep(graph, path[|path| - 1], name)
      modifies this
      ensures r.Ok? ==> Valid() && path == old(path) && Extends(old(status), status)
      ensures r.Ok? && name in graph ==> name in status && status[name] == Visited(r.value)
      ensures r.Ok? && name !in graph ==> r.value == 0 && status == old(status)
      ensures r.Err? ==> ErrorIsGenuine(graph, r.error)
      ensures forall n :: expanded[n] <= 1
      decreases graph.Keys - status.Keys, 0
    {
      if name in status {
        r := Recall(name);
        return;
      }
      if name !in graph {
        return Ok(0);
      }
      Begin(name);
      assert name in graph.Keys - old(status).Keys;
      var max := HighestDepLayer(name);
      if max.Err? { return Err(max.error); }
      assert path[..|path| - 1] == old(path);
      r := Conclude(name, max.value);
    }

    /** The loop over the dependencies of the crate on top of the path; -1 stands for "none is internal". */
    method HighestDepLayer(name: string) returns (r: Outcome<int>)
      requires Valid() && path != [] && path[|path| - 1] == name
      modifies this
      ensures r.Ok? ==> Valid() && path == old(path) && Extends(old(status), status) && -1 <= r.value <= 255
      ensures r.Ok? ==> forall d :: IsDep(graph, name, d) ==> IsVisited(status, d) && status[d].layer <= r.value
      ensures r.Ok? && r.value >= 0 ==>
                exists d :: IsDep(graph, name, d) && IsVisited(status, d) && status[d].layer == r.value
      ensures r.Err? ==> ErrorIsGenuine(graph, r.error)
      ensures forall n :: expanded[n] <= 1
      decreases graph.Keys - status.Keys, 1
    {
      var deps := graph[name];
      var max: int := -1;
      for j := 0 to |deps|
        invariant -1 <= max <= 255
        invariant Valid() && path == old(path) && Extends(old(status), status)
        invariant forall i :: 0 <= i < j && deps[i] in graph ==>
                    IsVisited(status, deps[i]) && status[deps[i]].layer <= max
        invariant max >= 0 ==> exists d :: IsDep(graph, name, d) && IsVisited(status, d) && status[d].layer == max
      {
        if deps[j] in graph {
          assert graph.Keys - status.Keys <= graph.Keys - old(status).Keys;
          var sub := GetLayer(deps[j]);
          if sub.Err? { return Err(sub.error); }
          assert IsDep(graph, name, deps[j]) && IsVisited(status, deps[j]);
          max := if sub.value > max then sub.value else max;
        }
      }
      r := Ok(max);
    }

    /** Marks an unseen crate as being visited and pushes it on the path. */
    method Begin(name: string)
      requires Valid() && name in graph && name !in status
      requires path != [] && name in graph ==> IsDep(graph, path[|path| - 1], name)
      modifies this
      ensures Valid() && path == old(path) + [name] && status == old(status)[name := Visiting]
      ensures expanded == old(expanded) + multiset{name}
    {
      if path != [] { ChainSnoc(graph, path, name); }
      assert name !in path;
      MarkOne(graph, status, name);
      status := status[name := Visiting];
      path := path + [name];
      expanded := expanded + multiset{name};
    }

    /** Pops the crate on top of the path and records a layer one above its highest dependency,
        if that still fits in a `u8`. */
    method Conclude(name: string, max: int) returns (r: Outcome<Layer>)
      requires Valid() && path != [] && path[|path| - 1] == name && -1 <= max <= 255
      requires forall d :: IsDep(graph, name, d) ==> IsVisited(status, d) && status[d].layer <= max
      requires max >= 0 ==> exists d :: IsDep(graph, name, d) && IsVisited(status, d) && status[d].layer == max
      modifies this`path, this`status
      ensures path == old(path)[..|old(path)| - 1]
      ensures r.Ok? ==> Valid() && r.value == max + 1 && status == old(status)[name := Visited(max + 1)]
      ensures r.Err? ==> max == 255 && status == old(status) && ErrorIsGenuine(graph, r.error)
    {
      if max == 255 {
        OverflowHasChain(graph, status, name);
        path := path[..|path| - 1];
        return Err(Overflow(name));
      }
      SettleOne(graph, status, name, max);
      if |path| > 1 { ChainSlice(graph, path, 0, |path| - 1); }
      assert name in path;
      PopOne(status, path, max + 1);
      path := path[..|path| - 1];
      status := status[name := Visited(max + 1)];
      r := Ok(max + 1);
    }
  }

  // ----- compute_crate_layers -----

  /** The name-to-dependencies map; as in a collected hash map, a later entry replaces an earlier one. */
  function CrateMap(crates: seq<CrateInfo>): (g: Graph) {
    if crates == [] then map[]
    else
      var last := crates[|crates| - 1];
      CrateMap(crates[..|crates| - 1])[last.name := last.dependencies]
  }

  lemma {:induction false} CrateMapEntries(crates: seq<CrateInfo>)
    ensures forall i :: 0 <= i < |crates| ==> crates[i].name in CrateMap(crates)
    ensures forall n :: n in CrateMap(crates) ==>
              exists i :: 0 <= i < |crates| && crates[i].name == n && crates[i].dependencies == CrateMap(crates)[n]
  {
    if crates != [] {
      var init := crates[..|crates| - 1];
      CrateMapEntries(init);
      assert forall i :: 0 <= i < |init| ==> init[i] == crates[i];
      assert crates[|crates| - 1].name in CrateMap(crates);
    }
  }

  /** The whole verdict: which inputs are accepted, what is stored, and what an error reports. */
  ghost predicate LayersComputed(before: seq<CrateInfo>, after: seq<CrateInfo>, r: Outcome<()>) {
    var g := CrateMap(before);
    && (r.Ok? <==> Acyclic(g) && ChainsWithin(g, 255))
    && |after| == |before|
    && (r.Ok? ==> forall i :: 0 <= i < |after| ==>
          && after[i] == before[i].(layer := after[i].layer)
          && IsLongestBelow(g, after[i].name, after[i].layer))
    && (r.Err? ==> after == before && ErrorIsGenuine(g, r.error))
  }

  lemma SettledGraphIsAcyclic(g: Graph, status: map<string, VisitStatus>)
    requires AllSettled(g, status) && forall n :: n in g ==> IsVisited(status, n)
    ensures Acyclic(g) && ChainsWithin(g, 255)
  {
    forall p | IsChain(g, p)
      ensures |p| - 1 <= 255 && !IsCycle(g, p)
    {
      LayerBoundsChains(g, status, p);
    }
  }

  /** The first loop: one search over all crates, stopping at the first error. */
  method CalculateLayers(crates: seq<CrateInfo>) returns (r: Outcome<seq<Layer>>)
    ensures r.Ok? <==> Acyclic(CrateMap(crates)) && ChainsWithin(CrateMap(crates), 255)
    ensures r.Ok? ==> |r.value| == |crates|
    ensures r.Ok? ==>
              forall i :: 0 <= i < |crates| ==> IsLongestBelow(CrateMap(crates), crates[i].name, r.value[i])
    ensures r.Err? ==> ErrorIsGenuine(CrateMap(crates), r.error)
  {
    var g := CrateMap(crates);
    CrateMapEntries(crates);
    var search := new LayerSearch(g);
    var layers: seq<Layer> := [];
    for i := 0 to |crates|
      invariant |layers| == i && fresh(search) && search.graph == g
      invariant search.Valid() && search.path == []
      invariant forall k :: 0 <= k < i ==>
                  crates[k].name in search.status && search.status[crates[k].name] == Visited(layers[k])
    {
      assert crates[i].name in g;
      var sub := search.GetLayer(crates[i].name);
      if sub.Err? {
        ErrorExcludesAcceptance(g, sub.error);
        return Err(sub.error);
      }
      layers := layers + [sub.value];
    }
    SearchIsComplete(crates, search.status, layers);
    r := Ok(layers);
  }

  lemma SearchIsComplete(crates: seq<CrateInfo>, status: map<string, VisitStatus>, layers: seq<Layer>)
    requires AllSettled(CrateMap(crates), status) && |layers| == |crates|
    requires forall k :: 0 <= k < |crates| ==> crates[k].name in status && status[crates[k].name] == Visited(layers[k])
    ensures Acyclic(CrateMap(crates)) && ChainsWithin(CrateMap(crates), 255)
    ensures forall k :: 0 <= k < |crates| ==> IsLongestBelow(CrateMap(crates), crates[k].name, layers[k])
  {
    var g := CrateMap(crates);
    CrateMapEntries(crates);
    SettledGraphIsAcyclic(g, status);
    forall k | 0 <= k < |crates| ensures IsLongestBelow(g, crates[k].name, layers[k]) {
      LayerIsLongestChain(g, status, crates[k].name);
    }
  }

  method ComputeCrateLayers(crates: array<CrateInfo>) returns (r: Outcome<()>)
    modifies crates
    ensures LayersComputed(old(crates[..]), crates[..], r)
  {
    ghost var before := crates[..];
    var calculated := CalculateLayers(crates[..]);
    if calculated.Err? {
      return Err(calculated.error);
    }
    StoreLayers(crates, calculated.value);
    r := Ok(());
    StoredLayersAreLongest(before, crates[..], calculated.value);
  }

  /** The second loop: every crate gets its layer. */
  method StoreLayers(crates: array<CrateInfo>, layers: seq<Layer>)
    requires |layers| == crates.Length
    modifies crates
    ensures forall k :: 0 <= k < crates.Length ==> crates[k] == old(crates[k]).(layer := layers[k])
  {
    for i := 0 to crates.Length
      invariant forall k :: 0 <= k < i ==> crates[k] == old(crates[k]).(layer := layers[k])
      invariant forall k :: i <= k < crates.Length ==> crates[k] == old(crates[k])
    {
      crates[i] := crates[i].(layer := layers[i]);
    }
  }

  lemma StoredLayersAreLongest(before: seq<CrateInfo>, after: seq<CrateInfo>, layers: seq<Layer>)
    requires |before| == |after| == |layers|
    requires Acyclic(CrateMap(before)) && ChainsWithin(CrateMap(before), 255)
    requires forall i :: 0 <= i < |before| ==> IsLongestBelow(CrateMap(before), before[i].name, layers[i])
    requires forall i :: 0 <= i < |before| ==> after[i] == before[i].(layer := layers[i])
    ensures LayersComputed(before, after, Ok(()))
  {
    var g := CrateMap(before);
    forall i | 0 <= i < |after|
      ensures IsLongestBelow(g, after[i].name, after[i].layer)
    {
      assert IsLongestBelow(g, before[i].name, layers[i]);
    }
  }

  lemma ErrorExcludesAcceptance(g: Graph, e: LayerError)
    requires ErrorIsGenuine(g, e)
    ensures !(Acyclic(g) && ChainsWithin(g, 255))
  {
  }

  // ----- check_dag_layer_violations -----

  datatype DagViolation = DagViolation(fromCrate: string, fromLayer: Layer, toCrate: string, toLayer: Layer)

  /** Layer lookup by name; a later entry replaces an earlier one. */
  function LayerMap(crates: seq<CrateInfo>): (m: map<string, Layer>) {
    if crates == [] then map[]
    else
      var last := crates[|crates| - 1];
      LayerMap(crates[..|crates| - 1])[last.name := last.layer]
  }

  lemma {:induction false} LayerMapEntries(crates: seq<CrateInfo>)
    ensures forall i :: 0 <= i < |crates| ==> crates[i].name in LayerMap(crates)
    ensures forall n :: n in LayerMap(crates) ==>
              exists i :: 0 <= i < |crates| && crates[i].name == n && crates[i].layer == LayerMap(crates)[n]
  {
    if crates != [] {
      var init := crates[..|crates| - 1];
      LayerMapEntries(init);
      assert forall i :: 0 <= i < |init| ==> init[i] == crates[i];
      assert crates[|crates| - 1].name in LayerMap(crates);
    }
  }

  /** The crate at `c` points at a strictly higher layer through its dependency number `d`. */
  predicate PointsUp(crates: seq<CrateInfo>, layers: map<string, Layer>, c: int, d: int) {
    && 0 <= c < |crates| && 0 <= d < |crates[c].dependencies|
    && var dep := crates[c].dependencies[d];
       dep in layers && layers[dep] > crates[c].layer
  }

  ghost predicate NothingPointsUp(crates: seq<CrateInfo>) {
    forall c, d :: !PointsUp(crates, LayerMap(crates), c, d)
  }

  predicate IsViolation(crates: seq<CrateInfo>, layers: map<string, Layer>, at: (int, int), v: DagViolation) {
    && PointsUp(crates, layers, at.0, at.1)
    && var dep := crates[at.0].dependencies[at.1];
       v == DagViolation(crates[at.0].name, crates[at.0].layer, dep, layers[dep])
  }

  predicate Before(x: (int, int), y: (int, int)) {
    x.0 < y.0 || (x.0 == y.0 && x.1 < y.1)
  }

  /** `at` lists, in reading order and without omission, the dependencies before `end` that point up. */
  ghost predicate ListsViolations(crates: seq<CrateInfo>, layers: map<string, Layer>, end: (int, int),
                                  at: seq<(int, int)>, v: seq<DagViolation>) {
    && |at| == |v|
    && (forall k :: 0 <= k < |at| ==> IsViolation(crates, layers, at[k], v[k]) && Before(at[k], end))
    && (forall k, l :: 0 <= k < l < |at| ==> Before(at[k], at[l]))
    && (forall c, d :: PointsUp(crates, layers, c, d) && Before((c, d), end) ==> (c, d) in at)
  }

  /** The two nested loops, over a fixed layer lookup. */
  method CollectViolations(crates: seq<CrateInfo>, layers: map<string, Layer>)
    returns (v: seq<DagViolation>, ghost at: seq<(int, int)>)
    ensures ListsViolations(crates, layers, (|crates|, 0), at, v)
  {
    v, at := [], [];
    for c := 0 to |crates|
      invariant ListsViolations(crates, layers, (c, 0), at, v)
    {
      for d := 0 to |crates[c].dependencies|
        invariant ListsViolations(crates, layers, (c, d), at, v)
      {
        var dep := crates[c].dependencies[d];
        if dep in layers && layers[dep] > crates[c].layer {
          v := v + [DagViolation(crates[c].name, crates[c].layer, dep, layers[dep])];
          at := at + [(c, d)];
          assert IsViolation(crates, layers, at[|at| - 1], v[|v| - 1]);
        }
      }
    }
  }

  /** `v` names crate `c`, its layer, its dependency number `d` and that dependency's higher layer. */
  predicate Tells(crates: seq<CrateInfo>, layers: map<string, Layer>, c: int, d: int, v: DagViolation) {
    && 0 <= c < |crates| && 0 <= d < |crates[c].dependencies|
    && v.fromCrate == crates[c].name && v.fromLayer == crates[c].layer
    && v.toCrate == crates[c].dependencies[d] && v.toCrate in layers
    && v.fromLayer < v.toLayer == layers[v.toCrate]
  }

  /** A list of violations holds exactly what can be told. */
  lemma ViolationMeaning(crates: seq<CrateInfo>, layers: map<string, Layer>, at: seq<(int, int)>, v: seq<DagViolation>,
                         x: DagViolation)
    requires ListsViolations(crates, layers, (|crates|, 0), at, v)
    ensures x in v <==> exists c, d :: Tells(crates, layers, c, d, x)
  {
    if x in v {
      var k :| 0 <= k < |v| && v[k] == x;
      assert IsViolation(crates, layers, at[k], v[k]);
      assert Tells(crates, layers, at[k].0, at[k].1, x);
    }
    if c, d :| Tells(crates, layers, c, d, x) {
      assert PointsUp(crates, layers, c, d) && (c, d) in at;
      var k :| 0 <= k < |at| && at[k] == (c, d);
      assert IsViolation(crates, layers, at[k], v[k]);
    }
  }

  method CheckDagLayerViolations(crates: seq<CrateInfo>) returns (v: seq<DagViolation>)
    ensures exists at :: ListsViolations(crates, LayerMap(crates), (|crates|, 0), at, v)
    ensures v == [] <==> NothingPointsUp(crates)
  {
    var layers := LayerMap(crates);
    ghost var at;
    v, at := CollectViolations(crates, layers);
    assert v != [] ==> IsViolation(crates, layers, at[0], v[0]);
  }

  predicate DistinctNames(crates: seq<CrateInfo>) {
    forall i, j :: 0 <= i < j < |crates| ==> crates[i].name != crates[j].name
  }

  /** With distinct names, both lookup maps give back the entry itself. */
  lemma LookupByName(crates: seq<CrateInfo>, i: int)
    requires DistinctNames(crates) && 0 <= i < |crates|
    ensures crates[i].name in CrateMap(crates) && CrateMap(crates)[crates[i].name] == crates[i].dependencies
    ensures crates[i].name in LayerMap(crates) && LayerMap(crates)[crates[i].name] == crates[i].layer
  {
    CrateMapEntries(crates);
    LayerMapEntries(crates);
    var n := crates[i].name;
    var j :| 0 <= j < |crates| && crates[j].name == n && crates[j].dependencies == CrateMap(crates)[n];
    var k :| 0 <= k < |crates| && crates[k].name == n && crates[k].layer == LayerMap(crates)[n];
    assert i == j == k;
  }

  /** Layers and graph agree on names, so a dependency's entry can be found from its name. */
  lemma EntryOf(crates: seq<CrateInfo>, name: string) returns (i: int)
    requires DistinctNames(crates) && name in CrateMap(crates)
    ensures 0 <= i < |crates| && crates[i].name == name
    ensures CrateMap(crates)[name] == crates[i].dependencies
    ensures name in LayerMap(crates) && LayerMap(crates)[name] == crates[i].layer
  {
    CrateMapEntries(crates);
    i :| 0 <= i < |crates| && crates[i].name == name;
    LookupByName(crates, i);
  }

  /** A dependency of a crate with a longest-chain layer sits strictly lower. */
  lemma LongestChainDescends(g: Graph, n: string, d: string, ln: nat, ld: nat)
    requires IsDep(g, n, d) && IsLongestBelow(g, n, ln) && IsLongestBelow(g, d, ld)
    ensures ld < ln
  {
    var p :| IsChain(g, p) && p[0] == d && |p| - 1 == ld;
    ChainCons(g, n, p);
    assert ([n] + p)[0] == n;
  }

  /** After a successful layering of distinctly named crates every internal dependency is
      strictly lower, and so the violation check finds nothing. */
  lemma LayeringLeavesNoViolations(before: seq<CrateInfo>, after: seq<CrateInfo>, r: Outcome<()>)
    requires DistinctNames(before) && LayersComputed(before, after, r) && r.Ok?
    ensures NothingPointsUp(after)
    ensures forall c, d, k ::
              && 0 <= c < |after| && 0 <= d < |after[c].dependencies|
              && 0 <= k < |after| && after[k].name == after[c].dependencies[d] ==>
                after[k].layer < after[c].layer
  {
    var g := CrateMap(before);
    forall c, d, k | 0 <= c < |after| && 0 <= d < |after[c].dependencies| && 0 <= k < |after|
      && after[k].name == after[c].dependencies[d]
      ensures after[k].layer < after[c].layer
    {
      LookupByName(before, c);
      LookupByName(before, k);
      LongestChainDescends(g, after[c].name, after[k].name, after[c].layer, after[k].layer);
    }
    var m := LayerMap(after);
    LayerMapEntries(after);
    forall c, d | 0 <= c < |after| && 0 <= d < |after[c].dependencies| && after[c].dependencies[d] in m
      ensures m[after[c].dependencies[d]] < after[c].layer
    {
      var dep := after[c].dependencies[d];
      var k :| 0 <= k < |after| && after[k].name == dep && after[k].layer == m[dep];
    }
  }

  /** The layer stored for a name. */
  function LayerOf(crates: seq<CrateInfo>, name: string): (l: Layer)
    requires name in LayerMap(crates)
  {
    LayerMap(crates)[name]
  }

  /** What an empty violation list is worth on arbitrary stored layers: layers never rise along a
      chain, so a cycle can only hide inside a single layer. */
  lemma {:induction false} NoViolationsOnChain(crates: seq<CrateInfo>, p: seq<string>)
    requires DistinctNames(crates) && NothingPointsUp(crates)
    requires IsChain(CrateMap(crates), p)
    ensures forall i :: 0 <= i < |p| ==> p[i] in LayerMap(crates)
    ensures forall i :: 0 <= i < |p| ==> LayerOf(crates, p[|p| - 1]) <= LayerOf(crates, p[i]) <= LayerOf(crates, p[0])
    decreases |p|
  {
    var g := CrateMap(crates);
    var c := EntryOf(crates, p[0]);
    if |p| > 1 {
      ChainSlice(g, p, 1, |p|);
      NoViolationsOnChain(crates, p[1..|p|]);
      var k := EntryOf(crates, p[1]);
      assert StepIsDep(g, p, 0);
      var d :| 0 <= d < |crates[c].dependencies| && crates[c].dependencies[d] == p[1];
      assert !PointsUp(crates, LayerMap(crates), c, d);
      forall i | 0 <= i < |p|
        ensures p[i] in LayerMap(crates)
        ensures LayerOf(crates, p[|p| - 1]) <= LayerOf(crates, p[i]) <= LayerOf(crates, p[0])
      {
        assert p[1..|p|][|p| - 2] == p[|p| - 1];
        if i > 0 { assert p[i] == p[1..|p|][i - 1]; }
      }
    }
  }

  lemma UndetectedCycleIsFlat(crates: seq<CrateInfo>, p: seq<string>)
    requires DistinctNames(crates) && NothingPointsUp(crates)
    requires IsCycle(CrateMap(crates), p)
    ensures forall i :: 0 <= i < |p| ==> p[i] in LayerMap(crates)
    ensures forall i :: 0 <= i < |p| ==> LayerOf(crates, p[i]) == LayerOf(crates, p[0])
  {
    NoViolationsOnChain(crates, p);
  }

  /** The `i`-th step of `p` leads to a higher stored layer, which is what the check reports. */
  predicate StepRises(crates: seq<CrateInfo>, p: seq<string>, i: int)
    requires forall n :: n in p ==> n in LayerMap(crates)
  {
    0 <= i < |p| - 1 && LayerOf(crates, p[i + 1]) > LayerOf(crates, p[i])
  }

  lemma ChainHasLayers(crates: seq<CrateInfo>, p: seq<string>)
    requires DistinctNames(crates) && IsChain(CrateMap(crates), p)
    ensures forall n :: n in p ==> n in LayerMap(crates)
  {
    forall n | n in p ensures n in LayerMap(crates) {
      var i :| 0 <= i < |p| && p[i] == n;
      ChainMembers(CrateMap(crates), p, i);
      var k := EntryOf(crates, n);
    }
  }

  lemma {:induction false} NeverRising(crates: seq<CrateInfo>, p: seq<string>, i: int, j: int)
    requires (forall n :: n in p ==> n in LayerMap(crates)) && (forall k :: !StepRises(crates, p, k))
    requires 0 <= i <= j < |p|
    ensures LayerOf(crates, p[j]) <= LayerOf(crates, p[i])
    decreases j - i
  {
    if i < j {
      NeverRising(crates, p, i, j - 1);
      assert !StepRises(crates, p, j - 1);
    }
  }

  /** For every cycle: the check has nothing to report on its edges exactly if all its layers are equal. */
  lemma CycleUnreportedIffFlat(crates: seq<CrateInfo>, p: seq<string>)
    requires DistinctNames(crates) && IsCycle(CrateMap(crates), p)
    ensures forall n :: n in p ==> n in LayerMap(crates)
    ensures (forall i :: !StepRises(crates, p, i)) <==>
      forall i :: 0 <= i < |p| ==> LayerOf(crates, p[i]) == LayerOf(crates, p[0])
  {
    ChainHasLayers(crates, p);
    if forall i :: !StepRises(crates, p, i) {
      forall i | 0 <= i < |p| ensures LayerOf(crates, p[i]) == LayerOf(crates, p[0]) {
        NeverRising(crates, p, 0, i);
        NeverRising(crates, p, i, |p| - 1);
      }
    }
  }

  /** The dependencies that have the layer of the crate itself. */
  function Level(layers: map<string, Layer>, n: string, deps: seq<string>): (r: seq<string>)
    ensures forall d :: d in r <==> d in deps && d in layers && n in layers && layers[d] == layers[n]
  {
    if deps == [] then []
    else
      var last := deps[|deps| - 1];
      assert deps == deps[..|deps| - 1] + [last];
      Level(layers, n, deps[..|deps| - 1])
      + if last in layers && n in layers && layers[last] == layers[n] then [last] else []
  }

  /** The dependency graph restricted to dependencies within one layer. */
  function LevelGraph(crates: seq<CrateInfo>): Graph {
    var g := CrateMap(crates);
    map n | n in g :: Level(LayerMap(crates), n, g[n])
  }

  lemma LevelChainIsChain(crates: seq<CrateInfo>, p: seq<string>)
    requires IsChain(LevelGraph(crates), p)
    ensures IsChain(CrateMap(crates), p)
  {
    forall i ensures StepIsDep(CrateMap(crates), p, i) { assert StepIsDep(LevelGraph(crates), p, i); }
  }

  lemma FlatChainIsLevel(crates: seq<CrateInfo>, p: seq<string>)
    requires IsChain(CrateMap(crates), p) && forall i :: 0 <= i < |p| ==> p[i] in LayerMap(crates)
    requires forall i :: 0 <= i < |p| ==> LayerOf(crates, p[i]) == LayerOf(crates, p[0])
    ensures IsChain(LevelGraph(crates), p)
  {
    forall i ensures StepIsDep(LevelGraph(crates), p, i) { assert StepIsDep(CrateMap(crates), p, i); }
  }

  /** What the check is worth: with an empty list the workspace is acyclic exactly if each layer by itself is. */
  lemma EmptyListAcyclicIff(crates: seq<CrateInfo>)
    requires DistinctNames(crates) && NothingPointsUp(crates)
    ensures Acyclic(CrateMap(crates)) <==> Acyclic(LevelGraph(crates))
  {
    forall p | IsCycle(LevelGraph(crates), p) ensures IsCycle(CrateMap(crates), p) { LevelChainIsChain(crates, p); }
    forall p | IsCycle(CrateMap(crates), p) ensures IsCycle(LevelGraph(crates), p) {
      UndetectedCycleIsFlat(crates, p);
      FlatChainIsLevel(crates, p);
    }
  }

  /** A flat cycle that passes the check: the comparison is strict. */
  lemma FlatCyclePassesCheck()
    ensures var crates := [CrateInfo("a", ["b"], 0), CrateInfo("b", ["a"], 0)];
            NothingPointsUp(crates) && IsCycle(CrateMap(crates), ["a", "b", "a"])
  {
    var first := CrateInfo("a", ["b"], 0);
    var crates := [first, CrateInfo("b", ["a"], 0)];
    assert crates[..1] == [first];
    assert DistinctNames(crates);
    LookupByName(crates, 0);
    LookupByName(crates, 1);
  }
}
