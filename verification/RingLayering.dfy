/** The ring gate: the dependency matrix between rings, the allowlist, and what a passed gate says
    about whole dependency paths and cycles.  Everything is stated for an arbitrary assignment of
    rings to crates that the allowlist fits; the repository's own table is one. */
module RingLayering {
  import opened Basics
  import opened Text

  datatype Ring = Ring0 | Ring1 | Ring2 | Ring3 | Ring4 | Tooling

  /** Crates that have a ring. */
  type Rings = map<string, Ring>

  const CRATE_RINGS: Rings := map[
    "contextra-types" := Ring0, "contextra-ports" := Ring0, "contextra-mvcc" := Ring0, "contextra-vector" := Ring0,
    "contextra-rank" := Ring0, "contextra-adapt" := Ring0, "contextra-text" := Ring0, "contextra-graph" := Ring0,
    "contextra-crypto" := Ring0, "contextra-simd" := Ring0, "contextra-sys" := Ring0, "contextra-wire" := Ring0,
    "contextra-core" := Ring0,
    "contextra-store" := Ring1, "contextra-checkpoint" := Ring1, "contextra-kvcache" := Ring1,
    "contextra-sandbox" := Ring2, "contextra-infer-onnx" := Ring2, "contextra-infer-candle" := Ring2,
    "contextra-infer-ollama" := Ring2,
    "contextra-engine" := Ring3, "contextra-cognition" := Ring3, "contextra-privacy" := Ring3,
    "contextra-router" := Ring3, "contextra-agent" := Ring3, "contextra-db" := Ring3,
    "contextra" := Ring4, "contextra-mcp" := Ring4, "contextra-py" := Ring4, "contextra-audit-export" := Ring4,
    "contextra-avv-generator" := Ring4, "contextra-license" := Ring4,
    "contextra-testkit" := Tooling, "xtask" := Tooling, "contextra-bench" := Tooling]

  const GRAPH := "contextra-graph"
  const STORE := "contextra-store"
  const ENGINE := "contextra-engine"
  const ONNX := "contextra-infer-onnx"
  const CANDLE := "contextra-infer-candle"
  const OLLAMA := "contextra-infer-ollama"

  /** The documented exceptions. */
  predicate IsAllowlisted(from: string, to: string) {
    || (from == GRAPH && to == STORE)
    || (from == ONNX && to == CANDLE)
    || (from == CANDLE && to == STORE)
    || (from == OLLAMA && to == ONNX)
  }

  /** The crates the allowlist names are in the rings it expects. */
  predicate AllowlistFits(rings: Rings) {
    && GRAPH in rings && STORE in rings && ONNX in rings && CANDLE in rings && OLLAMA in rings
    && rings[GRAPH] == Ring0 && rings[STORE] == Ring1
    && rings[ONNX] == Ring2 && rings[CANDLE] == Ring2 && rings[OLLAMA] == Ring2
    && ONNX != OLLAMA && CANDLE != OLLAMA && CANDLE != ONNX
  }

  lemma CrateRingsFit()
    ensures AllowlistFits(CRATE_RINGS)
  {
    assert CANDLE[16] != ONNX[16] && OLLAMA[17] != ONNX[17] && CANDLE[16] != OLLAMA[16];
  }

  // ----- Cargo metadata -----

  datatype Dependency = Dependency(name: string, kind: Option<string>, hasPath: bool)

  /** The workspace packages by name, with their dependencies. */
  type Workspace = map<string, seq<Dependency>>

  function KindOf(d: Dependency): string { if d.kind.Some? then d.kind.value else "normal" }

  // ----- The matrix -----

  predicate AllowedForRing2(name: string) {
    name in ["contextra-types", "contextra-ports", "contextra-crypto",
             "contextra-core", "contextra-simd", "contextra-rank"]
  }

  /** A dependency of this kind between these rings breaks a rule. */
  predicate Breaks(from: Ring, to: Ring, isDev: bool, allowedForRing2: bool) {
    match from
    case Ring0 => to != Ring0 && !(to == Tooling && isDev)
    case Ring1 => to != Ring0 && !(to == Ring1 && isDev)
    case Ring2 => !(to == Ring0 && allowedForRing2)
    case Ring3 => to != Ring0 && to != Ring1 && to != Ring3
    case Ring4 => false
    case Tooling => false
  }

  predicate DependencyBreaks(rings: Rings, p: string, d: Dependency) {
    p in rings && d.name in rings && Breaks(rings[p], rings[d.name], KindOf(d) == "dev", AllowedForRing2(d.name))
  }

  datatype RingViolation = RingViolation(fromCrate: string, fromRing: Ring, toCrate: string, toRing: Ring,
                                         kind: string, allowlisted: bool)

  datatype Outcome = Ok(violations: seq<RingViolation>) | Unmapped(krate: string)

  function ViolationOf(rings: Rings, p: string, d: Dependency): RingViolation
    requires DependencyBreaks(rings, p, d)
  {
    RingViolation(p, rings[p], d.name, rings[d.name], KindOf(d), IsAllowlisted(p, d.name))
  }

  /** What the rules permit: a build dependency downwards, from Ring 2 only on the six named crates, and for
      development also Ring 0 on tools and Ring 1 on Ring 1. */
  predicate Permitted(rings: Rings, p: string, d: Dependency)
    requires p in rings && d.name in rings
  {
    var from, to, dev := rings[p], rings[d.name], d.kind == Some("dev");
    || (EdgeAllowed(from, to) && (from == Ring2 ==> AllowedForRing2(d.name)))
    || (dev && from == Ring0 && to == Tooling)
    || (dev && from == Ring1 && to == Ring1)
  }

  /** The matrix, both ways, for build dependencies. */
  lemma BuildMatrix(rings: Rings, p: string, d: Dependency)
    requires p in rings && d.name in rings && d.kind != Some("dev")
    ensures DependencyBreaks(rings, p, d) <==>
      !EdgeAllowed(rings[p], rings[d.name]) || (rings[p] == Ring2 && !AllowedForRing2(d.name))
  {
    NormalIsNotDev();
  }

  /** The matrix, both ways, for development dependencies: two more pairs of rings are permitted. */
  lemma DevMatrix(rings: Rings, p: string, d: Dependency)
    requires p in rings && d.name in rings && d.kind == Some("dev")
    ensures DependencyBreaks(rings, p, d) <==>
      && (!EdgeAllowed(rings[p], rings[d.name]) || (rings[p] == Ring2 && !AllowedForRing2(d.name)))
      && !(rings[p] == Ring0 && rings[d.name] == Tooling) && !(rings[p] == Ring1 && rings[d.name] == Ring1)
  {
  }

  lemma NormalIsNotDev()
    ensures "normal" != "dev"
  {
    assert |"normal"| != |"dev"|;
  }

  lemma Matrix(rings: Rings, p: string, d: Dependency)
    requires p in rings && d.name in rings
    ensures DependencyBreaks(rings, p, d) <==> !Permitted(rings, p, d)
  {
    if d.kind == Some("dev") { DevMatrix(rings, p, d); } else { BuildMatrix(rings, p, d); }
  }

  predicate AllMapped(rings: Rings, ws: Workspace) { forall p :: p in ws ==> p in rings }

  /** Dependency `i` of the workspace crate `p` breaks a rule. */
  predicate ViolationAt(rings: Rings, ws: Workspace, p: string, i: int) {
    p in ws && 0 <= i < |ws[p]| && DependencyBreaks(rings, p, ws[p][i])
  }

  /** `v` describes the violation at the given crate and dependency. */
  predicate Reports(rings: Rings, ws: Workspace, at: (string, int), v: RingViolation) {
    ViolationAt(rings, ws, at.0, at.1) && v == ViolationOf(rings, at.0, ws[at.0][at.1])
  }

  /** `vs` describes, entry by entry, the violations at `at`, all of crates in `done`. */
  predicate Describes(rings: Rings, ws: Workspace, done: set<string>, at: seq<(string, int)>, vs: seq<RingViolation>) {
    |at| == |vs| && forall k :: 0 <= k < |at| ==> at[k].0 in done && Reports(rings, ws, at[k], vs[k])
  }

  predicate NoRepeats(at: seq<(string, int)>) { forall k, l :: 0 <= k < l < |at| ==> at[k] != at[l] }

  /** Every violation of a crate in `done` is listed. */
  ghost predicate Complete(rings: Rings, ws: Workspace, done: set<string>, at: seq<(string, int)>) {
    forall p, i :: p in done && ViolationAt(rings, ws, p, i) ==> (p, i) in at
  }

  /** `at` and `vs` list the violations of the crates in `done`, each exactly once. */
  ghost predicate Lists(rings: Rings, ws: Workspace, done: set<string>,
                        at: seq<(string, int)>, vs: seq<RingViolation>) {
    Describes(rings, ws, done, at, vs) && NoRepeats(at) && Complete(rings, ws, done, at)
  }

  /** One dependency: skipped when it is external, otherwise judged by the matrix. */
  method CheckDependency(rings: Rings, ws: Workspace, p: string, d: Dependency) returns (v: Option<RingViolation>)
    requires p in rings
    ensures v.Some? <==> DependencyBreaks(rings, p, d)
    ensures v.Some? <==> d.name in rings && !Permitted(rings, p, d)
    ensures v.Some? ==> v.value == ViolationOf(rings, p, d)
    ensures v.Some? ==>
      v.value == RingViolation(p, rings[p], d.name, rings[d.name], if d.kind.Some? then d.kind.value else "normal",
                               IsAllowlisted(p, d.name))
  {
    if d.name in rings { Matrix(rings, p, d); }
    if d.name !in ws && !d.hasPath && d.name !in rings { return None; }
    if d.name !in rings { return None; }
    var from, to := rings[p], rings[d.name];
    if !Breaks(from, to, KindOf(d) == "dev", AllowedForRing2(d.name)) { return None; }
    v := Some(RingViolation(p, from, d.name, to, KindOf(d), IsAllowlisted(p, d.name)));
  }

  /** `at` lists, in order, the first `n` dependencies that break a rule. */
  ghost predicate ListsOne(rings: Rings, p: string, deps: seq<Dependency>, n: int,
                           at: seq<int>, vs: seq<RingViolation>) {
    && |at| == |vs|
    && (forall k :: 0 <= k < |at| ==> 0 <= at[k] < n <= |deps|)
    && (forall k :: 0 <= k < |at| ==>
          DependencyBreaks(rings, p, deps[at[k]]) && vs[k] == ViolationOf(rings, p, deps[at[k]]))
    && (forall k, l :: 0 <= k < l < |at| ==> at[k] < at[l])
    && (forall i :: 0 <= i < n <= |deps| && DependencyBreaks(rings, p, deps[i]) ==> i in at)
  }

  lemma ListsOneMore(rings: Rings, p: string, deps: seq<Dependency>, i: int, at: seq<int>, vs: seq<RingViolation>)
    requires 0 <= i < |deps| && ListsOne(rings, p, deps, i, at, vs)
    ensures DependencyBreaks(rings, p, deps[i]) ==>
              ListsOne(rings, p, deps, i + 1, at + [i], vs + [ViolationOf(rings, p, deps[i])])
    ensures !DependencyBreaks(rings, p, deps[i]) ==> ListsOne(rings, p, deps, i + 1, at, vs)
  {
    if DependencyBreaks(rings, p, deps[i]) {
      var at' := at + [i];
      assert at'[|at|] == i;
      forall j | 0 <= j < i && DependencyBreaks(rings, p, deps[j]) ensures j in at' {
        assert j in at;
      }
    }
  }

  /** The dependencies of one crate, in order. */
  method CheckCrate(rings: Rings, ws: Workspace, p: string)
    returns (vs: seq<RingViolation>, ghost at: seq<(string, int)>)
    requires p in ws && p in rings
    ensures Lists(rings, ws, {p}, at, vs)
  {
    var deps := ws[p];
    ghost var idx: seq<int> := [];
    vs := [];
    for i := 0 to |deps|
      invariant ListsOne(rings, p, deps, i, idx, vs)
    {
      var v := CheckDependency(rings, ws, p, deps[i]);
      ListsOneMore(rings, p, deps, i, idx, vs);
      if v.Some? {
        vs := vs + [v.value];
        idx := idx + [i];
      }
    }
    at := CrateIsListed(rings, ws, p, idx, vs);
  }

  lemma CrateIsListed(rings: Rings, ws: Workspace, p: string, idx: seq<int>, vs: seq<RingViolation>)
    returns (at: seq<(string, int)>)
    requires p in ws && ListsOne(rings, p, ws[p], |ws[p]|, idx, vs)
    ensures Lists(rings, ws, {p}, at, vs)
  {
    at := seq(|idx|, k requires 0 <= k < |idx| => (p, idx[k]));
    forall i | ViolationAt(rings, ws, p, i) ensures (p, i) in at {
      var k :| 0 <= k < |idx| && idx[k] == i;
      assert at[k] == (p, i);
    }
  }

  lemma DescribesUnion(rings: Rings, ws: Workspace, d1: set<string>, at1: seq<(string, int)>, vs1: seq<RingViolation>,
                       d2: set<string>, at2: seq<(string, int)>, vs2: seq<RingViolation>)
    requires Describes(rings, ws, d1, at1, vs1) && Describes(rings, ws, d2, at2, vs2)
    ensures Describes(rings, ws, d1 + d2, at1 + at2, vs1 + vs2)
  {
    var at, vs := at1 + at2, vs1 + vs2;
    forall k | 0 <= k < |at| ensures at[k].0 in d1 + d2 && Reports(rings, ws, at[k], vs[k]) {
      if k >= |at1| { assert at[k] == at2[k - |at1|] && vs[k] == vs2[k - |at1|]; }
    }
  }

  lemma NoRepeatsUnion(d1: set<string>, at1: seq<(string, int)>, d2: set<string>, at2: seq<(string, int)>)
    requires NoRepeats(at1) && NoRepeats(at2) && d1 !! d2
    requires (forall k :: 0 <= k < |at1| ==> at1[k].0 in d1) && (forall k :: 0 <= k < |at2| ==> at2[k].0 in d2)
    ensures NoRepeats(at1 + at2)
  {
  }

  lemma ListsUnion(rings: Rings, ws: Workspace, d1: set<string>, at1: seq<(string, int)>, vs1: seq<RingViolation>,
                   d2: set<string>, at2: seq<(string, int)>, vs2: seq<RingViolation>)
    requires Lists(rings, ws, d1, at1, vs1) && Lists(rings, ws, d2, at2, vs2) && d1 !! d2
    ensures Lists(rings, ws, d1 + d2, at1 + at2, vs1 + vs2)
  {
    DescribesUnion(rings, ws, d1, at1, vs1, d2, at2, vs2);
    NoRepeatsUnion(d1, at1, d2, at2);
  }

  /** The check visits the crates in whatever order the hash map yields them. */
  method CheckRingLayering(rings: Rings, ws: Workspace) returns (r: Outcome)
    ensures r.Ok? <==> AllMapped(rings, ws)
    ensures r.Unmapped? ==> r.krate in ws && r.krate !in rings
    ensures r.Ok? ==> exists at :: Lists(rings, ws, ws.Keys, at, r.violations)
    ensures r.Ok? ==> (r.violations == [] <==> OnlyPermitted(rings, ws))
  {
    var todo := ws.Keys;
    var vs: seq<RingViolation> := [];
    ghost var at: seq<(string, int)> := [];
    while todo != {}
      invariant todo <= ws.Keys && Lists(rings, ws, ws.Keys - todo, at, vs)
      invariant forall p :: p in ws.Keys - todo ==> p in rings
      decreases todo
    {
      var p :| p in todo;
      if p !in rings { return Unmapped(p); }
      ghost var at';
      var vs';
      vs', at' := CheckCrate(rings, ws, p);
      ListsUnion(rings, ws, ws.Keys - todo, at, vs, {p}, at', vs');
      assert ws.Keys - (todo - {p}) == ws.Keys - todo + {p};
      vs, at, todo := vs + vs', at + at', todo - {p};
    }
    assert ws.Keys - todo == ws.Keys;
    GateMeaning(rings, ws, at, vs);
    SpotlessIff(rings, ws);
    r := Ok(vs);
  }

  /** The verdict of the strict gate. */
  predicate StrictPasses(vs: seq<RingViolation>) {
    forall k :: 0 <= k < |vs| ==> vs[k].allowlisted
  }

  // ----- What a passed gate means -----

  /** Every rule-breaking dependency is on the allowlist. */
  ghost predicate Gated(rings: Rings, ws: Workspace) {
    AllMapped(rings, ws) && forall p, i :: ViolationAt(rings, ws, p, i) ==> IsAllowlisted(p, ws[p][i].name)
  }

  ghost predicate Spotless(rings: Rings, ws: Workspace) {
    AllMapped(rings, ws) && forall p, i :: !ViolationAt(rings, ws, p, i)
  }

  lemma GateMeaning(rings: Rings, ws: Workspace, at: seq<(string, int)>, vs: seq<RingViolation>)
    requires AllMapped(rings, ws) && Lists(rings, ws, ws.Keys, at, vs)
    ensures StrictPasses(vs) <==> Gated(rings, ws)
    ensures vs == [] <==> Spotless(rings, ws)
  {
    if StrictPasses(vs) {
      forall p, i | ViolationAt(rings, ws, p, i) ensures IsAllowlisted(p, ws[p][i].name) {
        assert (p, i) in at;
        var k :| 0 <= k < |at| && at[k] == (p, i);
        assert vs[k].allowlisted;
      }
    }
    if vs != [] { assert ViolationAt(rings, ws, at[0].0, at[0].1); }
  }

  /** Dependency `i` of `p` is on `q` and relevant to builds. */
  predicate DependsVia(ws: Workspace, p: string, i: int, q: string) {
    p in ws && 0 <= i < |ws[p]| && ws[p][i].name == q && KindOf(ws[p][i]) != "dev"
  }

  /** A build dependency between crates that have a ring. */
  ghost predicate Edge(rings: Rings, ws: Workspace, p: string, q: string) {
    p in rings && q in rings && exists i :: DependsVia(ws, p, i, q)
  }

  /** Step `i` of a path. */
  ghost predicate StepIsEdge(rings: Rings, ws: Workspace, path: seq<string>, i: int) {
    0 <= i < |path| - 1 ==> Edge(rings, ws, path[i], path[i + 1])
  }

  ghost predicate IsPath(rings: Rings, ws: Workspace, path: seq<string>) {
    |path| >= 2 && forall i :: StepIsEdge(rings, ws, path, i)
  }

  ghost predicate IsCycle(rings: Rings, ws: Workspace, path: seq<string>) {
    IsPath(rings, ws, path) && path[0] == path[|path| - 1]
  }

  lemma PathIsMapped(rings: Rings, ws: Workspace, path: seq<string>)
    requires IsPath(rings, ws, path)
    ensures forall i :: 0 <= i < |path| ==> path[i] in rings
  {
    forall i | 0 <= i < |path| ensures path[i] in rings {
      assert StepIsEdge(rings, ws, path, i) && StepIsEdge(rings, ws, path, i - 1);
    }
  }

  /** What an edge of a gated workspace can be: one the matrix allows, or one of the four exceptions. */
  predicate EdgeAllowed(from: Ring, to: Ring) {
    match from
    case Ring0 => to == Ring0
    case Ring1 => to == Ring0
    case Ring2 => to == Ring0
    case Ring3 => to == Ring0 || to == Ring1 || to == Ring3
    case Ring4 => true
    case Tooling => true
  }

  /** Every dependency between crates with rings is permitted. */
  ghost predicate OnlyPermitted(rings: Rings, ws: Workspace) {
    forall p, i :: p in ws && 0 <= i < |ws[p]| && p in rings && ws[p][i].name in rings ==> Permitted(rings, p, ws[p][i])
  }

  lemma SpotlessIff(rings: Rings, ws: Workspace)
    ensures Spotless(rings, ws) <==> AllMapped(rings, ws) && OnlyPermitted(rings, ws)
  {
    forall p, i | p in ws && 0 <= i < |ws[p]| && p in rings && ws[p][i].name in rings
      ensures Permitted(rings, p, ws[p][i]) <==> !ViolationAt(rings, ws, p, i)
    {
      Matrix(rings, p, ws[p][i]);
    }
  }

  /** The repository's own dependency of the engine on the store is permitted. */
  lemma EngineMayUseStore(d: Dependency)
    requires d.name == STORE
    ensures ENGINE in CRATE_RINGS && STORE in CRATE_RINGS && Permitted(CRATE_RINGS, ENGINE, d)
  {
    assert CRATE_RINGS[ENGINE] == Ring3 && CRATE_RINGS[STORE] == Ring1;
  }

  lemma EdgeOfGated(rings: Rings, ws: Workspace, p: string, q: string)
    requires Gated(rings, ws) && Edge(rings, ws, p, q)
    ensures EdgeAllowed(rings[p], rings[q]) || IsAllowlisted(p, q)
  {
    var i :| DependsVia(ws, p, i, q);
    assert ViolationAt(rings, ws, p, i) || !DependencyBreaks(rings, p, ws[p][i]);
  }

  predicate InnerRing(r: Ring) { r == Ring0 || r == Ring1 || r == Ring3 }

  lemma InnerStaysInner(rings: Rings, ws: Workspace, p: string, q: string)
    requires AllowlistFits(rings) && Gated(rings, ws) && Edge(rings, ws, p, q) && InnerRing(rings[p])
    ensures InnerRing(rings[q])
  {
    EdgeOfGated(rings, ws, p, q);
  }

  /** If the strict gate passes, no chain of build dependencies leads from Ring 0, 1 or 3 to an
      inference provider, an application or a tool, not even through allowlisted edges. */
  lemma {:induction false} InnerRingsAreClosed(rings: Rings, ws: Workspace, path: seq<string>, i: int)
    requires AllowlistFits(rings) && Gated(rings, ws) && IsPath(rings, ws, path) && 0 <= i < |path|
    requires path[0] in rings && InnerRing(rings[path[0]])
    ensures path[i] in rings && InnerRing(rings[path[i]])
    decreases i
  {
    if i > 0 {
      InnerRingsAreClosed(rings, ws, path, i - 1);
      assert StepIsEdge(rings, ws, path, i - 1);
      InnerStaysInner(rings, ws, path[i - 1], path[i]);
    }
  }

  // ----- Cycles -----

  /** A height no build dependency of a gated workspace climbs; inside Ring 2 it follows the
      allowlisted providers. */
  function Height(rings: Rings, name: string): int
    requires name in rings
  {
    match rings[name]
    case Ring0 => 0
    case Ring1 => 0
    case Ring2 => if name == OLLAMA then 3 else if name == ONNX then 2 else 1
    case Ring3 => 4
    case Ring4 => 5
    case Tooling => 5
  }

  lemma EdgeDescends(rings: Rings, ws: Workspace, p: string, q: string)
    requires AllowlistFits(rings) && Gated(rings, ws) && Edge(rings, ws, p, q)
    ensures Height(rings, q) <= Height(rings, p)
    ensures rings[p].Ring2? ==> Height(rings, q) < Height(rings, p)
    ensures rings[q].Ring1? && Height(rings, p) == 0 ==> p == GRAPH && q == STORE
  {
    EdgeOfGated(rings, ws, p, q);
  }

  predicate NeverRises(h: string -> int, path: seq<string>) {
    forall i :: 0 <= i < |path| - 1 ==> h(path[i]) >= h(path[i + 1])
  }

  lemma {:induction false} PathDescends(h: string -> int, path: seq<string>, i: int, j: int)
    requires NeverRises(h, path) && 0 <= i <= j < |path|
    ensures h(path[j]) <= h(path[i])
    decreases j - i
  {
    if i < j { PathDescends(h, path, i + 1, j); }
  }

  /** A height that never rises is the same all around a cycle. */
  lemma CycleIsLevel(h: string -> int, path: seq<string>, i: int)
    requires NeverRises(h, path) && 0 <= i < |path| && path[0] == path[|path| - 1]
    ensures h(path[i]) == h(path[0])
  {
    PathDescends(h, path, 0, i);
    PathDescends(h, path, i, |path| - 1);
  }

  function HeightOf(rings: Rings): string -> int { n => if n in rings then Height(rings, n) else 0 }

  lemma GatedCycleIsLevel(rings: Rings, ws: Workspace, path: seq<string>, i: int)
    requires AllowlistFits(rings) && Gated(rings, ws) && IsCycle(rings, ws, path) && 0 <= i < |path|
    ensures path[i] in rings && path[0] in rings && HeightOf(rings)(path[i]) == HeightOf(rings)(path[0])
    ensures !rings[path[i]].Ring2?
  {
    var h, j := HeightOf(rings), if i < |path| - 1 then i else 0;
    PathIsMapped(rings, ws, path);
    forall k | 0 <= k < |path| - 1 ensures h(path[k]) >= h(path[k + 1]) {
      assert StepIsEdge(rings, ws, path, k);
      EdgeDescends(rings, ws, path[k], path[k + 1]);
    }
    CycleIsLevel(h, path, i);
    CycleIsLevel(h, path, j);
    CycleIsLevel(h, path, j + 1);
    assert StepIsEdge(rings, ws, path, j);
    EdgeDescends(rings, ws, path[j], path[j + 1]);
  }

  /** The path takes the allowlisted edge from Ring 0 to Ring 1. */
  predicate UsesException(path: seq<string>) {
    exists i :: 0 <= i < |path| - 1 && path[i] == GRAPH && path[i + 1] == STORE
  }

  /** With only allowlisted exceptions, a build cycle stays within Rings 0 and 1, within Ring 3, or
      within Ring 4 and the tools; and it touches Ring 1 exactly if it takes the one allowlisted edge there. */
  lemma CyclesOfGated(rings: Rings, ws: Workspace, path: seq<string>)
    requires AllowlistFits(rings) && Gated(rings, ws) && IsCycle(rings, ws, path)
    ensures forall i :: 0 <= i < |path| ==> path[i] in rings
    ensures || (forall i :: 0 <= i < |path| ==> rings[path[i]] == Ring0 || rings[path[i]] == Ring1)
            || (forall i :: 0 <= i < |path| ==> rings[path[i]] == Ring3)
            || (forall i :: 0 <= i < |path| ==> rings[path[i]] == Ring4 || rings[path[i]] == Tooling)
    ensures (exists i :: 0 <= i < |path| && rings[path[i]] == Ring1) <==> UsesException(path)
    ensures forall i :: 0 < i < |path| && rings[path[i]] == Ring1 ==> path[i - 1] == GRAPH && path[i] == STORE
  {
    PathIsMapped(rings, ws, path);
    forall i | 0 <= i < |path|
      ensures HeightOf(rings)(path[i]) == HeightOf(rings)(path[0]) && !rings[path[i]].Ring2?
    {
      GatedCycleIsLevel(rings, ws, path, i);
    }
    forall i | 0 < i < |path| && rings[path[i]] == Ring1 ensures path[i - 1] == GRAPH && path[i] == STORE {
      assert StepIsEdge(rings, ws, path, i - 1);
      EdgeDescends(rings, ws, path[i - 1], path[i]);
    }
    forall i | 0 <= i < |path| && rings[path[i]] == Ring1 ensures UsesException(path) {
      var j := if i > 0 then i else |path| - 1;
      assert path[j - 1] == GRAPH && path[j - 1 + 1] == STORE;
    }
  }

  lemma SpotlessEdge(rings: Rings, ws: Workspace, p: string, q: string)
    requires Spotless(rings, ws) && Edge(rings, ws, p, q)
    ensures EdgeAllowed(rings[p], rings[q])
  {
    var i :| DependsVia(ws, p, i, q);
    assert !ViolationAt(rings, ws, p, i);
  }

  /** A height no edge climbs that the matrix allows, and that every edge from Ring 1 or 2 descends. */
  function RingHeight(r: Ring): int {
    match r
    case Ring0 => 0
    case Ring1 => 1
    case Ring2 => 1
    case Ring3 => 2
    case Ring4 => 3
    case Tooling => 3
  }

  function RingHeightOf(rings: Rings): string -> int { n => if n in rings then RingHeight(rings[n]) else 0 }

  /** Without any violation, a build cycle lies wholly in Ring 0, wholly in Ring 3, or within Ring 4
      and the tools, whatever ring the allowlisted crates are in. */
  lemma CyclesOfSpotless(rings: Rings, ws: Workspace, path: seq<string>)
    requires Spotless(rings, ws) && IsCycle(rings, ws, path)
    ensures forall i :: 0 <= i < |path| ==> path[i] in rings
    ensures || (forall i :: 0 <= i < |path| ==> rings[path[i]] == Ring0)
            || (forall i :: 0 <= i < |path| ==> rings[path[i]] == Ring3)
            || (forall i :: 0 <= i < |path| ==> rings[path[i]] == Ring4 || rings[path[i]] == Tooling)
  {
    var h := RingHeightOf(rings);
    PathIsMapped(rings, ws, path);
    forall k | 0 <= k < |path| - 1 ensures h(path[k]) >= h(path[k + 1]) {
      assert StepIsEdge(rings, ws, path, k);
      SpotlessEdge(rings, ws, path[k], path[k + 1]);
    }
    forall i | 0 <= i < |path| ensures h(path[i]) == h(path[0]) { CycleIsLevel(h, path, i); }
    assert StepIsEdge(rings, ws, path, 0);
    SpotlessEdge(rings, ws, path[0], path[1]);
  }

  /** Two crates that need each other. */
  function TwoCrates(): Workspace {
    map[GRAPH := [Dependency(STORE, None, true)], STORE := [Dependency(GRAPH, None, true)]]
  }

  /** The exception is real: with the repository's own table, a cycle between Ring 0 and Ring 1 passes
      the strict gate. */
  lemma AllowlistedCyclePasses()
    ensures var ws := TwoCrates();
            Gated(CRATE_RINGS, ws) && !Spotless(CRATE_RINGS, ws) && IsCycle(CRATE_RINGS, ws, [GRAPH, STORE, GRAPH])
  {
    CrateRingsFit();
    CycleExample(CRATE_RINGS);
  }

  lemma CycleExample(rings: Rings)
    requires AllowlistFits(rings)
    ensures var ws := TwoCrates();
            Gated(rings, ws) && !Spotless(rings, ws) && IsCycle(rings, ws, [GRAPH, STORE, GRAPH])
  {
    var ws := TwoCrates();
    assert DependsVia(ws, GRAPH, 0, STORE) && DependsVia(ws, STORE, 0, GRAPH);
    assert ViolationAt(rings, ws, GRAPH, 0);
  }
}
