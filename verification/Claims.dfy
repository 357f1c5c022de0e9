/** The claim database: time-limited reservations of crates with a global limit, and the local half
    of the preflight check.  Each load-check-save is one atomic step; the clock is read several times
    inside a step and never goes back. */
module Claims {
  import opened Basics

  type Time = int

  /** Four hours, in nanoseconds. */
  const TTL: int := 4 * 60 * 60 * 1_000_000_000

  /** An expiry time that does not parse is treated like a missing one: the claim never expires. */
  datatype Expiry = Never | Unreadable | Until(time: Time)

  datatype Release = Held | Released(at: Time) | TtlExpired(at: Time)

  datatype ClaimEntry = ClaimEntry(krate: string, issue: string, timestamp: Time, session: string,
                                   active: bool, expiresAt: Expiry, releasedAt: Release)

  predicate Stale(c: ClaimEntry, now: Time) {
    c.expiresAt.Until? && now > c.expiresAt.time
  }

  predicate Live(c: ClaimEntry, now: Time) {
    c.active && !Stale(c, now)
  }

  // ----- Queries -----

  function FindActive(claims: seq<ClaimEntry>, krate: string, now: Time): (r: Option<ClaimEntry>) {
    if claims == [] then None
    else if claims[0].krate == krate && Live(claims[0], now) then Some(claims[0])
    else FindActive(claims[1..], krate, now)
  }

  /** The query answers with the first live claim on the crate, and with none only if there is none. */
  lemma {:induction false} FindIsFirst(claims: seq<ClaimEntry>, krate: string, now: Time) returns (k: int)
    ensures 0 <= k <= |claims|
    ensures forall i :: 0 <= i < k ==> !(claims[i].krate == krate && Live(claims[i], now))
    ensures k < |claims| ==> claims[k].krate == krate && Live(claims[k], now)
    ensures FindActive(claims, krate, now) == if k < |claims| then Some(claims[k]) else None
  {
    k := 0;
    if claims != [] && !(claims[0].krate == krate && Live(claims[0], now)) {
      var j := FindIsFirst(claims[1..], krate, now);
      k := j + 1;
    }
  }

  function CountActive(claims: seq<ClaimEntry>, now: Time): nat {
    if claims == [] then 0 else (if Live(claims[0], now) then 1 else 0) + CountActive(claims[1..], now)
  }

  // ----- Updates, entry by entry -----

  function ExpireEntry(c: ClaimEntry, now: Time): ClaimEntry {
    if c.active && Stale(c, now) then c.(active := false, releasedAt := TtlExpired(now)) else c
  }

  function ReleaseEntry(c: ClaimEntry, krate: string, now: Time): ClaimEntry {
    if c.krate == krate && c.active then c.(active := false, releasedAt := Released(now)) else c
  }

  function Expire(claims: seq<ClaimEntry>, now: Time): (r: seq<ClaimEntry>)
    ensures |r| == |claims| && forall i :: 0 <= i < |r| ==> r[i] == ExpireEntry(claims[i], now)
  {
    if claims == [] then [] else [ExpireEntry(claims[0], now)] + Expire(claims[1..], now)
  }

  function ReleaseCrate(claims: seq<ClaimEntry>, krate: string, now: Time): (r: seq<ClaimEntry>)
    ensures |r| == |claims| && forall i :: 0 <= i < |r| ==> r[i] == ReleaseEntry(claims[i], krate, now)
  {
    if claims == [] then [] else [ReleaseEntry(claims[0], krate, now)] + ReleaseCrate(claims[1..], krate, now)
  }

  // ----- Steps -----

  /** One command, with the clock readings it takes in the order it takes them. */
  datatype Step =
    | ClaimCrate(krate: string, issue: string, session: string, dryRun: bool,
                 find: Time, count: Time, expiry: Time, stamp: Time)
    | ReleaseClaim(krate: string, at: Time)
    | ExpireStale(at: Time)
    | Preflight(krate: string, expire: Time, count: Time, find: Time)

  datatype Verdict = Accepted | Refused | LimitExceeded | CrateClaimed

  function Start(s: Step): Time {
    match s
    case ClaimCrate(_, _, _, _, find, _, _, _) => find
    case ReleaseClaim(_, at) => at
    case ExpireStale(at) => at
    case Preflight(_, expire, _, _) => expire
  }

  function End(s: Step): Time {
    match s
    case ClaimCrate(_, _, _, _, _, _, _, stamp) => stamp
    case ReleaseClaim(_, at) => at
    case ExpireStale(at) => at
    case Preflight(_, _, _, find) => find
  }

  /** The clock does not go back inside a step. */
  predicate Timed(s: Step) {
    match s
    case ClaimCrate(_, _, _, _, find, count, expiry, stamp) => find <= count <= expiry <= stamp
    case Preflight(_, expire, count, find) => expire <= count <= find
    case _ => true
  }

  function IssueOf(issue: string): string { if issue == "" then "UNSPECIFIED" else issue }

  function NewClaim(s: Step): ClaimEntry
    requires s.ClaimCrate?
  {
    ClaimEntry(s.krate, IssueOf(s.issue), s.stamp, s.session, true, Until(s.expiry + TTL), Held)
  }

  predicate SameHolder(c: ClaimEntry, s: Step)
    requires s.ClaimCrate?
  {
    c.issue == IssueOf(s.issue) && c.session == s.session
  }

  /** What the command answers. */
  function VerdictOf(claims: seq<ClaimEntry>, s: Step, limit: nat): Verdict {
    match s
    case ClaimCrate(krate, issue, session, dryRun, find, count, _, _) =>
      if krate == "" then Refused
      else
        var existing := FindActive(claims, krate, find);
        if existing.Some? && SameHolder(existing.value, s) then Accepted
        else if dryRun then Accepted
        else if existing.Some? || CountActive(claims, count) >= limit then Refused
        else Accepted
    case ReleaseClaim(krate, _) => if krate == "" then Refused else Accepted
    case ExpireStale(_) => Accepted
    case Preflight(krate, expire, count, find) =>
      var kept := Expire(claims, expire);
      if CountActive(kept, count) > limit then LimitExceeded
      else if FindActive(kept, krate, find).Some? then CrateClaimed
      else Accepted
  }

  /** What the command leaves behind in the database. */
  function Apply(claims: seq<ClaimEntry>, s: Step, limit: nat): (r: seq<ClaimEntry>) {
    match s
    case ClaimCrate(krate, _, _, dryRun, find, _, _, _) =>
      if VerdictOf(claims, s, limit).Accepted? && !dryRun && FindActive(claims, krate, find).None?
      then claims + [NewClaim(s)] else claims
    case ReleaseClaim(krate, at) => if krate == "" then claims else ReleaseCrate(claims, krate, at)
    case ExpireStale(at) => Expire(claims, at)
    case Preflight(_, expire, _, _) => Expire(claims, expire)
  }

  // ----- Runs -----

  function RunAll(claims: seq<ClaimEntry>, steps: seq<Step>, limit: nat): (r: seq<ClaimEntry>)
    decreases |steps|
  {
    if steps == [] then claims else RunAll(Apply(claims, steps[0], limit), steps[1..], limit)
  }

  /** The clock does not go back between steps either. */
  predicate TimedFrom(steps: seq<Step>, t: Time)
    decreases |steps|
  {
    steps == [] || (t <= Start(steps[0]) && Timed(steps[0]) && TimedFrom(steps[1..], End(steps[0])))
  }

  function EndTime(steps: seq<Step>, t: Time): Time
    decreases |steps|
  {
    if steps == [] then t else EndTime(steps[1..], End(steps[0]))
  }

  /** No crate has two live claims and the live claims are within the limit. */
  ghost predicate Exclusive(claims: seq<ClaimEntry>, t: Time) {
    forall i, j :: 0 <= i < j < |claims| && Live(claims[i], t) && Live(claims[j], t) ==>
      claims[i].krate != claims[j].krate
  }

  ghost predicate Safe(claims: seq<ClaimEntry>, limit: nat, t: Time) {
    Exclusive(claims, t) && CountActive(claims, t) <= limit
  }

  // ----- The live view: all that any command can observe -----

  /** The live entries, in order. */
  function LiveView(claims: seq<ClaimEntry>, t: Time): (r: seq<ClaimEntry>) {
    if claims == [] then []
    else if Live(claims[0], t) then [claims[0]] + LiveView(claims[1..], t)
    else LiveView(claims[1..], t)
  }

  function Others(claims: seq<ClaimEntry>, krate: string): (r: seq<ClaimEntry>) {
    if claims == [] then []
    else if claims[0].krate != krate then [claims[0]] + Others(claims[1..], krate)
    else Others(claims[1..], krate)
  }

  lemma {:induction false} CountIsViewSize(claims: seq<ClaimEntry>, t: Time)
    ensures CountActive(claims, t) == |LiveView(claims, t)|
  {
    if claims != [] { CountIsViewSize(claims[1..], t); }
  }

  lemma {:induction false} ViewLater(claims: seq<ClaimEntry>, t: Time, t': Time)
    requires t <= t'
    ensures LiveView(LiveView(claims, t), t') == LiveView(claims, t')
  {
    if claims != [] {
      ViewLater(claims[1..], t, t');
      var rest := LiveView(claims[1..], t);
      if Live(claims[0], t) { assert ([claims[0]] + rest)[1..] == rest; }
    }
  }

  lemma {:induction false} FindInView(claims: seq<ClaimEntry>, krate: string, t: Time)
    ensures FindActive(LiveView(claims, t), krate, t) == FindActive(claims, krate, t)
  {
    if claims != [] {
      FindInView(claims[1..], krate, t);
      var rest := LiveView(claims[1..], t);
      if Live(claims[0], t) { assert ([claims[0]] + rest)[1..] == rest; }
    }
  }

  lemma {:induction false} ViewAppend(claims: seq<ClaimEntry>, c: ClaimEntry, t: Time)
    ensures LiveView(claims + [c], t) == LiveView(claims, t) + (if Live(c, t) then [c] else [])
  {
    if claims == [] {
      assert [c][1..] == [] && claims + [c] == [c];
    } else {
      ViewAppend(claims[1..], c, t);
      assert (claims + [c])[1..] == claims[1..] + [c];
    }
  }

  /** Expiring is invisible from then on. */
  lemma {:induction false} ViewExpire(claims: seq<ClaimEntry>, now: Time, t: Time)
    requires now <= t
    ensures LiveView(Expire(claims, now), t) == LiveView(claims, t)
  {
    if claims != [] {
      ViewExpire(claims[1..], now, t);
      assert Expire(claims, now)[1..] == Expire(claims[1..], now);
    }
  }

  lemma {:induction false} ViewRelease(claims: seq<ClaimEntry>, krate: string, now: Time, t: Time)
    ensures LiveView(ReleaseCrate(claims, krate, now), t) == Others(LiveView(claims, t), krate)
  {
    if claims != [] {
      ViewRelease(claims[1..], krate, now, t);
      assert ReleaseCrate(claims, krate, now)[1..] == ReleaseCrate(claims[1..], krate, now);
      var rest := LiveView(claims[1..], t);
      if Live(claims[0], t) { assert ([claims[0]] + rest)[1..] == rest; }
    }
  }

  /** For every crate and every later clock reading, find and count do not notice an expiry. */
  lemma ExpireUnobservable(claims: seq<ClaimEntry>, now: Time, t: Time, krate: string)
    requires now <= t
    ensures FindActive(Expire(claims, now), krate, t) == FindActive(claims, krate, t)
    ensures CountActive(Expire(claims, now), t) == CountActive(claims, t)
  {
    ViewExpire(claims, now, t);
    FindInView(claims, krate, t);
    FindInView(Expire(claims, now), krate, t);
    CountIsViewSize(claims, t);
    CountIsViewSize(Expire(claims, now), t);
  }

  /** Two databases no command can tell apart from `t` on. */
  ghost predicate SameView(a: seq<ClaimEntry>, b: seq<ClaimEntry>, t: Time) {
    LiveView(a, t) == LiveView(b, t)
  }

  lemma SameViewLater(a: seq<ClaimEntry>, b: seq<ClaimEntry>, t: Time, t': Time)
    requires SameView(a, b, t) && t <= t'
    ensures SameView(a, b, t') && CountActive(a, t') == CountActive(b, t')
    ensures forall krate :: FindActive(a, krate, t') == FindActive(b, krate, t')
  {
    ViewLater(a, t, t');
    ViewLater(b, t, t');
    CountIsViewSize(a, t');
    CountIsViewSize(b, t');
    forall krate ensures FindActive(a, krate, t') == FindActive(b, krate, t') {
      FindInView(a, krate, t');
      FindInView(b, krate, t');
    }
  }

  /** A command answers the same on databases with the same view, and keeps them indistinguishable. */
  ghost predicate Indistinguishable(a: seq<ClaimEntry>, b: seq<ClaimEntry>, s: Step, limit: nat) {
    && VerdictOf(a, s, limit) == VerdictOf(b, s, limit)
    && SameView(Apply(a, s, limit), Apply(b, s, limit), End(s))
  }

  lemma {:induction false} ClaimRespectsView(a: seq<ClaimEntry>, b: seq<ClaimEntry>, s: Step, limit: nat, t: Time)
    requires s.ClaimCrate? && SameView(a, b, t) && t <= Start(s) && Timed(s)
    ensures Indistinguishable(a, b, s, limit)
  {
    SameViewLater(a, b, t, s.find);
    SameViewLater(a, b, t, s.count);
    SameViewLater(a, b, t, s.stamp);
    ViewAppend(a, NewClaim(s), s.stamp);
    ViewAppend(b, NewClaim(s), s.stamp);
  }

  lemma {:induction false} PreflightRespectsView(a: seq<ClaimEntry>, b: seq<ClaimEntry>, s: Step, limit: nat, t: Time)
    requires s.Preflight? && SameView(a, b, t) && t <= Start(s) && Timed(s)
    ensures Indistinguishable(a, b, s, limit)
  {
    SameViewLater(a, b, t, s.count);
    SameViewLater(a, b, t, s.find);
    ExpireUnobservable(a, s.expire, s.count, s.krate);
    ExpireUnobservable(b, s.expire, s.count, s.krate);
    ExpireUnobservable(a, s.expire, s.find, s.krate);
    ExpireUnobservable(b, s.expire, s.find, s.krate);
    ViewExpire(a, s.expire, s.find);
    ViewExpire(b, s.expire, s.find);
  }

  lemma {:induction false} StepRespectsView(a: seq<ClaimEntry>, b: seq<ClaimEntry>, s: Step, limit: nat, t: Time)
    requires SameView(a, b, t) && t <= Start(s) && Timed(s)
    ensures Indistinguishable(a, b, s, limit)
  {
    if s.ClaimCrate? {
      ClaimRespectsView(a, b, s, limit, t);
    } else if s.Preflight? {
      PreflightRespectsView(a, b, s, limit, t);
    } else {
      SameViewLater(a, b, t, s.at);
      if s.ReleaseClaim? {
        ViewRelease(a, s.krate, s.at, s.at);
        ViewRelease(b, s.krate, s.at, s.at);
      } else {
        ViewExpire(a, s.at, s.at);
        ViewExpire(b, s.at, s.at);
      }
    }
  }

  /** The answers of all commands except the housekeeping ones. */
  function Answers(claims: seq<ClaimEntry>, steps: seq<Step>, limit: nat): (r: seq<Verdict>)
    decreases |steps|
  {
    if steps == [] then []
    else
      (if steps[0].ExpireStale? then [] else [VerdictOf(claims, steps[0], limit)]) +
      Answers(Apply(claims, steps[0], limit), steps[1..], limit)
  }

  function WithoutExpiry(steps: seq<Step>): (r: seq<Step>)
    decreases |steps|
  {
    if steps == [] then []
    else (if steps[0].ExpireStale? then [] else [steps[0]]) + WithoutExpiry(steps[1..])
  }

  /** Expiry steps can be dropped from any run: every other command gives the same answer. */
  lemma {:induction false} ExpiryCanBeSkipped(a: seq<ClaimEntry>, b: seq<ClaimEntry>, steps: seq<Step>,
                                              limit: nat, t: Time)
    requires SameView(a, b, t) && TimedFrom(steps, t)
    ensures Answers(a, steps, limit) == Answers(b, WithoutExpiry(steps), limit)
    ensures SameView(RunAll(a, steps, limit), RunAll(b, WithoutExpiry(steps), limit), EndTime(steps, t))
    decreases |steps|
  {
    if steps != [] {
      var s, rest := steps[0], steps[1..];
      var a' := Apply(a, s, limit);
      if s.ExpireStale? {
        SameViewLater(a, b, t, End(s));
        ViewExpire(a, s.at, End(s));
        ExpiryCanBeSkipped(a', b, rest, limit, End(s));
        assert WithoutExpiry(steps) == WithoutExpiry(rest);
      } else {
        StepRespectsView(a, b, s, limit, t);
        ExpiryCanBeSkipped(a', Apply(b, s, limit), rest, limit, End(s));
        var kept := WithoutExpiry(rest);
        assert WithoutExpiry(steps) == [s] + kept && ([s] + kept)[1..] == kept;
      }
    }
  }

  // ----- Safety of every run -----

  lemma {:induction false} CountDecays(claims: seq<ClaimEntry>, t: Time, t': Time)
    requires t <= t'
    ensures CountActive(claims, t') <= CountActive(claims, t)
  {
    if claims != [] { CountDecays(claims[1..], t, t'); }
  }

  /** Entries whose liveness can only shrink leave a safe database safe. */
  lemma {:induction false} CountPointwise(a: seq<ClaimEntry>, b: seq<ClaimEntry>, t: Time, t': Time)
    requires |a| == |b| && forall i :: 0 <= i < |a| ==> (Live(b[i], t') ==> Live(a[i], t))
    ensures CountActive(b, t') <= CountActive(a, t)
  {
    if a != [] { CountPointwise(a[1..], b[1..], t, t'); }
  }

  lemma {:induction false} CountAppend(claims: seq<ClaimEntry>, c: ClaimEntry, t: Time)
    ensures CountActive(claims + [c], t) <= CountActive(claims, t) + 1
  {
    if claims == [] {
      assert claims + [c] == [c] && [c][1..] == [];
    } else {
      CountAppend(claims[1..], c, t);
      assert (claims + [c])[1..] == claims[1..] + [c];
    }
  }

  lemma ShrinkStaysSafe(a: seq<ClaimEntry>, b: seq<ClaimEntry>, limit: nat, t: Time, t': Time)
    requires Safe(a, limit, t) && |a| == |b|
    requires forall i :: 0 <= i < |a| ==> b[i].krate == a[i].krate && (Live(b[i], t') ==> Live(a[i], t))
    ensures Safe(b, limit, t')
  {
    CountPointwise(a, b, t, t');
  }

  lemma StepStaysSafe(claims: seq<ClaimEntry>, s: Step, limit: nat, t: Time)
    requires Safe(claims, limit, t) && t <= Start(s) && Timed(s)
    ensures Safe(Apply(claims, s, limit), limit, End(s))
  {
    var after := Apply(claims, s, limit);
    if s.ClaimCrate? && |after| > |claims| {
      CountAppend(claims, NewClaim(s), End(s));
      CountDecays(claims, s.count, End(s));
      var k := FindIsFirst(claims, s.krate, s.find);
      assert forall i :: 0 <= i < |claims| ==> after[i] == claims[i];
    } else {
      ShrinkStaysSafe(claims, after, limit, t, End(s));
    }
  }

  /** Over every run with a fixed limit: never two live claims on a crate, never more live claims
      than the limit, and no preflight ever reports the limit exceeded. */
  lemma {:induction false} EveryRunIsSafe(claims: seq<ClaimEntry>, steps: seq<Step>, limit: nat, t: Time)
    requires Safe(claims, limit, t) && TimedFrom(steps, t)
    ensures Safe(RunAll(claims, steps, limit), limit, EndTime(steps, t))
    ensures LimitExceeded !in Answers(claims, steps, limit)
    decreases |steps|
  {
    if steps != [] {
      var s := steps[0];
      StepStaysSafe(claims, s, limit, t);
      EveryRunIsSafe(Apply(claims, s, limit), steps[1..], limit, End(s));
      if s.Preflight? {
        ExpireUnobservable(claims, s.expire, s.count, s.krate);
        CountDecays(claims, t, s.count);
      }
    }
  }

  // ----- The lease -----

  /** The run never releases `krate` and stays within the lease of `e`. */
  predicate WithinLease(steps: seq<Step>, e: ClaimEntry)
    requires e.expiresAt.Until?
  {
    forall i :: 0 <= i < |steps| ==>
      End(steps[i]) <= e.expiresAt.time && !(steps[i].ReleaseClaim? && steps[i].krate == e.krate)
  }

  /** A claim by somebody else: another issue or another session, and not a dry run. */
  predicate IsRival(s: Step, e: ClaimEntry) {
    s.ClaimCrate? && s.krate == e.krate && !s.dryRun && !SameHolder(e, s)
  }

  lemma {:induction false} StartBeforeEnd(s: Step)
    requires Timed(s)
    ensures Start(s) <= End(s)
  {
  }

  lemma LeaseStep(claims: seq<ClaimEntry>, s: Step, limit: nat, t: Time, e: ClaimEntry)
    requires Safe(claims, limit, t) && t <= Start(s) && Timed(s)
    requires e in claims && e.active && e.expiresAt.Until? && WithinLease([s], e)
    ensures e in Apply(claims, s, limit)
    ensures IsRival(s, e) ==> VerdictOf(claims, s, limit) == Refused
  {
    assert [s][0] == s;
    StartBeforeEnd(s);
    var k :| 0 <= k < |claims| && claims[k] == e;
    var after := Apply(claims, s, limit);
    assert after[k] == e;
    if IsRival(s, e) && s.krate != "" {
      assert Live(e, s.find);
      var i := FindIsFirst(claims, s.krate, s.find);
      assert Live(claims[i], t) && Live(claims[k], t);
      assert i == k;
    }
  }

  ghost predicate RefusedAt(claims: seq<ClaimEntry>, steps: seq<Step>, limit: nat, i: int) {
    0 <= i < |steps| && VerdictOf(RunAll(claims, steps[..i], limit), steps[i], limit) == Refused
  }

  lemma RefusedLater(claims: seq<ClaimEntry>, steps: seq<Step>, limit: nat, i: int)
    requires steps != [] && i > 0 && RefusedAt(Apply(claims, steps[0], limit), steps[1..], limit, i - 1)
    ensures RefusedAt(claims, steps, limit, i)
  {
    assert steps[..i][1..] == steps[1..][..i - 1] && steps[..i][0] == steps[0] && steps[1..][i - 1] == steps[i];
  }

  lemma WithinLeaseParts(steps: seq<Step>, e: ClaimEntry)
    requires steps != [] && e.expiresAt.Until? && WithinLease(steps, e)
    ensures WithinLease([steps[0]], e) && WithinLease(steps[1..], e)
  {
  }

  /** Once granted, a claim holds its crate for the whole lease: until it is released or expires,
      every rival claim in every run is refused. */
  lemma {:induction false} LeaseExcludesRivals(claims: seq<ClaimEntry>, steps: seq<Step>, limit: nat, t: Time,
                                               e: ClaimEntry, i: int)
    requires Safe(claims, limit, t) && TimedFrom(steps, t)
    requires e in claims && e.active && e.expiresAt.Until? && WithinLease(steps, e)
    requires 0 <= i < |steps| && IsRival(steps[i], e)
    ensures RefusedAt(claims, steps, limit, i)
    decreases |steps|
  {
    var s := steps[0];
    WithinLeaseParts(steps, e);
    LeaseStep(claims, s, limit, t, e);
    if i == 0 {
      assert steps[..0] == [];
    } else {
      StepStaysSafe(claims, s, limit, t);
      LeaseExcludesRivals(Apply(claims, s, limit), steps[1..], limit, End(s), e, i - 1);
      RefusedLater(claims, steps, limit, i);
    }
  }

  /** A granted claim starts such a lease of exactly four hours. */
  lemma GrantStartsLease(claims: seq<ClaimEntry>, s: Step, limit: nat)
    requires s.ClaimCrate? && !s.dryRun && Timed(s)
    requires VerdictOf(claims, s, limit).Accepted? && FindActive(claims, s.krate, s.find).None?
    ensures NewClaim(s) in Apply(claims, s, limit) && NewClaim(s).active
    ensures NewClaim(s).expiresAt == Until(s.expiry + TTL)
    ensures TTL == 4 * 3600 * 1_000_000_000
    ensures forall t :: End(s) <= t ==>
              FindActive(Apply(claims, s, limit), s.krate, t) ==
              if t <= s.expiry + TTL then Some(NewClaim(s)) else None
  {
    var e, after := NewClaim(s), Apply(claims, s, limit);
    assert after == claims + [e] && after[|claims|] == e;
    forall t | End(s) <= t
      ensures FindActive(after, s.krate, t) == if t <= s.expiry + TTL then Some(e) else None
    {
      var i := FindIsFirst(claims, s.krate, s.find);
      var k := FindIsFirst(after, s.krate, t);
      assert forall j :: 0 <= j < |claims| ==> after[j] == claims[j];
      assert Live(e, t) <==> t <= s.expiry + TTL;
    }
  }

  // ----- The audit trail -----

  /** `b` continues `a`: nothing is removed or rewritten, and no closed claim is reopened. */
  ghost predicate Continues(a: seq<ClaimEntry>, b: seq<ClaimEntry>) {
    && |a| <= |b|
    && forall i :: 0 <= i < |a| ==>
         && (!a[i].active ==> b[i] == a[i])
         && b[i] == a[i].(active := b[i].active, releasedAt := b[i].releasedAt)
         && (b[i].active ==> b[i] == a[i])
  }

  lemma {:induction false} EveryRunContinues(claims: seq<ClaimEntry>, steps: seq<Step>, limit: nat)
    ensures Continues(claims, RunAll(claims, steps, limit))
    decreases |steps|
  {
    if steps != [] {
      var mid := Apply(claims, steps[0], limit);
      assert Continues(claims, mid);
      EveryRunContinues(mid, steps[1..], limit);
    }
  }

  /** Releasing touches the named crate only. */
  lemma ReleaseIsLocal(claims: seq<ClaimEntry>, krate: string, now: Time, other: string, t: Time)
    ensures FindActive(ReleaseCrate(claims, krate, now), krate, t).None?
    ensures other != krate ==> FindActive(ReleaseCrate(claims, krate, now), other, t) == FindActive(claims, other, t)
  {
    FindSkipsReleased(claims, krate, now, other, t);
    var k := FindIsFirst(ReleaseCrate(claims, krate, now), krate, t);
  }

  lemma {:induction false} FindSkipsReleased(claims: seq<ClaimEntry>, krate: string, now: Time, other: string, t: Time)
    ensures other != krate ==> FindActive(ReleaseCrate(claims, krate, now), other, t) == FindActive(claims, other, t)
  {
    if claims != [] {
      FindSkipsReleased(claims[1..], krate, now, other, t);
      assert ReleaseCrate(claims, krate, now)[1..] == ReleaseCrate(claims[1..], krate, now);
    }
  }

  // ----- The database as mutable state -----

  // ----- The verdicts, over the entries alone -----

  /** The claim holds its crate at time `t`: neither released nor past its expiry. */
  predicate Holds(c: ClaimEntry, t: Time) {
    c.active && match c.expiresAt case Until(end) => t <= end case _ => true
  }

  /** Entry `k` is the first that holds the crate. */
  ghost predicate FirstLive(claims: seq<ClaimEntry>, krate: string, t: Time, k: int) {
    && 0 <= k < |claims| && claims[k].krate == krate && Holds(claims[k], t)
    && forall i :: 0 <= i < k ==> !(claims[i].krate == krate && Holds(claims[i], t))
  }

  /** No entry holds the crate. */
  predicate FreeCrate(claims: seq<ClaimEntry>, krate: string, t: Time) {
    forall i :: 0 <= i < |claims| ==> !(claims[i].krate == krate && Holds(claims[i], t))
  }

  lemma FindMeaning(claims: seq<ClaimEntry>, krate: string, t: Time)
    ensures FindActive(claims, krate, t).None? <==> FreeCrate(claims, krate, t)
    ensures forall k :: FirstLive(claims, krate, t, k) ==> FindActive(claims, krate, t) == Some(claims[k])
    ensures FindActive(claims, krate, t).Some? ==> exists k :: FirstLive(claims, krate, t, k)
  {
    var k := FindIsFirst(claims, krate, t);
    assert k < |claims| ==> FirstLive(claims, krate, t, k);
  }

  /** A claim is accepted exactly if it names a crate and is a dry run, repeats the claim that holds the crate,
      or finds the crate free and the limit not reached. */
  lemma ClaimVerdict(claims: seq<ClaimEntry>, s: Step, limit: nat)
    requires s.ClaimCrate?
    ensures VerdictOf(claims, s, limit) == Accepted <==>
      && s.krate != ""
      && (|| s.dryRun
          || (exists k :: FirstLive(claims, s.krate, s.find, k) && SameHolder(claims[k], s))
          || (FreeCrate(claims, s.krate, s.find) && |LiveView(claims, s.count)| < limit))
    ensures FindActive(claims, s.krate, s.find).None? <==> FreeCrate(claims, s.krate, s.find)
  {
    FindMeaning(claims, s.krate, s.find);
    CountIsViewSize(claims, s.count);
  }

  function Later(a: Time, b: Time): Time { if a < b then b else a }

  /** After an expiry at `now`, a reading at `t` sees the claims as of the later of the two clock readings. */
  lemma {:induction false} ViewAfterExpiry(claims: seq<ClaimEntry>, now: Time, t: Time)
    ensures LiveView(Expire(claims, now), t) == LiveView(claims, Later(now, t))
  {
    if claims != [] {
      ViewAfterExpiry(claims[1..], now, t);
      assert Expire(claims, now)[1..] == Expire(claims[1..], now);
    }
  }

  lemma CountAfterExpiry(claims: seq<ClaimEntry>, now: Time, t: Time)
    ensures CountActive(Expire(claims, now), t) == |LiveView(claims, Later(now, t))|
  {
    ViewAfterExpiry(claims, now, t);
    CountIsViewSize(Expire(claims, now), t);
  }

  lemma FindAfterExpiry(claims: seq<ClaimEntry>, krate: string, now: Time, t: Time)
    ensures FindActive(Expire(claims, now), krate, t).None? <==> FreeCrate(claims, krate, Later(now, t))
  {
    var k := FindIsFirst(Expire(claims, now), krate, t);
    assert forall i :: 0 <= i < |claims| ==>
      (Live(Expire(claims, now)[i], t) <==> Holds(claims[i], Later(now, t)));
  }

  /** The preflight fails on the limit exactly if more claims are live than allowed, and otherwise on the crate
      exactly if some claim holds it; a clock that went back is read as its latest reading. */
  lemma PreflightVerdict(claims: seq<ClaimEntry>, s: Step, limit: nat)
    requires s.Preflight?
    ensures VerdictOf(claims, s, limit) ==
      if |LiveView(claims, Later(s.expire, s.count))| > limit then LimitExceeded
      else if FreeCrate(claims, s.krate, Later(s.expire, s.find)) then Accepted
      else CrateClaimed
  {
    CountAfterExpiry(claims, s.expire, s.count);
    FindAfterExpiry(claims, s.krate, s.expire, s.find);
  }

  /** The live view keeps exactly the entries that hold their crates. */
  lemma {:induction false} ViewMembers(claims: seq<ClaimEntry>, t: Time, c: ClaimEntry)
    ensures c in LiveView(claims, t) <==> c in claims && Holds(c, t)
    decreases |claims|
  {
    if claims != [] {
      ViewMembers(claims[1..], t, c);
      assert claims == [claims[0]] + claims[1..];
    }
  }

  class ClaimsDatabase {
    var claims: seq<ClaimEntry>

    constructor ()
      ensures claims == []
    {
      claims := [];
    }

    method ExpireStaleClaims(now: Time) returns (expired: nat)
      modifies this
      ensures claims == Expire(old(claims), now)
      ensures forall i :: 0 <= i < |claims| ==>
        var c := old(claims)[i];
        claims[i] == if c.active && c.expiresAt.Until? && c.expiresAt.time < now
                     then c.(active := false, releasedAt := TtlExpired(now)) else c
      ensures expired == 0 <==> claims == old(claims)
    {
      expired := 0;
      for i := 0 to |claims|
        invariant |claims| == |old(claims)|
        invariant forall k :: 0 <= k < i ==> claims[k] == ExpireEntry(old(claims)[k], now)
        invariant forall k :: i <= k < |claims| ==> claims[k] == old(claims)[k]
        invariant expired == 0 <==> forall k :: 0 <= k < i ==> claims[k] == old(claims)[k]
      {
        var entry := claims[i];
        if entry.active && Stale(entry, now) {
          claims := claims[i := entry.(active := false, releasedAt := TtlExpired(now))];
          expired := expired + 1;
          assert claims[i] != old(claims)[i];
        }
      }
    }

    method RunRelease(krate: string, now: Time) returns (ok: bool)
      modifies this
      ensures claims == Apply(old(claims), ReleaseClaim(krate, now), 0)
      ensures |claims| == |old(claims)| && forall i :: 0 <= i < |claims| ==>
        var c := old(claims)[i];
        claims[i] == if krate != "" && c.krate == krate && c.active
                     then c.(active := false, releasedAt := Released(now)) else c
      ensures ok <==> krate != ""
      ensures ok <==> VerdictOf(old(claims), ReleaseClaim(krate, now), 0) == Accepted
    {
      if krate == "" { return false; }
      var found := false;
      for i := 0 to |claims|
        invariant |claims| == |old(claims)|
        invariant forall k :: 0 <= k < i ==> claims[k] == ReleaseEntry(old(claims)[k], krate, now)
        invariant forall k :: i <= k < |claims| ==> claims[k] == old(claims)[k]
      {
        var entry := claims[i];
        if entry.krate == krate && entry.active {
          claims := claims[i := entry.(active := false, releasedAt := Released(now))];
          found := true;
        }
      }
      ok := true;
    }

    method RunClaim(s: Step, limit: nat) returns (ok: bool)
      requires s.ClaimCrate?
      modifies this
      ensures claims == Apply(old(claims), s, limit)
      ensures ok <==> VerdictOf(old(claims), s, limit) == Accepted
      ensures ok <==>
        && s.krate != ""
        && (|| s.dryRun
            || (exists k :: FirstLive(old(claims), s.krate, s.find, k) && old(claims)[k].session == s.session
                            && old(claims)[k].issue == if s.issue == "" then "UNSPECIFIED" else s.issue)
            || (FreeCrate(old(claims), s.krate, s.find) && |LiveView(old(claims), s.count)| < limit))
      ensures claims ==
        if ok && !s.dryRun && FreeCrate(old(claims), s.krate, s.find)
        then old(claims) + [ClaimEntry(s.krate, if s.issue == "" then "UNSPECIFIED" else s.issue, s.stamp, s.session,
                                       true, Until(s.expiry + TTL), Held)]
        else old(claims)
    {
      ClaimVerdict(claims, s, limit);
      if s.krate == "" { return false; }
      var issue := if s.issue == "" then "UNSPECIFIED" else s.issue;
      var existing := FindActive(claims, s.krate, s.find);
      if existing.Some? {
        if existing.value.issue != issue || existing.value.session != s.session {
          if !s.dryRun { return false; }
        } else {
          return true;
        }
      }
      if CountActive(claims, s.count) >= limit {
        if !s.dryRun { return false; }
      }
      var entry := ClaimEntry(s.krate, issue, s.stamp, s.session, true, Until(s.expiry + TTL), Held);
      if s.dryRun { return true; }
      claims := claims + [entry];
      ok := true;
    }

    /** The local part of the preflight check: expire, then the limit, then the crate. */
    method CheckNoActiveClaimConflict(s: Step, limit: nat) returns (v: Verdict)
      requires s.Preflight?
      modifies this
      ensures claims == Apply(old(claims), s, limit)
      ensures v == VerdictOf(old(claims), s, limit)
      ensures v ==
        if |LiveView(old(claims), Later(s.expire, s.count))| > limit then LimitExceeded
        else if FreeCrate(old(claims), s.krate, Later(s.expire, s.find)) then Accepted
        else CrateClaimed
    {
      PreflightVerdict(claims, s, limit);
      var _ := ExpireStaleClaims(s.expire);
      if CountActive(claims, s.count) > limit { return LimitExceeded; }
      if FindActive(claims, s.krate, s.find).Some? { return CrateClaimed; }
      v := Accepted;
    }
  }
}
