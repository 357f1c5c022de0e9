/** The rotating append-only session log.  File 0 is the active log, file i is backup `.i`; every
    file operation may fail, and a failed rotation is simply picked up by a later append. */
module SessionLog {
  import opened Basics

  /** One serialised entry, without its line end. */
  type Entry = seq<Byte>

  /** The log files that exist. */
  type Files = map<nat, seq<Entry>>

  datatype RotationConfig = RotationConfig(maxBytes: nat, maxBackups: nat)

  /** The length of a file in bytes; each line ends in one more byte. */
  function Size(file: seq<Entry>): nat {
    if file == [] then 0 else Size(file[..|file| - 1]) + |file[|file| - 1]| + 1
  }

  /** The bytes of a file: each entry and its line feed. */
  function OnDisk(file: seq<Entry>): (bytes: seq<Byte>) {
    if file == [] then [] else file[0] + [10] + OnDisk(file[1..])
  }

  lemma {:induction false} OnDiskAppend(file: seq<Entry>, e: Entry)
    ensures OnDisk(file + [e]) == OnDisk(file) + (e + [10])
  {
    if file == [] {
      assert file + [e] == [e] && [e][1..] == [];
    } else {
      OnDiskAppend(file[1..], e);
      assert (file + [e])[1..] == file[1..] + [e];
    }
  }

  /** The size the rotation looks at is the number of bytes on disk. */
  lemma {:induction false} SizeIsBytes(file: seq<Entry>)
    ensures Size(file) == |OnDisk(file)|
  {
    if file != [] {
      var init, last := file[..|file| - 1], file[|file| - 1];
      SizeIsBytes(init);
      OnDiskAppend(init, last);
      assert file == init + [last];
    }
  }

  function Contents(files: Files, i: nat): seq<Entry> {
    if i in files then files[i] else []
  }

  /** Backups `n` down to 1 and then the active file: the log read from oldest to newest. */
  function Reading(files: Files, n: nat): (r: seq<Entry>) {
    if n == 0 then Contents(files, 0) else Contents(files, n) + Reading(files, n - 1)
  }

  predicate IsSuffix(s: seq<Entry>, t: seq<Entry>) {
    |s| <= |t| && t[|t| - |s|..] == s
  }

  lemma SuffixTransitive(r: seq<Entry>, s: seq<Entry>, t: seq<Entry>)
    requires IsSuffix(r, s) && IsSuffix(s, t)
    ensures IsSuffix(r, t)
  {
    assert t[|t| - |r|..] == t[|t| - |s|..][|s| - |r|..];
  }

  lemma SuffixAppend(s: seq<Entry>, t: seq<Entry>, e: Entry)
    requires IsSuffix(s, t)
    ensures IsSuffix(s + [e], t + [e])
  {
    assert (t + [e])[|t| - |s|..] == t[|t| - |s|..] + [e];
  }

  // ----- File operations -----

  /** A rename replaces its target. */
  function Renamed(files: Files, src: nat, dst: nat): (r: Files)
    requires src in files && src != dst
  {
    (files - {src})[dst := files[src]]
  }

  function Appended(files: Files, e: Entry): (r: Files) {
    files[0 := Contents(files, 0) + [e]]
  }

  /** The active file ends with `e`. */
  predicate NewestIs(files: Files, e: Entry) {
    0 in files && files[0] != [] && files[0][|files[0]| - 1] == e
  }

  lemma AppendedIsNewest(files: Files, e: Entry)
    ensures NewestIs(Appended(files, e), e)
  {
    assert Appended(files, e)[0] == Contents(files, 0) + [e];
  }

  lemma {:induction false} ReadingDependsOnContents(f: Files, g: Files, n: nat)
    requires forall i: nat :: i <= n ==> Contents(f, i) == Contents(g, i)
    ensures Reading(f, n) == Reading(g, n)
    decreases n
  {
    if n > 0 { ReadingDependsOnContents(f, g, n - 1); }
  }

  /** Splits a reading at backup `k + 1`. */
  lemma {:induction false} ReadingSplit(files: Files, n: nat, k: nat)
    requires k < n
    ensures Reading(files, n) == Above(files, n, k + 1) + (Contents(files, k + 1) + Reading(files, k))
    decreases n
  {
    var x := Contents(files, k + 1) + Reading(files, k);
    if n == k + 1 {
      assert Above(files, n, k + 1) + x == x;
    } else {
      ReadingSplit(files, n - 1, k);
      var c, a := Contents(files, n), Above(files, n - 1, k + 1);
      assert c + (a + x) == c + a + x;
    }
  }

  /** The part of a reading older than backup `k`. */
  function Above(files: Files, n: nat, k: nat): (r: seq<Entry>) {
    if n <= k then [] else Contents(files, n) + Above(files, n - 1, k)
  }

  lemma {:induction false} AboveDependsOnContents(f: Files, g: Files, n: nat, k: nat)
    requires forall i: nat :: k < i <= n ==> Contents(f, i) == Contents(g, i)
    ensures Above(f, n, k) == Above(g, n, k)
    decreases n
  {
    if n > k { AboveDependsOnContents(f, g, n - 1, k); }
  }

  /** The part of a reading newer than file `k`. */
  function Below(files: Files, k: nat): (r: seq<Entry>) {
    if k == 0 then [] else Reading(files, k - 1)
  }

  /** Moving file `k` one place up changes the reading by exactly the content it overwrites. */
  lemma {:induction false} RenameReading(files: Files, n: nat, k: nat)
    requires k in files && k < n
    ensures var x := Contents(files, k) + Below(files, k);
            && Reading(files, n) == Above(files, n, k + 1) + (Contents(files, k + 1) + x)
            && Reading(Renamed(files, k, k + 1), n) == Above(files, n, k + 1) + x
  {
    var g := Renamed(files, k, k + 1);
    ReadingSplit(files, n, k);
    ReadingSplit(g, n, k);
    assert forall j: nat :: j != k && j != k + 1 ==> Contents(g, j) == Contents(files, j);
    AboveDependsOnContents(files, g, n, k + 1);
    if k > 0 { ReadingDependsOnContents(files, g, k - 1); }
    assert Reading(files, k) == Contents(files, k) + Below(files, k);
    assert Contents(g, k) == [];
    assert Reading(g, k) == Below(files, k);
  }

  /** A rename into a free place loses nothing; a rename onto the oldest backup loses that backup only. */
  lemma {:induction false} RenameKeepsSuffix(files: Files, n: nat, k: nat)
    requires k in files && k < n
    requires k + 1 !in files || k + 1 == n
    ensures IsSuffix(Reading(Renamed(files, k, k + 1), n), Reading(files, n))
    ensures Reading(files, n) == Contents(files, k + 1) + Reading(Renamed(files, k, k + 1), n)
  {
    RenameReading(files, n, k);
    var a, c, x := Above(files, n, k + 1), Contents(files, k + 1), Contents(files, k) + Below(files, k);
    if k + 1 == n {
      assert a + x == x && a + (c + x) == c + x;
    } else {
      assert c + x == x && c + (a + x) == a + x;
    }
  }

  lemma {:induction false} AppendReading(files: Files, n: nat, e: Entry)
    ensures Reading(Appended(files, e), n) == Reading(files, n) + [e]
    decreases n
  {
    if n > 0 {
      AppendReading(files, n - 1, e);
      assert Contents(Appended(files, e), n) == Contents(files, n);
    }
  }

  // ----- The invariant of every run -----

  /** No backup lies beyond the limit, and every backup was rotated at full size. */
  ghost predicate BackupsFull(config: RotationConfig, files: Files) {
    forall i: nat :: i in files && i > 0 ==> i <= config.maxBackups && Size(files[i]) >= config.maxBytes
  }

  /** What holds between any two file operations, whatever was interrupted before: backups are in
      range and full; the files read as a suffix of all appended entries, in order; and if anything
      was dropped, the oldest backup place is filled. */
  ghost predicate Consistent(config: RotationConfig, files: Files, history: seq<Entry>) {
    var n := config.maxBackups;
    && BackupsFull(config, files)
    && (Reading(files, n) != history ==> n > 0 && n in files)
    && IsSuffix(Reading(files, n), history)
  }

  lemma {:induction false} RenameKeepsBackupsFull(config: RotationConfig, files: Files, k: nat)
    requires BackupsFull(config, files)
    requires k in files && k < config.maxBackups && Size(files[k]) >= config.maxBytes
    ensures BackupsFull(config, Renamed(files, k, k + 1))
  {
    var g := Renamed(files, k, k + 1);
    forall i: nat | i in g && i > 0
      ensures i <= config.maxBackups && Size(g[i]) >= config.maxBytes
    {
      if i == k + 1 { assert g[i] == files[k]; } else { assert g[i] == files[i]; }
    }
  }

  lemma {:induction false} RenameConsistent(config: RotationConfig, files: Files, history: seq<Entry>, k: nat)
    requires Consistent(config, files, history)
    requires k in files && k < config.maxBackups && (k + 1 !in files || k + 1 == config.maxBackups)
    requires Size(files[k]) >= config.maxBytes
    ensures Consistent(config, Renamed(files, k, k + 1), history)
  {
    var n, g := config.maxBackups, Renamed(files, k, k + 1);
    RenameKeepsBackupsFull(config, files, k);
    RenameKeepsSuffix(files, n, k);
    var before, after := Reading(files, n), Reading(g, n);
    SuffixTransitive(after, before, history);
    assert k + 1 !in files ==> before == after;
  }

  lemma AppendConsistent(config: RotationConfig, files: Files, history: seq<Entry>, e: Entry)
    requires Consistent(config, files, history)
    ensures Consistent(config, Appended(files, e), history + [e])
  {
    var n := config.maxBackups;
    AppendReading(files, n, e);
    SuffixAppend(Reading(files, n), history, e);
    assert Reading(files, n) == history ==> Reading(Appended(files, e), n) == history + [e];
    assert (history + [e])[..|history|] == history;
  }

  // ----- The log as mutable state -----

  /** An append rotates first: the active file is full and backups are wanted. */
  predicate Rotates(config: RotationConfig, files: Files) {
    0 in files && Size(files[0]) >= config.maxBytes && config.maxBackups > 0
  }

  /** What a complete append does to the files, in range of the limit or not. */
  ghost predicate AppendedTo(config: RotationConfig, before: Files, after: Files, e: Entry) {
    if Rotates(config, before)
    then exists mid: Files :: RotatedFrom(before, mid, config.maxBackups) && after == Appended(mid, e)
    else after == Appended(before, e)
  }

  // ----- The size limit -----

  /** The file was below the limit when its last entry was written, or that entry is its first. */
  ghost predicate WithinLimit(config: RotationConfig, file: seq<Entry>) {
    |file| > 1 ==> |OnDisk(file[..|file| - 1])| < config.maxBytes
  }

  ghost predicate AllWithinLimit(config: RotationConfig, files: Files) {
    forall i: nat {:trigger At(files, i)} :: At(files, i).Present? ==> WithinLimit(config, At(files, i).file)
  }

  lemma RenameWithinLimit(config: RotationConfig, files: Files, k: nat)
    requires k in files && AllWithinLimit(config, files)
    ensures AllWithinLimit(config, Renamed(files, k, k + 1))
  {
    var g := Renamed(files, k, k + 1);
    forall i: nat | At(g, i).Present?
      ensures WithinLimit(config, At(g, i).file)
    {
      assert At(g, i) == At(files, if i == k + 1 then k else i);
    }
  }

  /** An entry goes to a file that is not full. */
  lemma AppendedWithinLimit(config: RotationConfig, files: Files, e: Entry)
    requires 0 in files ==> Size(files[0]) < config.maxBytes
    ensures WithinLimit(config, Appended(files, e)[0])
    ensures AllWithinLimit(config, files) ==> AllWithinLimit(config, Appended(files, e))
  {
    var g := Appended(files, e);
    assert g[0][..|g[0]| - 1] == Contents(files, 0);
    SizeIsBytes(Contents(files, 0));
    forall i: nat | AllWithinLimit(config, files) && At(g, i).Present?
      ensures WithinLimit(config, At(g, i).file)
    {
      if i > 0 { assert At(g, i) == At(files, i); }
    }
  }

  lemma RotatedWithinLimit(config: RotationConfig, before: Files, after: Files, n: nat)
    requires RotatedFrom(before, after, n) && AllWithinLimit(config, before)
    ensures AllWithinLimit(config, after)
  {
    forall i: nat | At(after, i).Present?
      ensures WithinLimit(config, At(after, i).file)
    {
      assert At(before, i) == At(before, i) && At(before, i - 1) == At(before, i - 1);
    }
  }

  /** With at least one backup, a complete append leaves the active file within the limit, whatever it found,
      and keeps every other file that was. */
  lemma AppendStaysWithinLimit(config: RotationConfig, before: Files, after: Files, e: Entry)
    requires config.maxBackups > 0 && AppendedTo(config, before, after, e)
    ensures 0 in after && WithinLimit(config, after[0])
    ensures AllWithinLimit(config, before) ==> AllWithinLimit(config, after)
  {
    if Rotates(config, before) {
      var mid: Files :| RotatedFrom(before, mid, config.maxBackups) && after == Appended(mid, e);
      assert At(mid, 0) == At(before, -1);
      AppendedWithinLimit(config, mid, e);
      if AllWithinLimit(config, before) { RotatedWithinLimit(config, before, mid, config.maxBackups); }
    } else {
      AppendedWithinLimit(config, before, e);
    }
  }

  /** Over every run of complete appends with at least one backup: the active file without its newest entry
      is below the limit, and so is every backup if the run starts with none. */
  lemma {:induction false} EveryRunIsWithinLimit(config: RotationConfig, run: seq<Files>, entries: seq<Entry>)
    requires config.maxBackups > 0 && |run| == |entries| + 1 && entries != []
    requires forall i :: 0 <= i < |entries| ==> AppendedTo(config, run[i], run[i + 1], entries[i])
    ensures 0 in run[|entries|] && WithinLimit(config, run[|entries|][0])
    ensures run[0] == map[] ==> AllWithinLimit(config, run[|entries|])
    decreases |entries|
  {
    var n := |entries| - 1;
    if n > 0 { EveryRunIsWithinLimit(config, run[..n + 1], entries[..n]); }
    assert n == 0 && run[0] == map[] ==> AllWithinLimit(config, run[n]);
    AppendStaysWithinLimit(config, run[n], run[n + 1], entries[n]);
  }

  /** Without backups nothing bounds the active file: it keeps every entry ever appended. */
  lemma {:induction false} NoBackupsNoLimit(config: RotationConfig, run: seq<Files>, entries: seq<Entry>)
    requires config.maxBackups == 0 && |run| == |entries| + 1
    requires forall i :: 0 <= i < |entries| ==> AppendedTo(config, run[i], run[i + 1], entries[i])
    ensures Contents(run[|entries|], 0) == Contents(run[0], 0) + entries
    decreases |entries|
  {
    if entries == [] {
      assert Contents(run[0], 0) + [] == Contents(run[0], 0);
    } else {
      var n := |entries| - 1;
      NoBackupsNoLimit(config, run[..n + 1], entries[..n]);
      assert AppendedTo(config, run[n], run[n + 1], entries[n]);
      var c := Contents(run[0], 0);
      assert c + entries[..n] + [entries[n]] == c + (entries[..n] + [entries[n]]);
      assert entries[..n] + [entries[n]] == entries;
    }
  }

  /** The file system as the code sees it: `renamesLeft` is the number of renames that succeed before
      one reports an I/O error, and `writable` says whether the append itself succeeds.  Nothing is
      required of the files that are found; from a consistent log every operation leads to one. */
  class LogFiles {
    const config: RotationConfig
    var files: Files
    ghost var history: seq<Entry>  // every entry an append reported as written

    ghost predicate Valid()
      reads this
    {
      Consistent(config, files, history)
    }

    constructor (config: RotationConfig)
      ensures this.config == config && files == map[] && history == [] && Valid()
    {
      this.config, this.files, this.history := config, map[], [];
      new;
      NoLogIsConsistent(config);
    }

    /** Goes on with the files of an earlier run, which may have used another limit. */
    constructor Open(config: RotationConfig, files: Files, ghost history: seq<Entry>)
      ensures this.config == config && this.files == files && this.history == history
    {
      this.config, this.files, this.history := config, files, history;
    }

    /** One rename; every state it leaves behind is consistent, so stopping here is harmless. */
    method Rename(src: nat)
      requires src in files && src < config.maxBackups && (src + 1 !in files || src + 1 == config.maxBackups)
      requires src == 0 ==> Size(files[0]) >= config.maxBytes
      modifies this`files
      ensures files == Renamed(old(files), src, src + 1)
      ensures old(Valid()) ==> Valid()
      ensures old(AllWithinLimit(config, files)) ==> AllWithinLimit(config, files)
    {
      if Consistent(config, files, history) { RenameConsistent(config, files, history, src); }
      if AllWithinLimit(config, files) { RenameWithinLimit(config, files, src); }
      files := Renamed(files, src, src + 1);
    }

    /** The descending rename loop.  A complete rotation moves every file within the limit up one place
        and loses exactly the oldest backup, and that only if something moves onto it. */
    method RotateLogs(renamesLeft: nat) returns (ok: bool)
      requires Rotates(config, files)
      modifies this`files
      ensures old(Valid()) ==> Valid()
      ensures old(AllWithinLimit(config, files)) ==> AllWithinLimit(config, files)
      ensures ok ==> RotatedFrom(old(files), files, config.maxBackups)
      ensures ok ==> Lost(old(files), files, config.maxBackups, Displaced(old(files), config.maxBackups))
      ensures renamesLeft >= config.maxBackups ==> ok
    {
      var left;
      ok, left := ShiftBackups(renamesLeft);
      if !ok || left == 0 { return false; }
      Turn(old(files), files, config.maxBackups, 0);
      Rename(0);
    }

    /** One turn of the loop: backup `i`, if there is one, moves up. */
    method ShiftOne(ghost before: Files, i: nat, renamesLeft: nat) returns (ok: bool, left: nat)
      requires 0 < i < config.maxBackups && Progress(before, files, config.maxBackups, i)
      modifies this`files
      ensures old(Valid()) ==> Valid()
      ensures old(AllWithinLimit(config, files)) ==> AllWithinLimit(config, files)
      ensures ok ==> Progress(before, files, config.maxBackups, i - 1)
      ensures if ok then left <= renamesLeft <= left + 1 else renamesLeft == 0
    {
      Turn(before, files, config.maxBackups, i);
      ok, left := true, renamesLeft;
      if i in files {
        if left == 0 { return false, 0; }
        Rename(i);
        left := left - 1;
      }
    }

    /** The loop itself: it moves the backups, from the oldest place down to the first. */
    method ShiftBackups(renamesLeft: nat) returns (ok: bool, left: nat)
      requires config.maxBackups > 0
      modifies this`files
      ensures old(Valid()) ==> Valid()
      ensures old(AllWithinLimit(config, files)) ==> AllWithinLimit(config, files)
      ensures ok ==> Progress(old(files), files, config.maxBackups, 0)
      ensures renamesLeft >= config.maxBackups ==> ok && left > 0
    {
      var n := config.maxBackups;
      var i := n - 1;
      left := renamesLeft;
      Start(files, n);
      while i >= 1
        invariant 0 <= i < n && (old(Valid()) ==> Valid()) && Progress(old(files), files, n, i)
        invariant old(AllWithinLimit(config, files)) ==> AllWithinLimit(config, files)
        invariant left <= renamesLeft <= left + (n - 1 - i)
        decreases i
      {
        ok, left := ShiftOne(old(files), i, left);
        if !ok { return; }
        i := i - 1;
      }
      ok := true;
    }

    /** One append: rotate if the active file is full, then write the entry.  It is recorded exactly
        when the call succeeds; a failure anywhere leaves a log that later appends can continue. */
    method AppendEntry(entry: Entry, renamesLeft: nat, writable: bool) returns (ok: bool)
      modifies this
      ensures old(Valid()) ==> Valid()
      ensures ok ==> history == old(history) + [entry] && NewestIs(files, entry)
      ensures ok ==> AppendedTo(config, old(files), files, entry)
      ensures ok && 0 in old(files) && |OnDisk(old(files)[0])| >= config.maxBytes && config.maxBackups > 0 ==>
        && At(files, 0) == Present([entry])
        && At(files, 1) == Present(old(files)[0])
        && forall j: nat {:trigger At(files, j)} :: j > 1 ==>
             At(files, j) == if j > config.maxBackups || (j == config.maxBackups && j - 1 !in old(files))
                             then At(old(files), j) else At(old(files), j - 1)
      ensures ok && !(0 in old(files) && |OnDisk(old(files)[0])| >= config.maxBytes && config.maxBackups > 0) ==>
        files == old(files)[0 := Contents(old(files), 0) + [entry]]
      ensures config.maxBackups > 0 && old(AllWithinLimit(config, files)) ==> AllWithinLimit(config, files)
      ensures ok && config.maxBackups > 0 ==> 0 in files && WithinLimit(config, files[0])
      ensures !ok ==> history == old(history)
      ensures ok <== writable && renamesLeft >= config.maxBackups
    {
      SizeIsBytes(Contents(files, 0));
      if Rotates(config, files) {
        var rotated := RotateLogs(renamesLeft);
        if !rotated { return false; }
        RotatedPlaces(old(files), files, config.maxBackups, entry);
      }
      if !writable { return false; }
      Write(entry);
      if config.maxBackups > 0 { AppendStaysWithinLimit(config, old(files), files, entry); }
      ok := true;
    }

    /** The append itself. */
    method Write(entry: Entry)
      modifies this
      ensures old(Valid()) ==> Valid()
      ensures files == Appended(old(files), entry) && history == old(history) + [entry] && NewestIs(files, entry)
    {
      if Consistent(config, files, history) { AppendConsistent(config, files, history, entry); }
      AppendedIsNewest(files, entry);
      files := Appended(files, entry);
      history := history + [entry];
    }
  }

  lemma {:induction false} EmptyReading(n: nat)
    ensures Reading(map[], n) == []
  {
    if n > 0 { EmptyReading(n - 1); }
  }

  lemma NoLogIsConsistent(config: RotationConfig)
    ensures Consistent(config, map[], [])
  {
    EmptyReading(config.maxBackups);
  }

  datatype Place = Absent | Present(file: seq<Entry>)

  function At(files: Files, i: int): Place {
    if 0 <= i && i in files then Present(files[i]) else Absent
  }

  /** What a complete rotation overwrites. */
  function Displaced(files: Files, n: nat): seq<Entry> {
    if n > 0 && n - 1 in files then Contents(files, n) else []
  }

  /** Place by place, the loop's progress once the backups above `i` are handled. */
  ghost predicate ShiftedFrom(before: Files, after: Files, n: nat, i: nat) {
    forall j: nat {:trigger At(after, j)} :: At(after, j) ==
      if j <= i || j > n || (j == n && (i == n - 1 || n - 1 !in before)) then At(before, j)
      else if j == i + 1 then Absent
      else At(before, j - 1)
  }

  /** Place by place, a complete rotation. */
  ghost predicate RotatedFrom(before: Files, after: Files, n: nat) {
    forall j: nat {:trigger At(after, j)} :: At(after, j) ==
      if j > n || (j == n && n - 1 !in before) then At(before, j) else At(before, j - 1)
  }

  /** Place by place, a complete rotation and the append after it. */
  lemma RotatedPlaces(before: Files, mid: Files, n: nat, e: Entry)
    requires RotatedFrom(before, mid, n) && n > 0 && 0 in before
    ensures var after := Appended(mid, e);
            && At(after, 0) == Present([e]) && At(after, 1) == Present(before[0])
            && forall j: nat {:trigger At(after, j)} :: j > 1 ==>
                 At(after, j) == if j > n || (j == n && j - 1 !in before) then At(before, j) else At(before, j - 1)
  {
    var after := Appended(mid, e);
    assert At(mid, 0) == At(before, -1) && At(mid, 1) == At(before, 0);
    assert forall j: nat {:trigger At(after, j)} :: j > 0 ==> At(after, j) == At(mid, j);
  }

  /** One turn of the loop: the place above `i` is free (or the oldest), and moving file `i` there
      extends the shift. */
  lemma ShiftStep(before: Files, files: Files, n: nat, i: nat)
    requires i < n && ShiftedFrom(before, files, n, i)
    ensures (i in files <==> i in before) && Contents(files, i) == Contents(before, i)
    ensures i + 1 !in files || i + 1 == n
    ensures i > 0 && i in files ==> ShiftedFrom(before, Renamed(files, i, i + 1), n, i - 1)
    ensures i > 0 && i !in files ==> ShiftedFrom(before, files, n, i - 1)
    ensures i == 0 && i in files ==> RotatedFrom(before, Renamed(files, 0, 1), n)
    ensures i + 1 == n ==> Contents(files, n) == Contents(before, n)
  {
    assert At(files, i) == At(before, i);
    assert At(files, i + 1) == if i + 1 == n then At(before, n) else Absent;
    if i in files {
      var g := Renamed(files, i, i + 1);
      forall j: nat
        ensures At(g, j) == if j == i then Absent else if j == i + 1 then At(before, i) else At(files, j)
        ensures At(files, j) == At(files, j)
      {
      }
    }
  }

  /** Going from `before` to `after` dropped exactly the entries `gone` at the old end. */
  ghost predicate Lost(before: Files, after: Files, n: nat, gone: seq<Entry>) {
    Reading(before, n) == gone + Reading(after, n)
  }

  lemma {:induction false} LostByRename(before: Files, files: Files, n: nat, i: nat)
    requires i < n && ShiftedFrom(before, files, n, i)
    requires Lost(before, files, n, if i < n - 1 then Displaced(before, n) else [])
    ensures i in files ==> Lost(before, Renamed(files, i, i + 1), n, Displaced(before, n))
    ensures i !in files ==> Lost(before, files, n, Displaced(before, n))
  {
    ShiftStep(before, files, n, i);
    if i in files {
      RenameKeepsSuffix(files, n, i);
      var old', c, new' := Reading(files, n), Contents(files, i + 1), Reading(Renamed(files, i, i + 1), n);
      assert [] + old' == old' && Displaced(before, n) + ([] + new') == Displaced(before, n) + new';
    }
  }

  /** Both views of the loop's progress. */
  ghost predicate Progress(before: Files, files: Files, n: nat, i: nat) {
    ShiftedFrom(before, files, n, i) && Lost(before, files, n, if i < n - 1 then Displaced(before, n) else [])
  }

  lemma Start(files: Files, n: nat)
    requires n > 0
    ensures Progress(files, files, n, n - 1)
  {
    assert [] + Reading(files, n) == Reading(files, n);
  }

  lemma Turn(before: Files, files: Files, n: nat, i: nat)
    requires i < n && Progress(before, files, n, i)
    ensures (i in files <==> i in before) && Contents(files, i) == Contents(before, i)
    ensures i + 1 !in files || i + 1 == n
    ensures i > 0 && i in files ==> Progress(before, Renamed(files, i, i + 1), n, i - 1)
    ensures i > 0 && i !in files ==> Progress(before, files, n, i - 1)
    ensures i == 0 && i in files ==>
      && RotatedFrom(before, Renamed(files, 0, 1), n)
      && Lost(before, Renamed(files, 0, 1), n, Displaced(before, n))
  {
    ShiftStep(before, files, n, i);
    LostByRename(before, files, n, i);
  }

  // ----- Runs -----

  /** One file operation the code performs: a rename of a full file upwards, or an append. */
  ghost predicate FileStep(config: RotationConfig, f: Files, h: seq<Entry>, f': Files, h': seq<Entry>) {
    || (exists k: nat ::
          && k in f && k < config.maxBackups && (k + 1 !in f || k + 1 == config.maxBackups)
          && Size(f[k]) >= config.maxBytes && f' == Renamed(f, k, k + 1) && h' == h)
    || (exists e: Entry :: f' == Appended(f, e) && h' == h + [e])
  }

  /** Over every run of file operations from a consistent log (such as none at all), cut off anywhere:
      the files read, oldest backup first, as the most recent appended entries in order; and entries are
      missing only when the oldest backup place holds a full-sized file. */
  lemma {:induction false} EveryRunReadsASuffix(config: RotationConfig, run: seq<(Files, seq<Entry>)>)
    requires |run| > 0 && Consistent(config, run[0].0, run[0].1)
    requires forall i :: 0 < i < |run| ==> FileStep(config, run[i - 1].0, run[i - 1].1, run[i].0, run[i].1)
    ensures var (files, history) := run[|run| - 1];
            && IsSuffix(Reading(files, config.maxBackups), history)
            && (Reading(files, config.maxBackups) != history ==>
                  config.maxBackups in files && Size(files[config.maxBackups]) >= config.maxBytes)
            && Consistent(config, files, history)
    decreases |run|
  {
    if |run| > 1 {
      var before := run[..|run| - 1];
      EveryRunReadsASuffix(config, before);
      var (f, h) := run[|run| - 2];
      assert before[|before| - 1] == (f, h);
      StepConsistent(config, f, h, run[|run| - 1].0, run[|run| - 1].1);
    }
  }

  lemma StepConsistent(config: RotationConfig, f: Files, h: seq<Entry>, f': Files, h': seq<Entry>)
    requires Consistent(config, f, h) && FileStep(config, f, h, f', h')
    ensures Consistent(config, f', h')
  {
    if exists e: Entry :: f' == Appended(f, e) && h' == h + [e] {
      var e: Entry :| f' == Appended(f, e) && h' == h + [e];
      AppendConsistent(config, f, h, e);
    } else {
      var k: nat :|
        && k in f && k < config.maxBackups && (k + 1 !in f || k + 1 == config.maxBackups)
        && Size(f[k]) >= config.maxBytes && f' == Renamed(f, k, k + 1) && h' == h;
      RenameConsistent(config, f, h, k);
    }
  }

  // ----- A limit that was changed between runs -----

  predicate NoRepeats(s: seq<Entry>) { forall i, j :: 0 <= i < j < |s| ==> s[i] != s[j] }

  /** Up to place `k` every file has moved up by one. */
  ghost predicate MovedUp(before: Files, after: Files, k: int) {
    forall j: nat {:trigger At(after, j)} :: j <= k ==> At(after, j) == At(before, j - 1)
  }

  /** One place up everywhere: what was read below `k` is now read up to `k`. */
  lemma {:induction false} ReadingShifted(before: Files, after: Files, k: nat)
    requires MovedUp(before, after, k)
    ensures Reading(after, k) == Below(before, k)
    decreases k
  {
    assert At(after, k) == At(before, k - 1);
    if k > 0 { ReadingShifted(before, after, k - 1); }
  }

  /** A complete rotation under `n` loses exactly the displaced backup, whatever files lie beyond `n`. */
  lemma RotationLoses(before: Files, after: Files, n: nat)
    requires n > 0 && RotatedFrom(before, after, n)
    ensures Lost(before, after, n, Displaced(before, n))
  {
    RotationMoves(before, after, n);
    TopOfRotation(before, after, n);
  }

  lemma RotationMoves(before: Files, after: Files, n: nat)
    requires n > 0 && RotatedFrom(before, after, n)
    ensures At(after, n) == if n - 1 !in before then At(before, n) else At(before, n - 1)
    ensures MovedUp(before, after, n - 1)
  {
  }

  lemma TopOfRotation(before: Files, after: Files, n: nat)
    requires n > 0 && MovedUp(before, after, n - 1)
    requires At(after, n) == if n - 1 !in before then At(before, n) else At(before, n - 1)
    ensures Lost(before, after, n, Displaced(before, n))
  {
    var below := Below(before, n - 1);
    ReadingShifted(before, after, n - 1);
    assert Reading(before, n - 1) == Contents(before, n - 1) + below;
    assert Reading(after, n) == Contents(after, n) + below;
    if n - 1 in before {
      assert Contents(after, n) == Contents(before, n - 1);
    } else {
      assert [] + below == below && [] + Reading(after, n) == Reading(after, n);
    }
  }

  lemma {:induction false} ReadingAbove(files: Files, m: nat, n: nat)
    requires n <= m
    ensures Reading(files, m) == Above(files, m, n) + Reading(files, n)
    decreases m
  {
    if m == n {
      assert [] + Reading(files, n) == Reading(files, n);
    } else {
      ReadingAbove(files, m - 1, n);
      var c, a, r := Contents(files, m), Above(files, m - 1, n), Reading(files, n);
      assert c + (a + r) == c + a + r;
    }
  }

  /** What a rotation under `n` does to a log that is read over `m >= n` places. */
  lemma RotationReading(before: Files, after: Files, n: nat, m: nat)
    requires 0 < n <= m && RotatedFrom(before, after, n)
    ensures Reading(before, m) == Above(before, m, n) + (Displaced(before, n) + Reading(after, n))
    ensures Reading(after, m) == Above(before, m, n) + Reading(after, n)
  {
    RotationLoses(before, after, n);
    ReadingAbove(before, m, n);
    ReadingAbove(after, m, n);
    forall i: nat | n < i <= m ensures Contents(after, i) == Contents(before, i) {
      assert At(after, i) == At(before, i);
    }
    AboveDependsOnContents(before, after, m, n);
  }

  lemma SuffixCancel(s: seq<Entry>, t: seq<Entry>, r: seq<Entry>)
    ensures IsSuffix(s + r, t + r) <==> IsSuffix(s, t)
  {
    if |s| <= |t| {
      var x := t[|t| - |s|..];
      assert (t + r)[|t| - |s|..] == x + r;
      assert (s + r)[..|s|] == s && (x + r)[..|s|] == x;
    }
  }

  /** Dropping `d` after `a` leaves a suffix only if nothing stands before it or nothing is dropped, unless
      entries repeat. */
  lemma DroppedAfter(a: seq<Entry>, d: seq<Entry>)
    requires NoRepeats(a + d)
    ensures IsSuffix(a, a + d) <==> a == [] || d == []
  {
    var all := a + d;
    if a != [] && d != [] {
      assert all[|d|..][0] == all[|d|] != all[0] == a[0];
    } else {
      assert all[|d|..] == a;
    }
  }

  lemma MiddleDropped(a: seq<Entry>, d: seq<Entry>, r: seq<Entry>)
    ensures IsSuffix(a + r, a + (d + r)) <==> IsSuffix(a, a + d)
    ensures NoRepeats(a + (d + r)) ==> (IsSuffix(a, a + d) <==> a == [] || d == [])
  {
    assert a + (d + r) == (a + d) + r;
    SuffixCancel(a, a + d, r);
    if NoRepeats(a + (d + r)) {
      PrefixHasNoRepeats(a + d, r);
      DroppedAfter(a, d);
    }
  }

  lemma PrefixHasNoRepeats(s: seq<Entry>, t: seq<Entry>)
    requires NoRepeats(s + t)
    ensures NoRepeats(s)
  {
    assert forall i :: 0 <= i < |s| ==> s[i] == (s + t)[i];
  }

  /** A rotation under the limit `n` of any files that reach up to place `m`: the log still reads as a suffix
      exactly if what lies beyond the limit also ends it together with the displaced backup.  Where no entry
      occurs twice that means: nothing lies beyond the limit, or nothing is displaced. */
  lemma RotationKeepsSuffixIff(before: Files, after: Files, n: nat, m: nat)
    requires 0 < n <= m && RotatedFrom(before, after, n)
    ensures var beyond, displaced := Above(before, m, n), Displaced(before, n);
      && (IsSuffix(Reading(after, m), Reading(before, m)) <==> IsSuffix(beyond, beyond + displaced))
      && (NoRepeats(Reading(before, m)) ==>
            (IsSuffix(Reading(after, m), Reading(before, m)) <==> beyond == [] || displaced == []))
  {
    RotationReading(before, after, n, m);
    MiddleDropped(Above(before, m, n), Displaced(before, n), Reading(after, n));
  }

  /** A complete append under any limit to any files up to place `m`: what is read back is a suffix of what was
      there and the new entry exactly if the append does not rotate, or what lies beyond the limit also ends it
      together with the displaced backup; where no entry occurs twice, if nothing lies beyond or nothing is
      displaced.  So lowering the limit can open a gap, and only this way. */
  lemma AppendKeepsSuffixIff(config: RotationConfig, before: Files, after: Files, e: Entry, m: nat)
    requires AppendedTo(config, before, after, e) && config.maxBackups <= m
    ensures var beyond, displaced := Above(before, m, config.maxBackups), Displaced(before, config.maxBackups);
      var suffix := IsSuffix(Reading(after, m), Reading(before, m) + [e]);
      && (suffix <==> !Rotates(config, before) || IsSuffix(beyond, beyond + displaced))
      && (NoRepeats(Reading(before, m)) ==>
            (suffix <==> !Rotates(config, before) || beyond == [] || displaced == []))
  {
    var n := config.maxBackups;
    if Rotates(config, before) {
      var mid: Files :| RotatedFrom(before, mid, n) && after == Appended(mid, e);
      AppendReading(mid, m, e);
      SuffixCancel(Reading(mid, m), Reading(before, m), [e]);
      RotationKeepsSuffixIff(before, mid, n, m);
    } else {
      AppendReading(before, m, e);
    }
  }

  /** Read within the limit in force, every complete append leaves a suffix, whatever lies beyond. */
  lemma AppendKeepsSuffixWithin(config: RotationConfig, before: Files, after: Files, e: Entry)
    requires AppendedTo(config, before, after, e)
    ensures IsSuffix(Reading(after, config.maxBackups), Reading(before, config.maxBackups) + [e])
  {
    var n := config.maxBackups;
    if Rotates(config, before) {
      var mid: Files :| RotatedFrom(before, mid, n) && after == Appended(mid, e);
      AppendReading(mid, n, e);
      RotationLoses(before, mid, n);
      SuffixCancel(Reading(mid, n), Reading(before, n), [e]);
    } else {
      AppendReading(before, n, e);
    }
  }

  /** Three files of one entry each. */
  function ThreeFiles(a: Entry, b: Entry, c: Entry): Files { map[2 := [a], 1 := [b], 0 := [c]] }

  lemma ThreeFilesRead(a: Entry, b: Entry, c: Entry)
    ensures Reading(ThreeFiles(a, b, c), 2) == [a, b, c] && Above(ThreeFiles(a, b, c), 2, 1) == [a]
    ensures Consistent(RotationConfig(0, 2), ThreeFiles(a, b, c), [a, b, c])
  {
    var files := ThreeFiles(a, b, c);
    assert Reading(files, 1) == [b] + Reading(files, 0) == [b, c];
    assert Reading(files, 2) == [a] + Reading(files, 1);
    assert Above(files, 1, 1) == [];
  }

  /** A log written with two backups and continued with one: the append loses the middle entry. */
  lemma LoweredLimitLeavesGap(a: Entry, b: Entry, c: Entry, e: Entry) returns (after: Files)
    requires a != b && b != c && a != c
    ensures Consistent(RotationConfig(0, 2), ThreeFiles(a, b, c), [a, b, c])
    ensures AppendedTo(RotationConfig(0, 1), ThreeFiles(a, b, c), after, e)
    ensures !IsSuffix(Reading(after, 2), [a, b, c] + [e])
  {
    var before, mid := ThreeFiles(a, b, c), Renamed(ThreeFiles(a, b, c), 0, 1);
    assert RotatedFrom(before, mid, 1);
    after := Appended(mid, e);
    ThreeFilesRead(a, b, c);
    AppendKeepsSuffixIff(RotationConfig(0, 1), before, after, e, 2);
  }
}
