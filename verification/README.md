# Verified models of the xtask gates and the bench harness

This project models the decision-making parts of the repository's `xtask` toolchain and of its
nearest-neighbour benchmark, and proves what they promise.  Code that works by changing state is modelled as
methods with loops, arrays and classes, each proved against a specification; the properties are then proved of
the specification for all inputs, all runs or all reachable states.

| file | models |
|---|---|
| `CrateLayers.dfy` | layering of the crate graph, cycle detection, the layer check |
| `EditDistance.dfy` | Levenshtein distance and sentence similarity |
| `SourceRegions.dfy`, `BlankingLexer.dfy` | comments and literals in source text, and the two lexers that blank them out |
| `SessionLog.dfy` | the rotating session log |
| `Claims.dfy` | crate claims: claim, release, expiry, preflight |
| `Sha256.dfy`, `Sha256Constants.dfy`, `FirstPrimes.dfy`, `Sha256Example.dfy` | the hash behind the reproducible-build check |
| `Text.TrimIs` | xtask/src/main.rs:652-652 | trimming a text between white space gives back exactly that text |
| `Text.TrimSplits` | xtask/src/main.rs:652-652 | what trimming takes away is white space at the two ends, and all of it |
| `MarkdownSections.MarkerText` | xtask/src/main.rs:635-636 | the text of the two markers |
| `MarkdownSections.dfy` | generated sections in documents, sync and drift check |
| `RingLayering.dfy` | the ring matrix, its allowlist and the strict gate |
| `Similarity.dfy` | Jaccard similarity of audit sections and commit subjects |
| `AdrNumbers.dfy`, `AdrGenerator.dfy` | decision-record numbering: check and generator |
| `BraceScanner.dfy`, `DuplicateSymbols.dfy` | duplicate declarations in files and crates |
| `GroundTruth.dfy` | brute-force neighbours and recall |
| `Text.dfy`, `Basics.dfy` | substring search, trimming, and what several models share |

`dafny verify dfyconfig.toml` checks all of it.

## Findings

Where a promise does not hold of the code as written, the model keeps the code and states what does hold.

- The digest of the reproducible-build check is not SHA-256.  Constant 62 of its round table is `0xbef4a9f7`;
  FIPS 180-4 has `0xbef9a3f7`.  The other 63 constants, the initial value, the padding, the schedule and the
  rounds are right.  Every single compression is wrong, so every message of at most 55 bytes gets a wrong digest
  (`Sha256.CompressionIsAlwaysWrong`, `Sha256.ShortDigestsAreWrong`).  For "abc" both digests are computed in full
  (`Sha256Example.KnownAnswer`).
- An empty violation list of the layer check does not by itself exclude cycles: the comparison is strict, so a
  cycle within one layer passes (`CrateLayers.FlatCyclePassesCheck`).  The check is silent on a cycle exactly if all
  its layers are equal (`CrateLayers.CycleUnreportedIffFlat`), and with an empty list the workspace is acyclic exactly
  if each layer by itself is (`CrateLayers.EmptyListAcyclicIff`).  The program's own callers do not get there: they
  take their crates from `get_workspace_crates`, which stops on a cycle first (`xtask/src/main.rs:622`), so this
  concerns calls of the check on layers that come from elsewhere.
- With the repository's own tables the strict ring gate lets a cycle between `contextra-graph` and
  `contextra-store` pass, because one of its edges is allowlisted (`RingLayering.AllowlistedCyclePasses`).  A cycle that
  passes crosses from Ring 0 to Ring 1 exactly if it takes that edge (`RingLayering.CyclesOfGated`).
- Rewriting a generated section is idempotent exactly when the new content does not contain the section's own
  end marker; otherwise the file grows with every sync (`MarkdownSections.RenderIdempotentIff`).
- Lowering the backup limit of the session log between runs can drop entries from the middle of what is on disk
  (`SessionLog.LoweredLimitLeavesGap`).  Where no entry occurs twice, exactly when: the append rotates, a backup beyond
  the new limit holds entries, and the rotation displaces some; the lemma also has the exact condition for entries that
  do repeat (`SessionLog.AppendKeepsSuffixIff`).  Read within the new limit only, the log is always a
  suffix (`SessionLog.AppendKeepsSuffixWithin`).
- A decision log that holds only ADR-000 makes the generator fall back to file names, and its next entry can fail
  the consistency check (`AdrGenerator.ZeroOnlyLogBreaks`).  Exactly when: a number that the file names skip is
  mentioned neither in the log nor in the new heading (`AdrGenerator.GeneratedEntryConsistentIff`).
- Different commit subjects can have similarity 1: it is 1 exactly when their trigram sets are equal
  (`Similarity.DifferentSubjectsFullSimilarity`, `Similarity.SubjectTriangle`).
- Recall counts a true identifier as often as it is returned.  Unless `k` is 0 or nothing is
  true, when it is 0, it stays within 1 for every result exactly if there are at least `k` true neighbours
  (`GroundTruth.RecallBoundedIff`).  Recall 1 tells of every result that no true
  neighbour is missing exactly if only one identifier is wanted (`GroundTruth.RecallOneMeansCompleteIff`).  Returning 7
  twice has recall 2 against 7 alone, and recall 1 against 7 and 8 (`GroundTruth.RepeatedHitExceedsOne`).  Results
  without repetition have neither problem (`GroundTruth.RecallRange`).

Code and comments disagree in these places, and the model follows the code: the ring header
(`xtask/src/check_ring_layering.rs:2-8`) restricts Ring 2 to types, ports and crypto, and restricts tools, while the
code also admits core, simd and rank for Ring 2 and everything for tools; recall is documented as a ratio over `k`
(`benchmarks/contextra-bench/src/ann_benchmarks.rs:111`) but divides by the number of true neighbours when there are
fewer than `k` (`GroundTruth.DocumentedRecallIff` says when the two agree).

## Model

| member | source | states |
|---|---|---|
| `CrateLayers.LayerSearch.constructor` | xtask/src/main.rs:439-446 | the search starts with nothing visited, an empty path and nothing expanded |
| `CrateLayers.LayerSearch.GetLayer` | xtask/src/main.rs:448-496 | keeps the search invariant (the path is a duplicate-free dependency chain whose members are exactly the crates being visited), changes no finished layer, expands no crate twice, and every error is genuine |
| `CrateLayers.LayerSearch.CyclePath` | xtask/src/main.rs:457-465 | the reported cycle is a closed dependency chain through the crate |
| `CrateLayers.LayerSearch.Recall` | xtask/src/main.rs:454-467 | a crate met before answers with its stored layer, or with a genuine cycle exactly when it is still being visited |
| `CrateLayers.LayerSearch.HighestDepLayer` | xtask/src/main.rs:477-483 | all internal dependencies are finished and the result is their highest layer |
| `CrateLayers.LayerSearch.Begin` | xtask/src/main.rs:474-475 | the crate is marked, pushed and counted as expanded once |
| `CrateLayers.LayerSearch.Conclude` | xtask/src/main.rs:485-495 | the layer is one above the highest dependency; a layer beyond 255 is refused and then a chain of 256 edges exists |
| `CrateLayers.LayerBoundsChains` | xtask/src/main.rs:436-496 | no chain below a crate is longer than its layer, and layers fall along it |
| `CrateLayers.LayerHasChain` | xtask/src/main.rs:436-496 | a chain as long as the layer exists |
| `CrateLayers.LayerIsLongestChain` | xtask/src/main.rs:436-496 | a layer is the length of the longest dependency chain below the crate |
| `CrateLayers.OverflowHasChain` | xtask/src/main.rs:489-492 | an overflow error means a chain of more than 255 edges |
| `CrateLayers.SettleOne` | xtask/src/main.rs:487-494 | recording one more layer keeps all recorded layers right |
| `CrateLayers.MarkOne` | xtask/src/main.rs:474-474 | marking an unseen crate keeps all recorded layers right |
| `CrateLayers.SettledGraphIsAcyclic` | xtask/src/main.rs:498-508 | when every crate has a layer the graph is acyclic and has no chain over 255 edges |
| `CrateLayers.ErrorExcludesAcceptance` | xtask/src/main.rs:457-465 | a genuine error and acceptance exclude each other |
| `CrateLayers.CalculateLayers` | xtask/src/main.rs:498-502 | succeeds exactly on acyclic graphs without a chain over 255 edges, with longest-chain layers |
| `CrateLayers.ComputeCrateLayers` | xtask/src/main.rs:438-509 | as above, in place: success stores exactly the layers, any error leaves all crates unchanged |
| `CrateLayers.StoreLayers` | xtask/src/main.rs:504-506 | the second loop gives every crate its layer and changes nothing else |
| `CrateLayers.SearchIsComplete` | xtask/src/main.rs:498-502 | once every crate has a layer the graph is accepted and the layers are longest chains |
| `CrateLayers.StoredLayersAreLongest` | xtask/src/main.rs:504-508 | storing the computed layers establishes the specification of the whole operation |
| `CrateLayers.CheckDagLayerViolations` | xtask/src/main.rs:1935-1955 | lists exactly the dependencies that point up, so it is empty exactly if none does |
| `CrateLayers.ViolationMeaning` | xtask/src/main.rs:1935-1955 | a violation is listed exactly if it names a crate, its layer, one of its dependencies and that dependency's higher layer |
| `CrateLayers.LayeringLeavesNoViolations` | xtask/src/main.rs:438-509 | after a successful layering of distinctly named crates every internal dependency is strictly lower and the check finds nothing |
| `CrateLayers.LongestChainDescends` | xtask/src/main.rs:436-437 | longest-chain layers fall strictly along every dependency |
| `CrateLayers.NoViolationsOnChain` | xtask/src/main.rs:1935-1955 | with an empty violation list, stored layers never rise along a chain |
| `CrateLayers.UndetectedCycleIsFlat` | xtask/src/main.rs:1935-1955 | a cycle that passes the check lies within one layer |
| `CrateLayers.CycleUnreportedIffFlat` | xtask/src/main.rs:1940-1953 | for every cycle: no edge of it is reported exactly if all its layers are equal |
| `CrateLayers.EmptyListAcyclicIff` | xtask/src/main.rs:1935-1955 | with an empty list the workspace is acyclic exactly if the graph within each layer is |
| `CrateLayers.FlatCyclePassesCheck` | xtask/src/main.rs:1935-1955 | a flat cycle of two crates passes, as a witness |
| `EditDistance.FillBorders` | xtask/src/main.rs:1557-1563 | first row and column hold the distances to the empty prefix |
| `EditDistance.FillRow` | xtask/src/main.rs:1565-1576 | row i holds the distances of the i-prefix |
| `EditDistance.LevenshteinDistance` | xtask/src/main.rs:1544-1579 | returns the distance that the lemmas below characterise |
| `EditDistance.CellRecurrence` | xtask/src/main.rs:1566-1575 | each cell follows from its three neighbours |
| `EditDistance.DistanceIsLowerBound` | xtask/src/main.rs:1544-1579 | no sequence of insertions, deletions and substitutions is shorter |
| `EditDistance.DistanceIsAttained` | xtask/src/main.rs:1544-1579 | some sequence of that length exists |
| `EditDistance.DistanceIsMinimum` | xtask/src/main.rs:1544-1579 | the result is the least number of single-character edits |
| `EditDistance.EditIsLipschitz` | xtask/src/main.rs:1544-1579 | one edit anywhere in a string changes a distance by at most one |
| `EditDistance.DistanceSymmetric` | xtask/src/main.rs:1544-1579 | the distance is symmetric |
| `EditDistance.TriangleInequality` | xtask/src/main.rs:1544-1579 | the distance obeys the triangle inequality |
| `EditDistance.ZeroOnlyOnEqual` | xtask/src/main.rs:1544-1579 | the distance is zero exactly on equal strings |
| `EditDistance.DistanceRange` | xtask/src/main.rs:1544-1579 | it lies between the length difference and the larger length |
| `EditDistance.SentencesAreSimilar` | xtask/src/main.rs:1627-1637 | decides the similarity that the next two rows are about |
| `EditDistance.SimilarityLaws` | xtask/src/main.rs:1627-1637 | similarity is reflexive and symmetric, is equality on up to ten bytes, and bounds the length difference |
| `EditDistance.SimilarityChains` | xtask/src/main.rs:1627-1637 | two chained similarities stay within a fifth of the longest byte length |
| `EditDistance.SimilarIffFewEdits` | xtask/src/main.rs:1627-1637 | strings are similar exactly if they are equal or fewer edits than a tenth of the longer byte length join them |
| `EditDistance.OneEditIsSimilarIff` | xtask/src/main.rs:1636-1636 | strings one edit apart are similar exactly from eleven bytes on |
| `EditDistance.Utf8WidthIsLeast` | xtask/src/main.rs:1632-1632 | a character counts the fewest bytes that have room for it in UTF-8 |
| `BlankingLexer.IsCharLiteral` | xtask/src/check_module_reachability.rs:157-175 | the bounded lookahead decides whether an apostrophe opens a character literal |
| `BlankingLexer.InsideStep` | xtask/src/check_module_reachability.rs:61-132 | inside a comment or literal one iteration of the flags is one automaton step, and at most one flag is set; what the steps add up to is `BlankingLexer.StripIsBlanking` |
| `BlankingLexer.CodeStep` | xtask/src/check_unsafe_islands.rs:139-177 | the same in code |
| `BlankingLexer.StripLookAhead` | xtask/src/check_module_reachability.rs:42-194 | the output is the source with exactly its comments and literals blanked, lookahead variant: each of them runs to its first closing mark, block comments to where their marks balance |
| `BlankingLexer.StripLookBehind` | xtask/src/check_unsafe_islands.rs:47-181 | the same, lookbehind variant |
| `SourceRegions.OneReading` | xtask/src/check_module_reachability.rs:53-191 | a text divides into plain characters, line comments, block comments and literals in at most one way |
| `SourceRegions.ReadingExists` | xtask/src/check_module_reachability.rs:53-191 | and in at least one |
| `SourceRegions.LiteralForms` | xtask/src/check_module_reachability.rs:157-175 | the lookahead takes an apostrophe as opening exactly if a plain, escaped, hexadecimal or Unicode literal form follows |
| `SourceRegions.OpensBehindIff` | xtask/src/check_unsafe_islands.rs:162-174 | the lookbehind takes it as opening exactly if no letter, digit or underscore stands right before it |
| `BlankingLexer.LineFollows` | xtask/src/check_module_reachability.rs:61-68 | a line comment is blanked up to its first newline |
| `BlankingLexer.BlockFollows` | xtask/src/check_module_reachability.rs:69-88 | a block comment is blanked up to the first place where its opening and closing marks, read in pairs from the left, balance |
| `BlankingLexer.OpenBlockFollows` | xtask/src/check_module_reachability.rs:69-88 | a block comment whose marks never balance is blanked to the end of the text |
| `BlankingLexer.LiteralFollows` | xtask/src/check_unsafe_islands.rs:96-137 | a literal is blanked up to its first closer behind an even number of backslashes, or to the end of the text |
| `BlankingLexer.RegionFollows` | xtask/src/check_module_reachability.rs:53-191 | whatever region starts at a position, it is blanked to its end and code goes on there |
| `BlankingLexer.StripFollowsReading` | xtask/src/check_module_reachability.rs:53-191 | the automaton puts out the regions of a reading, blanked, one after the other |
| `BlankingLexer.StripIsBlanking` | xtask/src/check_module_reachability.rs:42-194 | the output is the blanked source and nothing else is, for both variants |
| `BlankingLexer.OneMode` | xtask/src/check_module_reachability.rs:53-191 | at every position the automaton is in exactly one mode |
| `BlankingLexer.Alignment` | xtask/src/check_module_reachability.rs:53-191 | output and source have the same length, plus one exactly for a lone final escape |
| `BlankingLexer.PadIsBlank` | xtask/src/check_unsafe_islands.rs:58-178 | that extra character is a blank |
| `BlankingLexer.KeptIsCode` | xtask/src/check_module_reachability.rs:53-191 | every non-blank output character is the source character there, read as plain code |
| `BlankingLexer.CodeIsKept` | xtask/src/check_module_reachability.rs:53-191 | every character read as plain code is kept |
| `BlankingLexer.NewlinesKept` | xtask/src/check_unsafe_islands.rs:58-178 | a newline keeps its position exactly if it is not escaped inside a literal |
| `BlankingLexer.StepNewline` | xtask/src/check_unsafe_islands.rs:58-178 | a step loses a newline exactly if it reads it as the second half of an escape in a literal |
| `BlankingLexer.NewlinesGenuine` | xtask/src/check_unsafe_islands.rs:58-178 | every output newline stands where the source has one |
| `BlankingLexer.BeforeCode` | xtask/src/check_unsafe_islands.rs:58-178 | code is entered only from code or right behind a closing character |
| `BlankingLexer.KeptApostropheAhead` | xtask/src/check_module_reachability.rs:157-187 | a kept apostrophe opens no literal in the output, lookahead variant |
| `BlankingLexer.KeptApostropheBehind` | xtask/src/check_unsafe_islands.rs:162-174 | a kept apostrophe still follows a word character, lookbehind variant |
| `BlankingLexer.OutputIsInert` | xtask/src/check_module_reachability.rs:42-194 | the output contains nothing that opens a comment or a literal |
| `BlankingLexer.InertIsFixed` | xtask/src/check_module_reachability.rs:42-194 | a text that opens nothing passes unchanged |
| `BlankingLexer.StripIdempotent` | xtask/src/check_unsafe_islands.rs:47-181 | both variants are idempotent on every text |
| `SessionLog.LogFiles.constructor` | xtask/src/session_history.rs:24-39 | a new log is consistent |
| `SessionLog.LogFiles.Open` | xtask/src/session_history.rs:121-138 | a run can go on with any files it finds, also from another limit |
| `SessionLog.LogFiles.Rename` | xtask/src/session_history.rs:155-163 | every single rename leads from a consistent log to a consistent log |
| `SessionLog.LogFiles.ShiftOne` | xtask/src/session_history.rs:152-158 | one turn moves backup i up, or stops consistently |
| `SessionLog.LogFiles.ShiftBackups` | xtask/src/session_history.rs:152-158 | the descending loop moves all backups up one place |
| `SessionLog.LogFiles.RotateLogs` | xtask/src/session_history.rs:151-166 | on any files: a complete rotation moves every file within the limit up and loses exactly the displaced oldest backup; from a consistent log it is consistent wherever it stops |
| `SessionLog.LogFiles.AppendEntry` | xtask/src/session_history.rs:121-148 | on any files: the entry is recorded as the newest exactly when the call succeeds; if the active file had at least the maximal number of bytes and backups are wanted, every file within the limit moved up and the entry is alone, else it is appended and nothing moved; with backups the files stay within the size limit; from a consistent log, failures leave a log that can be continued |
| `SessionLog.LogFiles.Write` | xtask/src/session_history.rs:140-147 | the append adds the entry as the newest and keeps consistency |
| `SessionLog.RenameReading` | xtask/src/session_history.rs:155-163 | a rename changes what is read back by exactly the overwritten content |
| `SessionLog.RenameKeepsSuffix` | xtask/src/session_history.rs:155-163 | into a free place nothing is lost; onto the oldest backup only that backup |
| `SessionLog.ShiftStep` | xtask/src/session_history.rs:152-158 | going downward, the place above is always free or the oldest |
| `SessionLog.LostByRename` | xtask/src/session_history.rs:151-166 | a rotation loses exactly the displaced oldest backup |
| `SessionLog.AppendReading` | xtask/src/session_history.rs:140-147 | an append adds the entry at the end of what is read back |
| `SessionLog.RenameConsistent` | xtask/src/session_history.rs:155-163 | a rename keeps consistency |
| `SessionLog.AppendConsistent` | xtask/src/session_history.rs:140-147 | an append keeps consistency |
| `SessionLog.NoLogIsConsistent` | xtask/src/session_history.rs:121-148 | the empty log is consistent |
| `SessionLog.StepConsistent` | xtask/src/session_history.rs:121-166 | every step of a run keeps consistency |
| `SessionLog.EveryRunReadsASuffix` | xtask/src/session_history.rs:121-166 | over every run, stopped and continued anywhere, the log reads as a suffix of all appended entries in order, and entries are missing only once the oldest backup place is full |
| `SessionLog.LoweredLimitLeavesGap` | xtask/src/session_history.rs:151-166 | a log written with two backups and continued with one loses its middle entry, as a witness |
| `SessionLog.RotationLoses` | xtask/src/session_history.rs:151-166 | a complete rotation loses exactly the displaced backup, whatever files lie beyond the limit |
| `SessionLog.RotationReading` | xtask/src/session_history.rs:151-166 | what a rotation does to a log read over more places than the limit |
| `SessionLog.RotationKeepsSuffixIff` | xtask/src/session_history.rs:151-166 | when a rotation under any limit leaves a suffix: exactly if nothing lies beyond the limit or nothing is displaced, for entries that do not repeat, and the exact condition for those that do |
| `SessionLog.AppendKeepsSuffixIff` | xtask/src/session_history.rs:121-166 | the same for a complete append under any limit |
| `SessionLog.AppendKeepsSuffixWithin` | xtask/src/session_history.rs:121-166 | read within the limit in force, every complete append leaves a suffix |
| `SessionLog.SizeIsBytes` | xtask/src/session_history.rs:133-135 | the size compared is the number of bytes on disk, each entry with its line feed |
| `SessionLog.RotatedPlaces` | xtask/src/session_history.rs:135-147 | place by place, what a rotation and the append after it leave |
| `SessionLog.AppendStaysWithinLimit` | xtask/src/session_history.rs:121-148 | with at least one backup, after any complete append the active file without its newest entry is below the limit, and the other files stay so |
| `SessionLog.EveryRunIsWithinLimit` | xtask/src/session_history.rs:121-148 | the same over every run of appends |
| `SessionLog.NoBackupsNoLimit` | xtask/src/session_history.rs:135-137 | without backups the active file keeps everything ever appended |
| `Claims.FindIsFirst` | xtask/src/claim.rs:83-99 | finds the first live claim on the crate, and none only if there is none |
| `Claims.CountIsViewSize` | xtask/src/claim.rs:102-120 | counts exactly the live claims |
| `Claims.ViewExpire` | xtask/src/claim.rs:126-155 | expiring leaves the live claims unchanged from then on |
| `Claims.ViewRelease` | xtask/src/claim.rs:222-229 | releasing removes exactly the claims on the named crate |
| `Claims.ViewLater` | xtask/src/claim.rs:83-120 | liveness only decays with time |
| `Claims.ExpireUnobservable` | xtask/src/claim.rs:126-155 | find and count give the same answers with and without an expiry |
| `Claims.StepRespectsView` | xtask/src/claim.rs:297-349 | databases with the same live claims answer alike and stay alike |
| `Claims.ExpiryCanBeSkipped` | xtask/src/claim.rs:126-155 | expiry steps can be dropped from any run without changing any answer |
| `Claims.StepStaysSafe` | xtask/src/claim.rs:297-350 | every step keeps at most one live claim per crate and the limit |
| `Claims.EveryRunIsSafe` | xtask/src/jules_preflight.rs:151-161 | over every run both bounds hold and the preflight never reports the limit exceeded |
| `Claims.LeaseStep` | xtask/src/claim.rs:297-308 | during a lease a step keeps the claim and refuses rivals |
| `Claims.LeaseExcludesRivals` | xtask/src/claim.rs:297-308 | in every run, until release or expiry, every rival claim is refused |
| `Claims.GrantStartsLease` | xtask/src/claim.rs:330-349 | a granted claim is the one found for exactly its four hours |
| `Claims.EveryRunContinues` | xtask/src/claim.rs:223-229 | a run never removes, reorders or revives an entry |
| `Claims.ReleaseIsLocal` | xtask/src/claim.rs:222-229 | a release frees the named crate and touches no other |
| `Claims.ClaimsDatabase.constructor` | xtask/src/claim.rs:55-64 | a missing file is an empty database |
| `Claims.ClaimsDatabase.ExpireStaleClaims` | xtask/src/claim.rs:126-155 | marks exactly the entries past their expiry, in place, and changes nothing else; zero is reported exactly if nothing changed |
| `Claims.ClaimsDatabase.RunRelease` | xtask/src/claim.rs:203-240 | marks exactly the active entries of the crate as released, in place; fails only without a crate |
| `Claims.ClaimsDatabase.RunClaim` | xtask/src/claim.rs:255-370 | succeeds exactly if the crate is named and the call is a dry run, repeats the first claim that holds the crate, or finds the crate free and the limit not reached; adds one entry exactly if it succeeds, is no dry run and found the crate free |
| `Claims.ClaimsDatabase.CheckNoActiveClaimConflict` | xtask/src/jules_preflight.rs:68-171 | the verdict over the entries alone: limit exceeded exactly if more of them hold their crates than allowed, else crate claimed exactly if one holds this crate; stale claims are expired |
| `Claims.FindMeaning` | xtask/src/claim.rs:83-100 | the claim found is the first entry that holds the crate, and none is found exactly if no entry does |
| `Claims.ViewMembers` | xtask/src/claim.rs:83-119 | the live claims are exactly the entries that are active and not past their expiry |
| `Claims.ViewAfterExpiry` | xtask/src/claim.rs:126-155 | after an expiry the live claims are those of the later of the two clock readings |
| `Claims.ClaimVerdict` | xtask/src/claim.rs:297-350 | when a claim is accepted, stated over the entries alone |
| `Claims.PreflightVerdict` | xtask/src/jules_preflight.rs:151-170 | the three outcomes of the preflight, stated over the entries alone |
| `Sha256Constants.FipsConstantsAreCubeRoots` | xtask/src/reproducible_build.rs:199-208 | the standard's 64 constants are the cube-root fractions of the first 64 primes |
| `FirstPrimes.TableListsThePrimes` | xtask/src/reproducible_build.rs:199-208 | the table of primes lists exactly the primes up to 311, in order |
| `Sha256Constants.ProgramConstantIsWrongExactlyAt62` | xtask/src/reproducible_build.rs:199-208 | the program's table is right at every index but 62 |
| `Sha256Constants.InitialHashIsSquareRoots` | xtask/src/reproducible_build.rs:195-198 | the initial value is right |
| `Sha256.PadMessage` | xtask/src/reproducible_build.rs:210-216 | pads as section 5.1.1 of FIPS 180-4 |
| `Sha256.FillSchedule` | xtask/src/reproducible_build.rs:219-232 | fills the schedule of section 6.2.2 step 1; `Sha256Example.KnownAnswer` computes through it |
| `Sha256.StepRound` | xtask/src/reproducible_build.rs:244-262 | one round of section 6.2.2 step 3 |
| `Sha256.RunRounds` | xtask/src/reproducible_build.rs:243-263 | the loop is the composition of the rounds |
| `Sha256.ProcessChunk` | xtask/src/reproducible_build.rs:218-273 | one chunk is one compression, with the program's table |
| `Sha256.HashChunks` | xtask/src/reproducible_build.rs:218-273 | the loop chains the compressions over full chunks |
| `Sha256.ComputeSha256` | xtask/src/reproducible_build.rs:194-279 | the result is the hexadecimal digest by the standard's algorithm with the program's table; `Sha256Example.KnownAnswer` is a worked example of both |
| `Sha256.PaddingIsShortest` | xtask/src/reproducible_build.rs:210-216 | the padding is the shortest whole number of blocks that fits |
| `Sha256.PaddingInjective` | xtask/src/reproducible_build.rs:210-216 | distinct messages have distinct paddings |
| `Sha256.ChainingComposes` | xtask/src/reproducible_build.rs:218-273 | hashing concatenated whole blocks composes |
| `Sha256.LateErrorSurvives` | xtask/src/reproducible_build.rs:243-263 | an error in the last constant but one shifts two words by exactly that error |
| `Sha256.CompressionIsAlwaysWrong` | xtask/src/reproducible_build.rs:199-273 | on every chaining value and block the compression differs from the standard's, by a known amount |
| `Sha256.BlockStepIsAlwaysWrong` | xtask/src/reproducible_build.rs:218-273 | the same on bytes |
| `Sha256.AgreementNeverLasts` | xtask/src/reproducible_build.rs:218-273 | wherever the two chains agree they differ one block later |
| `Sha256.ShortDigestsAreWrong` | xtask/src/reproducible_build.rs:194-279 | every message of at most 55 bytes gets a wrong digest, also in hexadecimal |
| `Sha256.HexInjective` | xtask/src/reproducible_build.rs:275-278 | the hexadecimal form determines the digest |
| `Sha256Example.ScheduleIsSchedule` | xtask/src/reproducible_build.rs:219-232 | every word of the schedule from the seventeenth on comes from the sixteen before it |
| `Sha256Example.ExampleIsDigest` | xtask/src/reproducible_build.rs:194-273 | the digest of "abc" with either table, computed through all 48 schedule words and 64 rounds |
| `Sha256Example.KnownAnswer` | xtask/src/reproducible_build.rs:194-279 | for "abc" the definition gives the digest of the standard's example, and with the program's table the program's |
| `MarkdownSections.MarkersDoNotOverlap` | xtask/src/main.rs:635-636 | marker occurrences never overlap |
| `MarkdownSections.RenderIsSplice` | xtask/src/main.rs:638-652 | rendering replaces exactly the text between the markers |
| `MarkdownSections.RenderOutcome` | xtask/src/main.rs:628-653 | it succeeds exactly if both markers exist in order, and keeps everything outside |
| `MarkdownSections.SpliceMovesFirst` | xtask/src/main.rs:649-652 | a splice moves first occurrences outside it by the change in length |
| `MarkdownSections.LastWriteWins` | xtask/src/main.rs:655-663 | an earlier write to the section leaves no trace |
| `MarkdownSections.RenderIdempotentIff` | xtask/src/main.rs:655-663 | writing twice is writing once exactly if the content lacks the end marker; otherwise the file grows |
| `MarkdownSections.WriteKeepsSections` | xtask/src/main.rs:655-663 | a write keeps all sections well formed and apart |
| `MarkdownSections.WritesCommute` | xtask/src/main.rs:1227-1247 | writes to different sections commute |
| `MarkdownSections.SyncKeepsSections` | xtask/src/main.rs:1227-1258 | a whole sync keeps the sections |
| `MarkdownSections.SettledStays` | xtask/src/main.rs:1227-1258 | a section that is up to date stays so while others are written |
| `MarkdownSections.SyncThenCheckPasses` | xtask/src/main.rs:1166-1200 | after a sync the drift check passes |
| `MarkdownSections.WriteKeepsOutside` | xtask/src/main.rs:649-652 | a write changes nothing outside the section |
| `MarkdownSections.SyncKeepsOutside` | xtask/src/main.rs:1227-1258 | nor does a sync |
| `RingLayering.CrateRingsFit` | xtask/src/check_ring_layering.rs:38-101 | the repository's ring table places the allowlisted crates as the theorems below assume |
| `RingLayering.CheckDependency` | xtask/src/check_ring_layering.rs:174-267 | reports a dependency between crates with rings exactly if it is not permitted, with both crates, both rings, its kind and whether it is allowlisted |
| `RingLayering.CheckRingLayering` | xtask/src/check_ring_layering.rs:141-272 | succeeds exactly if every crate is mapped, and then lists every violation exactly once, whatever the visiting order; the list is empty exactly if every dependency is permitted |
| `RingLayering.GateMeaning` | xtask/src/check_ring_layering.rs:313-360 | the strict gate passes exactly if every violation is allowlisted |
| `RingLayering.BuildMatrix` | xtask/src/check_ring_layering.rs:193-253 | a build dependency breaks the rules exactly if its rings are not allowed or a Ring 2 crate uses a crate outside the six named ones |
| `RingLayering.DevMatrix` | xtask/src/check_ring_layering.rs:193-253 | a development dependency breaks them exactly if a build dependency would and it is neither Ring 0 on tools nor Ring 1 on Ring 1 |
| `RingLayering.SpotlessIff` | xtask/src/check_ring_layering.rs:141-272 | nothing is reported exactly if all crates are mapped and every dependency is permitted |
| `RingLayering.EngineMayUseStore` | xtask/src/check_ring_layering.rs:236-236 | the repository's own dependency of the engine on the store is permitted |
| `RingLayering.InnerRingsAreClosed` | xtask/src/check_ring_layering.rs:193-253 | if the gate passes, no build chain leads from Rings 0, 1 and 3 to Ring 2, Ring 4 or tools |
| `RingLayering.EdgeDescends` | xtask/src/check_ring_layering.rs:193-253 | ring height never rises along a build dependency |
| `RingLayering.CyclesOfGated` | xtask/src/check_ring_layering.rs:76-101 | a build cycle that passes the gate stays within Rings 0 and 1, within Ring 3, or within Ring 4 and tools, and touches Ring 1 exactly if it takes the one allowlisted edge |
| `RingLayering.CyclesOfSpotless` | xtask/src/check_ring_layering.rs:193-253 | without violations, for any ring table, a build cycle lies within Ring 0, within Ring 3, or within Ring 4 and tools |
| `RingLayering.AllowlistedCyclePasses` | xtask/src/check_ring_layering.rs:77-82 | a cycle between Ring 0 and Ring 1 passes the strict gate |
| `Similarity.JaccardRange` | xtask/src/check_audit_duplication.rs:89-100 | symmetric, within 0 and 1, 1 exactly on equal non-empty sets, 0 exactly on disjoint ones |
| `Similarity.DistanceAsShare` | xtask/src/check_audit_duplication.rs:93-99 | one minus similarity is the share of the symmetric difference |
| `Similarity.TriangleSizes` | xtask/src/check_audit_duplication.rs:93-99 | the size inequalities behind the triangle inequality |
| `Similarity.JaccardTriangle` | xtask/src/check_audit_duplication.rs:89-100 | one minus similarity obeys the triangle inequality on all finite sets |
| `Similarity.CheckSections` | xtask/src/check_audit_duplication.rs:102-139 | lists exactly the pairs of large enough sections at or above the threshold, in order |
| `Similarity.CheckRow` | xtask/src/check_audit_duplication.rs:119-135 | one section against all later ones, exactly the matches, in order |
| `Similarity.MatchMeaning` | xtask/src/check_audit_duplication.rs:112-135 | a pair is reported exactly if both sections have at least three sentences and the shared ones reach the threshold's share of all |
| `Similarity.ChainedSections` | xtask/src/check_audit_duplication.rs:124-134 | two chained matches bound the similarity of the outer sections |
| `Similarity.GetTrigrams` | xtask/src/check_duplicate_intent.rs:51-64 | the loop collects the trigrams of the padded subject |
| `Similarity.TrigramsNonEmpty` | xtask/src/check_duplicate_intent.rs:51-64 | trigrams are missing only for the empty subject |
| `Similarity.TrigramsAre` | xtask/src/check_duplicate_intent.rs:51-64 | the trigrams are exactly the three-character parts of the subject between two blanks on each side |
| `Similarity.SubjectIsJaccard` | xtask/src/check_duplicate_intent.rs:66-88 | unless both subjects are empty, similarity is the Jaccard similarity of trigrams |
| `Similarity.SubjectTriangle` | xtask/src/check_duplicate_intent.rs:66-88 | symmetric, within 0 and 1, 1 exactly on equal trigram sets, triangle inequality, empty subjects included |
| `Similarity.ChainedSubjects` | xtask/src/check_duplicate_intent.rs:284-285 | two chained matches at 0.85 force 0.70 end to end |
| `Similarity.DifferentSubjectsFullSimilarity` | xtask/src/check_duplicate_intent.rs:66-88 | different subjects can have similarity 1 |
| `AdrGenerator.HeadingRoundTrip` | xtask/src/main.rs:1454-1463 | the checker reads back the number that the generator formats |
| `AdrNumbers.CheckAdrConsistency` | xtask/src/main.rs:1450-1495 | true exactly if no number repeats and every unused number between two used ones is mentioned |
| `AdrNumbers.CheckWindows` | xtask/src/main.rs:1476-1492 | the sorted windows cover exactly the gaps |
| `AdrNumbers.HasRepeat` | xtask/src/main.rs:1465-1474 | detects exactly the repetitions |
| `AdrNumbers.HeadingForm` | xtask/src/main.rs:1455-1463 | a line carries a number exactly if it is one or two hashes, the prefix and digits whose value fits |
| `AdrNumbers.FormatWidth` | xtask/src/main.rs:1482-1484 | numbers are written with at least three digits, longer ones without a leading zero |
| `AdrGenerator.RunGenerateAdr` | xtask/src/generate_adr.rs:105-198 | gives out one above the highest number seen, with the fallback to file names; a dry run changes nothing |
| `AdrGenerator.NextNumberMeaning` | xtask/src/generate_adr.rs:118-148 | the next number follows the highest in the log; if the log shows nothing above zero, the highest file number; else it is one |
| `AdrGenerator.AppendedNumbers` | xtask/src/generate_adr.rs:152-195 | an entry adds its own number and no other |
| `AdrGenerator.AppendedMentions` | xtask/src/generate_adr.rs:152-195 | an entry mentions exactly what its heading mentions; older mentions stay |
| `AdrGenerator.HeadingUnchanged` | xtask/src/generate_adr.rs:117-120 | what the generator reads at a line does not change when an entry is appended |
| `AdrGenerator.HeadingIsSeen` | xtask/src/generate_adr.rs:117-126 | the generator reads back the number that it formats |
| `AdrGenerator.AppendedSeen` | xtask/src/generate_adr.rs:117-126 | of its own entry the generator sees exactly the new number |
| `AdrGenerator.AgreementKept` | xtask/src/generate_adr.rs:116-198 | checker and generator go on reading the same numbers |
| `AdrGenerator.EveryRunStaysSound` | xtask/src/generate_adr.rs:105-198 | over every run the log stays sound |
| `AdrGenerator.BodyIsPlain` | xtask/src/generate_adr.rs:152-177 | the fixed template lines name no ADR |
| `AdrGenerator.GapAbove` | xtask/src/main.rs:1476-1492 | a higher number opens exactly the gap above the old maximum |
| `AdrGenerator.HigherNumber` | xtask/src/main.rs:1450-1495 | it keeps consistency exactly if the skipped numbers are mentioned |
| `AdrGenerator.GeneratedEntryConsistentIff` | xtask/src/generate_adr.rs:116-148 | a generated entry passes the check exactly if the log is empty or has a number above zero, or every skipped number is mentioned in the log or the new heading |
| `AdrGenerator.StepStaysSound` | xtask/src/generate_adr.rs:105-198 | on a sound log (consistent, read alike by both tools, empty or with a number above zero) one call keeps it sound and gives out the next number |
| `AdrGenerator.EveryRunStaysConsistent` | xtask/src/generate_adr.rs:105-198 | from a sound log, over every run the check passes, both tools agree, and the new numbers are consecutive |
| `AdrGenerator.ZeroOnlyLogBreaks` | xtask/src/generate_adr.rs:128-148 | a log holding only ADR-000 can become inconsistent |
| `BraceScanner.NextTokenIsOnlyLegal` | xtask/src/check_duplicate_symbols.rs:94-148 | at every point exactly one token may be read |
| `BraceScanner.ReadingIsUnique` | xtask/src/check_duplicate_symbols.rs:91-149 | a line has exactly one reading |
| `BraceScanner.ReadingIsLossless` | xtask/src/check_duplicate_symbols.rs:91-149 | nothing of a line is lost or read twice |
| `BraceScanner.RawMove` | xtask/src/check_duplicate_symbols.rs:94-109 | one move in a raw string reads the next token |
| `BraceScanner.StrMove` | xtask/src/check_duplicate_symbols.rs:110-117 | one move in a string reads the next token |
| `BraceScanner.CodeMove` | xtask/src/check_duplicate_symbols.rs:118-148 | one move in code reads the next token |
| `BraceScanner.ScanLine` | xtask/src/check_duplicate_symbols.rs:91-149 | the depth changes by the braces opened minus closed outside strings, raw strings and line comments |
| `BraceScanner.CodeThroughout` | xtask/src/check_duplicate_symbols.rs:118-148 | on a line without quote, slash and the letter r every brace counts |
| `BraceScanner.CharLiteralBraceCounts` | xtask/src/check_duplicate_symbols.rs:140-147 | a brace in a character literal counts |
| `BraceScanner.CfgStep` | xtask/src/check_duplicate_symbols.rs:60-88 | the pending attribute is the last one with only passive lines since |
| `BraceScanner.ScanFile` | xtask/src/check_duplicate_symbols.rs:47-150 | collects exactly the top-level declarations, in line order, with the attribute in force |
| `BraceScanner.ScanDeclaration` | xtask/src/check_duplicate_symbols.rs:56-150 | one line keeps depth, mode, pending attribute and the list of declarations right |
| `BraceScanner.DeclaresUnique` | xtask/src/check_duplicate_symbols.rs:68-83 | a line declares at most one symbol |
| `BraceScanner.CfgForm` | xtask/src/check_duplicate_symbols.rs:61-66 | the lines taken for attributes, by their form |
| `BraceScanner.PassiveForm` | xtask/src/check_duplicate_symbols.rs:84-88 | a pending attribute survives exactly blank lines, attributes and comments |
| `BraceScanner.TopLevelForm` | xtask/src/check_duplicate_symbols.rs:67-83 | a line declares exactly if the braces before it balance, nothing is open, it is not indented, and the pattern names a symbol other than `_` |
| `DuplicateSymbols.GroupBy` | xtask/src/check_duplicate_symbols.rs:158-164 | every key is mapped to its declarations in order |
| `DuplicateSymbols.GroupRecords` | xtask/src/check_duplicate_symbols.rs:336-358 | one group yields each reportable repetition of its first declaration once |
| `DuplicateSymbols.NameRecords` | xtask/src/check_duplicate_symbols.rs:156-181 | all attribute groups of one name, in any order |
| `DuplicateSymbols.Report` | xtask/src/check_duplicate_symbols.rs:152-185 | the output is the sorted list of exactly the records, for every visiting order |
| `DuplicateSymbols.KeysDiffer` | xtask/src/check_duplicate_symbols.rs:362-373 | sort keys are unique |
| `DuplicateSymbols.SortedIsUnique` | xtask/src/check_duplicate_symbols.rs:184-184 | a sorted list without ties is determined by its elements |
| `DuplicateSymbols.ReportIsUnique` | xtask/src/check_duplicate_symbols.rs:152-185 | the declarations determine the output |
| `DuplicateSymbols.ReportMeaning` | xtask/src/check_duplicate_symbols.rs:152-185 | a record is reported exactly if two declarations share kind, name and attribute, the first is the earliest of all, and across files the files differ |
| `DuplicateSymbols.ReportOrder` | xtask/src/check_duplicate_symbols.rs:184-185 | the report is in the order of first file, first line, duplicate file and duplicate line |
| `DuplicateSymbols.StringLessIff` | xtask/src/check_duplicate_symbols.rs:184-185 | paths compare by their first difference, a proper prefix first |
| `DuplicateSymbols.GroupGivesAllButFirst` | xtask/src/check_duplicate_symbols.rs:166-180 | within a file a group of n declarations yields exactly n-1 records against its first |
| `DuplicateSymbols.SpanningGroupIsReported` | xtask/src/check_duplicate_symbols.rs:344-356 | across files a group is reported exactly if its declarations are not all in one file |
| `DuplicateSymbols.ScanFileForDuplicates` | xtask/src/check_duplicate_symbols.rs:36-186 | scan and report of one file |
| `DuplicateSymbols.ScanCrateForDuplicates` | xtask/src/check_duplicate_symbols.rs:198-376 | scan and report across files |
| `DuplicateSymbols.WalkOrderIrrelevant` | xtask/src/check_duplicate_symbols.rs:208-376 | walking the same files in another order gives the same output |
| `GroundTruth.InsertRanked` | benchmarks/contextra-bench/src/ann_benchmarks.rs:103-103 | stable insertion keeps the ranking by distance, then index |
| `GroundTruth.NearestIndices` | benchmarks/contextra-bench/src/ann_benchmarks.rs:89-104 | the min(k, n) nearest indices, ranked, nothing closer omitted |
| `GroundTruth.ComputeGroundTruth` | benchmarks/contextra-bench/src/ann_benchmarks.rs:80-109 | that for every query |
| `GroundTruth.NearestHasNoRepeats` | benchmarks/contextra-bench/src/ann_benchmarks.rs:103-104 | no index is returned twice |
| `GroundTruth.NearestIsUnique` | benchmarks/contextra-bench/src/ann_benchmarks.rs:103-104 | the result is determined by the distances |
| `GroundTruth.NearestMeaning` | benchmarks/contextra-bench/src/ann_benchmarks.rs:97-104 | distances never decrease along the result, equal ones go by index, and nothing left out is closer than anything returned |
| `GroundTruth.FewerIsPrefix` | benchmarks/contextra-bench/src/ann_benchmarks.rs:103-104 | a smaller k gives a prefix |
| `GroundTruth.RecallAtK` | benchmarks/contextra-bench/src/ann_benchmarks.rs:112-133 | the loop computes the ratio the following rows are about |
| `GroundTruth.HitsAgainstIntersection` | benchmarks/contextra-bench/src/ann_benchmarks.rs:120-130 | the count is at least the intersection, and equal exactly if no true identifier repeats |
| `GroundTruth.RecallRange` | benchmarks/contextra-bench/src/ann_benchmarks.rs:112-133 | without repetition recall is within 0 and 1, 0 if nothing is wanted, and 1 exactly if all true neighbours are returned |
| `GroundTruth.DocumentedRecallIff` | benchmarks/contextra-bench/src/ann_benchmarks.rs:111-133 | when the ratio agrees with the documented one |
| `GroundTruth.TruthRecallsItself` | benchmarks/contextra-bench/src/ann_benchmarks.rs:80-133 | the ground truth has recall 1 against itself |
| `GroundTruth.RepeatedHitExceedsOne` | benchmarks/contextra-bench/src/ann_benchmarks.rs:112-133 | one identifier returned twice: recall 2 if it is the only true one, recall 1 although another is missing |
| `GroundTruth.RecallBoundedIff` | benchmarks/contextra-bench/src/ann_benchmarks.rs:112-133 | recall stays within 1 for every result exactly if there are at least k true neighbours |
| `GroundTruth.RecallOneMeansCompleteIff` | benchmarks/contextra-bench/src/ann_benchmarks.rs:112-133 | recall 1 means that no true neighbour is missing, for every result, exactly if only one identifier is wanted |
| `GroundTruth.OneWanted` | benchmarks/contextra-bench/src/ann_benchmarks.rs:117-123 | without repetitions in the truth that is: k is 1, or there is one true neighbour |

## Left out

- Git, cargo, curl, flatc and GitHub calls, the remote half of claims and preflight, printing and argument parsing: foreign processes and text output.
- File input and output: documents, lines and log files are values; torn writes within one entry, unreadable files and JSON parsing (a corrupt claims file loads as empty) are not modelled.
- Interleaved loads and saves of `claims.json` by several processes: the code takes no lock, so the claim theorems are about atomic steps.
- Clocks: every clock reading of a claim step is a parameter; runs assume that they do not go back.
- Floating-point rounding and NaN: distances and ratios are exact reals.
- Unicode case folding in `normalize_subject` and `normalize_sentence`: similarity starts from the normalised text.
- Regular expressions: the declaration pattern and the pattern for file names appear as given results; the generator's heading pattern is modelled, with the Unicode digits as a parameter.
- Which packages count as workspace members in the ring check (`xtask/src/check_ring_layering.rs:147-159`): the workspace is given as a map.
- The concrete distance functions, among them the square root in the cosine distance: the metric is a parameter.
- Titles and dates with line breaks in generated decision records.
- Conformance of the lexers and of the brace scanner to the full Rust grammar: comments, literals and braces are those the source looks for (raw strings, for one, are unknown to the blanking lexers).
- Machine widths: layers (`u8`) and decision numbers (`u32`) are bounded explicitly; brace depth, line numbers and sizes are unbounded.
- Sha256.ShortDigestsAreWrong: goes one way, for messages of one block only.  For longer messages `Sha256.AgreementNeverLasts` shows that the digests can only agree if the chains already differ and the last block cancels the difference; whether some message achieves that is a question about the compression function that is not settled here.
- BlankingLexer.StripIdempotent: the lookbehind variant takes the Unicode alphanumeric test as a parameter and assumes only that newline, slash and the two quotes are not alphanumeric.
- BraceScanner.ScanLine: knows strings, raw strings and line comments only, as the source does; a brace in a character literal (`BraceScanner.CharLiteralBraceCounts`) or in a block comment counts.
- MarkdownSections.SyncThenCheckPasses: section keys contain no angle bracket and no newline, as the keys in use do, and contents contain no marker of a section in the file.
- RingLayering.InnerRingsAreClosed: any ring table is allowed that places the five crates of the allowlist as the repository's does, which `RingLayering.CrateRingsFit` proves of the repository's own.
- AdrGenerator.EveryRunStaysConsistent: assumes that checker and generator read the same numbers from the first log (a heading with three hashes, say, is seen by the generator only), and that the lines below a heading do not contain the letter R, which `AdrGenerator.BodyIsPlain` proves of the template for any date without it.
- Every other gate of the toolchain (tag, date, coverage and mutation thresholds, pattern scanners, module-file resolution, `check_duplicate_core_primitives.rs`): single comparisons or file-system behaviour that would only add easy members.
