# A verified model of riAuth's checking scripts and fixtures

The Dafny modules here model the stateful cores of the scripts and fixtures that guard riAuth's
releases, and prove what those cores promise.

- **Rate-window admission** (`Snapshot`, `SnapshotDiff`, `RateWindow`, `Admission`,
  `AdmissionSnapshots`, `AdmissionStart`, `AdmissionText`): a canonical key/value snapshot, its diff by category, the
  60-second fixed window with saturating arithmetic, and the derivation of every legal snapshot after
  one admission.
- **Rust source checks** (`RustMask`, `RustMaskLaws`, `RustPieces`, `RustBody`, `UseTree`,
  `UseSyntax`, `UseTreeLaws`, `UseLayout`, `CrateGroups`, `GroupedRoots`): the masking scanner and the `use`
  tree expander.
- **Owned-resource ledger** (`Daemon`, `Ledger`): the container fixture against a daemon that may
  fail, lose replies, create late, and serve others meanwhile.
- **Browser demo** (`Budget`, `Demo`): nested deadlines under one alarm, and the one-shot sign-in.
- **Encoders** (`Base64`, `Der`) and **mail receivers** (`Smtp`, `QuotedPrintable`).
- **Benchmark** (`BenchServer`, `BenchPlan`, `BenchClient`, `BenchInstall`, `BenchConflict`,
  `BenchRun`, `Percentile`): optimistic concurrency under every interleaving, its clients, the request budget and
  nearest-rank percentiles.

`Bytes` holds byte strings and numerals, `Utf8` what its predicates mean, `Letters` the letters and digits
spelled out, and `Options` the optional values. `dafny verify dfyconfig.toml` checks the whole project.

The daemon, the clock, free space, provider answers, failing replies and other clients are
nondeterministic choices inside methods, so the contracts hold for all of them.
Objects that the source updates in place are classes; loops are loops, proved against functions.

Findings, each stated by a member of the table:

- The limiter's bound on a 60-second span is 2 * limit - 1, or 2 * limit when both ends count. It can
  fail only in the span that reaches second 2^64 - 1, where the window's end saturates and every request
  is admitted; the exact conditions are `RateWindow.WindowBoundExact` and `RateWindow.SpanBoundExact`.
- `grouped_roots` and `expanded_use_paths` disagree exactly when a name occurs only in items without a
  path, such as an empty group (`GroupedRoots.RootsAreHeads`, `GroupedRoots.EmptyGroupSeparates`).
- The request budget allows two requests per directory write and its comment counts a conflict
  refresh among them; a conflicting `bound_write` issues three. The allowance holds if and only if
  conflicts are at most half the writes, hence always without foreign mutations
  (`BenchInstall.InstallDirectory`; runs that break it: `BenchConflict.OneWriteOver`,
  `BenchConflict.TwoGroupsOver`).
- The background writer does not raise its revision after a success, so alone it conflicts on every
  second post (`BenchRun.GroupWriter`).
- The alarm is set relative to a time later than the clock reading it was computed from. It can fire
  after the least deadline by that lag, and by no more (`Budget.FiresInTime`, `Budget.Budget.Run`).
- A halt can leave the demo's secret in place after its flow was consumed, until `clear`, and can fail a
  run whose trace is complete. The points are those of `Demo.Server.Consume` and `Demo.Server.Verdict`.
- A halt can leave the phase deadline of a `limit` scope unrestored, until the next enclosing scope ends. In
  the two gaps of `limit` outside its `try`, it does so exactly if the scope narrowed the deadline, the
  guard of its store (`Budget.Budget.Scope`).

## Model

| member | source | states |
|---|---|---|
| `Snapshot.Read` | scripts/check-local-edition-transition-postgres.py:141-164 | the loop accepts a snapshot exactly if some list of valid rows with distinct keys prints to it within the bounds, and returns that list's map; otherwise it refuses |
| `Snapshot.AcceptsUnique` | scripts/check-local-edition-transition-postgres.py:141-164 | a snapshot is the print of at most one list of rows |
| `Snapshot.PackRows` | scripts/check-local-edition-transition-postgres.py:211-216 | the loop over ascending keys computes `Pack`, the print of the unique ascending list of the map's rows, or refuses above 8 MiB |
| `Snapshot.ReadPack` | scripts/check-local-edition-transition-postgres.py:206-219 | reading what was packed gives back the rows, for every valid map within the bounds |
| `Snapshot.PackRead` | scripts/check-local-edition-transition-postgres.py:218-219 | packing what was read gives back the bytes if and only if the keys were strictly increasing |
| `Snapshot.PackInjective` | scripts/check-local-edition-transition-postgres.py:211-216 | two maps with the same packed bytes are equal |
| `Utf8.ValidUtf8Means` | scripts/check-local-edition-transition-postgres.py:158 | octets are well-formed if and only if they encode some Unicode scalar values (section 3 of RFC 3629) |
| `Utf8.LessMeans` | scripts/check-local-edition-transition-postgres.py:211-216 | the byte order: at the first difference one word ends or has the smaller octet |
| `Utf8.HexSpells` | scripts/check-local-edition-transition-postgres.py:212 | every octet is spelled by two of the sixteen digits, the high half first |
| `SnapshotDiff.CountRows` | scripts/check-local-edition-transition-postgres.py:180-193 | the two counting loops compute, for every label, the five cardinalities of `Meaning`: rows before and after, keys added and removed, keys kept with another value |
| `SnapshotDiff.CategoryKeys` | scripts/check-local-edition-transition-postgres.py:166-177 | which keys each category holds, by their literal prefixes |
| `SnapshotDiff.SnapshotCounts` | scripts/check-local-edition-transition-postgres.py:136-193 | it succeeds exactly if both inputs are accepted, and then counts their two maps by category |
| `SnapshotDiff.Conserved` | scripts/check-local-edition-transition-postgres.py:181-193 | in every category, for all pairs: after = before - removed + added, and changed + removed is at most before |
| `SnapshotDiff.NoDeltaIsEqual` | scripts/check-local-edition-transition-postgres.py:181-193 | all deltas are zero if and only if the two maps are equal |
| `RateWindow.WindowBound` | src/store.rs:754-769 | over every run with non-decreasing times, at most `limit` requests are admitted in any stored window that starts before second 2^64 - 1, whatever was stored before |
| `RateWindow.SpanBound` | scripts/check-local-edition-transition-postgres.py:250-256 | over every such run, in every span that ends before second 2^64 - 1, at most 2 * limit requests are admitted from t through t + 60, and at most 2 * limit - 1 within 60 seconds |
| `RateWindow.SpanBoundTight` | scripts/check-local-edition-transition-postgres.py:250-256 | a run that reaches 2 * limit from t through t + 60 |
| `RateWindow.MinuteBoundTight` | scripts/check-local-edition-transition-postgres.py:250-256 | a run that reaches 2 * limit - 1 within 60 seconds |
| `RateWindow.WindowBoundExact` | src/store.rs:754-769 | over every run, every stored window keeps the limit if and only if no more than `limit` requests come at second 2^64 - 1 |
| `RateWindow.LastSecondSplits` | scripts/check-local-edition-transition-postgres.py:250-256 | a span that reaches second 2^64 - 1 admits what it admits before it, and all requests at it |
| `RateWindow.SpanBoundExact` | scripts/check-local-edition-transition-postgres.py:250-256 | over every run, all spans keep 2 * limit if and only if the last one does: what is admitted in its first 60 seconds plus the requests at second 2^64 - 1 |
| `RateWindow.SpanBoundByCount` | scripts/check-local-edition-transition-postgres.py:250-256 | one request at second 2^64 - 1 breaks no span; more than 2 * limit there break the last one |
| `RateWindow.LastSecondUnbounded` | scripts/check-local-edition-transition-postgres.py:251-254 | the inputs that break both bounds: where the addition saturates, every request opens a window and is admitted |
| `Admission.ReadRateExact` | scripts/check-local-edition-transition-postgres.py:225-229 | the pattern reads a record as (start, count) if and only if it is the canonical decimal print of that pair, of at most 20 and 10 digits |
| `Admission.ExpiryKeyOrder` | scripts/check-local-edition-transition-postgres.py:240-242 | the byte order of expiry keys is the numeric order of the expiry times, and equal keys mean equal times |
| `Admission.StepStored` | scripts/check-local-edition-transition-postgres.py:258-264 | one admission keeps the index in agreement with the rows: the counter row, the one expiry entry of the id and its place, and the stored pair |
| `Admission.RunStored` | scripts/check-local-edition-transition-postgres.py:250-265 | that agreement holds after any number of admissions |
| `Admission.StepValid` | scripts/check-local-edition-transition-postgres.py:259-265 | without a collision the new rows are valid snapshot rows, and as many as before |
| `Admission.StepDiff` | scripts/check-local-edition-transition-postgres.py:261-265 | the diff of one admission, in every category: the rate row changed unless the window is the same, one expiry entry added and one removed exactly if the expiry time moved, nothing else |
| `Admission.ChargeChanges` | scripts/check-local-edition-transition-postgres.py:251-254 | an admitted request leaves the stored pair unchanged only for the pair (2^64 - 1, 1) at second 2^64 - 1 |
| `AdmissionSnapshots.BracketSeconds` | scripts/check-local-edition-transition-postgres.py:198-204 | a sound bracket of nanoseconds spans at most seven Unix seconds |
| `AdmissionSnapshots.PrerequisitesUnique` | scripts/check-local-edition-transition-postgres.py:205-248 | a snapshot meets the structural prerequisites for at most one list of rows and one stored pair |
| `AdmissionSnapshots.CheckStored` | scripts/check-local-edition-transition-postgres.py:220-248 | the checks find the stored pair if and only if the rows satisfy the structural prerequisites |
| `AdmissionSnapshots.DeriveOne` | scripts/check-local-edition-transition-postgres.py:258-265 | the copy, replacement and packing of one derived snapshot, or its refusal for a collision or for size |
| `AdmissionSnapshots.DeriveSnapshots` | scripts/check-local-edition-transition-postgres.py:249-265 | the deduplicating loop: it yields one snapshot for each window charged at an admitted second, in the order of their starts, and raises only for a blocked one |
| `AdmissionSnapshots.RefusalAdmissionSnapshots` | scripts/check-local-edition-transition-postgres.py:196-265 | it raises exactly if the prerequisites fail or some second of the bracket is blocked; otherwise it yields exactly the single-step admissions over all seconds of the bracket, pairwise distinct and at most seven |
| `AdmissionSnapshots.OfferedMeetsPrerequisites` | scripts/check-local-edition-transition-postgres.py:230-265 | every derived snapshot satisfies all structural prerequisites again, with the charged pair, for any later bracket |
| `AdmissionSnapshots.OfferedDiff` | scripts/check-local-edition-transition-postgres.py:166-193 | diffing `before` with a derived snapshot gives zero in every category but rates and rate expiry, and there exactly the stated counts |
| `AdmissionStart.OneClientMeets` | scripts/check-local-edition-transition-postgres.py:198-248 | the prerequisites can be met: every client and every stored pair in range has a snapshot that meets them, for every sound bracket not before its window |
| `AdmissionText.StoreIsText` | scripts/check-local-edition-transition-postgres.py:206-248 | the store of one client, spelled line by line with `sha256`, base64url and literal octets, is the packed form of its rows |
| `AdmissionText.ReadyOnText` | scripts/check-local-edition-transition-postgres.py:198-248 | that text meets the prerequisites if and only if the bracket is in order and does not lie before the window |
| `AdmissionText.AdmissionsOfOneClient` | scripts/check-local-edition-transition-postgres.py:196-265 | on that text the generator raises if and only if the bracket is out of order or before the window, and otherwise yields exactly the texts with the pair of an admitted request at some second of it, spelled the same way |
| `Base64.DecodeEncodePadded` | scripts/recovery-drill-oidc.py:68-69 | padded decoding inverts padded encoding, for both alphabets |
| `Base64.AlphabetIs` | scripts/recovery-drill-oidc.py:68-69 | the alphabets, character by character (tables 1 and 2 of RFC 4648) |
| `Base64.QuantumValue` | scripts/recovery-drill-oidc.py:68-69 | three octets and their four sextets are the same number; a short last group is filled with zero bits |
| `Base64.B64UrlShape` | scripts/recovery-drill-oidc.py:68-69 | the encoding is the unpadded symbols of the sextets, of length ceil(4n/3), within the alphabet |
| `Base64.B64UrlInjective` | scripts/recovery-drill-oidc.py:68-69 | no two byte strings share an encoding |
| `Base64.DecodeB64UrlExact` | scripts/recovery-drill-oidc.py:72-82 | `decode_b64url` returns `raw` if and only if the text is `b64url(raw)` and `raw` is non-empty and at most 24576 bytes |
| `Der.ReadDer` | scripts/recovery-drill-oidc.py:127-132 | an independent reader of tag, minimal length and body returns what was encoded, and the rest |
| `Der.DerRead` | scripts/recovery-drill-oidc.py:127-132 | whatever that reader accepts is an image of the encoder: lengths are minimal (sections 8.1.3 and 10.1 of X.690) |
| `Der.DerPrefixFree` | scripts/recovery-drill-oidc.py:127-132 | encodings are prefix-free: equal concatenations have equal parts |
| `Der.ObjectSizesEncode` | scripts/recovery-drill-oidc.py:127-132 | every length below 2^63 is within the 126 length octets of the previous three |
| `Der.RsaEncryptionIs` | scripts/recovery-drill-oidc.py:146-149 | the algorithm identifier is the object 1.2.840.113549.1.1.1, encoded by section 8.19 of X.690, with NULL |
| `Der.ReadSpkiBack` | scripts/recovery-drill-oidc.py:142-149 | the SubjectPublicKeyInfo (section 2.3.1 of RFC 3279, appendix A.1.1 of RFC 8017) is read back to its modulus and exponent |
| `Der.WrappedAt` | scripts/recovery-drill-oidc.py:150-153 | the armoured text breaks after every 64 characters and changes nothing else |
| `Der.ReadPemBack` | scripts/recovery-drill-oidc.py:150-153 | the armoured text is read back to its bytes |
| `Der.KeyAccepted` | scripts/recovery-drill-oidc.py:135-144 | a key is accepted if and only if its modulus decodes to a minimal odd number of 2048 to 4096 bits and its exponent to 65537 |
| `Der.PublicKeyRoundTrip` | scripts/recovery-drill-oidc.py:135-154 | for every accepted key, the text is read back to exactly its modulus and exponent, and the signature size is the modulus size |
| `RustMask.MaskedRustSource` | scripts/check-module-boundaries.py:47-96 | the loop terminates on every string and computes `Mask` |
| `RustMask.SkipToken` | scripts/check-module-boundaries.py:56-93 | where the token at a position ends, branch by branch |
| `RustMask.SkipBlock` | scripts/check-module-boundaries.py:60-70 | the end of a block comment, with nesting |
| `RustMask.SkipString` | scripts/check-module-boundaries.py:82-90 | the end of a string, with escapes |
| `RustMaskLaws.MaskAt` | scripts/check-module-boundaries.py:91-96 | every position is either copied or masked, as a whole token |
| `RustMaskLaws.MaskPreserves` | scripts/check-module-boundaries.py:47-96 | length and every CR and LF are preserved, and characters change only to spaces |
| `RustMaskLaws.NoTokenInMask` | scripts/check-module-boundaries.py:47-96 | the mask has no comment, string or character literal at any position |
| `RustMaskLaws.MaskIdempotent` | scripts/check-module-boundaries.py:47-96 | masking twice is masking once, for every string |
| `RustPieces.CodeFound` | scripts/check-module-boundaries.py:56-93 | where the scanner agrees with the grammar on standing after a word, a position is copied if and only if no comment, string, raw-string opening or character literal of the grammar starts there; a raw identifier is code |
| `RustPieces.PieceFound` | scripts/check-module-boundaries.py:43-93 | in place, a line or nested block comment, string, raw string or character literal of the grammar is found as exactly one token, and code as none |
| `RustPieces.AgreesAfter` | scripts/check-module-boundaries.py:43-59 | the scanner stands in a word after a piece if and only if the piece ends one: `r"` and `'` open a literal only elsewhere |
| `RustPieces.MaskOfPieces` | scripts/check-module-boundaries.py:47-96 | the mask of any well-formed text is its code with every comment and literal blanked out; the grammar has its own notion of what stands after a word |
| `RustPieces.HexDigitsAre` | scripts/check-module-boundaries.py:44 | the digits of a unicode escape, spelled out |
| `RustBody.FunctionBody` | scripts/check-module-boundaries.py:99-115 | the body is the text up to the brace that closes the first one; none if no brace does |
| `RustBody.EnclosesUnique` | scripts/check-module-boundaries.py:107-115 | only one brace closes it |
| `UseTree.SplitUseBranches` | scripts/check-module-boundaries.py:172-185 | the loop computes `Split` |
| `UseTree.JoinSplit` | scripts/check-module-boundaries.py:172-185 | joining the branches on commas gives back the text, for every string |
| `UseTree.SplitJoin` | scripts/check-module-boundaries.py:172-185 | splitting joined parts gives them back if and only if each part is closed and has no comma outside braces |
| `UseSyntax.PathParts` | scripts/check-module-boundaries.py:197-201 | the parts of a printed path are its words, whatever the spacing and empty segments |
| `UseTreeLaws.HeadParts` | scripts/check-module-boundaries.py:196-197 | the parts of a group's head, with its trailing colons, are its words |
| `UseTreeLaws.LeafParts` | scripts/check-module-boundaries.py:200-201 | the parts of a leaf are its words, whatever its alias |
| `UseTreeLaws.ExpandItem` | scripts/check-module-boundaries.py:188-203 | a printed item expands to the paths it denotes, to any nesting, under any prefix |
| `UseTreeLaws.ExpandPrinted` | scripts/check-module-boundaries.py:188-203 | printing any well-formed tree and expanding it returns exactly its denoted paths |
| `UseLayout.SpacesAre` | scripts/check-module-boundaries.py:191-201 | the characters that `strip` and `\s` treat as space, listed |
| `UseLayout.IdentStartsAre` | scripts/check-module-boundaries.py:158 | the characters that start a root, listed |
| `UseLayout.ExpandLaidOut` | scripts/check-module-boundaries.py:188-203 | a tree laid out over lines, with line breaks, tabs and blanks around every item at every depth, expands to the paths of the tree without them |
| `CrateGroups.MatchExact` | scripts/check-module-boundaries.py:146 | the matcher finds `crate`, colons and brace with any space between them, and nothing else |
| `CrateGroups.StartsExact` | scripts/check-module-boundaries.py:146-147 | scanning from left to right finds every match: none is lost to overlapping |
| `GroupedRoots.GroupRoots` | scripts/check-module-boundaries.py:147-168 | the loop over one group computes `RootsFrom` |
| `GroupedRoots.GroupedRootsOf` | scripts/check-module-boundaries.py:144-169 | the outer loop collects the roots of the groups that all matches open, in order |
| `GroupedRoots.RootsOfGroup` | scripts/check-module-boundaries.py:147-168 | the roots of a printed group are the first words of its items |
| `GroupedRoots.RootsAreHeads` | scripts/check-module-boundaries.py:144-203 | every head of an expanded path is a root, and the two sets are equal if and only if every name among the items is also the name of an item that denotes a path |
| `GroupedRoots.RootsOfSource` | scripts/check-module-boundaries.py:144-203 | for a whole source: the roots are the first words of the items of all groups, and equal the heads of all expanded paths if and only if every such word is shared by an item that denotes a path |
| `UseLayout.RootsLaidOut` | scripts/check-module-boundaries.py:144-169 | and has its roots |
| `GroupedRoots.EmptyGroupSeparates` | scripts/check-module-boundaries.py:144-203 | `a::{}`: one root, no path |
| `Smtp.ReadSmtpData` | examples/portal_fixture.rs:160-207 | the loop computes `Idle` on the lines of the input |
| `Smtp.CommandsAre` | examples/portal_fixture.rs:190-200 | EHLO, MAIL FROM and RCPT TO lines, spelled out, neither open the data phase nor end the session |
| `Smtp.DataAndQuitAre` | examples/portal_fixture.rs:190-200 | a DATA line opens it and a QUIT line ends the session |
| `Smtp.IdleBounded` | examples/portal_fixture.rs:181-197 | no returned message exceeds 65536 bytes, on any input |
| `Smtp.MailsReceived` | examples/portal_fixture.rs:160-207 | mails sent one after another are received in order, whatever follows them |
| `Smtp.SessionReturnsMessages` | examples/portal_fixture.rs:160-207 | for every list of messages of CRLF lines within the bound, dot-stuffed and sent (section 4.5.2 of RFC 5321), the session returns exactly that list |
| `QuotedPrintable.Decode` | examples/portal_fixture.rs:239-267 | the loop computes `DecodeFrom` |
| `QuotedPrintable.DecodePrinted` | examples/portal_fixture.rs:239-267 | decoding inverts every encoding built from literals, =HH and soft breaks (section 6.7 of RFC 2045) |
| `QuotedPrintable.DecodeEncoded` | examples/portal_fixture.rs:239-267 | decoding what an encoder wrote, octet by octet as itself or as `=` with two digits of either case, with soft breaks anywhere, gives the octets back |
| `QuotedPrintable.WellFormedIsPrinted` | examples/portal_fixture.rs:239-267 | every text whose every `=` starts an escape or a soft break is such an encoding |
| `QuotedPrintable.PrintedIsWellFormed` | examples/portal_fixture.rs:239-267 | and every such encoding is such a text |
| `Ledger.GoneForEver` | scripts/check-container-runtime.py:117-122 | once nothing of the run is left and nothing of it is still to appear, that stays so, whatever others do |
| `Ledger.DriftKeepsSafe` | scripts/check-container-runtime.py:162-166 | what others do between two commands keeps every container of the run in the ledger and every observed identifier ours |
| `Ledger.DriftKeepsSafeVolumes` | scripts/check-container-runtime.py:124-134 | the same for volumes |
| `Ledger.Fixture.constructor` | scripts/check-container-runtime.py:51-62 | the run starts with an empty ledger that is valid when nothing carries its label |
| `Ledger.Fixture.ContainerAbsent` | scripts/check-container-runtime.py:117-122 | a positive answer means that no container has the name |
| `Ledger.Fixture.IssueContainer` | scripts/check-container-runtime.py:139-155 | a creation whose reply is lost may take effect now, later or never; the ledger covers all three |
| `Ledger.Fixture.InspectOwned` | scripts/check-container-runtime.py:162-166 | an identifier counts as observed only with the run's label |
| `Ledger.Fixture.Container` | scripts/check-container-runtime.py:136-160 | whichever step fails, the container is in the ledger; on success its observed identifier is recorded; undisturbed, it succeeds if and only if the name is free |
| `Ledger.Fixture.Remove` | scripts/check-container-runtime.py:168-176 | only the recorded identifier, or an observed one when none is recorded, is stopped or removed; a running container is stopped before `rm`, which refuses it; undisturbed, the removal succeeds if and only if the name is in the ledger; on success the name is dropped, and an interruption may also fall just after that |
| `Ledger.Fixture.Tool` | scripts/check-container-runtime.py:178-197 | a tool container that returns is gone again; a failed removal after a failure is noted |
| `Ledger.Fixture.CreateVolume` | scripts/check-container-runtime.py:124-134 | the volume is in the ledger before it can exist |
| `Ledger.Fixture.RemoveVolume` | scripts/check-container-runtime.py:331-342 | a volume is removed only with the creation time that was recorded; undisturbed, the removal succeeds; on success it is dropped, and an interruption may also fall just after that |
| `Ledger.Fixture.CleanContainers` | scripts/check-container-runtime.py:326-331 | every container left in the ledger was noted |
| `Ledger.Fixture.CleanVolumes` | scripts/check-container-runtime.py:332-342 | every volume left in the ledger was noted |
| `Ledger.Fixture.Cleanup` | scripts/check-container-runtime.py:326-344 | the notes added are at least as many as the entries left; undisturbed, no entry is left and none is noted |
| `Ledger.Fixture.Perform` | scripts/check-container-runtime.py:117-197 | every step of the run keeps the invariant |
| `Ledger.Fixture.Session` | scripts/check-container-runtime.py:369-389 | over every run, with failures, lost replies and interruptions anywhere: containers of the run are in the ledger, only observed identifiers were stopped or removed, and a receipt that counts nothing as remaining, on failed runs too, means nothing of the run is left or can still appear; no cleanup notes, and hence `ok`, mean that nothing is counted; a run that nothing disturbs always ends with such a receipt, whatever its own steps do |
| `Budget.Least` | scripts/d01-confidential-browser-demo.py:196 | the least pair, ties broken by the tag |
| `Budget.FiresInTime` | scripts/d01-confidential-browser-demo.py:190-199 | the alarm fires by the least deadline if and only if there was no lag between reading the clock and setting the timer, or the deadline was further off than a second and the lag; it is late by at most the lag |
| `Budget.FiresLate` | scripts/d01-confidential-browser-demo.py:190-199 | a reading and a setting for which it is late |
| `Budget.GovernsUnique` | scripts/d01-confidential-browser-demo.py:201-206 | one deadline and one tag govern |
| `Budget.Opens` | scripts/d01-confidential-browser-demo.py:203-206 | a new scope governs exactly if it ends strictly before all open ones |
| `Budget.GoverningIsLeast` | scripts/d01-confidential-browser-demo.py:201-206 | what the nested stores keep is the minimum of all open scopes, and of several equal ones the outermost |
| `Budget.GoverningMore` | scripts/d01-confidential-browser-demo.py:201-211 | further scopes change the kept deadline and tag if and only if one of them narrows the deadline, and then they are what those scopes keep among themselves |
| `Budget.Budget.Sample` | scripts/d01-confidential-browser-demo.py:181-189 | the number of samples and their minimum are recorded even when the budget halts; it refuses for the margin if and only if the last sample is below it |
| `Budget.Budget.LeastActive` | scripts/d01-confidential-browser-demo.py:191-196 | the least of the fixture, phase and pending deadlines |
| `Budget.Budget.SetTimer` | scripts/d01-confidential-browser-demo.py:199 | the delay is the time to the least deadline or a second, and never zero |
| `Budget.Budget.TickAmid` | scripts/d01-confidential-browser-demo.py:180-199 | the same when the alarm fires inside `tick`, any number of times, before the timer is set |
| `Budget.Budget.Tick` | scripts/d01-confidential-browser-demo.py:180-199 | it arms the timer, bounded by one second and the active deadlines and never at zero, or halts with the tag of the least passed deadline and sets no timer |
| `Budget.Budget.Pass` | scripts/d01-confidential-browser-demo.py:180-199 | after any time, with the alarm handled if it fired, the alarm is still to come unless the budget halted |
| `Budget.Budget.SetPending` | scripts/d01-confidential-browser-demo.py:333-334 | the pending deadline is set with the timer still bounded |
| `Budget.Budget.Scope` | scripts/d01-confidential-browser-demo.py:201-214 | without a halt between storing and entering the `try`, or inside the `finally`, the deadline and tag are restored exactly on every exit, and what a halt left of scopes inside is repaired; with one there, the deadline is restored if and only if it was taken back or the scope did not narrow it, which is the guard of its store, and the tag if and only if it was never stored, the scope did not narrow, or the tags are equal; with torn scopes inside, the same over all that are stuck |
| `Budget.Budget.Run` | scripts/d01-confidential-browser-demo.py:180-214 | for any nesting, with alarms and signals between and inside steps: at every point the minimum of all open scopes governs, no armed timer lies beyond it or beyond a second but for the arming lag, and work that was not halted passed no deadline by more than that lag |
| `Demo.CallbackFields` | scripts/recovery-drill-oidc.py:295-310 | a code if and only if the query binds it to the state and the issuer |
| `Demo.CodeCharsAre` | scripts/recovery-drill-oidc.py:307-308 | the characters of a code, listed |
| `Demo.AtMostOnce` | scripts/d01-confidential-browser-demo.py:325-392 | a run has at most one flow and at most one token exchange, with that flow's verifier |
| `Demo.CompleteRun` | scripts/d01-confidential-browser-demo.py:462-587 | what the requests of a complete run were, in order: a cookieless GET of the protected page, the login, the callback that presents the flow's cookie, and the protected page with the fresh cookie |
| `Demo.Server.Begin` | scripts/d01-confidential-browser-demo.py:325-342 | a flow starts only if none was attempted |
| `Demo.Server.Exchange` | scripts/d01-confidential-browser-demo.py:344-371 | the token exchange is attempted if and only if cookie, state and issuer match the flow and no halt falls before the state is recorded or on entering the limit around the request |
| `Demo.Server.Identify` | scripts/d01-confidential-browser-demo.py:372-386 | the cookie is issued only after the token, and a userinfo subject equal to the token's |
| `Demo.Server.Consume` | scripts/d01-confidential-browser-demo.py:347-392 | after a flow was taken the secret is gone if and only if no halt fell before the `try` was entered or inside the `finally`; the failing points are named |
| `Demo.Server.Callback` | scripts/d01-confidential-browser-demo.py:344-392 | a callback consumes the pending flow once; the secret as above, and its deadline is dropped unless a halt fell before that |
| `Demo.Server.FetchProtected` | scripts/d01-confidential-browser-demo.py:572-587 | access is granted exactly for the fresh cookie, and a grant before the denial was seen is a failure; a halt may fall after the grant |
| `Demo.Server.SignIn` | scripts/d01-confidential-browser-demo.py:522-530 | the redirect is recorded only after it was sent |
| `Demo.Server.Handle` | scripts/d01-confidential-browser-demo.py:462-547 | every request keeps the trace on the script and is the cause of the events it adds; an undisturbed one moves the run exactly as its method, target and cookies say, and ends in idling, in being done, or in a halt; before the flow three timeouts and three Authorization headers are tolerated, and the fourth of either ends the run; an exception while the connection is closed fails the run, even after the grant |
| `Demo.Server.Verdict` | scripts/d01-confidential-browser-demo.py:689-692 | a halt before the verdict fails the record, even after a complete trace; otherwise it passes if and only if the trace is complete and every connection was closed without an exception |
| `Demo.Server.Serve` | scripts/d01-confidential-browser-demo.py:686-692 | over every sequence of requests and halts the run passes if and only if no halt fell before the verdict, no exception while a connection was closed, and the trace is complete: every event caused by a request that was sent, in their order: cookieless 403 before any login, redirect, fully verified callback, then 200 with the fresh cookie |
| `Demo.Server.Clear` | scripts/d01-confidential-browser-demo.py:394-398 | all private references and the pending deadline are dropped, whatever happened before |
| `BenchServer.RevisionCounts` | scripts/q09_benchmark_slice.py:1869-1886 | for every interleaving, the revision is the first one plus the number of successful mutations |
| `BenchServer.CommitOrder` | scripts/q09_benchmark_slice.py:1869-1886 | the commits carry the revisions in order, without gap |
| `BenchServer.OncePerTag` | scripts/q09_benchmark_slice.py:1879-1885 | no If-Match value commits twice |
| `BenchServer.TagText` | scripts/q09_benchmark_slice.py:1880 | the tag is the canonical decimal of the revision between double quotes |
| `BenchServer.CommitStatuses` | scripts/q09_benchmark_slice.py:1869-1886 | which request gets which status, and that every refusal leaves the state alone |
| `BenchServer.RevisionGuards` | scripts/q09_benchmark_slice.py:1879-1885 | while the revision stands still, so does the directory |
| `BenchServer.NoLostUpdate` | scripts/q09_benchmark_slice.py:1879-1885 | a mutation based on a revision that was read commits only on the directory that was read |
| `BenchServer.RunKeepsSound` | scripts/q09_benchmark_slice.py:1962-2021 | accounts keep their own identifiers, groups hold only identifiers of accounts, and the group counter is their number |
| `BenchServer.FixtureRun` | scripts/q09_benchmark_slice.py:1824-1886 | from the start: revision = 1 + successful mutations, and the directory is sound |
| `BenchServer.Server.CommitMutation` | scripts/q09_benchmark_slice.py:1869-1886 | 401, 428, 409, or the mutation's own status, with the revision raised exactly on 200 |
| `BenchPlan.NumberInjective` | scripts/q09_benchmark_slice.py:190-191 | numbered names are distinct |
| `BenchPlan.MembershipMeaning` | scripts/q09_benchmark_slice.py:192-196 | a pair is planned if and only if its group and its user are |
| `BenchPlan.PlanAdmissible` | scripts/q09_benchmark_slice.py:182-203 | the pairs are distinct, cover every group with every member, and number groups * (users + 1) |
| `BenchPlan.ValidateShape` | scripts/q09_benchmark_slice.py:280-292 | a shape is accepted if and only if its sizes are in range and the estimate is at most 500 |
| `BenchClient.Client.Send` | scripts/q09_benchmark_slice.py:1400-1410 | a success leaves the server one revision further; without other mutators an answer is that of the server's commit; a request or its answer may be lost |
| `BenchClient.Client.BoundWrite` | scripts/q09_benchmark_slice.py:1397-1415 | the revision it returns is the server's; without other mutators and with the server's revision it never conflicts; its requests are one, and two more for a conflict |
| `BenchInstall.CreateUsers` | scripts/q09_benchmark_slice.py:1456-1467 | the accounts and the recorded identifiers are exactly those of the plan |
| `BenchInstall.CreateGroups` | scripts/q09_benchmark_slice.py:1468-1473 | the planned groups, empty |
| `BenchInstall.AddMembers` | scripts/q09_benchmark_slice.py:1474-1486 | each group's members, and the members expected of it, are those of the memberships |
| `BenchInstall.ReadBack` | scripts/q09_benchmark_slice.py:1487-1522 | it succeeds only on the planned directory, and alone always does |
| `BenchInstall.EveryoneCounts` | scripts/q09_benchmark_slice.py:1518-1522 | a group has users + 1 members: no two share an identifier |
| `BenchInstall.InstalledSession` | scripts/q09_benchmark_slice.py:1487-1493 | the session's groups are exactly the planned ones |
| `BenchInstall.InstallDirectory` | scripts/q09_benchmark_slice.py:1443-1528 | if it returns, every planned group holds exactly the administrator and all extra users and the session's groups are the planned ones; alone on a fresh fixture it never conflicts and returns unless a request is lost; it keeps its allowance if and only if conflicts are at most half the writes |
| `BenchInstall.ForeignWriteConflicts` | scripts/q09_benchmark_slice.py:1879-1880 | a foreign commit makes every write based on the earlier revision conflict |
| `BenchConflict.WriteDisturbed` | scripts/q09_benchmark_slice.py:1397-1415 | a foreign commit before a write makes it cost three requests |
| `BenchConflict.OneWriteOver` | scripts/q09_benchmark_slice.py:229-235 | a one-write plan and one foreign commit: eight requests, seven allowed |
| `BenchConflict.TwoGroupsOver` | scripts/q09_benchmark_slice.py:229-235 | a successful installation of two groups, on exactly the planned directory, with fifteen requests, thirteen allowed |
| `BenchRun.GroupWriter` | scripts/q09_benchmark_slice.py:1340-1377 | at most 1 + 2 * cap requests whatever others do and whatever is lost, every post a success, a conflict or an error; alone, every second post conflicts and nothing else fails |
| `BenchRun.InstallLeavesNames` | scripts/q09_benchmark_slice.py:1352 | the installed directory leaves the writer's names free |
| `BenchRun.MeasuredPass` | scripts/q09_benchmark_slice.py:1262-1314 | warmup + iterations + 2 requests, fewer only when a warm-up read or the first metrics document fails |
| `BenchRun.RunSlice` | scripts/q09_benchmark_slice.py:229-260 | for every accepted shape, without foreign mutations the requests issued never exceed the estimate, hence 500; with them, while conflicts are at most half the writes; a run that goes through stays below the estimate by exactly the posts and refreshes its writer did not use, and by the writes less two for each conflict |
| `Percentile.PercentileMeaning` | scripts/q09_benchmark_slice.py:136-143 | the least sample with at least the rank's number of samples at or below it |
| `Percentile.RankExact` | scripts/q09_benchmark_slice.py:141-142 | for a quantile in (0, 1] the rank is ceil(n * q) |
| `Percentile.PermutationInvariant` | scripts/q09_benchmark_slice.py:136-143 | the order of the samples does not matter |
| `Percentile.PercentileMonotone` | scripts/q09_benchmark_slice.py:136-143 | a higher quantile gives no smaller value |
| `Percentile.Distribution` | scripts/q09_benchmark_slice.py:146-159 | min <= p50 <= p95 <= p99 <= max, each the nearest rank it names, for every non-empty list |

## Left out

- The riAuth server, its edition handoff, tokens and sessions: the scripts observe them from outside.
- Ledger.Fixture.Session: a run stops at its first exception, as `run` does; the deadline of the fixture and the archive it writes are not modelled.
- Ledger.Fixture.RemoveVolume: volumes are removed by name, so a volume that another user puts in its place between inspection and removal is not excluded.
- RateWindow.WindowBound: it is about one client whose row is kept; the store may evict the oldest row of a full table, which restarts that client's window.
- Snapshot.Read: the kinds of refusal are one `None`.
- AdmissionSnapshots.RefusalAdmissionSnapshots: SHA-256 is any function with 32-byte results; the arguments are integers, so the type checks of the source are not modelled.
- RustPieces.MaskOfPieces: `str.isalnum` is a parameter, required only to refuse the quotes, `#` and `/`.
- RustMaskLaws.MaskIdempotent: `str.isalnum` is a parameter, required only to refuse the quotes, `#` and `/`.
- GroupedRoots.GroupedRootsOf: the class of word characters is a parameter.
- RustBody.FunctionBody: the end of the matched signature is a parameter.
- UseTreeLaws.ExpandPrinted: the grammar has words, aliases, groups, empty items and any spacing; texts outside it expand as the model of the code says, without a meaning of their own.
- Der.PublicKeyRoundTrip: the reader is this project's own, not OpenSSL; signatures are not verified.
- Smtp.SessionReturnsMessages: the input is what arrives before the connection ends or fails; timing is not modelled.
- Demo.Server.Serve: provider answers and the verification of the ID token are nondeterministic; the setup before the listener and the cleanup after the verdict are not modelled, nor are the limits of `HeaderReader` beyond their refusal.
- Demo.Server.Clear: the emptying of the pending record itself is not modelled, only that nothing refers to it.
- Demo.Server.Handle: the reason recorded for an invalid request and the two tags of a refused cookie header are not told apart.
- BenchConflict.Write: foreign mutations commit before the first attempt of a write; `BenchClient.Client.BoundWrite` allows them anywhere.
- BenchRun.RunSlice: the writer's requests are counted beside those of the second pass; their interleaving does not change the count.
- Metrics contents, process sampling, pacing, TLS, PostgreSQL and report redaction in the benchmark.
- The text-search rules of `main` in the module-boundary script, and the release, documentation and attestation checkers: they would only add one-branch members.
