# Evidence machinery, modelled and proved

This Dafny project models the programs that decide whether a compiler's test evidence
can be trusted, and proves what they are relied on for. The compiler itself is not part
of this model.

`dafny verify dfyconfig.toml` checks everything.

## What is modelled

- **The emit ratchet** (`RowTables`, `EmitRows`, `EmitPayload`, `EmitForms`, `Subsequence`,
  `EmitGate`, `EmitOrder`, `EmitDocuments`, `EmitDocumentForms`, `EmitHistory`): which emit artifact may follow which. Row validation, the four
  comparisons, the gate over sharded documents and the check of the committed history.
  The combined relation is a partial order on validated tables.
- **The capture store** (`CaptureProtocol`, `CaptureStore`, `CaptureForms`, `CaptureManifest`,
  `CaptureProcess`, `CaptureRuns`): writers in many
  processes publish files once; an independent validator reads what they leave. The protocol
  is a state machine over single file-system operations, with faults and killed processes.
- **The diagnostic pipeline** (`Diagnostics`, `DiagnosticLaws`, `DiagnosticRoundTrip`, `DiagnosticForms`,
  `Evidence`, `EvidenceForms`, `Variants`, `VariantForms`, `Results`): from process output to aggregated evidence and the cache gate.
- **The concurrent runner** (`Runner`, `RunnerResults`): tests under a semaphore update shared counters in
  several atomic steps; the final accounting follows in every interleaving.
- **Hashing and framing** (`Fips180`, `Fips180Constants`, `Fips180Example`, `Sha256`, `Sorting`,
  `Framing`, `FramingForms`, `PackageWalk`, `PackageForms`): the hand-written SHA-256 against
  FIPS 180-4, whose constants are derived from roots of primes and whose steps are followed
  through for one message, and the byte framings that are hashed.
- **Lexers** (`Jsonc`, `JsoncForms`, `JsoncLaws`, `RustMask`, `RustMaskForms`, `RustMaskLaws`,
  `RustMaskSource`, `LibraryTokens`, `LibraryForms`, `LibraryNames`, `LibraryScopes`, `SourceText`): index-driven scans against
  recursive lexers, the lexers against grammars, and what the scans guarantee.
- **Graphs, fixpoints and floors** (`Reachability`, `ReachabilityForms`, `TaintedNames`,
  `ArchitectureFloor`).

Loops and in-place updates of the sources are methods; each is proved against a function or
predicate whose own laws are proved as lemmas. The two concurrent programs are state machines
over their atomic steps, and every theorem about them ranges over all runs.

The modules whose names end in `Forms`, and `RunnerResults`, `RustMaskSource`, `LibraryScopes`,
`Fips180Constants` and `Fips180Example`, say what is accepted and what comes out in terms of
literal characters, field texts, verdicts and numbers, without the definitions they are about.

## Findings

- Transitivity of the emit gate does not need the rule that passed and skipped surfaces carry
  no payload. It needs absent rows to be rejected (`EmitOrder.AbsentRowsBreakTransitivity`; the
  exact condition is `EmitOrder.StepsCompose`) and the status rule beside the payload rule
  (`EmitOrder.PayloadAloneIsNotTransitive`; exactly when: `EmitOrder.PayloadComposes`). The rule
  is what makes the gate antisymmetric (`EmitOrder.PassPayloadBreaksAntisymmetry`; exactly
  when: `EmitOrder.SurfacesDiffer`, `EmitOrder.MutualTables`).
- Acceptance of a settled capture store needs neither NUL-free names nor a digest without
  collisions; it fails exactly for leftover temporary blobs, empty names and missing options
  (`CaptureStore.SettledStoreAccepted`). Nothing is asked of JSON coding but that the records
  that were written read back (`CaptureStore.SomeEnvironment`).
- Diagnostics round-trip exactly when the line is unambiguous, not only for file names without
  a parenthesis (`DiagnosticRoundTrip.PrimaryRoundTrip`).
- The package framing with NUL separators is not injective. A package shares its bytes with
  another one exactly when it has two or more files, or one file in which a second one is
  hidden between NUL bytes (`Framing.CollidesExactly`, `PackageWalk.PackageCollides`).
- The Rust scan cuts the escaped quote `'\''` short: an escaped character is one token exactly
  when what follows the backslash has no quote and at most 14 characters
  (`RustMaskForms.EscapedCharacter`).
- Dropping trailing commas is not idempotent; `JsoncLaws.CommasDroppedAgain` says when it is.

## Model

| member | source | states |
|---|---|---|
| RowTables.IndexRows | scripts/ci/check-emit-regression-set.py:200-326 | an artifact is indexed exactly when every row is valid and no identity repeats, and then every row is found under its identity |
| RowTables.MergeShards | scripts/ci/check-emit-regression-set.py:702-722 | merging shards succeeds, and gives the table, exactly as for one artifact holding all their rows |
| EmitRows.ReadRowSound | scripts/ci/check-emit-regression-set.py:242-325 | whatever reading accepts satisfies the status, selection and payload rules the comparisons rely on; with explicit selection only selected surfaces have parity, the effective match is parity and outcome together, and a complete artifact explains the parity it lacks |
| EmitPayload.OutcomeRoundTrip | scripts/ci/check-emit-regression-set.py:374-394 | reading a typed outcome gives back the codes it was written with, in order, for any exit and any list of codes, the empty one included |
| EmitForms.StatusesRead | scripts/ci/check-emit-regression-set.py:67-80 | a text is read as a status exactly when it is the name of that status |
| EmitForms.AcceptedRows | scripts/ci/check-emit-regression-set.py:242-325 | a row is accepted exactly when the texts and flags in its fields are valid, written out field by field |
| EmitForms.RowReads | scripts/ci/check-emit-regression-set.py:242-325 | an accepted row is read as what its fields say: identity, statuses by name, parity and codes |
| EmitForms.MovesListed | scripts/ci/check-emit-regression-set.py:333-371 | the statuses a status may become, name by name |
| EmitForms.RowMoves | scripts/ci/check-emit-regression-set.py:449-469 | two valid rows compare without a status regression exactly when each pair of status texts is a listed move |
| EmitForms.PayloadRead | scripts/ci/check-emit-regression-set.py:374-394 | the payload of a typed outcome is read as its codes, as no codes for `<none>`, and is an error when it is empty or holds anything that is no code |
| EmitForms.MarkerNeeded | scripts/ci/check-emit-regression-set.py:374-394 | an outcome without its payload marker is an error |
| EmitForms.NoOutcome | scripts/ci/check-emit-regression-set.py:374-394 | exactly what does not begin as an outcome establishes none |
| EmitForms.OutcomeHeld | scripts/ci/check-emit-regression-set.py:403-446 | when one surface holds its outcome, by embedding of its codes |
| EmitForms.RowsCompare | scripts/ci/check-emit-regression-set.py:333-491 | one accepted row may follow another exactly when its three status texts move as listed, proven parity stays and both outcomes are held |
| Subsequence.IsOrderedSubsequence | scripts/ci/check-emit-regression-set.py:397-400 | the pass that shares one iterator over the baseline answers yes exactly when a strictly increasing embedding of the codes exists |
| Subsequence.SubTransitive | scripts/ci/check-emit-regression-set.py:397-400 | deleting codes twice is deleting codes |
| Subsequence.SubShrinks | scripts/ci/check-emit-regression-set.py:397-400 | no code becomes more frequent, and equal length means the same sequence |
| EmitGate.StatusOrder | scripts/ci/check-emit-regression-set.py:333-371 | the tests in their order decide exactly the table of permitted moves, which is transitive and antisymmetric on the statuses of each kind |
| EmitGate.FindRegressions | scripts/ci/check-emit-regression-set.py:449-469 | reports exactly the regressed statuses of rows that both tables have, by row and kind |
| EmitGate.FindProductParityRegressions | scripts/ci/check-emit-regression-set.py:472-486 | reports exactly the surfaces that lost proven parity, by row and surface |
| EmitGate.CheckPayload | scripts/ci/check-emit-regression-set.py:412-445 | one surface is reported exactly when its outcome is not held, with the prior codes, the new codes and the codes gained in ascending order |
| EmitGate.FindPayloadRegressions | scripts/ci/check-emit-regression-set.py:403-446 | reports exactly the outcomes that grew, were reordered or were dropped, new rows included, by row and surface |
| EmitGate.FindAbsent | scripts/ci/check-emit-regression-set.py:489-491 | lists exactly the baseline rows that were not reported, in order |
| EmitGate.ReportOrderUnique | scripts/ci/check-emit-regression-set.py:403-486 | what is reported and the order of reports determine each report list |
| EmitGate.CompareRows | scripts/ci/check-emit-regression-set.py:778-818 | the run fails exactly when some row regresses or, if absent rows are rejected, some baseline row is missing |
| EmitOrder.Reflexive | scripts/ci/check-emit-regression-set.py:333-491 | every table may follow itself |
| EmitOrder.StepsCompose | scripts/ci/check-emit-regression-set.py:333-491 | two accepted steps compose exactly when the rows that skipped the artifact in the middle compare directly |
| EmitOrder.Transitive | scripts/ci/check-emit-regression-set.py:333-491 | with absent rows rejected, acceptance is transitive on validated tables |
| EmitOrder.Antisymmetric | scripts/ci/check-emit-regression-set.py:316-322 | two validated tables that accept each other are equal, so the gate is a partial order; this is what the rule against payloads on passed and skipped surfaces buys |
| EmitOrder.ChainAccepted | scripts/ci/check-emit-regression-set.py:533-619 | passing each step of a chain implies passing against every ancestor |
| EmitOrder.AbsentRowsBreakTransitivity | scripts/ci/check-emit-regression-set.py:489-491 | without rejecting absent rows, a row can leave and come back failing |
| EmitOrder.PayloadComposes | scripts/ci/check-emit-regression-set.py:423-438 | the payload rule composes except exactly when an outcome vanishes in the middle and the last surface has none and does not pass |
| EmitOrder.PayloadAloneIsNotTransitive | scripts/ci/check-emit-regression-set.py:423-435 | validated surfaces for which the payload rule by itself is not transitive: an outcome vanishes through a pass |
| EmitOrder.SurfacesDiffer | scripts/ci/check-emit-regression-set.py:316-322 | surfaces that accept each other are equal exactly when both or neither carry an outcome, and differ only when both pass and one outcome is empty |
| EmitOrder.MutualTables | scripts/ci/check-emit-regression-set.py:316-322 | without the payload rule, two tables that accept each other are equal exactly when the same surfaces carry outcomes |
| EmitOrder.PassPayloadBreaksAntisymmetry | scripts/ci/check-emit-regression-set.py:316-322 | two different tables that accept each other, one of which the payload rule on passed surfaces rejects |
| EmitOrder.NoSwap | scripts/ci/check-emit-regression-set.py:329-371 | rows failing in an accepted run failed in the baseline, rows that passed still pass, and the pass count does not fall, for either surface |
| EmitOrder.NoCodeGained | scripts/ci/check-emit-regression-set.py:403-446 | no code of any surface becomes more frequent in an accepted run, strict or not |
| EmitDocuments.OneOracle | scripts/ci/check-emit-regression-set.py:732-745 | the tests that count oracles and missing oracles find out whether all shards name the same one |
| EmitDocuments.Gate | scripts/ci/check-emit-regression-set.py:684-818 | the gate on files passes exactly when both sides load and make tables, the oracles agree and are trusted, and no row regresses |
| EmitDocuments.ShardsAsOne | scripts/ci/check-emit-regression-set.py:702-776 | the gate says of shards what it says of one document with all their rows |
| EmitDocumentForms.LoadExactly | scripts/ci/check-emit-regression-set.py:104-127 | a document loads exactly when its declared count is that of its rows and its oracle is a text or absent, and then as what it holds |
| EmitDocumentForms.FileLoads | scripts/ci/check-emit-regression-set.py:104-127 | a file loads exactly when it decodes to such a document |
| EmitDocumentForms.TablesExactly | scripts/ci/check-emit-regression-set.py:200-326 | rows make a table exactly when each is valid and no two have one identity |
| EmitDocumentForms.TableOfRows | scripts/ci/check-emit-regression-set.py:200-326 | the table holds each row under its identity and nothing else |
| EmitDocumentForms.EnvelopeExactly | scripts/ci/check-emit-regression-set.py:184-197 | the committed envelope is accepted exactly in its written form |
| EmitDocumentForms.PassingIsTrusted | scripts/ci/check-emit-regression-set.py:684-776 | whatever passes was read, has rows and one oracle, and a trusted one where provenance is asked for |
| EmitDocumentForms.PassesExactly | scripts/ci/check-emit-regression-set.py:724-818 | given tables, the gate passes exactly with one oracle, trusted where that is asked for, and no row lost or regressed |
| EmitDocumentForms.FollowingIsStrict | scripts/ci/check-emit-regression-set.py:577-619 | a file that follows a committed version has a trusted oracle, as the version has, and misses none of its rows |
| EmitHistory.VersionListed | scripts/ci/check-emit-regression-set.py:562-582 | leaving out commits that have the file as all their parents leaves out no version of it |
| EmitHistory.CheckBaselineHistory | scripts/ci/check-emit-regression-set.py:577-623 | over any graph of commits, the check passes exactly when some version is committed and the current file passes against every reachable version |
| EmitHistory.StepsDecideHistory | scripts/ci/check-emit-regression-set.py:533-623 | over any graph of commits, with deletions, recreations and parallel branches, every history check passes if and only if every baseline passes against itself and the nearest versions behind its parents |
| CaptureProtocol.StepInv | scripts/typescript7/capture_inputs.go:48-81 | every operation of every writer keeps the invariant: published targets complete and owned by no unfinished writer, temporary files private, readers holding prefixes of what is published |
| CaptureProtocol.PublishedOnce | scripts/typescript7/capture_inputs.go:58-76 | in every interleaving a published target keeps the same body and the same bytes for ever |
| CaptureProtocol.NeverPartial | scripts/typescript7/capture_inputs.go:58-76 | a target that exists holds all the bytes some writer was given for it |
| CaptureProtocol.ReturnedAgrees | scripts/typescript7/capture_inputs.go:50-54 | a writer that returned agrees byte for byte with its target, then and at every later moment |
| CaptureProtocol.RunsAreBounded | scripts/typescript7/capture_inputs.go:48-81 | no interleaving, faults included, takes more than a fixed number of steps per writer |
| CaptureProtocol.NeverStuck | scripts/typescript7/capture_inputs.go:48-81 | an unfinished writer always has a faultless step, whatever the others do |
| CaptureProtocol.ConsistentJobsReturn | scripts/typescript7/capture_inputs.go:50-54 | without faults, and unless two writers disagree about a path, no writer is refused |
| CaptureProtocol.NothingLeftBehind | scripts/typescript7/capture_inputs.go:64-65 | unless a process dies or a removal fails, a temporary file implies an unfinished writer |
| CaptureProtocol.Completes | scripts/typescript7/capture_inputs.go:48-81 | every run without faults so far extends to one in which all writers return, unless two disagree about a path |
| CaptureStore.CheckFiles | scripts/typescript7/input_manifest.py:68-76 | accepts an inventory exactly when all its file records are valid and no path repeats |
| CaptureStore.CheckBlobs | scripts/typescript7/input_manifest.py:18-25 | accepts a blob directory exactly when every name is the digest of its content, and notes its files in name order |
| CaptureStore.CheckRecord | scripts/typescript7/input_manifest.py:42-80 | accepts an invocation exactly when its record is valid; the duplicate test never fires first |
| CaptureStore.SummarizeInputs | scripts/typescript7/input_manifest.py:9-87 | accepts exactly the valid stores, counts their records and blobs, and digests the manifest of their files |
| CaptureForms.FileExactly | scripts/typescript7/input_manifest.py:27-38 | a file reference is accepted exactly when it is an object of a path, a mode of 32 bits, and the digest and length of a blob of the store, and of nothing else |
| CaptureForms.RecordExactly | scripts/typescript7/input_manifest.py:42-80 | a record is accepted exactly when it decodes to a document of schema 1 with members of the listed types under the name of its own identity |
| CaptureForms.RecordNames | scripts/typescript7/input_manifest.py:42 | records are the files whose names end in `.json` |
| CaptureForms.BlobExactly | scripts/typescript7/input_manifest.py:18-25 | a blob is accepted exactly under the 64 hexadecimal digits of its digest |
| CaptureForms.KeysIdentify | scripts/typescript7/capture_inputs.go:159-160 | without NUL bytes in names, the text hashed into a record name determines the identity |
| CaptureForms.CaptureRecorded | scripts/typescript7/capture_inputs.go:140-155 | a record holds every part of its capture in its place |
| CaptureForms.EntryListed | scripts/typescript7/capture_inputs.go:120-127 | a file is listed under its path with its mode, length and digest |
| CaptureManifest.ManifestIdentifies | scripts/typescript7/input_manifest.py:11-86 | accepted stores have the same manifest exactly when they hold the same files, where the digest tells their files apart |
| CaptureStore.SomeEnvironment | scripts/typescript7/capture_inputs.go:155-160 | whatever the digest, some JSON coding reads any given captures back, so the theorems on settled stores speak of all captures |
| CaptureStore.InventoryAccepted | scripts/typescript7/capture_inputs.go:120-128 | a recorded inventory passes the validator exactly when no file has an empty name |
| CaptureStore.SettledStoreAccepted | scripts/typescript7/capture_inputs.go:120-160 | the store left when all writers returned is accepted exactly when no temporary file is left among the blobs and every capture has names and options; the digest may collide |
| CaptureStore.RecordsCountIdentities | scripts/typescript7/capture_inputs.go:159-160 | the store holds one record for each identity that was captured |
| CaptureStore.IdentitiesCount | scripts/typescript7/capture_inputs.go:138-139 | with distinct identities there are as many of them as captures |
| CaptureProcess.SortByPathCorrect | scripts/typescript7/capture_inputs.go:128 | sorting an inventory with distinct paths gives the same entries in increasing order |
| CaptureProcess.SequencedDistinct | scripts/typescript7/capture_inputs.go:138-139 | the captures of one process have distinct identities |
| CaptureProcess.OneProcessPerPackage | scripts/typescript7/capture_inputs.go:101-160 | so have the captures of any processes of different packages |
| CaptureRuns.CompletedRunAccepted | scripts/typescript7/capture_inputs.go:40-160 | in every run in which all writers of one process per package returned and no temporary file was left, the store is accepted with one invocation for each capture |
| CaptureRuns.CaptureCompletes | scripts/typescript7/capture_inputs.go:40-160 | unless two files share a digest, every run without faults so far can be completed to such a store |
| CaptureProcess.Process.constructor | scripts/typescript7/capture_inputs.go:138-139 | a new process has issued no number |
| CaptureProcess.Process.Store | scripts/typescript7/capture_inputs.go:120-127 | the entries and blob writes are exactly those of the files, in whatever order the map is iterated |
| CaptureProcess.Process.TakeNumber | scripts/typescript7/capture_inputs.go:138-139 | each test gets the number of captures it already has, and only its own count moves |
| CaptureProcess.Process.Record | scripts/typescript7/capture_inputs.go:120-160 | a recorded compilation appends one capture with the next identity and asks for exactly its writes |
| Diagnostics.ParseDiagnosticOutput | crates/conformance/src/tsz_wrapper.rs:775-859 | the line loop computes the line-by-line specification that the laws below are about |
| DiagnosticLaws.ParseAligned | crates/conformance/src/tsz_wrapper.rs:822-828 | for every text the codes are those of the fingerprints, in order |
| DiagnosticLaws.CoveredExactly | crates/conformance/src/tsz_wrapper.rs:790-853 | a text is fully covered exactly when every line is a diagnostic, belongs to one, or is the only summary, and the summary counts the diagnostics right |
| DiagnosticRoundTrip.PrimaryRoundTrip | crates/conformance/src/tsz_wrapper.rs:869-907 | a printed diagnostic parses back to itself if and only if no earlier part of the line reads as a place |
| DiagnosticRoundTrip.NoParenthesisUnambiguous | crates/conformance/src/tsz_wrapper.rs:873-876 | a file name without an opening parenthesis is never ambiguous |
| DiagnosticRoundTrip.TotalParses | crates/conformance/src/tsz_wrapper.rs:779-782 | every printed summary line is recognised with its count |
| DiagnosticRoundTrip.LinesOfText | crates/conformance/src/tsz_wrapper.rs:790-795 | the line iterator recovers the lines of a text under either line end, and keeps bare carriage returns |
| DiagnosticRoundTrip.ParseUndoesPrint | crates/conformance/src/tsz_wrapper.rs:775-859 | printed diagnostics with continuation lines, which are blank or begin with a blank, a tab or another listed character, parse back to the same list, fully covered exactly when the summary, if any, states their number |
| DiagnosticRoundTrip.ContinuationExactly | crates/conformance/src/tsz_wrapper.rs:807-820 | a line continues a diagnostic exactly when it is empty or begins with a blank, a tab or another of the listed characters |
| DiagnosticForms.OnlyDiagnosticsParse | crates/conformance/src/tsz_wrapper.rs:869-907 | whatever is read as a diagnostic is written as one, with the parts it is read with |
| DiagnosticForms.OnlySummariesParse | crates/conformance/src/tsz_wrapper.rs:779-782 | only lines of the form of a summary are read as summaries |
| Evidence.ParseTszOutput | crates/conformance/src/tsz_wrapper.rs:688-767 | a process crashed exactly when its output cannot be trusted; codes, fingerprints and exit follow from both streams |
| Evidence.StripSemanticCompletionMarker | crates/conformance/src/tsz_wrapper.rs:1541-1579 | the completion is that of the one known marker line, and the rest is the text without marker lines |
| Evidence.ParseBatchOutput | crates/conformance/src/tsz_wrapper.rs:1507-1539 | a batch result is aligned, and complete only under exactly one marker and full coverage |
| EvidenceForms.MarkerSays | crates/conformance/src/tsz_wrapper.rs:1541-1579 | a line states a completion exactly when, without its line end, it is the marker of that completion |
| EvidenceForms.StripReads | crates/conformance/src/tsz_wrapper.rs:1541-1579 | what is left are the lines that claim nothing, and the completion is that of the only claiming line, if it is a known marker |
| EvidenceForms.StripUndoesMark | crates/conformance/src/tsz_wrapper.rs:1541-1579 | a marker among other lines, wherever it stands and under either line end, is read as its completion and removed |
| EvidenceForms.StatusTable | crates/conformance/src/tsz_wrapper.rs:688-767 | the verdict on understood output by exit status: 0 is definitive, 1 and 2 unless silent, 3 is trusted but not definitive, and anything else is a crash |
| EvidenceForms.PrintedRunIsDefinitive | crates/conformance/src/tsz_wrapper.rs:688-767 | a run that prints diagnostics and exits accordingly is definitive evidence of exactly these unless its summary miscounts them |
| Variants.CompileVariant | crates/conformance/src/runner.rs:178-198 | one configuration gives evidence with one exit, or decides the case as crashed, timed out, unsupported or broken |
| Variants.CompileTextVariants | crates/conformance/src/runner.rs:127-212 | the first configuration that is not sound decides the case; otherwise the result is the aggregate of all, in order |
| Variants.CompletedEvidence | crates/conformance/src/runner.rs:199-211 | completed evidence is aligned, has one exit of at most 2 per configuration, and explains every failing exit |
| Variants.ValidateRunnableEvidence | crates/conformance/src/cache.rs:55-80 | accepts exactly the non-empty caches whose rows all have complete evidence, names a bad row otherwise, and no accepted row is refused when its case runs |
| Variants.CompletedMeetsCacheGate | crates/conformance/src/cache.rs:59-73 | the evidence of a completed case meets the code and exit conditions demanded of cached evidence |
| VariantForms.RowsAccepted | crates/conformance/src/cache.rs:55-80 | a row is accepted exactly when its blocks are complete, its hash has 64 digits, its exits are 0 to 2 and its codes are those of its fingerprints, one by one |
| VariantForms.DifferingCodeRefused | crates/conformance/src/cache.rs:55-80 | one differing code in one row refuses the cache |
| VariantForms.UnfinishedStops | crates/conformance/src/runner.rs:178-198 | a timeout and a broken run decide the case as such |
| VariantForms.FinishedStops | crates/conformance/src/runner.rs:178-198 | what a finished configuration makes of the case, by its exit |
| VariantForms.UnreadableStops | crates/conformance/src/runner.rs:178-198 | output that is not understood, or diagnostics on both streams, make it a crash |
| VariantForms.EvidenceRuns | crates/conformance/src/runner.rs:59-71 | a case with cached evidence runs exactly when its blocks are complete and its exits are 0 to 2 |
| VariantForms.FirstComesFirst | crates/conformance/src/runner.rs:199-211 | evidence is aggregated in the order of the configurations |
| VariantForms.AggregateSays | crates/conformance/src/runner.rs:199-211 | the aggregate is complete and has the options of the first configuration |
| Runner.StepInv | crates/conformance/src/runner.rs:305-547 | every atomic step of every test keeps the invariant tying permits, counters and lists to the positions of the tests |
| Runner.EveryMoment | crates/conformance/src/runner.rs:348-545 | at every moment tests in flight stay within the permits, results plus fatal errors within the selection, buckets within the total, known and fingerprint-only failures within the failures |
| Runner.QuiescentBijection | crates/conformance/src/tsc_results.rs:311-322 | once all tests finished, no fatal error was listed if and only if the accounting is a bijection, and then the runnable count is exact |
| Runner.TerminalFailureExact | crates/conformance/src/tsc_results.rs:325-329 | a finished run has a terminal failure exactly when some test failed, crashed or timed out |
| RunnerResults.FinalCounts | crates/conformance/src/runner.rs:348-530 | when all tests finished, each bucket holds the number of tests with that verdict, and known and fingerprint-only failures are those of the failures that are such |
| RunnerResults.FinalLists | crates/conformance/src/runner.rs:341-545 | and the lists of timings, crashes, timeouts, fingerprint-only failures and fatal errors name exactly the tests they are about, each once |
| RunnerResults.RunnableExact | crates/conformance/src/tsc_results.rs:331-337 | and the runnable count is that of the results less the skipped and the unsupported tests, which is the selection less these if there is no fatal error |
| Runner.NeverStuck | crates/conformance/src/runner.rs:305-325 | with at least one worker an unfinished run has a step |
| Runner.RunsEnd | crates/conformance/src/runner.rs:305-547 | no interleaving takes more than nine steps a test |
| Runner.NoWorkersNoResults | crates/conformance/src/runner.rs:305-325 | with no worker no test ever runs |
| Fips180.PadMeetsStandard | crates/conformance/src/integrity.rs:32-38 | the padding is whole blocks, as few as possible, and below 2^64 bits ends in the exact length, as in section 5.1.1 of FIPS 180-4 |
| Fips180.PadInjective | crates/conformance/src/integrity.rs:32-38 | different messages have different paddings, of any length |
| Fips180Constants.InitialWords | crates/conformance/src/integrity.rs:15-18 | the initial words are the first 32 bits of the fractional parts of the square roots of the first eight primes |
| Fips180Constants.RoundWords | crates/conformance/src/integrity.rs:19-30 | the round constants are those of the cube roots of the first 64 primes |
| Fips180Constants.ChoiceBits | crates/conformance/src/integrity.rs:62 | the choice takes the second word where the first has ones and the third elsewhere |
| Fips180Constants.MajorityBits | crates/conformance/src/integrity.rs:69 | the majority takes what two words agree on and the third where they differ |
| Fips180Constants.WordOfBytes | crates/conformance/src/integrity.rs:43-45 | a word is put together from its own bytes, the first being the highest |
| Fips180Example.DigestOfAbc | crates/conformance/src/integrity.rs:168-173 | all steps worked through for the message "abc" come to the digest of the standard |
| Fips180Example.HexOfAbc | crates/conformance/src/integrity.rs:168-173 | which in hexadecimal is the text the repository tests for |
| Sha256.ProgramAgrees | crates/conformance/src/integrity.rs:47-70 | the program's rotations and word functions are the standard's |
| Sha256.PadMessage | crates/conformance/src/integrity.rs:32-38 | the buffer is filled with the padded message |
| Sha256.FillSchedule | crates/conformance/src/integrity.rs:42-57 | the array holds the message schedule, although the terms are added in another order |
| Sha256.RunRounds | crates/conformance/src/integrity.rs:59-79 | the 64 rounds over eight variables compute the round recursion |
| Sha256.CompressChunk | crates/conformance/src/integrity.rs:41-83 | the state array becomes the compression of its old value and the chunk |
| Sha256.Sha256 | crates/conformance/src/integrity.rs:14-90 | for every message the loops compute the hash of section 6.2.2 of FIPS 180-4, with the bit length modulo 2^64 |
| Sha256.Sha256Bytes | crates/conformance/src/integrity.rs:5-8 | every identity is 64 lower-case hexadecimal digits of the digest |
| Sha256.ReadHexUndoes | crates/conformance/src/integrity.rs:5-8 | reading the hexadecimal text gives the bytes back |
| Sorting.SortForgetsOrder | crates/conformance/src/integrity.rs:152-153 | sorting by a total order forgets the order of a list and nothing else |
| Sorting.LexExactly | crates/conformance/src/integrity.rs:152-153 | sequences compare by the first item that differs, or by length |
| Text.LessExactly | scripts/typescript7/capture_inputs.go:128 | names compare by the first character that differs, or by length |
| Framing.FrameCandidates | crates/conformance/src/integrity.rs:152-161 | the loops build the framing of the sorted records |
| Framing.CandidateContentSha256 | crates/conformance/src/integrity.rs:151-163 | the identity is the digest of that framing |
| Framing.CandidateFramingExact | crates/conformance/src/integrity.rs:149-163 | two lists of records have the same framing if and only if they are permutations of each other |
| FramingForms.CandidateOrderExactly | crates/conformance/src/integrity.rs:152-153 | candidates are ordered by path, disposition and source, each by the first byte that differs |
| FramingForms.CandidatesReadBack | crates/conformance/src/integrity.rs:154-161 | behind the header, a reader of lengths and fields gets path, disposition and source of every candidate back in that order |
| Framing.FrameInputs | scripts/conformance/build-manifest.py:91-103 | the digest input is the framing of the inputs, or an error when a size does not fit eight bytes |
| Framing.InputFramingInjective | scripts/conformance/build-manifest.py:93-102 | the framing determines the build inputs and their order |
| FramingForms.InputsReadBack | scripts/conformance/build-manifest.py:93-102 | behind the header, a reader gets every input back in order |
| Framing.CollidesExactly | crates/conformance/src/integrity.rs:133-136 | under any rule for NUL-free paths, another package has the same bytes if and only if there are two or more files, or one whose content holds a NUL byte, a path that may come next and a NUL byte |
| Framing.CollidesInAnyOrder | crates/conformance/src/integrity.rs:133-136 | if only NUL bytes are barred from paths, exactly the packages of two or more files and those of one file with two NUL bytes collide |
| PackageWalk.VisitFolder | crates/conformance/src/integrity.rs:104-142 | the recursive walk over any directory tree frames the files of the tree in the order of names, or fails exactly when a name is not text or an entry is special |
| PackageWalk.Sha256Directory | crates/conformance/src/integrity.rs:103-147 | the identity of a package is the digest of its files framed in that order |
| PackageWalk.WalkExactly | crates/conformance/src/integrity.rs:104-142 | what walks of valid trees list is exactly what follows the rule: valid names, in order at the first place where two paths differ |
| PackageWalk.PackageCollides | crates/conformance/src/integrity.rs:103-147 | a package shares its bytes with a package of other files if and only if it has two or more files, or one in which a second one is hidden |
| FramingForms.ListingReadsBack | crates/conformance/src/integrity.rs:133-136 | without NUL bytes in paths and contents, a reader gets every file back |
| PackageForms.VisitFinds | crates/conformance/src/integrity.rs:104-142 | the walk fails exactly on trees with an entry or name it cannot read, and otherwise finds each file of the tree under the names that lead to it, and nothing else |
| PackageForms.PackageFinds | crates/conformance/src/integrity.rs:103-147 | a package is read exactly when it is a directory that can be read, and each file is framed under its names |
| PackageForms.PackageHolds | crates/conformance/src/integrity.rs:103-147 | every framed file is a file of the tree |
| PackageForms.JoinSlashes | crates/conformance/src/integrity.rs:121-132 | the names of a path are joined with slashes |
| Jsonc.StripComments | crates/conformance/src/jsonc.rs:15-63 | blanks exactly the bytes the lexer calls comments, or fails exactly when a block comment does not end |
| Jsonc.StripTrailingCommas | crates/conformance/src/jsonc.rs:65-101 | replaces exactly the commas outside strings that only white space separates from a closing bracket |
| JsoncForms.PrintedIsLexed | crates/conformance/src/jsonc.rs:21-60 | a source written by a grammar of strings, line comments, block comments and other bytes is labelled piece by piece, whatever the pieces contain |
| JsoncForms.NormalizedIsShown | crates/conformance/src/jsonc.rs:9-101 | any source of the grammar becomes its pieces with comments blanked but for line ends, a comma blanked exactly when, behind white space and comments, a bracket or a brace follows, and everything else copied |
| JsoncForms.UnendedBlock | crates/conformance/src/jsonc.rs:38-55 | a block comment that does not end is an error, whatever stands before it |
| JsoncForms.MarksTrimmed | crates/conformance/src/jsonc.rs:9-11 | any number of byte order marks in front are no part of the source |
| JsoncLaws.PassesAgree | crates/conformance/src/jsonc.rs:15-101 | a source without its comments has the same strings, in either lexer, and no comments |
| JsoncLaws.StripIdempotent | crates/conformance/src/jsonc.rs:15-63 | stripping comments twice is stripping them once |
| JsoncLaws.BothPasses | crates/conformance/src/jsonc.rs:9-101 | the two passes together blank comments and exactly the commas outside strings whose next byte that is neither white space nor comment closes a list |
| JsoncLaws.NormalizeJsonc | crates/conformance/src/jsonc.rs:9-11 | the normaliser, byte order marks included, computes that normal form |
| JsoncLaws.NormalFormKeeps | crates/conformance/src/jsonc.rs:15-101 | length, strings and line ends are kept byte for byte, and comments become white space |
| JsoncLaws.NormalFormIsUtf8 | crates/conformance/src/jsonc.rs:62-100 | well-formed UTF-8 stays well-formed after each pass, so the conversions back cannot fail |
| JsoncLaws.CommasDroppedAgain | crates/conformance/src/jsonc.rs:65-101 | dropping commas again changes nothing if and only if no kept comma is next to a dropped one |
| JsoncLaws.TwoCommasInAList | crates/conformance/src/jsonc.rs:65-101 | two commas before a closing bracket are such a case |
| Reachability.ModuleChildren | scripts/ci/check-test-file-reachability.py:449-473 | the children of a file are exactly the files its items name, and an ambiguous item is reported |
| ReachabilityForms.NamedItem | scripts/ci/check-test-file-reachability.py:449-473 | an item without a path names the one of its two possible files that exists, and is ambiguous with both |
| ReachabilityForms.ExplicitItem | scripts/ci/check-test-file-reachability.py:449-473 | an item with a path names the file at that path, if there is one |
| Reachability.ReachableFiles | scripts/ci/check-test-file-reachability.py:476-489 | the worklist returns exactly the existing files reachable from the roots, ends on cyclic graphs, and reports exactly when an ambiguous module is reachable |
| Reachability.FindUnreachable | scripts/ci/check-test-file-reachability.py:498-503 | the offenders are exactly the files with tests that no walk reaches, each once and in order |
| RustMask.MaskNonNewlines | scripts/arch/arch_guard.py:745-748 | blanks a range in place and keeps line feeds |
| RustMask.NextToken | scripts/arch/arch_guard.py:766-834 | finds the comment or literal of the recursive lexer, nested comments, raw strings and escapes included |
| RustMask.CodeAndLiterals | scripts/arch/arch_guard.py:751-838 | the in-place scan computes the masked text and the literals of the recursive lexer |
| RustMaskSource.TokensArePieces | scripts/arch/arch_guard.py:751-838 | the tokens of a source written by a grammar of code, comments and literals are its comments and literals, at their places |
| RustMaskSource.MaskedIsShown | scripts/arch/arch_guard.py:751-838 | masking such a source keeps its code and blanks the rest but for line feeds |
| RustMaskSource.RecordedAreStrings | scripts/arch/arch_guard.py:798-814 | the literals recorded are the contents of its strings, in order |
| RustMaskSource.RecordedContent | scripts/arch/arch_guard.py:798-814 | what is recorded of a string is what stands between its quotes |
| RustMaskForms.LineCommentIsOneToken | scripts/arch/arch_guard.py:767-772 | a line comment is one token that stops before its line feed |
| RustMaskForms.OpenStringRuns | scripts/arch/arch_guard.py:803-818 | a string that does not end runs to the end of the text |
| RustMaskForms.OpenBlockRuns | scripts/arch/arch_guard.py:774-788 | so does a block comment that does not end |
| RustMaskForms.OpenRawRuns | scripts/arch/arch_guard.py:790-801 | and a raw string that does not end |
| RustMaskForms.NestedCommentIsOneToken | scripts/arch/arch_guard.py:774-788 | a block comment written by a grammar of nested comments is one token, however deep it nests |
| RustMaskForms.StringIsOneToken | scripts/arch/arch_guard.py:803-818 | a string literal with escaped quotes and backslashes is one token and its content is what stands between the quotes |
| RustMaskForms.RawStringIsOneToken | scripts/arch/arch_guard.py:764-801 | a raw string or raw byte string with up to 255 hashes is one token, quotes inside included, unless its prefix continues an identifier |
| RustMaskForms.PlainQuote | scripts/arch/arch_guard.py:820-834 | a character that is not escaped is one token, and any other quote without a backslash, such as a lifetime, is retained |
| RustMaskForms.EscapedCharacter | scripts/arch/arch_guard.py:824-834 | an escaped character is one token if and only if what follows the backslash has no quote and at most 14 characters; the escaped quote is cut short |
| RustMaskLaws.TokensOrdered | scripts/arch/arch_guard.py:766-836 | comments and literals follow one another without overlap |
| RustMaskLaws.MaskedAt | scripts/arch/arch_guard.py:751-838 | offsets and line feeds are kept, characters outside tokens are unchanged and those inside are blank |
| RustMaskLaws.RecordedLiterals | scripts/arch/arch_guard.py:798-814 | every recorded literal is the exact source slice at its offset, and offsets strictly increase |
| RustMaskLaws.LiteralForEachToken | scripts/arch/arch_guard.py:798-814 | no string literal is left out |
| RustMaskLaws.NothingLeft | scripts/arch/arch_guard.py:751-838 | no comment or literal starts anywhere in the masked code, character literals included |
| RustMaskLaws.MaskingTwice | scripts/arch/arch_guard.py:751-838 | masking masked code changes nothing and finds no literal |
| RustMaskLaws.BraceEndExact | scripts/arch/arch_guard.py:866-873 | the brace walk stops where the braces balance for the first time, or at the end |
| RustMaskLaws.ItemEndExactly | scripts/arch/arch_guard.py:861-880 | where the blanked item ends |
| RustMaskLaws.ModulesOrdered | scripts/arch/arch_guard.py:861-880 | the blanked items follow one another without overlap |
| RustMaskLaws.WithoutTestModules | scripts/arch/arch_guard.py:848-881 | blanks exactly the test modules that the masked code shows |
| TaintedNames.Pass | scripts/arch/arch_guard.py:1070-1082 | a pass stays within the least closed set, and changes nothing only if it is closed |
| TaintedNames.Tainted | scripts/arch/arch_guard.py:1066-1082 | the loop ends with the least set of names closed under uses and type aliases |
| TaintedNames.OrderDoesNotMatter | scripts/arch/arch_guard.py:1066-1082 | the result does not depend on the order or repetition of items |
| TaintedNames.TaintedExactly | scripts/arch/arch_guard.py:1054-1082 | a name is tainted if and only if a chain of items leads to it from a semantic path or handle |
| LibraryTokens.Tokenize | crates/tsz-core/build.rs:170-224 | every token is the source slice at its recorded offset, spans increase without overlap, and together they are the tokens of the recursive lexer |
| LibraryForms.TokensAreWords | crates/tsz-core/build.rs:170-224 | the tokens of a source written by a grammar of words, white space, comments and quoted text with escapes are exactly its words, in order |
| LibraryNames.NextScopes | crates/tsz-core/build.rs:85-97 | each token takes the stack of the program to the next scope stack |
| LibraryNames.ScopesShape | crates/tsz-core/build.rs:85-97 | the scope stack, pushed and popped from the start of any tokens, is always trues followed by falses |
| LibraryNames.ScopesDescribe | crates/tsz-core/build.rs:85-97 | an entry of the stack is true exactly when its brace and every brace around it belong to a `declare global` |
| LibraryScopes.OpenExactly | crates/tsz-core/build.rs:85-97 | a brace is on the stack exactly when opening braces outnumber closing ones at every later token |
| LibraryScopes.GlobalExactly | crates/tsz-core/build.rs:85-97 | a token is in the global scope exactly when every brace still open before it follows the words `declare global` |
| LibraryScopes.TypeWords | crates/tsz-core/build.rs:102-112 | the words that declare a type, and where |
| LibraryScopes.ValueWords | crates/tsz-core/build.rs:109-118 | the words that declare a value, and where; a variable is not called `enum` |
| LibraryNames.RecordAliasExactly | crates/tsz-core/build.rs:136-164 | the record shape is recognised exactly, whatever its binders are called |
| LibraryNames.DeclarationNames | crates/tsz-core/build.rs:83-124 | the index holds exactly the names declared where every enclosing brace belongs to a `declare global`, and the last origin of each record alias |
| LibraryNames.OriginSpellsName | crates/tsz-core/build.rs:105-107 | the source at a record alias origin spells its name |
| LibraryNames.IndexLibrary | crates/tsz-core/build.rs:76-132 | all of this for the index of one library source |
| SourceText.DecodeEncoded | crates/conformance/src/text_decode.rs:55-71 | decoding undoes the encoding of section 2.1 of RFC 2781 |
| SourceText.EncodeDecoded | crates/conformance/src/text_decode.rs:55-71 | and whatever decodes, as in section 2.2 of RFC 2781, is the encoding of its text |
| SourceText.Utf16RoundTrip | crates/conformance/src/text_decode.rs:23-71 | exactly the marked encodings of a text, in either byte order, decode to that text with the original bytes |
| SourceText.Utf8Exactly | crates/conformance/src/text_decode.rs:23-53 | the result is a text exactly when the bytes behind the UTF-8 mark, or all bytes if no mark stands in front, are UTF-8 of that text |
| SourceText.BinaryExactly | crates/conformance/src/text_decode.rs:23-53 | and binary in exactly the remaining cases |
| SourceText.EncodedSamples | crates/conformance/src/text_decode.rs:35-71 | the bytes of some texts in either byte order |
| SourceText.BinaryUnchanged | crates/conformance/src/text_decode.rs:23-53 | what is not text is handed on unchanged and is no UTF-16 encoding of any text |
| ArchitectureFloor.LoadFloor | scripts/arch/rewrite_architecture_metrics.py:164-182 | the nested loops compute the least committed value of every metric ever committed |
| ArchitectureFloor.DirectionViolations | scripts/arch/rewrite_architecture_metrics.py:185-199 | reports exactly the metrics that were removed or grew, by name |
| ArchitectureFloor.FloorDecidesHistory | scripts/arch/rewrite_architecture_metrics.py:138-199 | comparing with the floor finds no violation if and only if comparing with every snapshot finds none |
| ArchitectureFloor.FloorIgnoresOrder | scripts/arch/rewrite_architecture_metrics.py:178-182 | the floor does not depend on the order or repetition of snapshots |
| ArchitectureFloor.FloorNeverRises | scripts/arch/rewrite_architecture_metrics.py:178-182 | another snapshot removes no metric from the floor and raises none |
| ArchitectureFloor.PassingBaselineIsNextFloor | scripts/arch/rewrite_architecture_metrics.py:178-199 | a baseline passes if and only if, once committed, it is the floor |

## Left out

- EmitRows.ReadRowSound: identity fields that are truthy but not text are rejected here and accepted by the source, whose committed artifacts have text only; digits of diagnostic codes are ASCII here and any Unicode decimal digit there.
- EmitGate.FindProductParityRegressions: the two parity values of a report are left out, the first being always true and the second anything else; so is the cap on printed rows.
- EmitDocuments.Gate: the fingerprints computed from the oracle manifest are an input, decoding of JSON is a function, and error texts are left out.
- EmitHistory.CheckBaselineHistory: git is a graph of commits with parents first, listing those that do not have the file as all their parents have it; shallow-history, file-mode and symlink tests are left out.
- CaptureProtocol.StepInv: runs start on an empty store, and other programs do not touch it; directory creation is left out.
- CaptureStore.SummarizeInputs: JSON coding and hashing are functions of the environment; files that are not regular are left out.
- CaptureProcess.Process.Record: reading of build information and of the call stack is left out; their results are inputs.
- DiagnosticRoundTrip.ParseUndoesPrint: path and message normalisation are functions of the transport, applied to what comes back; their own rewriting is left out.
- Variants.CompileTextVariants: selection of configurations, preparation of directories and process handling are inputs; a timeout is an outcome.
- Runner.EveryMoment: the clock, printing, diff artifacts and error-frequency maps are left out; the verdict of a test is any verdict.
- PackageWalk.Sha256Directory: the directory tree is the input, with the test for UTF-8 names as a function; errors of reading are left out.
- JsoncLaws.NormalizeJsonc: the strict JSON parser behind the normaliser is left out.
- Reachability.ReachableFiles: the file system, path arithmetic and the module items of a file are inputs, and so are the roots taken from manifests and path attributes; the masker of that script and the one of scripts/reset/verify-legacy-inline.py are left out.
- RustMaskLaws.WithoutTestModules: the pattern that finds a test module header is a function that returns a non-empty span.
- TaintedNames.Tainted: the patterns that find uses, aliases and words are inputs, and the reports built on the names are left out.
- LibraryNames.DeclarationNames: reference comments and the generated source text are left out.
- LibraryTokens.Tokenize: offsets are exact for sources of at most 2^32 bytes, since the program stores them in 32 bits.
- SourceText.Utf16RoundTrip: decoding of UTF-8 is a function given to the decoder.
- ArchitectureFloor.LoadFloor: resolving the merge base and validating snapshots are left out.
- Archive markers and multiset coverage of scripts/reset/verify-legacy-inline.py, command-line tools, report scripts and website scripts are left out.
