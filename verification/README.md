# Verification of zscalerctl

zscalerctl is a command-line client whose self-contained pieces carry real
invariants. This project models those pieces in Dafny and proves what the code,
its tests and its documentation promise about them. `dafny verify dfyconfig.toml`
checks everything.

- **Publication of a dump** (`Filesystem`, `AfterExchange`, `Publish`). A dump is
  staged, validated, and renamed or exchanged into place; what it displaces is
  quarantined, revalidated and cleared, and failures roll back. A schedule decides,
  from the calls made so far, whether each system call, inspection or cancellation
  check goes through; every state the disk passes through is recorded and the
  contracts speak of all of them.
- **Writer and validator of an artifact** (`Artifact`, `ArtifactValidator`,
  `ArtifactMeaning`, `ArtifactWriter`, `ArtifactRoundTrip`). The strict validator accepts
  exactly what the writer writes from well-formed input, and no state of an unfinished write.
- **Spinner** (`Spinner`, `SpinnerTermination`, `SpinnerText`). An interleaving model of
  any number of Start, Update and Stop callers and the ticker, one atomic step at a time,
  over one mutex, two flags, a wait group and a channel.
- **Diff** (`Decimals`, `CanonicalNumber`, `FloatRange`, `IdentityNumber`, `JsonValues`,
  `SortedKeys`, `KeyedDiff`, `KeyedDiffProperties`, `RawRecords`, `HashDiff`, `DriftReport`).
  Exact decimal numbers with unbounded exponents, equality and hashing of JSON trees,
  the keyed, singleton and content-hash comparisons, and the report over all resources.
- **Loading** (`TokenScan`, `Budget`, `Collection`). Counting records from tokens
  without decoding, one byte budget over two loads in 64-bit arithmetic, and the
  lookup of a record by identity in a loaded collection.
- **Edit distance** (`EditDistance`). The two-row computation of the suggestions.
- **Events and executions** (`Events`, `Executor`, `ExecutorReads`). The lifecycle of an event stream
  whose sink may refuse or panic at any delivery, and the one-shot, streamed and
  typed executions built on it.
- **Reference scan** (`ReferenceScan`). The depth-first walk over local workflow and
  action references, with cycle detection.
- **Redaction helpers** (`PasteSpans`, `ArrayScan`). Greedy replacement of spans, and
  the one-pass scan for the strings directly in a JSON array.

Files that work step by step are modelled by classes and methods with loops, each
proved against a specification; the lemmas are about the specifications. `RawRecords`,
`ArtifactMeaning`, `ExecutorReads` and `SpinnerText` say what the operations come to in
terms of their inputs alone.

## Where the code does less than one might expect

- After the exchange it takes no failing rename or exchange to leave the new dump in
  place with an error: a failing inspection right after the exchange, or before the
  exchange back, is enough (a concrete run is `Publish.InspectionLost`). Which
  schedules do it is `AfterExchange.Stranding`, exactly (`Publish.Publish`); were it not
  for inspections, only the restoring rename and the exchange back could
  (`AfterExchange.StrandsByRestoringCalls`).
- Canonicalising a canonical number changes nothing exactly when the range check admits
  the canonical form (`CanonicalNumber.CanonicalIdempotent`). strconv stops reading an
  exponent once it has reached 10000, so the check depends on the spelling: `0.`
  followed by 100000 zeros and `1e400000` passes, and its canonical form `1e299999` does
  not (`FloatRange.CanonicalNotIdempotent`, `FloatRange.OneDisguisedNumber`).
- Executions agree on the error kind exactly unless the loader hands out a machine
  error without a kind (`Executor.Executor.SameKindUnlessUnnamed`; a concrete case is
  `Executor.KindsCanDisagree`). A loader error that is a nil machine error makes all of
  them panic (`Executor.Executor.ExecuteStream`).
- A run of the reference scan that reports nothing excludes cycles of files each read
  as one kind, not every cycle of files, because a body that has been scanned is not
  entered again and only files on the stack are compared. Every cycle of files that is
  left runs through a file reached both as a workflow and as an action
  (`ReferenceScan.VerifyAll`; a concrete run is `ReferenceScan.FileCycleCanPass`). There is
  no converse: being reached as both makes no cycle (`ReferenceScan.BothKindsWithoutCycle`).
- The count of an unselected resource does not preserve the verdict of a selected one. The
  selected one looks only at the numbers that survive decoding, the unselected one at every
  number written: `{"a":1e400,"a":1}` loads with one record when selected and fails when
  not (`TokenScan.VerdictsCanPart`). When they part is `TokenScan.VerdictsPartExactly`; they
  never do without a repeated key (`TokenScan.VerdictsAgreeOnUniqueKeys`).
- A finished write is accepted exactly when its input is well-formed, which includes
  the size limits of the validator and distinct keys over entries and errors together;
  the writer checks neither (`ArtifactRoundTrip.RoundTrip`; a concrete input is
  `ArtifactRoundTrip.SharedKeyRefused`).

## Model

| member | source | states |
|---|---|---|
| Publish.Publish | internal/dump/dump.go:200-298 | A whole publish run, whichever call fails. What stands at the destination keeps its name and its content, and the run fails, if it is no directory, nests 32 levels or deeper, holds a file without force, or is no complete accepted dump whose resources the catalog knows in the same shape; where none of this holds, the input is writable and acceptable and no call fails, the run succeeds; success means that the whole output stands at the destination; a run that fails with nothing in place leaves nothing it staged unless a further call fails. Every state passed through is legal, and the outcome after an exchange is the one the schedule determines. |
| Publish.PublishFor | internal/dump/dump.go:200-298 | The same for a run whose aim is stated beforehand: legal states, the outcome determined by the schedule, the end state named by the outcome, nothing staged left behind. |
| Publish.MustStayExactly | internal/dump/force.go:81-145 | What may be displaced, said of the object itself: exactly a directory of at most 32 levels that holds no file, or, with force, a complete dump that the validator accepts and whose resources the catalog knows in the same shape. |
| Publish.TidyMeans | internal/dump/dump.go:459-503 | After an error that leaves nothing in place, every object the run has made is an empty directory, unless a call beyond the one that caused the error has failed. |
| Publish.ExpectedExactly | internal/dump/force.go:477-498 | What a displaced root is revalidated as: without files and not too deep, or still such a complete dump. |
| AfterExchange.Settlement | internal/dump/force.go:170-215 | From the calls after the exchange alone: whether a replacement succeeds, and if not whether its error leaves the new dump in place. |
| AfterExchange.OutcomeByCalls | internal/dump/force.go:170-429 | The same said of the nine calls up to the clearing, listed in their order: no error, or a failed clearing, exactly after all nine; the exchange is unverified exactly when one of the first two fails; undoing is tried exactly when one of the others is the first to fail. |
| AfterExchange.RollbackBlames | internal/dump/force.go:500-525 | Which call a failed rollback blames, and that a successful one has exchanged back. |
| Publish.PublishLosingInspection | internal/dump/force.go:170-180 | On a schedule whose only failing call is the inspection right after the exchange, every publishable replacement ends with an error and the new dump in place. |
| Publish.InspectionLost | internal/dump/force.go:170-180 | Such a run from a concrete disk, request and host. |
| Publish.LegalIsSafe | internal/dump/force.go:53-216 | In every legal state the destination holds its old content or the complete validated dump and never anything else, and the old content is intact under one of three names, or is being cleared in the quarantine with the new dump in place. |
| Publish.OutcomeTells | internal/dump/dump.go:252-297 | No error: the whole new dump is in place and the displaced directory is empty. An error leaves the destination as it was exactly when it is not one of five kinds; for four of those five the old tree is intact at a known place. |
| Publish.PublishReplacing | internal/dump/force.go:53-216 | Replacing an existing destination: every state legal, the outcome the one the schedule determines after the exchange, the end state named by the error, success only for what may be replaced. |
| Publish.AdmitTarget | internal/dump/force.go:81-145 | What may be displaced: an existing directory, not too deep, without files or (forced) a complete dump matching the catalog; nothing changes on disk. |
| Publish.Settle | internal/dump/force.go:170-215 | After the exchange: the outcome is the one the failing calls determine, for each of its six kinds; every error names the call that failed, the last one made or one of two inspections; and everything is where that outcome says. |
| Publish.Rollback | internal/dump/force.go:500-525 | Rolling back restores the staged state exactly when both inspections and the second exchange go through; it is refused exactly when an inspection fails. |
| Publish.RemoveReplaced | internal/dump/force.go:370-429 | Clearing begins exactly when the displaced root was revalidated, quarantined, inspected and revalidated there; which of these calls fails first fixes the outcome, and the outcome where the old tree is. |
| Publish.RestoreRoot | internal/dump/force.go:404-421 | The quarantined root is back at the staging path exactly when the restoring rename goes through, and untouched otherwise. |
| Publish.Revalidate | internal/dump/force.go:477-498 | Revalidating reads what stands under the displaced identity: it passes only for what may be displaced, fails on that only when a call fails, and changes nothing. |
| Publish.ClearRoot | internal/dump/force.go:664-706 | Clearing removes entries one by one, changes nothing else in any state, and on success leaves the directory empty. |
| Publish.CleanupStaging | internal/dump/dump.go:459-503 | The deferred cleanup does nothing unless the staging path still names the directory the run created; otherwise only that directory is moved or cleared, and when no call fails nothing is left in it. |
| Publish.PublishNoReplace | internal/dump/dump.go:563-574 | The first publication: the staged directory becomes the destination by one rename, or nothing changes; occupied means something is there. |
| Publish.StageArtifact | internal/dump/dump.go:263-284 | Staging succeeds only with the complete intended output in place, accepted by the validator; every state on the way changes only the staging directory. |
| Filesystem.Disk.RenameNoReplace | internal/dump/rename_linux.go:12-42 | The exclusive rename moves a name exactly when the source exists, the target does not and the call goes through; otherwise nothing changes. |
| Spinner.RunSafe | internal/output/spinner.go:66-173 | Over every interleaving of any number of callers and the ticker: at most one ticker, at most one close, the wait group at 0 or 1, frames in order, a clear only after the ticker has gone, and nothing written by an inactive spinner. |
| Spinner.RunInv | internal/output/spinner.go:66-173 | The inductive invariant behind it holds in every state of every run. |
| Spinner.ClearErasesLastFrame | internal/output/spinner.go:108-132 | Once written, the clear is the last write, and as wide as the last frame: its text and the two characters before it. Before it there are only frames. |
| Spinner.NoFrameAfterStop | internal/output/spinner.go:108-173 | Once stopped is set, nothing is written but the clear. |
| SpinnerText.FrameCarriesLastText | internal/output/spinner.go:66-103 | Over every interleaving: each frame carries the text of the last Start or Update that had passed its check when the frame was written. |
| SpinnerText.TextIsLast | internal/output/spinner.go:66-103 | In every state the stored text is that of the last call to have passed its check, and nobody draws before one has. |
| SpinnerText.PassingStoresOwnText | internal/output/spinner.go:66-103 | A call that passes its check under the lock leaves its own text behind. |
| SpinnerText.StartAlone | internal/output/spinner.go:66-84 | Start, when nobody else is at the lock: text stored, flag set, ticker registered, one frame with that text, one ticker launched. |
| SpinnerText.UpdateAlone | internal/output/spinner.go:89-103 | Update, likewise: text stored and one frame with that text written before it returns. |
| SpinnerText.TickAlone | internal/output/spinner.go:136-173 | A tick draws one frame with the current text, numbered one higher. |
| SpinnerText.StopAlone | internal/output/spinner.go:108-150 | Stop, with the ticker waiting: flag set, channel closed, ticker gone, and the line cleared over the width last written. |
| SpinnerText.IdleCall | internal/output/spinner.go:66-116 | Start on a started or stopped spinner, Update on a stopped one and Stop on one not started or stopped change nothing. |
| SpinnerText.InactiveCall | internal/output/spinner.go:66-111 | On an inactive spinner every call returns at once. |
| Spinner.OneTickerPerRun | internal/output/spinner.go:66-84 | Once a ticker has been started no other takes its place. |
| Spinner.BlockedStopHasHelper | internal/output/spinner.go:108-132 | Whenever a Stop is blocked in Wait some other thread has an enabled step. |
| Spinner.NoDeadlock | internal/output/spinner.go:66-173 | In every reachable state with an unfinished thread some thread has an enabled step. |
| Spinner.StopCanReturn | internal/output/spinner.go:108-150 | From every reachable state with a Stop under way there is a bounded schedule on which it returns. |
| SpinnerTermination.StopReturns | internal/output/spinner.go:108-150 | Stop returns on every schedule: the number of its steps is bounded by the work ahead, its ticks and its calls, and where it can go on no longer Stop has returned, the line is cleared and no goroutine is left. |
| SpinnerTermination.EveryScheduleEnds | internal/output/spinner.go:66-173 | From any state in which the invariant holds, every schedule makes at most that many steps. |
| SpinnerTermination.StepLoad | internal/output/spinner.go:66-173 | Each step other than a tick or a call uses up some of the work ahead of all goroutines together. |
| SpinnerTermination.RestMeansStopped | internal/output/spinner.go:108-150 | Once stopped is set, nobody is left waiting where nobody can go on. |
| Spinner.HelperProgress | internal/output/spinner.go:108-150 | Each step of that schedule is enabled and strictly reduces the work left. |
| CanonicalNumber.CanonicalDenotesSameRational | internal/diff/diff.go:1685-1727 | The canonical form of any JSON number that passes the guard is again a JSON number, denoting the same exact rational, for exponents of any size. |
| CanonicalNumber.CanonicalDecidesEquality | internal/diff/diff.go:1685-1727 | Two such numbers have the same canonical form exactly when they denote the same rational. |
| CanonicalNumber.CanonicalShape | internal/diff/diff.go:1685-1734 | The form is "0", or one non-zero digit, a fraction that ends in no zero where there are more digits, and always an exponent, in lower case, with no plus and no leading zero. |
| CanonicalNumber.ExponentMeans | internal/diff/diff.go:1685-1727 | What an exponent denotes: one more is ten times the number, one less a tenth, and none is zero. |
| CanonicalNumber.PointMeans | internal/diff/diff.go:1685-1727 | A digit moved across the point is ten times the number. |
| CanonicalNumber.CanonicalIdempotent | internal/diff/diff.go:1685-1727 | Canonicalising a canonical form changes nothing exactly when the guard admits the canonical form; otherwise it fails. |
| FloatRange.CheckDependsOnSpelling | internal/diff/diff.go:1685-1689 | With a range check that reads exponents as strconv does, of two equal numbers one can be far out of range and the other not: a whole family of them. |
| FloatRange.CanonicalNotIdempotent | internal/diff/diff.go:1685-1689 | On each number of that family canonicalising succeeds and canonicalising the result fails. |
| FloatRange.OneDisguisedNumber | internal/diff/diff.go:1685-1689 | One such number. |
| CanonicalNumber.AlgorithmNormalises | internal/diff/diff.go:1685-1727 | On any well-formed number the string algorithm computes the text of its unique normal form. |
| CanonicalNumber.NormalUnique | internal/diff/diff.go:1685-1727 | A rational has only one normal form. |
| IdentityNumber.IdentityIsExact | internal/diff/diff.go:1427-1485 | Two numbers in range have the same identity exactly when they are equal, whichever expansion or fallback branch each takes. |
| IdentityNumber.IdentityTextDenotes | internal/diff/diff.go:1454-1484 | The identity text is itself a number denoting the same value. |
| IdentityNumber.PlainIntegerIsItself | internal/diff/diff.go:1450-1484 | An integer in plain notation of up to 8192 bytes is its own identity. |
| IdentityNumber.PlainDecimalIsItself | internal/diff/diff.go:1450-1484 | So is a decimal fraction that ends in no zero. |
| IdentityNumber.LongIntegerKept | internal/diff/diff.go:1450-1484 | The identity of a longer integer is its canonical form. |
| IdentityNumber.ZeroAndRefused | internal/diff/diff.go:1410-1452 | Zero, however it is written, has the identity "0", and a number that fails the guard is its own identity. |
| IdentityNumber.ExpandedIdentityLength | internal/diff/diff.go:1450-1484 | An expanded identity is at most one byte over the limit, and over it exactly for a positive number with the maximal number of digits and a point among them. |
| JsonValues.EqualIffSameHash | internal/diff/diff.go:1616-1644 | Two trees are equal exactly when both have a canonical hash value and it is the same: equality and hash bucketing never disagree, on any two trees. |
| JsonValues.ReflexiveWhereHashed | internal/diff/diff.go:1778-1816 | A tree equals itself exactly where it can be hashed. |
| JsonValues.EqualitySymmetric | internal/diff/diff.go:1778-1816 | Equality of trees is symmetric. |
| JsonValues.EqualityTransitive | internal/diff/diff.go:1778-1816 | Equality of trees is transitive. |
| JsonValues.EqualIffSameData | internal/diff/diff.go:1778-1816 | On trees whose numbers are well-formed and in range, equality means that they denote the same data. |
| JsonValues.AdmissibleHashed | internal/diff/diff.go:1616-1644 | Every such tree can be hashed. |
| SortedKeys.Sort | internal/diff/diff.go:1818-1832 | The keys of a map, each once, in strictly increasing order. |
| SortedKeys.ListUnique | internal/diff/diff.go:1818-1832 | There is only one such list. |
| SortedKeys.LessByFirstDifference | internal/diff/diff.go:1818-1832 | The order is the byte-wise one: a proper prefix comes first, and otherwise the first character that differs decides. |
| KeyedDiff.KeyedRecords | internal/diff/diff.go:1384-1408 | The index loop computes the specified index or the first error. |
| KeyedDiff.IndexedIffIdentified | internal/diff/diff.go:1384-1408 | An index results exactly when every record has a non-empty identity of its own, and maps each identity to its filtered record. |
| KeyedDiff.DiffFields | internal/diff/diff.go:1736-1776 | The field loop computes the changes over the sorted union of the fields. |
| KeyedDiff.CompareKeyed | internal/diff/diff.go:1347-1382 | The keyed comparison computes the specified diff, or the specified error. |
| RawRecords.BothSides | internal/diff/diff.go:1347-1382 | Said of the records as loaded: under an identity on both sides exactly the fields that differ and are not ignored are listed, with both values, the identity is listed as changed exactly if there is one, and it is in no other list. |
| RawRecords.AddedExactly | internal/diff/diff.go:1347-1382 | Added are exactly the new records whose identity the old side does not have, each with exactly its fields that are not ignored. |
| RawRecords.RemovedExactly | internal/diff/diff.go:1347-1382 | Removed, the same with the sides exchanged. |
| RawRecords.ComparedIffKeyable | internal/diff/diff.go:1384-1408 | A comparison results exactly when on both sides every record has a key value that is not null, with a non-empty identity that no other record shares. |
| RawRecords.RejectionExplained | internal/diff/diff.go:1384-1408 | A refused comparison blames the first bad record of the old side, or else of the new one, for what is wrong with it. |
| RawRecords.EmptyIffSameKeyedData | internal/diff/diff.go:1347-1382 | Nothing is reported exactly when both sides have the same identities and no field that is not ignored differs under any. |
| KeyedDiffProperties.FieldChangesExact | internal/diff/diff.go:1736-1776 | A field is reported exactly when its values differ, absent counting as null. |
| KeyedDiffProperties.FieldPatchCorrect | internal/diff/diff.go:1736-1776 | Applying the field changes to the old record gives the new one, up to equality and null for absent. |
| KeyedDiffProperties.NoChangesIffEqual | internal/diff/diff.go:1736-1776 | No field change exactly when no field differs. |
| KeyedDiffProperties.DiffExact | internal/diff/diff.go:1347-1382 | Exactly the new, vanished and altered keys are listed as added, removed and changed, so no key is in two lists. |
| KeyedDiffProperties.PatchCorrect | internal/diff/diff.go:1347-1382 | Removing, adding and changing as reported turns the old index into the new one. |
| KeyedDiffProperties.TouchedExactly | internal/diff/diff.go:1347-1382 | A key is touched exactly when it came, went, has a record that is not equivalent, or keeps a number the range check refuses. |
| KeyedDiffProperties.DiffMinimal | internal/diff/diff.go:1347-1382 | Any diff that turns the old index into the new one touches every key the reported one touches, except where a record keeps a refused number. |
| KeyedDiffProperties.LoadedDiffMinimal | internal/diff/diff.go:858-909 | On records that have been loaded, where no number is refused, no correct diff touches less. |
| KeyedDiffProperties.FieldChangesMinimal | internal/diff/diff.go:1736-1776 | Any changes that turn the old record into the new one name every field the reported ones name, refused numbers apart. |
| KeyedDiffProperties.LoadedSelfDiffEmpty | internal/diff/diff.go:858-909 | An index of records that have been loaded has an empty diff with itself. |
| KeyedDiffProperties.DiffOverOrdered | internal/diff/diff.go:1347-1382 | Each list is in strictly increasing key order. |
| KeyedDiffProperties.DiffSwaps | internal/diff/diff.go:1347-1382 | Swapping the inputs swaps the diff. |
| KeyedDiffProperties.SelfDiffEmpty | internal/diff/diff.go:1347-1382 | Comparing an index with itself gives the empty diff exactly where its values can be hashed. |
| KeyedDiffProperties.EmptyIffNothingDiffers | internal/diff/diff.go:1347-1382 | The diff is empty exactly when the keys agree and all records are equivalent. |
| KeyedDiffProperties.ComparisonOrderIrrelevant | internal/diff/diff.go:1347-1408 | Permuting the records of either side changes nothing when the identities are unique. |
| KeyedDiffProperties.KeyedCounts | internal/diff/diff.go:1347-1382 | Added minus removed is the difference of the record counts. |
| HashDiff.HashedRecords | internal/diff/diff.go:1527-1547 | Records are bucketed by hash, in order, or the first hash error is reported. |
| HashDiff.CompareContentHash | internal/diff/diff.go:1487-1525 | The comparison reports exactly the surplus of each bucket on either side, sorted by hash. |
| HashDiff.MultisetDifference | internal/diff/diff.go:1487-1525 | Per hash, added is the excess of new over old and removed the excess of old over new; never both. |
| HashDiff.ContentDiffExactly | internal/diff/diff.go:1487-1525 | Said of the records as loaded: whatever the data besides operational fields, it is listed as added as often as the new side holds it more often than the old, and as removed the other way round. |
| HashDiff.SameBucketIffEqual | internal/diff/diff.go:1549-1560 | With an injective digest two records share a bucket exactly when they are equal trees. |
| HashDiff.HashCounts | internal/diff/diff.go:1487-1525 | Added minus removed is the difference of the record counts. |
| HashDiff.SameContentsIffSameCounts | internal/diff/diff.go:1487-1525 | With an injective digest the hash counts agree exactly when both sides hold every record equally often, equality being that of the data. |
| HashDiff.NoHashDriftIffSameCounts | internal/diff/diff.go:1487-1525 | Nothing is reported exactly when every hash occurs equally often. |
| DriftReport.CompareSingleton | internal/diff/diff.go:1307-1345 | An error exactly for more than one record on a side; otherwise, said of the records as loaded: added exactly when only the new side has a record, removed exactly when only the old side has, changed exactly when some field that is not ignored differs, and the entries hold exactly those fields. |
| DriftReport.CompareResource | internal/diff/diff.go:1282-1305 | The comparison by mode gives a diff of the specified kind, or an error exactly where the records cannot be compared. |
| DriftReport.DiffBalances | internal/diff/diff.go:1282-1305 | In every mode added minus removed is the difference of the record counts. |
| DriftReport.DriftIffDataDiffers | internal/diff/diff.go:1282-1305 | In every mode a diff reports drift exactly when the data as loaded differ: the fields of a singleton or of a keyed record that are not ignored, the identities, and where contents are hashed how often each record occurs besides its operational fields, for any injective digest. |
| DriftReport.AddResource | internal/diff/diff.go:341-403 | Each turn keeps the report exact: an entry for every resource shown, in order and of the right kind, record counts that are totals over the entries, and drift counted where data differ; errors tell a scope mismatch from invalid data. |
| DriftReport.CompareAll | internal/diff/diff.go:292-404 | The report over all resources has these properties, and results exactly when every resource can be compared; a scope mismatch is reported only where a resource is selected on one side alone, and never passes. |
| DriftReport.SummaryCounts | internal/diff/diff.go:341-404 | Compared are exactly the resources that both dumps hold with a record in either, and drifted exactly those among them whose data differ. |
| DriftReport.EntryCount | internal/diff/diff.go:341-404 | An entry is shown for exactly these resources and those that a dump has failed to collect. |
| DriftReport.EntryOf | internal/diff/diff.go:341-404 | Which entry it is: the comparison, or a placeholder where a dump has failed. |
| DriftReport.ReportDriftExact | internal/diff/diff.go:85-87 | The report has drift exactly when some compared resource drifted. |
| TokenScan.ScanResourceJSON | internal/diff/diff.go:1064-1118 | On the tokens of any JSON text the streaming scan fails exactly when a number is out of range or something follows, and otherwise reports its shape and record count. |
| TokenScan.UnselectedCount | internal/diff/diff.go:911-1006 | The verdict on an unselected resource is that of json.Unmarshal and counting: every number written must be in range. |
| TokenScan.SelectedCount | internal/diff/diff.go:822-909 | The verdict on a selected resource: nothing may follow, and only the numbers that survive decoding must be in range. |
| TokenScan.VerdictsPartExactly | internal/diff/diff.go:911-935 | Whatever an unselected reading accepts a selected one accepts with the same count; the two part exactly on a countable payload whose surviving numbers are all in range while some number written is not. |
| TokenScan.VerdictsAgreeOnUniqueKeys | internal/diff/diff.go:911-935 | They never part on a text in which no object repeats a key. |
| TokenScan.SurvivorsPass | internal/diff/diff.go:874-909 | If all numbers written are in range, so are all that survive decoding. |
| TokenScan.OverwrittenNumber | internal/diff/diff.go:874-909 | A concrete text on which they part. |
| TokenScan.VerdictsCanPart | internal/diff/diff.go:911-935 | Both readings of that text: one record when selected, an error when not. |
| TokenScan.ConsumeComposite | internal/diff/diff.go:1120-1139 | The depth counter stops where the specification of depth counting does. |
| TokenScan.CountsOneObject | internal/diff/diff.go:1120-1139 | Once its brace is read the depth counter consumes exactly one object, whatever is nested in it. |
| TokenScan.ScanArtifactResource | internal/dump/artifact.go:232-310 | On every stream of tokens, well-formed or not, the scan answers as decoding the whole value and then counting. |
| TokenScan.ScanRecords | internal/dump/artifact.go:266-293 | The record loop counts the items exactly when decoding yields objects only. |
| TokenScan.ConsumeOpenedContainer | internal/dump/artifact.go:312-343 | The consumer accepts an opened container exactly when decoding does, and stops where decoding stops. |
| TokenScan.ConsumeValue | internal/dump/artifact.go:345-360 | The same for one value. |
| TokenScan.DecodeComplete | internal/diff/diff.go:1030-1062 | For a decoder that looks at every number: decoding the tokens of a text gives the text back and leaves what follows, unless some number is refused. |
| TokenScan.DecodeSound | internal/diff/diff.go:1030-1062 | Whatever such a decoder yields was written, token by token, and every number in it was accepted. |
| TokenScan.TokensWritten | internal/diff/diff.go:1030-1062 | The tokens of a text and what it denotes, on an object with a repeated key and on a list of the other scalars. |
| TokenScan.CountIsPayloadCount | internal/diff/diff.go:822-841 | Counting on the text is counting on the value it denotes, repeated keys included. |
| Budget.ResourceReadLimit | internal/diff/diff.go:1257-1269 | The limit is within what the budget has left and within the per-file maximum, zero exactly when nothing is left, and labelled by which of the two binds. |
| Budget.LoadDumpWithBudget | internal/diff/diff.go:694-773 | A load accepts exactly the sound manifests whose selected files fit; retained bytes never exceed the budget, and each read is limited to what remains, without 64-bit overflow. |
| Budget.LoadComparisonDumps | internal/diff/diff.go:597-617 | The remainder handed to the second load is never negative, both loads together stay within the budget, and so does each single read of either with what was retained before it. |
| Budget.FitsIffTotal | internal/diff/diff.go:725-747 | Files that hold anything fit one after the other exactly when their total fits. |
| Budget.ComparisonFits | internal/diff/diff.go:597-617 | Two sound dumps load together exactly when all they retain fits into the budget. |
| Collection.ValidateLoadedRecords | internal/diff/collection.go:231-255 | The records of a resource pass exactly when a singleton has at most one and no two with a key value share a non-empty identity, if the key is rendered at all. |
| Collection.LoadCollection | internal/diff/collection.go:89-115 | A collection results exactly when the records of every resource pass; what it guarantees to lookups. |
| Collection.AdmitAll | internal/diff/collection.go:89-111 | The counts kept while loading are the number of resources and of their records, in any order of the resources. |
| Collection.Loaded.GetProjectedByID | internal/diff/collection.go:167-198 | A lookup that gets as far as the records returns the only record with the trimmed identity, or not-found exactly when none has it; otherwise the error says why it did not. |
| Collection.NumericKeys | internal/diff/diff.go:1410-1425 | Records keyed by numbers in range share an identity exactly when the numbers are equal, and a collection that renders the key refuses two equal ones. |
| Collection.PlainKeys | internal/diff/diff.go:1410-1425 | Texts and truth values are their own identities. |
| EditDistance.EditDistance | internal/cli/suggest.go:175-195 | The two-row computation in swapped arrays returns the recursive edit distance. |
| EditDistance.NoShorterChain | internal/cli/suggest.go:175-195 | No sequence of single edits from one string to the other is shorter than the distance. |
| EditDistance.ShortestChain | internal/cli/suggest.go:175-195 | Some sequence of that many edits exists. |
| EditDistance.ZeroIffEqual | internal/cli/suggest.go:175-195 | The distance is zero exactly for equal strings. |
| EditDistance.Symmetric | internal/cli/suggest.go:175-195 | The distance is symmetric. |
| EditDistance.Triangle | internal/cli/suggest.go:175-195 | The triangle inequality. |
| EditDistance.AtLeastLengthDifference | internal/cli/suggest.go:175-195 | The distance is at least the difference of the lengths. |
| ArtifactRoundTrip.RoundTrip | internal/dump/dump.go:310-433 | For every writable input the finished write is accepted exactly when the input is well-formed; it holds each record of each entry in its place in the file of the entry, and the manifest, the report and the error rows say what the input says, field by field; the inventory is exactly the expected files and directories. |
| ArtifactRoundTrip.SharedKeyRefused | internal/dump/dump.go:310-433 | A concrete input with an entry and an error of the same key: it can be written, and what is written is refused. |
| ArtifactRoundTrip.ReadBackSets | internal/dump/artifact.go:383-549 | The successes and failures read back, and their counts, are the entries and errors written. |
| ArtifactRoundTrip.OutputTreeOk | internal/dump/dump.go:310-433 | What the writer intends is a directory tree the validator can walk. |
| ArtifactWriter.WriteArtifact | internal/dump/dump.go:310-433 | The write ends with the intended output, every record of every entry in its place, or stops with a cause; no state before the last is accepted by the validator. |
| ArtifactWriter.OutputWritten | internal/dump/dump.go:322-433 | What is intended: each single record as an object and each list as an array of its records in order, in the file of its entry, a manifest, a report and error rows with what the input says, and no other file. |
| ArtifactWriter.WriteFile | internal/dump/dump.go:719-790 | A file appears under its final name complete or not at all, and never replaces another. |
| ArtifactWriter.WriteEntries | internal/dump/dump.go:322-375 | The entry loop writes every resource file and appends the matching manifest and report rows, or stops with a cause. |
| ArtifactWriter.CheckTargets | internal/dump/dump.go:586-611 | Targets are admitted exactly when every name is a safe path segment. |
| ArtifactWriter.SafeEntriesExactly | internal/dump/dump.go:863-874 | Safe are exactly the names of at least one letter, digit, hyphen or underscore. |
| ArtifactWriter.ResourcePathInjective | internal/dump/dump.go:586-611 | Safe names give different resources different paths. |
| ArtifactWriter.EnsureDir | internal/dump/dump.go:792-838 | The directory exists afterwards and nothing else has changed. |
| ArtifactValidator.ValidateArtifact | internal/dump/artifact.go:96-164 | The validator accepts exactly the specified artifacts and returns their manifest, report, errors and inventory. |
| ArtifactMeaning.AcceptsExactly | internal/dump/artifact.go:96-164 | Both directions, said of the files: a manifest within its size whose rows are well-formed and distinct, a report and error rows that match its collected and failed resources one to one, for each collected resource its file within the limit with an object or with as many objects as declared, and no other file or directory. |
| ArtifactMeaning.ReportMeans | internal/dump/artifact.go:551-603 | The report of an accepted artifact has one row for each collected resource, with its path and count, and no other. |
| ArtifactMeaning.ErrorsMean | internal/dump/artifact.go:605-682 | A partial artifact has one error row for each failed resource, with its operation and kind, and no other; a complete one has no such file. |
| ArtifactMeaning.PayloadsMean | internal/dump/artifact.go:166-199 | Every collected resource has its file, with what is declared of it. |
| ArtifactMeaning.NoOtherFile | internal/dump/artifact.go:684-728 | There is no file but the declared ones. |
| ArtifactMeaning.NoOtherDirectory | internal/dump/artifact.go:684-728 | There is no directory but their parents. |
| ArtifactMeaning.ModeParsed | internal/redact/redact.go:25-36 | A redaction mode is one of three names, in any case, with white space around it. |
| ArtifactMeaning.ModeAccepted | internal/redact/redact.go:25-36 | Every such text is that mode. |
| ArtifactValidator.ValidateManifest | internal/dump/artifact.go:383-549 | The manifest loop accepts exactly the well-formed manifests and returns their success and failure sets, expected files and directories. |
| ArtifactValidator.ValidateReport | internal/dump/artifact.go:551-603 | The report is accepted exactly when it has one matching entry for each success and no other. |
| ArtifactValidator.ValidateRows | internal/dump/artifact.go:605-682 | The error rows are accepted exactly when they match the failures one to one. |
| ArtifactValidator.ValidatePayloads | internal/dump/artifact.go:166-199 | The payloads are accepted exactly when each success has its file with the recorded count. |
| ArtifactValidator.WalkDirectory | internal/dump/artifact.go:730-874 | The walk accepts a directory exactly when everything below it is expected, and adds all of it to the inventory. |
| ArtifactValidator.ValidateInventory | internal/dump/artifact.go:684-728 | The inventory is accepted exactly when files and directories are those expected, none missing and none more. |
| ArtifactValidator.AddExpectedDirs | internal/dump/artifact.go:887-891 | A path adds all its ancestors below the root. |
| ArtifactValidator.CheckSafeSegment | internal/dump/dump.go:863-874 | The character loop accepts exactly the safe segments. |
| Events.EventStream.Deliver | internal/machine/events.go:263-316 | An event reaches the sink exactly when the lifecycle allows it; the trace stays well-shaped. |
| Events.EventStream.Emit | internal/machine/events.go:117-129 | Emit succeeds exactly for a well-formed event on an open stream with an accepting sink, which then has the event, its scope filled in where it was open; otherwise the stream is over, and the sink and the caller have got the refusal in its context. |
| Events.EventStream.Complete | internal/machine/events.go:133-162 | Complete always ends the stream, with the well-formed completion, its scope filled in, or with a failure; a refusal is reported in its context. |
| Events.EventStream.Fail | internal/machine/events.go:167-185 | Fail always ends the stream: with a cancellation exactly for a cancelled request and a failure otherwise, whose error keeps whatever was said and fills in the rest. |
| Events.EventStream.FailAfterDelivery | internal/machine/events.go:318-332 | After a refused event exactly one failure is delivered, if the stream is still open. |
| Events.StartEventStream | internal/machine/events.go:92-114 | A stream results exactly when the sink accepts the opening; otherwise the sink has seen the opening and one failure that tells it why. |
| Events.InvalidNonTerminal | internal/machine/events.go:210-251 | There is no complaint exactly about progress, records and warnings whose payload fits. |
| Events.InvalidCompletion | internal/machine/events.go:133-156 | There is no complaint exactly about well-formed completions. |
| Events.PayloadByField | internal/machine/events.go:117-251 | What an event of each kind may carry, field by field: each payload belongs to its kinds alone, counters fit, and terminal errors have a kind, a message and the scope of the event. |
| Events.PerformAll | internal/machine/events.go:92-206 | Any calls in any order against any sink: the trace is an opening, then progress, records and warnings, then at most one terminal event; after the first failing call all fail and nothing more is delivered. |
| Executor.Executor.ExecuteStream | internal/machine/executor.go:118-218 | The sink sees a beginning of the request's trace, all of it if it accepts, and otherwise one failure that tells it and the caller the same; the loader is asked at most once, exactly when every check has passed, and then for what the request names, by its operation; it panics exactly when the loader answers with a nil machine error, and then leaves the stream open. |
| Executor.Executor.Execute | internal/machine/executor.go:96-112 | The one-shot response is the response to the request's outcome, whatever the loader answers, except that a nil machine error makes it panic; the loader is asked for what the request names. |
| Executor.Executor.Read | internal/machine/engine_read.go:10-77 | The typed read returns the records of the outcome, or its error as it stands, and panics exactly on a nil machine error; the loader is asked for what the request names. |
| Executor.Executor.ReadStream | internal/machine/engine_read.go:87-106 | Into any sink, a read operation is streamed as its generic request, and the loader is asked for what that names; any other is refused without asking the loader. |
| Executor.Executor.StreamedRecords | internal/machine/executor.go:190-217 | The record events of the stream are the records of the response and of the typed result, in order, and every counter is their number. |
| Executor.Executor.TraceAccumulates | internal/machine/executor.go:309-355 | Accumulating the trace of an outcome gives the response to it. |
| Executor.Executor.LoaderSeesExactlyValidReads | internal/machine/executor.go:118-187 | The loader is asked exactly for the valid reads, conditions listed one by one, that it is able to serve. |
| ExecutorReads.ReadServed | internal/machine/executor.go:159-217 | A sound read that the loader can serve comes to the answer to the query it names: the records as they are without fields, filters and search, what narrowing by exactly those leaves of them otherwise, and each cause of a failure under its own kind and message. |
| ExecutorReads.AsksExactlySoundReads | internal/machine/executor.go:118-187 | The loader is asked exactly for the reads that meet each condition, listed one by one, and that it can serve. |
| ExecutorReads.RefusedBeforeLoading | internal/machine/executor.go:118-187 | Another capability, another operation or missing input: which kind of error, the first that applies, and which inputs are missing. |
| ExecutorReads.UnsuitableNarrowing | internal/machine/executor.go:404-436 | A narrowing of an unknown resource, or one that does not suit it, is refused for that cause. |
| ExecutorReads.MissingLoader | internal/machine/executor.go:266-290 | A loader that is missing, or cannot load by id where it must, is an internal error; otherwise it is asked. |
| ExecutorReads.MisusedInput | internal/machine/executor.go:357-402 | Narrowing an operation that takes none, and filters that do not parse, are usage errors before anything else. |
| ExecutorReads.ManifestRequest | internal/machine/executor.go:118-150 | A manifest request is answered with the manifest exactly when it names no other capability. |
| ExecutorReads.TypedRead | internal/machine/engine_read.go:10-106 | A typed read is the generic request with its own id, operation and input; another operation is refused for what it is. |
| ExecutorReads.ResponseSays | internal/machine/executor.go:292-355 | The response to an outcome, field by field. |
| ExecutorReads.TraceSays | internal/machine/executor.go:118-217 | Each event of the stream of an outcome, field by field. |
| ExecutorReads.ResponseRefuses | internal/machine/executor.go:309-355 | The one-shot sink refuses exactly warnings and events without their load. |
| ExecutorReads.ReadRefuses | internal/machine/engine_read.go:10-77 | The sink of a typed read also refuses a manifest and a completion whose records are not as many as there were record events. |
| Executor.Executor.SameKindUnlessUnnamed | internal/machine/executor.go:96-112 | All executions fail with the same kind exactly unless the loader hands out a machine error without a kind. |
| Executor.KindsCanDisagree | internal/machine/executor.go:507-510 | A concrete request and loader for which one-shot and typed execution report different kinds. |
| ReferenceScan.Verifier.ScanFile | scripts/verify-workflow-policies.go:228-284 | The scan terminates on every file graph, restores the stack, keeps every invariant, and visits the key if nothing is reported. |
| ReferenceScan.Verifier.ScanRoots | scripts/verify-workflow-policies.go:68-109 | Each body is scanned at most once as each kind; every report is justified by the file it names, cycles included; with nothing reported everything reachable has been scanned, is in order and lies on no cycle. |
| ReferenceScan.Verifier.ScanItem | scripts/verify-workflow-policies.go:415-462 | A local reference leads to its file; with nothing reported it has been visited. |
| ReferenceScan.Verifier.CycleDescription | scripts/verify-workflow-policies.go:666-677 | The description is the stack from the first occurrence of the target on, and the target again. |
| ReferenceScan.StackCycle | scripts/verify-workflow-policies.go:228-248 | What is read off the stack is a cycle of references without repetition. |
| ReferenceScan.FinishedIsAcyclic | scripts/verify-workflow-policies.go:262-267 | In the order in which bodies are finished no reference leads back, so none lies on a cycle. |
| ReferenceScan.VerifyAll | scripts/verify-workflow-policies.go:68-109 | The whole run, workflow files first: every report is justified by the file it names; with nothing reported every file given can be read as its kind and holds no problem, no reachable body lies on a cycle, and every cycle of files runs through a file reached as both kinds, so that there is none where no file is. |
| ReferenceScan.FileCycleNeedsTwoKinds | scripts/verify-workflow-policies.go:245-252 | Among keys in order, a cycle of files runs through a file that is both kinds among them. |
| ReferenceScan.FileCycleCanPass | scripts/verify-workflow-policies.go:68-109 | A whole run on a concrete graph with such a cycle reports nothing. |
| ReferenceScan.BothKindsWithoutCycle | scripts/verify-workflow-policies.go:245-252 | A file reached as both kinds need not lie on a cycle. |
| ReferenceScan.QuietStays | scripts/verify-workflow-policies.go:245-252 | A scan that meets nothing to report stays so when more has been visited. |
| PasteSpans.ApplyPasteSpans | internal/redact/paste_credentials.go:77-104 | The result is the text rendered byte by byte with the chosen ranges replaced, and the count is their number, however the sort breaks ties. |
| PasteSpans.ChosenCovers | internal/redact/paste_credentials.go:91-95 | The first byte of every usable span is replaced, overlapping spans included. |
| PasteSpans.ChosenApart | internal/redact/paste_credentials.go:91-98 | The replaced ranges are in range, disjoint and in increasing order. |
| PasteSpans.ChosenAreUsable | internal/redact/paste_credentials.go:91-94 | Only usable spans are replaced. |
| PasteSpans.UsableExactly | internal/redact/paste_credentials.go:91-94 | Usable is a span within the text that covers something and, unless it may absorb markers, no part of which is the beginning of one. |
| PasteSpans.RenderNext | internal/redact/paste_credentials.go:95-98 | Every byte up to the next range is kept, the range becomes one marker, and rendering goes on behind it. |
| PasteSpans.SortSpans | internal/redact/paste_credentials.go:81-86 | The spans, each as often as given, by start and from the longest. |
| ArrayScan.DirectArrayStringStarts | internal/redact/paste_credentials.go:1251-1275 | On the printed form of any JSON array the scan returns exactly the offsets of its direct strings. |
| ArrayScan.FindsDirectStrings | internal/redact/paste_credentials.go:1251-1275 | The same of the scan as a function of the text, for every nesting, escape and white space. |
| ArrayScan.SkipsValue | internal/redact/paste_credentials.go:1255-1273 | Below the top level nothing is found in a value. |
| ArrayScan.AfterString | internal/redact/paste_credentials.go:1267-1271 | The inner loop passes the closing quote, stepping over escaped characters. |

## Left out

- Symbolic links, access control, inode flags, FIFOs and other programs changing the
  same directories: identities are abstract and only the modelled run acts.
- Linux, macOS and Windows variants of the system calls: one contract for the
  exclusive rename and one for the exchange, either of which may fail.
- effectcommit.Run is a check that may refuse before the exchange starts.
- Publish.Publish: resolving the parent directory and the dangerous-target test are a
  check that may fail and a flag of the request; the empty directory name is not modelled.
- SHA-256 and json.Marshal: the content hash is an injective function of the canonical
  tree, and the encoded size of a file is a function of its content.
- Error texts, notes and the errors joined to others: only the outcomes a caller can
  tell apart are modelled.
- The redaction of written metadata files is the identity; projection, redaction and
  narrowing of records are functions without further properties.
- Cancellation of a comparison or of a load: it returns its error and nothing else.
- FloatRange.CanonicalNotIdempotent: of strconv's range check it has where the point is
  put and that far beyond the largest float64 an error is reported, not the rounding.
- Float64 values in the diff: records decoded with UseNumber hold number lexemes only.
- ArtifactValidator.ValidateManifest: upper-case letters outside ASCII are not lowered
  in mode names, and Unicode white space beyond the modelled characters is not trimmed.
- Events.EventStream.Emit: sinks that call the stream again while they are called, and
  the total of the opening event, which the code does not check either.
- Events.StartEventStream: calls on a nil stream, which only report an error.
- Executor.Executor.ExecuteStream: a sink answers as a function of what it has been
  given; the detail and cause carried by a machine error are left out.
- ReferenceScan.Verifier.ScanFile: YAML parsing and the checks of external actions and
  setup-go versions; a body is the sequence of its references, problems and other uses.
- TokenScan.ScanResourceJSON: the tokens of a JSON text, not their characters; read
  errors, size limits, the nesting limit of encoding/json and the replay of malformed
  input for its error text.
- TokenScan.SelectedCount: the payload shape that a loaded collection also demands.
- Spinner fairness: SpinnerTermination counts the ticks of a schedule instead of assuming
  how often select prefers the stop channel.
- Collection.LoadCollection: provenance fields copied from the manifest, the catalog
  copies, list and show lookups, which hand out the records as they are.
- Budget.LoadDumpWithBudget: what is checked about a row besides its bytes is one flag
  before reading and one after.
- ArrayScan.DirectArrayStringStarts: scalars are any text free of brackets, braces and
  quotes, and white space likewise, which includes every JSON text.
- The collectors of paste spans and the redaction rules: regular-expression judgements
  with no specification beyond themselves.
- The suggestion tiers and typo budgets around the edit distance.
- What spinner output looks like on a terminal line: writes are events.
- Command wiring, flags, help, tables, keyring, configuration and live access.
