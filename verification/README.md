# Leamas: verified core

A Dafny model of the parts of Leamas whose correctness is hard to see by reading: the
strict gate-summary reader, the bounded execution gateway, durable publication of closure
evidence, authority selection by ancestry, the agent-context text scanners, and SemVer
stamping. `dafny verify dfyconfig.toml` checks all of it.

Where the source updates things in place the model does too (classes with `modifies`
clauses, loops with invariants, arrays), and each such method is proved against a
specification function; the lemmas are about those functions. Concurrent code is a state
machine whose steps are the lock-protected blocks and channel operations of the source.

| files | subject |
|---|---|
| `Json`, `JsonPointer`, `DuplicateWalk`, `DuplicateKeys`, `Reader`, `Decoder` | token scanners of the reader against recursive definitions over JSON trees; stages up to version dispatch |
| `Diagnostics`, `ErrorTree`, `SchemaErrors` | the ordered diagnostic set; the explicit-stack walk of validator errors |
| `Normalize`, `NormalizeV3` | exact integers and the cross-field rules of versions 2 and 3 |
| `Semaphore`, `Executor`, `OutputBuffer`, `ExecuteResult` | concurrent `Execute` calls, the shared output budget, result classification |
| `Publication` | stage, link, verify, sync, with any I/O call failing and a crash or power loss at any point |
| `Ancestry`, `Authority`, `ClosureCommit` | maximal and least elements of a finite partial order of commits |
| `Prose`, `ProtectedOps`, `Guards`, `ContractBlock`, `ContractPrinting`, `MakeFlags`, `MakeFlagWords` | the text scanners |
| `SemVer` | grammar, parser, derived stamp |
| `Ordering`, `Text` | orders, sorting, string primitives |

## Where the code does not do what its comments say

The model follows the code; the members named state exactly what it does.

- The search for a protected form skips ahead by the length of the form. That is complete
  for every unit exactly when the form does not overlap itself at a word start
  (`SearchCompleteIff`); all listed forms are of that kind.
- An error-free `Execute` result can lack output: a process that fails while a descendant
  holds a pipe open is reported by `Wait` as an exit error, not as a wait delay
  (`FailingProcessHidesOpenPipe`). A caller can tell: the output of an error-free result is
  sure to be whole exactly when the exit code is zero (`WholeIffExitZero`).
- `counts` of a version 3 summary are not re-derived from the checks; only the total and
  the (wrapping) sum are compared (`DishonestCountsAccepted`, `AcceptedSumExactIff`), so
  false counts are accepted for every list of checks (`SomeFalseCountsAccepted`). Beside
  legal name lists that tell checks apart, accepted counts are true exactly when they are
  the lengths of those lists (`AcceptedHonestIff`).
- The name lists need not be sorted (`UnsortedListAccepted`): every list that passes is
  sorted exactly when no two checks with that status have different names
  (`LegalListsSortedIff`).
- `timeout` contributes nothing to the overall status (`SilentStatusesIgnored`), so not only
  empty and all-skipped lists are unavailable by default (`TimedOutIsUnavailable`); exactly
  when only those are, `DefaultMeansSkippedIff` says.
- Of matching closure commits the ancestor-most survives, not the descendants
  (`AncestorChosen`); survivors have no descendants among the matches exactly when no match
  descends from another (`DescendantsSurviveIff`). A repeated path is paired with its first
  blob only (`RepeatedPathIgnored`, `SelectorHonouredIffPairsAgree`).
- A derived stamp is not a valid SemVer when the build time has a `+` offset
  (`OffsetBuildTimeNeverValid`); `EffectiveValidIff` has the exact condition.
- Not all other tokens of MAKEFLAGS are copied byte for byte: a bare `-j` swallows the space
  before the next word (`BareFlagGluesNextToken`), also when that word only begins with
  digits (`SeparatedNumberAttached`), and `-j` is recognised inside a word too
  (`OptionInsideWordRewritten`). The words that are neither a whole job option nor its number
  come out unchanged, with no new one among them, exactly when none of them holds an option
  that needs rewriting and nothing but a number stands directly behind a bare option
  (`OtherWordsCopiedIff`).
- "No temp files remain" holds exactly when every unlink succeeded (`Publish`).
- "The sidecar never without its JSON" holds of a crashed process (`CrashIsSafe`); after
  losing power it holds exactly once a directory sync has covered the JSON, or while the
  sidecar is not linked (`OrphanSidecarIff`). Every run that links the sidecar, a durable
  one included, passes a point where losing power can orphan it (`Publish`).
- A contract whose line does not fit 64 KiB does not survive printing and parsing
  (`LongTextIsLost`, `AuthorityRoundTripIff`), and the example contract in the comment at the head of
  `contract.go` is refused (`DocumentedExampleRejected`).
- Weighted acquisitions of the semaphore can block each other, exactly when all permits fit
  into what the waiting callers can hold while each is one short (`CanStallIff`). The
  gateway only ever acquires one permit, for which this cannot happen.

## Model

| member | source | states |
|---|---|---|
| DuplicateKeys.DetectDuplicateKeys | internal/gatesummary/duplicate_keys.go:36-91 | for every JSON tree, whatever follows it: exactly one hit for every member that repeats an earlier name of its object, at the pointer of the object and the name, sorted by path; equal to the sorted recursive walk |
| DuplicateKeys.StepFrames | internal/gatesummary/duplicate_keys.go:51-88 | one loop iteration updates the frame stack as the step function says and keeps array indexes in range |
| DuplicateKeys.RunValue | internal/gatesummary/duplicate_keys.go:36-91 | the stack invariant: a whole value below a waiting frame fills that frame, leaves all frames under it alone and appends the hits of the recursive walk in its order, at any depth |
| DuplicateKeys.RunItems | internal/gatesummary/duplicate_keys.go:84-88 | array items advance the frame's index by their number and are located by decimal index |
| DuplicateKeys.RunMembers | internal/gatesummary/duplicate_keys.go:62-83 | members add their names to the frame and report those already there at object path plus name |
| DuplicateKeys.RunDocument | internal/gatesummary/duplicate_keys.go:36-91 | the last frame is popped exactly at the closing token of the document |
| DuplicateKeys.RenderPath | internal/gatesummary/duplicate_keys.go:123-135 | the rendered path is the JSON Pointer of the location and decodes back to it |
| DuplicateKeys.Itoa | internal/gatesummary/duplicate_keys.go:148-160 | filling a twenty-byte buffer from the back yields the canonical decimal of every int |
| DuplicateWalk.NoDuplicatesIff | internal/gatesummary/duplicate_keys.go:36-91 | the recursive walk finds nothing if and only if no object anywhere in the tree repeats a name |
| DuplicateWalk.HitLessIsStrictTotal | internal/gatesummary/duplicate_keys.go:137-145 | the order of hits is a strict total order |
| DuplicateWalk.SortedHitsUnique | internal/gatesummary/duplicate_keys.go:137-145 | any sorted arrangement of the hits, however produced, is the list returned |
| DuplicateWalk.WalkReportsAll | internal/gatesummary/duplicate_keys.go:36-91 | the recursive walk has one hit for every repeated member of the tree, found by child numbers apart from the walk, with the pointer tokens on the way to it, and no other |
| DuplicateWalk.ReportedIff | internal/gatesummary/duplicate_keys.go:62-83 | a path and name are reported if and only if some member with that name, below the object the path leads to, repeats an earlier one |
| Reader.ConsumeValue | internal/gatesummary/envelope.go:86-114 | the depth-counting skipper advances the decoder as the specification function says, failing exactly when that does |
| Reader.ConsumeTree | internal/gatesummary/envelope.go:86-114 | for every JSON tree exactly one complete value is consumed and its first token returned |
| Reader.ConsumeCut | internal/gatesummary/envelope.go:86-114 | a value cut short anywhere is never consumed |
| Reader.ScanEnvelope | internal/gatesummary/envelope.go:22-81 | the loop computes the recursive envelope scan |
| Reader.EnvelopeOfObject | internal/gatesummary/envelope.go:22-81 | for a whole object the scan sees its top-level members only, then what follows |
| Reader.EnvelopeOfCut | internal/gatesummary/envelope.go:22-81 | every proper prefix of a document is malformed |
| Decoder.EnvelopePasses | internal/gatesummary/envelope.go:22-81 | only a single object ended by the end of input is neither malformed nor trailing |
| Decoder.ClassifyVersion | internal/gatesummary/version.go:26-49 | accepts exactly the number tokens 1, 2 and 3; any other integer spelling is unsupported, everything else a wrong type |
| Decoder.ProbeIff | internal/gatesummary/decoder.go:83-101 | the probe answers for the one top-level schema_version; nested members of that name have no influence |
| Decoder.DecodeToDispatch | internal/gatesummary/decoder.go:31-101 | for every input: dispatch to version k if and only if it is one duplicate-free object with a top-level schema_version equal to the number k in 1..3; otherwise the one code and path it deserves (too large, broken at which member, trailing, version missing, unsupported or of a wrong type), or exactly the paths of its repeated members |
| Decoder.EveryInputAnswered | internal/gatesummary/decoder.go:31-101 | dispatch, the deserved code and path, duplicates and read errors cover everything a decoder can deliver |
| Decoder.BrokenScan | internal/gatesummary/envelope.go:22-81 | no object, an object cut short anywhere or followed by a syntax error is one malformed finding, at the member whose value breaks off |
| Decoder.TrailingScan | internal/gatesummary/envelope.go:70-80 | an object followed by more tokens is one trailing finding |
| Decoder.IntegerSpellingIff | internal/gatesummary/version.go:26-49 | the integer spellings are the decimals of numbers, with or without a minus sign |
| Decoder.Reject | internal/gatesummary/decoder.go:54-100 | a rejection carries the emitted form of its findings and is never empty |
| Diagnostics.DiagnosticSet.Add | internal/gatesummary/diagnostic.go:118-122 | appends the diagnostic in encounter order |
| Diagnostics.DiagnosticSet.Emit | internal/gatesummary/diagnostic.go:124-151 | emits the sorted, deduplicated form of everything added |
| Diagnostics.PrecedenceInjective | internal/gatesummary/diagnostic.go:57-93 | no two codes share a precedence |
| Diagnostics.PrecedenceIsPlace | internal/gatesummary/diagnostic.go:57-93 | the precedence of a code is its place in the registry |
| Diagnostics.EmittedStrictlySorted | internal/gatesummary/diagnostic.go:124-151 | output is strictly sorted by precedence then path, hence one entry per code and path |
| Diagnostics.EmittedFollowsRegistry | internal/gatesummary/diagnostic.go:124-151 | emitted codes come in the order of the registry |
| Diagnostics.EmittedKeepsFirst | internal/gatesummary/diagnostic.go:124-151 | each entry is the first one encountered for its code and path |
| Diagnostics.EmittedSameKeys | internal/gatesummary/diagnostic.go:124-151 | no code and path is lost or invented |
| Diagnostics.EmittedOrderIndependent | internal/gatesummary/diagnostic.go:124-151 | the (code, path) sequence does not depend on the order of additions |
| ErrorTree.WalkCauses | internal/gatesummary/schema_error_translate.go:38-67 | the explicit-stack walk terminates and adds what a recursive left-to-right preorder walk adds, in the same order, nil nodes and empty wrappers included |
| ErrorTree.Visit | internal/gatesummary/schema_error_translate.go:46-66 | one visit reports a leaf or pushes a wrapper's causes so that the first is on top |
| ErrorTree.VisitAdvances | internal/gatesummary/schema_error_translate.go:38-67 | one visit moves the head of the pending walk into the output and shrinks the pending tree |
| ErrorTree.ReorderedWalk | internal/gatesummary/schema_error_translate.go:38-67 | listing causes in another order changes no reported code and path |
| SchemaErrors.Translate | internal/gatesummary/schema_error_translate.go:18-36 | a code and path is emitted if and only if some node reached through wrappers gives it: missing and unknown fields at their own pointers, the specific codes exactly for their kinds at their locations, nil nodes, empty wrappers and everything else as the source says; one internal finding for a malformed root |
| SchemaErrors.LeafGives | internal/gatesummary/schema_error_translate.go:90-256 | for every leaf kind, which codes it gives, where and when, stated code by code |
| SchemaErrors.LimitStated | internal/gatesummary/schema_error_translate.go:184-216 | an exceeded limit is reported with the limit as expected and the size as observed |
| ErrorTree.WalkAllReached | internal/gatesummary/schema_error_translate.go:38-67 | the walk reports what the nodes reached through wrappers have to say, and no more |
| SchemaErrors.TranslateOrderIndependent | internal/gatesummary/schema_error_translate.go:18-67 | the emitted (code, path) list is the same however the validator orders causes |
| SchemaErrors.ArrayIndexTokens | internal/gatesummary/schema_error_identity.go:155-168 | a token is an array index if and only if it is the decimal of some number |
| JsonPointer.EncodeLocation | internal/gatesummary/schema_error_identity.go:98-108 | the loop writes the pointer of the location, which decodes back to it |
| JsonPointer.DecodeToken | internal/gatesummary/schema_error_identity.go:67-92 | the loop unescapes exactly the tokens the recursive definition accepts |
| JsonPointer.DecodePointerFragment | internal/gatesummary/schema_error_identity.go:48-65 | decoding succeeds if and only if the fragment is some location's pointer, and yields that location |
| JsonPointer.UnescapeOfEscape | internal/gatesummary/diagnostic.go:154-158 | unescaping undoes escaping for every token |
| JsonPointer.EscapeReserved | internal/gatesummary/diagnostic.go:154-158 | a slash is written ~1 and a tilde ~0, anywhere in a token |
| JsonPointer.EscapePlain | internal/gatesummary/diagnostic.go:154-158 | all other characters are written as they are |
| JsonPointer.EscapeOfUnescape | internal/gatesummary/schema_error_identity.go:67-92 | escaping undoes unescaping wherever it succeeds |
| JsonPointer.DecodeOfEncode | internal/gatesummary/schema_error_identity.go:48-108 | decode after encode is the identity for every list of tokens |
| JsonPointer.EncodeOfDecode | internal/gatesummary/schema_error_identity.go:48-108 | encode after decode is the identity |
| JsonPointer.EncodeInjective | internal/gatesummary/schema_error_identity.go:98-108 | distinct locations never share a pointer |
| Normalize.IntegerRoundTrip | internal/gatesummary/normalized_integer.go:28-64 | every integer is the exact value of its spelling |
| Normalize.SpellingRoundTrip | internal/gatesummary/normalized_integer.go:28-64 | every admitted spelling but minus zero is the spelling of its value |
| Normalize.ValidateCheckNames | internal/gatesummary/semantic_check_names.go:6-27 | one diagnostic per later occurrence of a repeated name, none if and only if names are distinct |
| Normalize.ValidateExitCodes | internal/gatesummary/semantic_exit_codes.go:10-79 | exactly the illegal status and exit-code pairs are reported |
| Normalize.CheckExitCode | internal/gatesummary/semantic_exit_codes.go:12-77 | the branches agree with the frozen relation |
| Normalize.ValidateTestTotals | internal/gatesummary/semantic_totals.go:11-37 | exactly the checks whose unbounded component sum differs from the total are reported |
| Normalize.SumTestCounts | internal/gatesummary/semantic_totals.go:40-55 | the accumulated sum is the exact sum, absent counts adding nothing |
| Normalize.DeriveOverallStatus | internal/gatesummary/semantic_overall.go:10-38 | failure dominates unavailability dominates success |
| Normalize.OverallDominance | internal/gatesummary/semantic_overall.go:5-37 | Fail exactly if some check failed, Pass exactly if some passed and none failed or was unavailable, otherwise Unavailable |
| Normalize.SilentStatusesIgnored | internal/gatesummary/semantic_overall.go:15-25 | removing any skipped or timed-out check changes nothing |
| Normalize.DefaultMeansSkippedIff | internal/gatesummary/semantic_overall.go:5-37 | a list that is unavailable by default is empty or all skipped, if and only if no check timed out or another status settles the result |
| Normalize.TimedOutIsUnavailable | internal/gatesummary/semantic_overall.go:15-37 | a single timed-out check is unavailable by default though not skipped |
| Normalize.ValidateOverallStatus | internal/gatesummary/semantic_overall.go:42-54 | one diagnostic exactly when the recorded status is not the derived one |
| Normalize.ValidateCleanliness | internal/gatesummary/semantic_cleanliness.go:5-29 | exactly the dirty sides of a closed scope are reported |
| Normalize.ProjectChecks | internal/gatesummary/normalize_v2.go:42-130 | projection fails if and only if an integer looked at is not a plain JSON integer |
| Normalize.NormalizeV2 | internal/gatesummary/normalize.go:54-119 | succeeds if and only if names are distinct, exit codes legal, totals exact, overall derived and a closed scope clean; otherwise the report has every violated rule, nothing else, in canonical order; the codes and paths reported are those of the violated rules, check by check |
| Normalize.V2Keys | internal/gatesummary/normalize.go:79-119 | which code and path stands for which violated rule of version 2 |
| NormalizeV3.ValidateV3Counts | internal/gatesummary/semantic_v3.go:22-52 | silent if and only if the total is the number of checks and the machine sum equals it |
| NormalizeV3.HonestCountsAccepted | internal/gatesummary/semantic_v3.go:22-52 | true counts are accepted |
| NormalizeV3.DishonestCountsAccepted | internal/gatesummary/semantic_v3.go:8-52 | counts that contradict the statuses are accepted too |
| NormalizeV3.SomeFalseCountsAccepted | internal/gatesummary/semantic_v3.go:22-52 | for every list of checks some non-negative false counts are accepted |
| NormalizeV3.ListLengthIsTally | internal/gatesummary/semantic_v3.go:65-148 | a legal name list is as long as the number of checks with its status exactly when their names are non-empty and distinct, and never longer |
| NormalizeV3.AcceptedHonestIff | internal/gatesummary/semantic_v3.go:22-83 | accepted counts beside legal lists: where names tell checks apart, true if and only if equal to the lengths of the lists; where equal to them, true if and only if names tell checks apart |
| NormalizeV3.AcceptedSumExactIff | internal/gatesummary/semantic_v3.go:37-49 | accepted non-negative counts add up exactly when their sum does not wrap |
| NormalizeV3.CollectNamesByStatus | internal/gatesummary/semantic_v3.go:87-96 | the sorted non-empty names of the checks with that status, multiplicities kept |
| NormalizeV3.CompareNameList | internal/gatesummary/semantic_v3.go:101-148 | silent if and only if the recorded list is duplicate-free and has the same elements, in whatever order the count map is walked |
| NormalizeV3.ValidateV3NameLists | internal/gatesummary/semantic_v3.go:65-83 | each list passes if and only if it is duplicate-free and equals, as a set, the non-empty names with its status; the paths reported are those of the failing lists |
| NormalizeV3.LegalListsSortedIff | internal/gatesummary/semantic_v3.go:54-83 | for all checks and statuses, every list that passes is sorted if and only if no two checks with that status have different non-empty names |
| NormalizeV3.UnsortedListAccepted | internal/gatesummary/semantic_v3.go:54-60 | the list b, a passes for checks a and b |
| NormalizeV3.NormalizeV3 | internal/gatesummary/normalize.go:63-155 | succeeds if and only if counts are accepted, lists legal, overall derived and scope clean; the codes and paths reported are exactly the violated rules |
| Semaphore.RunKeepsInv | internal/execution/semaphore.go:23-52 | the accounting invariant holds in every state of every interleaving of weighted acquires, cancellations and releases |
| Semaphore.OccupancyIsPermits | internal/execution/semaphore.go:23-52 | occupancy is permits held plus partly held, at most the limit; a cancelled or finished caller has net effect zero |
| Semaphore.GivingBackNeverEmpty | internal/execution/semaphore.go:30-52 | neither a rollback receive nor a release finds the channel empty |
| Semaphore.EmptyIffIdle | internal/execution/semaphore.go:54-56 | the count is zero exactly when nobody has a permit |
| Semaphore.UnitWeightsNeverStall | internal/execution/semaphore.go:23-41 | with unit weights waiting callers never block each other |
| Semaphore.CanStallIff | internal/execution/semaphore.go:23-41 | for any limit and admissible weights, some run reaches a state in which callers of these weights wait, nobody else has a permit and none can go on, if and only if the sum of weight minus one is at least the limit |
| Semaphore.WeightedCallersCanStall | internal/execution/semaphore.go:23-41 | two callers of weight two on a limit of two can block each other, callers of weight one never on any limit |
| Executor.RunKeepsInv | internal/execution/executor.go:58-105 | in every reachable state permits, starts and the active set match the calls in flight |
| Executor.Bounded | internal/execution/executor.go:58-105 | running calls never exceed MaxConcurrent, starts never MaxStarts, calls in flight never share a fingerprint |
| Executor.OutcomeHasReason | internal/execution/executor.go:58-105 | in every run, whenever a call has an outcome some earlier step gave it, and then: all starts were used up for a refused start, another call owned the fingerprint for a cycle, the limit was zero for an exhausted semaphore, the call was running for a finished one |
| Executor.OutcomesAccounted | internal/execution/executor.go:58-105 | in every state of every run a call has started exactly if it is running or finished, and a start is refused only when MaxStarts calls have started |
| Executor.BudgetIsGiven | internal/execution/executor.go:98-105 | while starts are left the next step of an admitted call starts it; with none left it is refused |
| Executor.OwnActDecides | internal/execution/executor.go:58-105 | what the next step of a call makes of it, by who owns the fingerprint, how many hold permits and how many have started; no other call is touched |
| Executor.ReleaseFindsPermit | internal/execution/executor.go:96 | the deferred release always finds its permit |
| Executor.DuplicateNeverUntracks | internal/execution/executor.go:63-66 | a call rejected as a cycle changes nothing shared; another call still owns the fingerprint |
| Executor.EndedIsFinal | internal/execution/executor.go:31-105 | the outcome of an ended call is the same in every later state of the run |
| Executor.QuiescentIsClean | internal/execution/executor.go:66-105 | once all calls end the semaphore and the active set are empty |
| Executor.NeverStuck | internal/execution/executor.go:58-105 | for any limits, zero included, some call can move without being cancelled or found invalid |
| Executor.Drains | internal/execution/executor.go:58-105 | from every reachable state the calls in flight can all end of their own accord, none cancelled or found invalid, with nothing leaked |
| Executor.SchedulesAreBounded | internal/execution/executor.go:58-105 | without arrivals every schedule ends within a bound |
| Executor.CycleDetector.CheckAndTrack | internal/execution/cycle.go:58-77 | refuses an active fingerprint and changes nothing then, otherwise adds exactly it |
| Executor.CycleDetector.Untrack | internal/execution/cycle.go:79-84 | removes exactly the fingerprint |
| Executor.CycleDetector.ActiveCount | internal/execution/cycle.go:87-91 | the number of active fingerprints |
| OutputBuffer.SharedOutputBuffer.WriteStdout | internal/execution/output_buffer.go:53-79 | keeps the buffers equal to the streams of the first cap bytes produced, truncation exact, the overflow channel closed at most once |
| OutputBuffer.SharedOutputBuffer.WriteStderr | internal/execution/output_buffer.go:85-111 | the same for the other stream |
| OutputBuffer.SharedOutputBuffer.BytesRetained | internal/execution/output_buffer.go:151-155 | the two buffers together hold exactly what the budget counted |
| OutputBuffer.KeptIsPrefix | internal/execution/output_buffer.go:53-111 | what is kept of a stream is a prefix of it |
| OutputBuffer.KeptAfterWrite | internal/execution/output_buffer.go:53-111 | a write adds what fits to its own stream and nothing to the other |
| OutputBuffer.CaptureAll | internal/execution/output_buffer.go:13-155 | for every interleaving: prefixes, retained is min(observed, cap), truncated exactly when observed exceeds cap, channel closed once exactly then |
| ExecuteResult.Conclude | internal/execution/executor.go:175-378 | which error wins, for every combination of events; the exit code with and without an error; the capture is the first bytes up to the cap; an error-free result has no truncation, no incomplete flag, no ended context, a real exit code and all delivered output, whichever select branch won |
| ExecuteResult.TerminateAndDrain | internal/execution/executor.go:182-228 | when termination counts as a cleanup failure and when output as incomplete |
| ExecuteResult.FailingProcessHidesOpenPipe | internal/execution/executor.go:267-277 | a run whose error-free, unflagged result lacks output |
| ExecuteResult.GuaranteedIffWaitSucceeded | internal/execution/executor.go:237-298 | what Execute observed guarantees complete output, whatever was written and whatever became of the pipes, if and only if Wait returned nil |
| ExecuteResult.WholeIffExitZero | internal/execution/executor.go:237-378 | every run that ends with a given error-free result has complete output if and only if the exit code in the result is zero |
| Publication.EvidencePublication.Publish | internal/factory/closure/closure_evidence_publication.go:150-278 | under every pattern of failures: every state passed through is safe, the returned state says exactly what was linked, PairDurable is success and implies both files synced and the directory synced after both links, leftovers are exactly the temps whose unlink failed; losing power somewhere in the run could have orphaned the sidecar exactly if it was linked; every outcome is accounted for by the call that failed or the name that was taken, and the publication is durable if and only if it was not refused, no call failed and nobody took a final name |
| Publication.EvidencePublication.Stage | internal/factory/closure/closure_evidence_publication.go:179-197 | a staged file is new, whole and synced on success; on failure what was created is still reported |
| Publication.EvidencePublication.Cleanup | internal/factory/closure/closure_evidence_publication.go:174-178 | a staged temp that is still there is one whose unlink failed |
| Publication.EvidencePublication.StageAndLink | internal/factory/closure/closure_evidence_publication.go:199-278 | as Publish, from an unused directory on: safe, described, and every outcome accounted for |
| Publication.EvidencePublication.LinkPair | internal/factory/closure/closure_evidence_publication.go:211-231 | the JSON is linked before the sidecar; a failed or forestalled link is reported as such and nothing else is |
| Publication.EvidencePublication.Confirm | internal/factory/closure/closure_evidence_publication.go:232-277 | durable exactly if both files could be read back and the directory was synced; otherwise which of these failed |
| Publication.PowerLossIsSafe | internal/factory/closure/closure_evidence_publication.go:150-278 | whichever entries survive losing power at any point, a final name of this run stands for a whole file that was synced and not written since; a final name covered by a directory sync survives |
| Publication.OrphanSidecarIff | internal/factory/closure/closure_evidence_publication.go:211-277 | losing power can leave the sidecar without its JSON if and only if the sidecar is linked and no directory sync has covered the JSON |
| Publication.OrphanedIffLinked | internal/factory/closure/closure_evidence_publication.go:211-277 | over a whole run: losing power at some point can leave the sidecar without its JSON if and only if the run linked the sidecar |
| Publication.CrashIsSafe | internal/factory/closure/closure_evidence_publication.go:150-278 | at any crash of the process the JSON name is unbound, somebody else's, or the whole candidate, and the sidecar never stands without its JSON |
| Publication.ForeignEntriesSurvive | internal/factory/closure/closure_evidence_publication.go:211-218 | an entry made by anybody else is never replaced, removed or rewritten |
| Publication.FinalNamesStay | internal/factory/closure/closure_evidence_publication.go:145-149 | a final name once bound stays bound to the same file |
| Publication.TempNamesApart | internal/factory/closure/closure_evidence_publication_io.go:43-64 | a staged name is never a final name |
| Ancestry.BelowSomeMaximal | internal/factory/authority/candidate_selection.go:25-30 | in a finite partial order every commit is at or below a maximal one |
| Ancestry.SoleMaximalIsGreatest | internal/factory/authority/resolver_entry.go:72-91 | one maximal commit and one commit over all others are the same thing |
| Authority.SelectMaximalCandidates | internal/factory/authority/candidate_selection.go:31-70 | keeps, with multiplicity and sorted, exactly the candidates that no candidate at another commit descends from; fails only without an ancestry function |
| Authority.MarkMaximal | internal/factory/authority/candidate_selection.go:48-62 | the nested loops clear exactly the marks of non-maximal candidates |
| Authority.SelectionOrderIndependent | internal/factory/authority/candidate_selection.go:31-70 | with distinct tag names the selection does not depend on enumeration order |
| Authority.SomethingIsMaximal | internal/factory/authority/candidate_selection.go:31-70 | under a partial order a non-empty input has a non-empty selection |
| Authority.Resolve | internal/factory/authority/resolver_entry.go:66-91 | a candidate is accepted if and only if all others are at strict ancestors of its commit; ambiguity is exactly the remaining non-empty case |
| ClosureCommit.FindClosureCommit | internal/factory/closure/closure_commit.go:39-157 | each outcome, error cases included, in terms of the listed commits that satisfy the selector and the ancestry choice among them |
| ClosureCommit.IndexOf | internal/factory/closure/closure_commit.go:163-170 | the first position, or -1 exactly when absent |
| ClosureCommit.PairBlobs | internal/factory/closure/closure_commit.go:46-56 | sorted paths, each with the blob of its first occurrence |
| ClosureCommit.CheckCommit | internal/factory/closure/closure_commit.go:81-103 | a commit matches if and only if it resolves and every path has its paired blob |
| ClosureCommit.MarkSurvivors | internal/factory/closure/closure_commit.go:112-127 | clears exactly the marks of matches that another match precedes |
| ClosureCommit.ChosenIsLeast | internal/factory/closure/closure_commit.go:108-149 | under a partial order with distinct commits, a commit is chosen if and only if it is an ancestor of every other match |
| ClosureCommit.DescendantsSurviveIff | internal/factory/closure/closure_commit.go:108-127 | under a partial order with distinct commits, survivors have no descendants among the matches if and only if no match descends from another |
| ClosureCommit.AncestorChosen | internal/factory/closure/closure_commit.go:108-140 | of a commit and its descendant the commit itself is chosen |
| ClosureCommit.SelectorHonouredIffPairsAgree | internal/factory/closure/closure_commit.go:46-56 | matches honour every path and blob pair in every repository if and only if repeated paths ask for the same blob |
| ClosureCommit.RepeatedPathIgnored | internal/factory/closure/closure_commit.go:46-56 | a selector whose second pair is never checked |
| Prose.SearchForm | internal/factory/agentcontext/prose_occurrence.go:86-105 | the loop computes the skipping search |
| Prose.SearchCompleteIff | internal/factory/agentcontext/prose_occurrence.go:86-105 | the search finds every word-bounded occurrence in every unit if and only if the form does not overlap itself at a word start |
| Prose.UnfoundHasNoHits | internal/factory/agentcontext/prose_occurrence.go:86-105 | for every form that does, a unit with a bounded occurrence and no hit |
| Prose.Resolve | internal/factory/agentcontext/prose_occurrence.go:123-151 | the greedy filter yields a leftmost-longest selection |
| Prose.SelectionUnique | internal/factory/agentcontext/prose_occurrence.go:109-151 | there is only one leftmost-longest selection |
| Prose.LeftmostLongest | internal/factory/agentcontext/prose_occurrence.go:109-151 | in the place of every mention there is an accepted occurrence that starts to its left, or at the same place and is no shorter |
| Prose.MentionsSelectedOnce | internal/factory/agentcontext/prose_occurrence.go:75-160 | the selection is determined by the unit and the table alone |
| Prose.AlreadySorted | internal/factory/agentcontext/prose_occurrence.go:152-158 | the final sort changes nothing |
| Prose.FindOccurrences | internal/factory/agentcontext/prose_occurrence.go:75-160 | every result is a mention; for a safe table the result is the selection among all mentions |
| ProtectedOps.ProtectedFormsSafe | internal/factory/agentcontext/prose.go:67-77 | no listed form overlaps itself at a word start |
| ProtectedOps.FindProtectedOccurrences | internal/factory/agentcontext/prose_occurrence.go:75-160 | for every unit: sorted, pairwise disjoint, and every word-bounded mention is accepted or shut out by an earlier or longer accepted one |
| ProtectedOps.DirectiveOccurrences | internal/factory/agentcontext/prose.go:152-165 | keeps exactly the occurrences outside every guard phrase of the unit, in order |
| ProtectedOps.GuardSpans | internal/factory/agentcontext/prose.go:169-179 | the spans are those of all places of all guard phrases |
| ProtectedOps.SubClauseHasNegation | internal/factory/agentcontext/prose.go:136-143 | exactly when a listed negation is anywhere in the sub-clause |
| ProtectedOps.ScanSubClause | internal/factory/agentcontext/prose.go:225-248 | a function of the text alone: the unguarded occurrences of the one leftmost-longest selection are all reported, unless there is just one and the text has a negation or a guard phrase |
| ProtectedOps.UnreportedOnlyIfExcused | internal/factory/agentcontext/prose.go:195-248 | a mention goes unreported only if shut out, inside a guard phrase, or the only unguarded one in a text with a negation or a guard phrase |
| ProtectedOps.FlaggedIff | internal/factory/agentcontext/prose.go:225-248 | nothing is reported exactly if nothing is unguarded, or a sole occurrence is and the text has a negation or a guard phrase; otherwise all unguarded ones are, in order |
| Guards.GuardsSound | internal/factory/agentcontext/prose_authority.go:48-128 | every listed phrase names an authority, and none overlaps itself |
| Guards.FindPhrase | internal/factory/agentcontext/prose_authority.go:149-167 | the search that resumes behind each match finds every place of such a phrase |
| Guards.FindGuardMatches | internal/factory/agentcontext/prose_authority.go:145-170 | exactly the places of the phrases of the table, each with a named source |
| Guards.UnitHasAuthoritySource | internal/factory/agentcontext/prose_authority.go:174-181 | exactly when some phrase is anywhere in the unit |
| ContractBlock.FindMarker | internal/factory/agentcontext/contract.go:140-160 | the loop computes the skipping search for one marker |
| ContractBlock.HitsAreOccurrences | internal/factory/agentcontext/contract.go:140-160 | it finds every occurrence, each once |
| ContractBlock.FindFrame | internal/factory/agentcontext/contract.go:169-197 | succeeds exactly for one BEGIN and one END behind it |
| ContractBlock.ReadLines | internal/factory/agentcontext/contract.go:199-234 | succeeds exactly when every line is well-formed, fits the scanner and no key repeats; the map holds exactly what the lines assign |
| ContractBlock.ValidateFields | internal/factory/agentcontext/contract.go:236-292 | succeeds exactly when each field is present with a value of its kind and there is no other key |
| ContractBlock.ParseContractBlock | internal/factory/agentcontext/contract.go:168-314 | returns a contract if and only if the text means it: one BEGIN, a later END, every field once, no other key |
| ContractBlock.DecodeOfEncode | internal/factory/agentcontext/contract.go:246-271 | printed values decode to themselves |
| ContractPrinting.RoundTripIff | internal/factory/agentcontext/contract.go:168-314 | any printable contract, lines in any order, parses back to itself if and only if no line is too long, for any markers and fields of this kind |
| ContractPrinting.PrintIsFramed | internal/factory/agentcontext/contract.go:91-94 | printed text has each marker once even if a value contains parts of one |
| ContractPrinting.AuthorityRoundTripIff | internal/factory/agentcontext/contract.go:76-94 | the same for the actual markers and fields |
| ContractPrinting.LongTextIsLost | internal/factory/agentcontext/contract.go:199-234 | a printable contract with a text of 65536 characters does not come back |
| ContractPrinting.ParseAuthorityContract | internal/factory/agentcontext/contract.go:168-314 | the parser with the actual markers and fields |
| ContractPrinting.DocumentedExampleRejected | internal/factory/agentcontext/contract.go:8-12 | a block with the documented authority_source value is never accepted |
| MakeFlags.ClampJobsInString | internal/execution/adapters/make_flags.go:183-255 | the scanner computes the recursive rewriting |
| MakeFlags.ShortFormsClamped | internal/execution/adapters/make_flags.go:187-214 | the short option is recognised with its number attached, behind =, a space or both, and the number clamped |
| MakeFlags.LongFormsClamped | internal/execution/adapters/make_flags.go:217-247 | the long option is recognised with its number behind = or a space, and the number clamped |
| MakeFlags.BareFormsClamped | internal/execution/adapters/make_flags.go:203-247 | an option at the end gets the limit |
| MakeFlags.OtherOptionsCopied | internal/execution/adapters/make_flags.go:179-253 | text that only begins like an option, such as --jobserver-auth, is copied |
| MakeFlags.ClampedIsAdmissible | internal/execution/adapters/make_flags.go:259-271 | a number in range or not parsable stays, any other becomes the limit |
| MakeFlags.ParseAndClampNumber | internal/execution/adapters/make_flags.go:259-271 | takes the maximal digit run and clamps it |
| MakeFlags.ClampIdempotent | internal/execution/adapters/make_flags.go:183-271 | clamping twice is clamping once, for every string |
| MakeFlags.EveryFlagGoverned | internal/execution/adapters/make_flags.go:183-271 | at every position of the result, a recognised option has a number in 1..limit or one of at least 2^63 |
| MakeFlags.StillNoFlag | internal/execution/adapters/make_flags.go:187-253 | rewriting the rest never makes a copied character start an option |
| MakeFlags.UntouchedWithoutFlags | internal/execution/adapters/make_flags.go:250-253 | text without options is unchanged |
| MakeFlags.BareFlagGluesNextToken | internal/execution/adapters/make_flags.go:203-211 | the word behind a bare option is glued to the number |
| MakeFlagWords.OptionInsideWordRewritten | internal/execution/adapters/make_flags.go:187-211 | a word with -j and a number inside it has that number clamped |
| MakeFlagWords.OtherWordsCopiedIff | internal/execution/adapters/make_flags.go:179-255 | for every string the words that are neither a whole job option nor its number come out byte for byte, in order and with no other among them, if and only if none of them holds an option that needs rewriting and nothing but a number stands directly behind a bare option |
| MakeFlagWords.NeverLighter | internal/execution/adapters/make_flags.go:183-255 | where no such word needs rewriting, clamping never takes an option out of them, and adds one for everything glued to a bare option |
| MakeFlags.SeparatedNumberAttached | internal/execution/adapters/make_flags.go:203-207 | the digits behind a bare option are attached to it, be they a word or the start of one, and what follows is rewritten on its own |
| SemVer.ParseIff | internal/version/semver.go:97-114 | a string parses to given parts if and only if they are well-formed and written as that string: round trip both ways, unambiguous grammar |
| SemVer.ParseOfRender | internal/version/semver.go:31-36 | every well-formed version is valid and parses to itself |
| SemVer.RenderOfParse | internal/version/semver.go:97-114 | rejoining the parts of a valid version gives back the source |
| SemVer.PlaceholderNotValid | internal/version/semver.go:127-136 | no placeholder is a valid version |
| SemVer.SanitizeCommit | internal/version/effective.go:93-122 | the loop computes the short commit: letters and digits, at most twelve |
| SemVer.BuildMetadata | internal/version/effective.go:73-84 | the fragments, commit first; joined they are legal if and only if the sanitised build time is empty or dot-separated identifiers |
| SemVer.MetadataValidIff | internal/version/effective.go:73-84 | the joined build metadata is a legal build string if and only if the sanitised build time is empty or dot-separated identifiers; it is empty exactly when there is no fragment |
| SemVer.EffectiveValidIff | internal/version/effective.go:36-67 | the effective version is valid if and only if the first non-placeholder is, or the sanitised build time is empty or dot-separated identifiers; the commit never matters |
| SemVer.EffectiveIs | internal/version/effective.go:36-84 | the first of version and declared version that is no placeholder, unchanged; otherwise 0.1.0 with the commit and then the build time |
| SemVer.CommitShortened | internal/version/effective.go:93-122 | a hash keeps its first twelve characters and loses what follows a hyphen |
| SemVer.BuildTimeCleaned | internal/version/effective.go:129-150 | a build time loses its hyphens and colons and nothing else |
| SemVer.PlainBuildTimeAlwaysValid | internal/version/effective.go:56-150 | with two placeholders every commit and every build time of letters, digits, hyphens and colons makes a valid stamp |
| SemVer.OffsetBuildTimeNeverValid | internal/version/effective.go:129-150 | every build time with a plus sign makes an invalid one |

## Left out

- Real git, process groups, signals, clocks and the network: outcomes are inputs or nondeterministic choices; ancestry is an abstract relation, and results that need it to be a partial order say so.
- JSON lexing: a document is the token sequence of JSON trees, possibly cut short; lexical errors are the ending of that sequence.
- JSON Schema compilation and validation: the error tree is the input of the translation.
- Strict struct decoding and the version 1 projection: field transport without cross-field rules.
- Publication: other processes create names and never remove or replace one; a link that reports an error had no effect; SHA-256 is an uninterpreted function; after losing power any entry bound since the last directory sync may be there or not, and only synced contents are relied on.
- PrepareEvidencePublication: path canonicalisation and opening the root; its guarantee that the JSON name ends in `.json` is a precondition.
- Strings are sequences of characters where the source has bytes; only the line-length limit of the contract block depends on the encoding, and there UTF-8 lengths are counted.
- Diagnostics: the registry of codes is closed, so the rank of an unknown code is not modelled, and the deduplication key is the pair of code and path where the source joins them with a NUL.
- Messages of the version 3 name-list diagnostics are abbreviated to the offending name; codes and paths are modelled. Which of several repeated names is mentioned depends on map iteration order in the source.
- ClosureCommit.EqualFold: folds ASCII letters only, which is all that object names contain.
- Splitting prose into units, clauses and sub-clauses, and telling directives from descriptions: phrase tables and text preparation; ScanSubClause takes any sub-clause.
- ContractBlock.ParseContractBlock: error line numbers and the key named in an error are not modelled, and the twelve-field struct is a map from field to typed value.
- Executor.Act: queue durations and result texts are not modelled; the checks before the cycle check are one nondeterministic rejection, which the progress results do not use.
- ComputeFingerprint: a digest of its inputs; fingerprints are arbitrary strings.
- `clampParallelism`, `clampTestFlags`, `clampJobs`: similar to `clampJobsInString` with weaker guarantees.
- `cmd/leamas`, the cockpit and witness servers, run bundles, claim store, attestation and manifest validators, the closure execution sequence: plumbing, finite tables and field transport.
