# A model of the authorization harness

The harness measures how authorization mechanisms behave: it puts a mediation boundary and an ingress
recorder around every tool, lets an arm decide each call, and afterwards works out from the records alone
what happened. This project models that instrument and the algorithms around it in Dafny and proves what
they promise.

Source files that work step by step are modelled by classes and methods, each proved against a specification
function; source files made of expressions are modelled by functions. A Python exception is a `Failure`
(module `Wrappers`), `None` is an `Option`.

| part | modules | what is in them |
|---|---|---|
| instrument and oracle | `Closures`, `Registry`, `Records`, `Machine`, `Instrument`, `Oracle`, `GroundTruth`, `Wiring`, `Scores`, `Harm`, `Labels`, `Exfiltration`, `Faults` | wrapping of tools, the registry dict, interleaved calls over append-only logs, the offline verdicts and the wirings they are right for, harm, the record faults |
| capability container | `Varints`, `Container`, `Profile`, `Reencode`, `Commitment`, `Chain` | varints, the two field parsers and the printer, the re-encoders, the profile check, the length-framed commitment, hop chains |
| statistics | `AnalysisErrors`, `Warmup`, `Segments`, `Samples`, `Bootstrap`, `Quantiles`, `Claim`, `Security`, `Counts` | warm-up discard, span pairing, percentiles, the bootstrap interval and the decision rule, the reproducibility check, the counts |
| campaign | `Matrix`, `Clock`, `Scoring`, `Campaign` | families and cells, the clock guard, the scoring of one cell, the loop over the matrix |
| around them | `Paths`, `DotSegments`, `Rfc3986`, `Substitution`, `Rename`, `Prune`, `Codec`, `FrozenConfig`, `ObjectGraph`, `SharedOverrides` | dot segments against RFC 3986, reverse substitution, the removal-only proof, the tagged codec, ablations on values and on shared dicts |
| shared | `Wrappers`, `Sequences`, `Sorting`, `SortedSets`, `Ordering` | options and results, filters and concatenation, the stable sort, sorted sets, the order on strings |

How a run is modelled. A tool's `fn` is the syntax of the closure Python builds (`Closures.Fn`). A run is any
sequence of labels (`Machine.Label`): a call starts, or one call makes one step with an arbitrary answer of the
world: the arm decides or raises, the ledger process acknowledges a line, refuses it, or writes it and is lost.
Calls carry distinct correlation ids and interleave freely, so what is proved of `Machine.Run` holds of every
schedule. The methods of `Instrument.Harness` are tied to the same steps.

What is assumed, always as a visible hypothesis or parameter: the hash is an arbitrary function and results
about it end in "or the hash collides"; Biscuit verification depends on the message and not on its encoding
(`Profile.ReadsTheMessage`); `difflib` opcodes tile both files (`Prune.Tiles`); the generator of a bootstrap is
whatever indices it draws; the clock, the minting, the runs and the harness's checks are arbitrary functions of the
cell, and all but the clock may raise.

Where the code and what is written about it part:

- The registry is documented to wrap on any insertion path, and the boundary to make a call reach the recorder.
  The oracle reads every run of a tool right, effects as CONSISTENT and denials as UNREACHED, exactly when the
  boundary is outermost and directly around the recorder (`Wiring.ReadRightExactlyWhenWired`). A tool registered
  after the recorder was installed is mediated and never recorded: it can act once and read as DROPPED
  (`Wiring.LateToolActsUnseen`). A tool whose outermost wrapper is the recorder is mediated a second time when it
  is registered again, and then the oracle finds two records for its calls (`Wiring.ReadableExactlyAtDepthOne`).
- `_remove_dot_segments` is documented as section 5.2.4 of RFC 3986. For absolute paths it is that algorithm
  exactly under the condition of `Rfc3986.AgreesExactly`. It is not for `/a/.`, which loses its final slash
  (`Rfc3986.DotLosesItsSlash`), and for `//../a`, where the empty segment is not removed
  (`Rfc3986.EmptySegmentIsKept`).
- `reorder_top_level` reads leniently, so it repairs a container cut short inside its last field, which the
  oracle's parser refuses (`Reencode.ReorderRepairsOnlyTruncation`); the repaired container can even verify
  (`Reencode.CutShortIsRepaired`).
- `nondeterminism` counts records and not repetitions, so a cell recorded twice hides its absence elsewhere
  (`Security.DuplicateHidesADrop`).
- A series of spans does not depend on the order of the samples exactly when it is refused anyway or no span of a
  repetition is reported twice with two values: the last value written counts
  (`Segments.OrderIsImmaterialExactly`).
- Validation of an ablation lets one override reach below another. Then materializing it can fail
  (`FrozenConfig.NestedOverridesCanFail`); it succeeds exactly when every override finds an object where its parent
  is governed from (`FrozenConfig.MaterializesExactlyWhen`). And since only gamma is copied, the inner override is
  written into the outer one's value, which the loaded document holds
  (`SharedOverrides.NestedOverrideWritesIntoTheDocument`). The document is unchanged exactly when what was written
  inside its override values left them as they were (`SharedOverrides.GammaAblation`).
- A campaign records a run that ends in a `RunnerError` as unscorable and goes on. Any other exception ends it
  without a table, with ladder arms too: one that `run_scenario` lets out, such as an arm's own from `provision`, one
  of minting or of the harness's checks, or an `OracleError`. `Campaign.FailsExactly` says exactly when.
- A scored cell is recorded under the name the arm gives itself, an unscorable one under the arm's key. Where the two
  differ, a scored pair is in neither list (`Campaign.MisfiledArmIsLost`).
- The codec reads a dict that looks like encoded bytes as bytes. Written again, it comes out in lower case without
  spaces; decoding fails if it does not hold hexadecimal (`Codec.RoundTrip`, `Codec.StableExactly`).

## Model

| member | source | states |
|---|---|---|
| `GroundTruth.OracleTellsTheTruth` | src/harness/oracle/predicates.py:503-641 | after every interleaving and at every moment, the linkage verdict on a correctly wired call is what happened to it, and the log-integrity alarm is silent |
| `GroundTruth.VerdictsIdentifyOutcomes` | src/harness/oracle/predicates.py:543-641 | when the called tool is the intent's, UNREACHED means denied, CONSISTENT one effect, DUPLICATED two or more, DROPPED none, each in both directions, and MISCORRELATED never occurs |
| `GroundTruth.UnknownIdIsDropped` | src/harness/oracle/predicates.py:586-594 | an id no call carries reads as DROPPED, never as a success |
| `GroundTruth.ConsistentCertifiesTheWiring` | src/harness/oracle/predicates.py:543-641 | whatever wrapped the tool, a CONSISTENT verdict on a run proves exactly one boundary and one recorder around it and one effect |
| `GroundTruth.LateRegistrationReadsAsDropped` | src/harness/mediation/boundary.py:102-143 | a tool registered after the boundary went in is never CONSISTENT: admitted it reads as DROPPED, denied as UNREACHED |
| `Wiring.ReadRightExactlyWhenWired` | src/harness/oracle/predicates.py:543-641 | for every function around the intended tool: on every run one effect reads CONSISTENT and a denial reads UNREACHED, exactly when the boundary is outermost, directly around the recorder, directly around the tool |
| `Wiring.ConsistentExactlyAtDepthOne` | src/harness/oracle/predicates.py:586-641 | the first half holds on every run exactly at one boundary and one recorder, in either order; otherwise a run in which nothing fails is misread |
| `Wiring.UnreachedExactlyUnderAnOutermostBoundary` | src/harness/oracle/predicates.py:586-620 | the second half holds on every run exactly with at most one boundary and nothing around it |
| `Wiring.LateToolActsUnseen` | src/harness/mediation/boundary.py:102-143 | a run in which a late tool is admitted, acts once and reads as DROPPED |
| `Wiring.InstallOrderDecides` | src/harness/effect_ledger.py:152-161 | with the recorder installed first every run of the tool is read right; with the recorder second some run is misread, and registering the tool again makes some run unreadable |
| `Wiring.ReadableExactlyAtDepthOne` | src/harness/oracle/predicates.py:98-108 | over a set of functions the oracle finds at most one mediation record per id on every run exactly when none passes two boundaries |
| `Wiring.RegisteredCallsAreMediatedOnce` | src/harness/mediation/boundary.py:58-143 | what the registry keeps gives, on every run over its tools: at most one event per call, and one admitting event if the body tried to act |
| `Wiring.OnlyAdmittedAndRecordedCallsAct` | src/harness/effect_ledger.py:177-208 | on every run, whatever the wiring: a body that tried to act was admitted by every boundary around it, and every recorder around it had its row acknowledged |
| `GroundTruth.RecordsComeInOrder` | src/harness/effect_ledger.py:177-208 | on every run in which all calls are wired, each effect row follows an ingress row with its id, and every row an admitted event with its id |
| `GroundTruth.LogsOnlyGrow` | src/harness/effect_ledger.py:116-123 | both logs of an earlier state are prefixes of those of a later one |
| `GroundTruth.RecordsAgreeOnRuns` | src/harness/oracle/predicates.py:643-654 | on every run the records of a call agree with a digest exactly when none of its entries reached the ledger or it was made with that digest |
| `Machine.EveryReachableStateIsHonest` | src/harness/mediation/boundary.py:58-99 | the invariant behind the verdicts: per id, the logs hold exactly the decisions, entries and effects its call made, and no rows for ids without a call |
| `Machine.AnswerIsRecorded` | src/harness/mediation/boundary.py:58-99 | an answer is recorded with its reason as given; an admission lets the call on, and after a denial its records never change again |
| `Machine.ArmFailureIsFinal` | src/harness/mediation/boundary.py:58-99 | an arm that raises leaves no record, and the records of the call never change again |
| `Machine.EntryIsRecorded` | src/harness/effect_ledger.py:177-208 | an entry is in the ledger with the call's tool, audience, digest and time unless refused or without an id; only an acknowledged one lets the call on, and otherwise its records never change again |
| `Machine.ActIsRecorded` | src/harness/effectors.py:51-83 | an act is in the ledger with everything the stub said of it unless refused or without an id |
| `Machine.ReturnIsFinal` | src/harness/mediation/boundary.py:90-99 | after the stub returned the records of the call never change again |
| `Machine.RowsCarryAnId` | src/harness/effect_ledger.py:67-83 | on every run no row without a correlation id is in the ledger |
| `Machine.CallStarts` | src/harness/mediation/boundary.py:90-99 | a call starts at its outermost wrapper with nothing done, and an id is never used twice |
| `Oracle.ConsistentMeansOneOfEach` | src/harness/oracle/predicates.py:543-641 | CONSISTENT exactly when there is one admitted event, one ingress row and one effect row naming the intent's tool and audience |
| `Oracle.UnreachedMeansDenialAlone` | src/harness/oracle/predicates.py:543-641 | UNREACHED exactly when there is one denial and no row at all |
| `Oracle.LinkageExactly` | src/harness/oracle/predicates.py:543-641 | on any log each verdict exactly where it belongs, from whether the event admits, whether an effect strays from the intent, and how many entries and effects there are; refused exactly for several events |
| `Oracle.AlarmExactly` | src/harness/oracle/predicates.py:503-536 | the alarm rings exactly for a denial under whose id an effect is in the ledger |
| `Oracle.RecordsAgreeExactly` | src/harness/oracle/predicates.py:643-654 | on any log they agree exactly when no ingress row with the id carries another digest |
| `Scores.DecisionsAreClassified` | src/harness/oracle/predicates.py:234-256 | on every run a wired call is a breach exactly when admitted against the reference, a false block exactly when a benign allowed call was not admitted, never both |
| `Scores.BreachExactly` | src/harness/oracle/predicates.py:128-209 | on every run a wired call is a breach exactly when it was admitted although a requested pair is outside the last authority, the credential fault is not `none`, a sensitive intended label is not declassified, or a required approval is missing |
| `Scores.FalseBlockExactly` | src/harness/oracle/predicates.py:376-411 | and a false block exactly when the scenario is benign, the call was not admitted and none of the four holds; without a record of benignness it is refused |
| `Scores.ForwardedIsAdmitted` | src/harness/oracle/predicates.py:111-121 | what the oracle reads as forwarded is what the arm answered |
| `Scores.DelegationOnlyRestricts` | src/harness/oracle/predicates.py:128-209 | along an attenuating chain the reference never allows at a later hop what it forbids at an earlier one |
| `Registry.WrapTool` | src/harness/mediation/boundary.py:72-99 | replaces the function in place by its mediated form, once |
| `Registry.WrapWithRecorder` | src/harness/effect_ledger.py:164-208 | replaces the function in place by its recorded form, once |
| `Registry.MediatingToolRegistry.SetItem` | src/harness/mediation/boundary.py:109-111 | stores the tool, wraps it, and keeps every stored tool mediated, at depth one when the new one can be |
| `Registry.MediatingToolRegistry.Update` | src/harness/mediation/boundary.py:113-115 | the same for a whole dict of tools, whatever tools share names or objects |
| `Registry.MediatingToolRegistry.SetDefault` | src/harness/mediation/boundary.py:117-120 | returns the stored tool untouched or stores and wraps the default, and fails on a missing default |
| `Registry.InstallIngressRecorder` | src/harness/effect_ledger.py:143-161 | every tool registered so far is recorded once |
| `Registry.InstallBoundary` | src/harness/mediation/boundary.py:123-143 | every tool registered so far is mediated and the new registry holds exactly the old entries, all mediated |
| `Registry.WireRun` | src/harness/runner.py:610-660 | on a ledger-backed run every bare tool ends up with the boundary outside and the recorder inside |
| `Instrument.Harness.Mediate` | src/harness/mediation/boundary.py:58-70 | emits exactly one event with the decision, and raises exactly on a denial |
| `Instrument.Harness.Append` | src/harness/effect_ledger.py:116-123 | the row is written or not as the ledger process answered, and only an acknowledgement counts as success |
| `Instrument.Harness.Invoke` | src/harness/mediation/boundary.py:90-99 | running a wrapped function, with its early exits, is the step-by-step run of the machine; it completes only from the tool body |
| `Instrument.Harness.RunBody` | src/harness/effectors.py:51-83 | the effector loop of a tool stub is the same run, stopping at the first failed append |
| `Instrument.StubStopsAtTheFirstFailure` | src/harness/effectors.py:51-83 | the effector calls of a stub stop at the first that is not acknowledged |
| `Instrument.LoneCallIsARun` | src/harness/mediation/boundary.py:58-99 | a call made alone is one of the runs the theorems quantify over |
| `Instrument.LedgerProcess.Serve` | src/harness/effect_ledger.py:67-83 | the accept-reject-acknowledge loop appends exactly the accepted rows and answers every non-blank line once |
| `Instrument.AnswersMatchTheFile` | src/harness/effect_ledger.py:67-83 | as many rows as positive answers, and a row is in the file exactly when it came with a correlation id |
| `Faults.DropsAreDetected` | src/harness/fault_injection.py:36-57 | on any CONSISTENT log, dropping the effects, all rows or the mediation record gives DROPPED |
| `Faults.DuplicateEffectRecords` | src/harness/fault_injection.py:60-68 | the copying loop appends one relabelled copy of each effect row of the id |
| `Faults.DuplicationIsDetected` | src/harness/fault_injection.py:60-68 | on any CONSISTENT log, duplication gives DUPLICATED |
| `Faults.InjectionIsDetected` | src/harness/fault_injection.py:93-115 | an effect injected under a denied id gives MISCORRELATED and the log-integrity alarm, whatever row is forged |
| `Faults.SwapCorrelationIds` | src/harness/fault_injection.py:71-85 | the loop exchanges the two ids in every row and changes nothing else |
| `Faults.SwapIsAnInvolution` | src/harness/fault_injection.py:71-85 | swapping twice restores the ledger |
| `Faults.SwapIsDetectedExactlyWhenRequestsDiffer` | src/harness/oracle/predicates.py:543-654 | crossing two consistent calls is noticed, at either id, exactly when the requests differ in tool, audience or argument digest |
| `Faults.SwapWithADenialIsDetected` | src/harness/fault_injection.py:71-85 | crossing a consistent call with a denied one is noticed at both ids |
| `Faults.FaultsAreLocal` | src/harness/fault_injection.py:36-115 | none of the six faults moves the verdict of an id it was not aimed at |
| `Faults.DropsExactly` | src/harness/fault_injection.py:36-57 | dropping effects removes every effect row of the id and no other row; dropping all removes every row of the id and no other |
| `Faults.EventDropsExactly` | src/harness/fault_injection.py:50-57 | dropping the mediation record removes every event of the id and no other |
| `Faults.DuplicatesExactly` | src/harness/fault_injection.py:60-68 | duplication keeps every row in place and appends one copy of each effect of the id with `-dup` behind its effect id |
| `Faults.InjectsExactly` | src/harness/fault_injection.py:93-115 | injection keeps every row in place and appends the template under the id as an effect |
| `Faults.RewrittenDenialGoesUnnoticed` | src/harness/fault_injection.py:50-91 | deleting all rows and replacing the mediation record by a denial reads as an honest UNREACHED |
| `Harm.HarmIsAdditive` | src/harness/oracle/predicates.py:300-370 | each realized harm of a ledger in two parts is the disjunction of the parts; F3 refuses both or neither |
| `Harm.HarmReadsOnlyItsOwnRows` | src/harness/oracle/predicates.py:300-485 | each realized harm depends only on the multiset of effect rows with the id |
| `Harm.HarmF1IsPerEffect` | src/harness/oracle/predicates.py:300-310 | F1 harm exactly when some correlated effect exercised a pair outside the sealed authority |
| `Harm.HarmF2IsPerEffect` | src/harness/oracle/predicates.py:313-328 | F2 harm exactly when some row is an effect of the id and the credential is unverified or names another or no principal |
| `Harm.HarmF3IsPerEffect` | src/harness/oracle/predicates.py:443-485 | F3 judges exactly with an intent for the call, a sealed digest and readable arguments; then harm exactly when some such row differs from the sealed digest, the observed one, the tool or the audience |
| `Harm.HarmF4IsPerEffect` | src/harness/oracle/predicates.py:331-352 | F4 harm exactly when some such row left with a sensitive tag that no authentic artifact names together with the payload and recipient, leading to a tag that is not sensitive |
| `Harm.HarmF5IsPerEffect` | src/harness/oracle/predicates.py:355-371 | F5 harm exactly when some such row is a high-risk action that is not approved |
| `Labels.FromValuesHasDistinctIds` | src/harness/policy/label_directory.py:57-65 | a directory built from a scenario never holds one id twice |
| `Labels.DirectoryExactly` | src/harness/policy/label_directory.py:57-65 | a directory knows a digest exactly if some declared value has it, under the last such value's id and tag |
| `Labels.Observe` | src/harness/policy/label_directory.py:85-121 | the loop returns the union of the labels found and a governing value that no other outranks, or refuses a label outside the order |
| `Labels.GovernsExactly` | src/harness/policy/label_directory.py:110-121 | with an order the governing value has the tag that comes last in it, and of those the greatest id; without one it has the smallest id |
| `Labels.ObservationDependsOnTheValuesAlone` | src/harness/policy/label_directory.py:85-121 | two calls with the same set of argument values give the same observation |
| `Labels.MoreValuesTouchMoreLabels` | src/harness/policy/label_directory.py:85-121 | adding arguments never removes a label |
| `Exfiltration.HarmF4DependsOnTheValuesAlone` | src/harness/effectors.py:60-83 | two ledgers whose effects carried the same argument values to the same recipients, under any field names, order and repetition, have the same F4 harm |
| `Exfiltration.LeaksExactly` | src/harness/oracle/predicates.py:331-352 | an effect leaks exactly when it left and some of its values has a sensitive tag that the artifact does not clear for it |
| `Exfiltration.TwoSensitiveTagsAlwaysLeak` | src/harness/oracle/artifacts.py:167-222 | an artifact names one tag, so an effect that left with two sensitive tags is F4 harm under every artifact |
| `Varints.EmitVarint` | smoke/g11/reencode.py:31-38 | the emitting loop writes the base-128 form |
| `Varints.ReadVarintLoop` | src/harness/oracle/commitment.py:66-76 | the reading loop returns value and next index, or refuses a truncated varint |
| `Varints.VarintRoundTrip` | smoke/g11/reencode.py:20-38 | a varint of any natural number is read back wherever it stands, and the reader stops right behind it |
| `Container.SplitFields` | smoke/g11/reencode.py:41-57 | the lenient parsing loop |
| `Container.SplitWireFields` | src/harness/oracle/commitment.py:79-96 | the fail-closed parsing loop |
| `Container.EmitFields` | smoke/g11/reencode.py:60-71 | the printing loop |
| `Container.PrintThenParse` | smoke/g11/reencode.py:41-71 | for every field list, printing then parsing is the identity, with either parser |
| `Container.StrictIsLenientWithoutOverrun` | src/harness/oracle/commitment.py:79-96 | the strict parser accepts exactly what the lenient one splits without running past the end, and then they agree |
| `Container.EmitIsInjective` | smoke/g11/reencode.py:60-71 | different field lists print differently |
| `Container.EncodingIsNotCanonical` | smoke/g11/reencode.py:20-57 | two byte strings with the same fields exist, so bytes do not identify a message |
| `Profile.SameMessageSameBlocks` | src/harness/oracle/commitment.py:99-153 | two encodings of one message are accepted or refused together and give the same block identifiers |
| `Profile.AcceptedExactly` | src/harness/oracle/commitment.py:99-127 | the profile check accepts exactly a 32-byte root key and a container that parses and whose fields 2 and 3 are delimited, parse, hold no subfield 4, and whose subfields 2 are delimited, parse and give no algorithm but the number 0 |
| `Profile.PrintedAcceptedExactly` | src/harness/oracle/commitment.py:99-127 | the same of a container printed from its fields |
| `Profile.IdentifiersExactly` | src/harness/oracle/commitment.py:127-153 | identifiers are given out exactly when the profile accepts, the chain verifies, there are as many as blocks, verified and on the wire, and each has 64 bytes; they are the verifier's own |
| `Profile.NextKeyDecides` | src/harness/oracle/commitment.py:113-124 | `12 04 12 02 08 00` is accepted and `12 04 12 02 08 01` is refused as an unsupported algorithm |
| `Reencode.StableSortIsUnique` | smoke/g11/reencode.py:74-76 | a descending list with the same fields per number is the stable sort, so the order chosen is the only one possible |
| `Reencode.ReorderKeepsTheMessage` | smoke/g11/reencode.py:74-76 | reordering a parseable container gives another encoding of the same message |
| `Reencode.ReorderKeepsTheBlockIds` | smoke/g11/reencode.py:74-76 | it verifies exactly when the original does, with the same block identifiers |
| `Reencode.ReorderRepairsOnlyTruncation` | smoke/g11/reencode.py:74-76 | the strict parse gives the same answer before and after exactly when the original was not cut short |
| `Reencode.ReorderVerifiesAlikeExactly` | smoke/g11/reencode.py:74-76 | for anything it can read: verification comes out alike before and after exactly when the original was not cut short or its repaired form is refused anyway; a container cut short is always refused, and an accepted one keeps its identifiers |
| `Reencode.CutShortIsRepaired` | smoke/g11/reencode.py:41-76 | the two bytes `12 05` are refused, and their repaired form is accepted under a chain verification that reads the message |
| `Reencode.TruncateTerminal` | smoke/g11/reencode.py:100-106 | the mutation on bytes is the one on fields, with its refusals |
| `Reencode.SwapAppendedBlocks` | smoke/g11/reencode.py:89-97 | likewise |
| `Reencode.FlipByteInAuthority` | smoke/g11/reencode.py:79-86 | likewise |
| `Reencode.TruncationDropsTheLastBlock` | smoke/g11/reencode.py:100-106 | exactly the last block is lost, every other field stays, and it refuses exactly without blocks |
| `Reencode.FlipChangesTheAuthority` | smoke/g11/reencode.py:79-86 | the first authority field changes in its last byte only, and always changes |
| `Reencode.SwapExchangesTwoBlocks` | smoke/g11/reencode.py:89-97 | the first two blocks are exchanged, visibly exactly when they differ |
| `Reencode.TruncatesExactly` | smoke/g11/reencode.py:100-106 | the last field numbered 3 is taken out of its place, every other field stays where it was, and it refuses exactly without one |
| `Reencode.SwapsExactly` | smoke/g11/reencode.py:89-97 | the first two fields numbered 3 are exchanged in place, and it refuses exactly with fewer |
| `Reencode.FlipsExactly` | smoke/g11/reencode.py:79-86 | the first field numbered 2 keeps its place and its content but for the lowest bit of the last byte; refused without such a field or without content |
| `Commitment.StreamCommitment` | src/harness/oracle/commitment.py:156-171 | the updates of the digest hash exactly the framed pre-image, with the version, algorithm and length refusals |
| `Commitment.StreamTagged` | src/harness/oracle/jcs_digest.py:51-66 | the streamed digest hashes the pre-image that the system under measurement concatenates in one expression |
| `Commitment.CommitPreImageInjective` | src/harness/oracle/commitment.py:156-171 | the pre-image determines the identifier sequence |
| `Commitment.CommitPreImageIsRead` | src/harness/oracle/commitment.py:156-171 | the pre-image exists exactly below the length limits, and is the ASCII tag, version 1, algorithm 1, the big-endian count and the identifiers behind their big-endian lengths, as an independent reader finds them |
| `Commitment.TaggedPreImageInjective` | src/sut/jcs.py:34-40 | the tagged pre-image determines the canonical bytes |
| `Commitment.TaggedPreImageIsRead` | src/harness/oracle/jcs_digest.py:51-66 | likewise the tag, version 1, the big-endian length and the canonical bytes |
| `Commitment.PreImagesAreSeparated` | src/harness/authorizer/frozen_config.py:137-153 | commitment, argument-digest and configuration pre-images are pairwise different |
| `Commitment.EqualCommitmentsMeanEqualPrefixes` | src/harness/oracle/commitment.py:174-178 | equal prefix commitments mean the same prefix of the same length, or the hash collides |
| `Commitment.CommitsExactly` | src/harness/oracle/commitment.py:156-171 | a commitment is given out exactly under version 1, algorithm 1 and the length limits, each refusal with its own cause, and is the hash of bytes laid out as the pre-image |
| `Commitment.PrefixCommitsExactly` | src/harness/oracle/commitment.py:174-178 | that of a prefix covers the identifiers up to and including the given one, and is refused exactly outside them |
| `Chain.CheckChain` | src/harness/authorizer/allowed.py:133-146 | the constructor accepts exactly the lists of hops in which each extends the one before by one block, and its errors say which check failed |
| `Chain.ChainsArePrefixClosed` | src/harness/authorizer/allowed.py:133-156 | for i up to j, hop i holds the first i+1 identifiers of hop j |
| `Chain.PrefixHashes` | src/harness/runner.py:846-853 | the loop returns the commitment of every prefix of the terminal hop |
| `Chain.TerminalHopDeterminesEveryCommitment` | src/harness/runner.py:846-853 | they equal the commitments the hops make themselves |
| `Chain.AgreementReachesBack` | src/harness/authorizer/allowed.py:158-161 | chains that agree on one hop's commitment have the same blocks and commitments at every earlier hop, or the two committed sequences are a collision of the hash |
| `Warmup.DiscardWarmup` | analysis/latency.py:152-168 | the grouping and keeping loops compute the discard, refusing a negative count |
| `Warmup.DiscardIsAnAction` | analysis/latency.py:152-168 | discarding n and then m repetitions is discarding n+m, as a list |
| `Warmup.DiscardIgnoresOrder` | analysis/latency.py:152-168 | the kept multiset does not depend on the input order |
| `Warmup.DiscardDropsTheEarliest` | analysis/latency.py:152-168 | in each group the dropped repetitions are the smallest ones, at most n of them, and fewer only when the whole group goes |
| `Warmup.KeptExactly` | analysis/latency.py:152-168 | a sample is kept, as often as it came, exactly if at least n repetitions of its arm, scenario, phase and batch came before its own |
| `Warmup.GroupsFile` | analysis/latency.py:159-163 | the dict of groups has distinct keys, every sample is under its key, in input order |
| `Segments.SegmentValuesLoop` | analysis/latency.py:171-197 | the pairing and collecting loops compute the series |
| `Segments.RefusedExactlyWhenIncomplete` | analysis/latency.py:171-197 | the series is refused exactly when some repetition in it lacks one of the two spans |
| `Segments.PairingConservesTheTotal` | analysis/latency.py:171-197 | the segments add up to all matching samples less what later samples of the same span overwrote, one value for each repetition |
| `Segments.SeriesIgnoresInputOrder` | analysis/latency.py:171-197 | a series that is refused, or in which no span of a repetition is reported twice with two values, is the same list for every input order |
| `Segments.OrderIsImmaterialExactly` | analysis/latency.py:171-197 | and only such a series: otherwise moving one of two samples to the end changes it |
| `Segments.SegmentIsTheSumOfItsSpans` | analysis/latency.py:406-440 | where both span series exist, the segment series is their pointwise sum |
| `Segments.SeriesExactly` | analysis/latency.py:171-197 | refused for a phase other than `cold` and `warm`, else for a missing span; each value is the last presentation plus the last boundary verification of its repetition, and repetitions come by scenario, batch and number |
| `Segments.SpanSeriesExactly` | analysis/latency.py:406-440 | a series of one span is refused exactly for an unknown phase, an unknown span, or a repetition that lacks it, and holds the last value of each repetition |
| `Segments.LatestIsTheLast` | analysis/latency.py:180-186 | of several samples of one span of one repetition the last counts |
| `Segments.RepetitionsCompare` | analysis/latency.py:176-188 | repetitions are told apart and ordered by scenario, then batch, then number |
| `Samples.PercentileBounded` | analysis/latency.py:245-253 | a percentile lies within the data |
| `Samples.PercentileMonotone` | analysis/latency.py:245-253 | it is monotone in the fraction, within a segment and across segment ends |
| `Samples.PercentileMonotoneInData` | analysis/latency.py:245-253 | it is monotone in the data |
| `Samples.PercentileShifts` | analysis/latency.py:245-253 | shifting the data shifts it |
| `Samples.MedianIsTheMiddlePercentile` | analysis/latency.py:232-253 | the median and the 50th percentile are the same number for odd and even lengths |
| `Quantiles.PercentileOfSortedSplits` | analysis/latency.py:245-253 | a percentile splits the values it is taken of at its position, in whatever order they come |
| `Quantiles.DistinctValuesSplitExactly` | analysis/latency.py:245-253 | of distinct values exactly n - 1 - floor(position) lie strictly above, which is n - 1 - position exactly when the percentile falls on a value |
| `Quantiles.PercentileHitsEachValue` | analysis/latency.py:245-253 | at each whole position the percentile is the value there |
| `Quantiles.PercentileRunsStraight` | analysis/latency.py:245-253 | from one value to the next it runs straight |
| `Bootstrap.BootstrapLoop` | analysis/latency.py:259-299 | the resampling loop computes the interval, with its three refusals |
| `Bootstrap.IntervalBounded` | analysis/latency.py:259-299 | for every draw, low is at most high and both lie between the extreme differences of the data |
| `Quantiles.IntervalCovers` | analysis/latency.py:259-299 | for every seed: of the n differences fewer than (1 - confidence) / 2 * (n - 1) + 1 lie strictly above the interval, fewer than that strictly below, and at least (1 - confidence) / 2 * (n - 1) lie at or beyond either end, so neither can move inward |
| `Quantiles.DecisionExactly` | analysis/latency.py:302-331 | the point estimate is the difference of the medians, the interval that of the resamples, and the descriptives those of their own series |
| `Quantiles.DescriptivesExactly` | analysis/latency.py:232-242 | size, median, 95th percentile and the distance of the quartiles, refused exactly for an empty series |
| `Quantiles.DrawsAreFollowed` | analysis/latency.py:284-294 | a resample that draws each value once gives the difference of the medians, and one that draws single values the difference of those |
| `Bootstrap.IntervalsNest` | analysis/latency.py:259-299 | for the same draws, more confidence gives an interval that contains the other |
| `Bootstrap.IntervalShifts` | analysis/latency.py:259-299 | adding k to every treatment value moves the interval by exactly k |
| `Bootstrap.SeparatedDataDecide` | analysis/latency.py:302-331 | data on one side of the margin decide the verdict for every seed |
| `Bootstrap.ConfidenceNeverRescues` | analysis/latency.py:302-331 | a claim that stands at some confidence stands at every lower one |
| `Bootstrap.DescriptivesAreOrdered` | analysis/latency.py:232-242 | the reported median is the median, lies between the quartiles, which lie below the 95th percentile, and the range is not negative |
| `Claim.ClaimIgnoresInputOrder` | analysis/latency.py:334-363 | the verdict of the row 1 claim does not depend on the order of the samples where each of its two series is refused or reports no span of a repetition twice with two values |
| `Claim.ClaimRefusedExactly` | analysis/latency.py:171-363 | the claim is refused exactly when a chain-tamper sample is pooled, an arm has no measured samples or a repetition without one of the two spans, or fewer than 1000 resamples are drawn; otherwise it stands exactly when the upper end of the interval is below the margin |
| `Claim.ClaimCoversNinetyFivePercent` | analysis/latency.py:334-363 | the interval of the claim leaves out 0.025 of the resamples on either side |
| `Claim.ClaimReadsOnlyItsSegment` | analysis/latency.py:200-218 | other arms, phases and spans never move it, and one chain-tamper sample refuses it |
| `Claim.RefusalPathExactly` | analysis/latency.py:200-218 | the cell that refuses is `gt-f1-chain-tamper` |
| `Security.NondeterminismLoop` | analysis/security.py:77-115 | the loops compute the list of disagreements, refusing fewer than two repetitions |
| `Security.SilentExactlyWhenReproduced` | analysis/security.py:77-115 | for all inputs, nothing is reported exactly when every recorded cell was recorded as often as there are repetitions, always with the same quantities |
| `Security.SilentExactlyWhenRepetitionsAgree` | analysis/security.py:77-115 | with one verdict per cell in each repetition, exactly when all repetitions hold the same cells with the same quantities |
| `Security.ReportedExactly` | analysis/security.py:77-115 | a disagreement is reported exactly when its cell was recorded and either is missing somewhere, with as many presences as records and one absence, or two of its records differ on the quantity, with the value of each record in order |
| `Security.ReportIsOrdered` | analysis/security.py:77-115 | reports come by cell and then by quantity, each once |
| `Security.GetExactly` | analysis/security.py:94-113 | a quantity is what the mapping holds under its name, and nothing if it holds none |
| `Security.DuplicateHidesADrop` | analysis/security.py:94-109 | without that, a cell recorded twice in one repetition and never in the other is not reported |
| `Counts.ClusterLoop` | analysis/security.py:139-182 | the bucket loop computes the clustered counts |
| `Counts.ClustersAddUp` | analysis/security.py:139-182 | counts and totals per family, and per template, sum to those over all cells |
| `Counts.ClustersIgnoreOrder` | analysis/security.py:139-182 | they are the same list for every input order |
| `Counts.RateIsAProportion` | analysis/security.py:129-133 | a rate lies between 0 and 1 and is refused exactly when nothing was scored |
| `Counts.ClustersExactly` | analysis/security.py:139-182 | one bucket for each family, or template, that occurs, in the order of the names; it counts the verdicts of that name whose quantity is true, and those whose quantity is scored |
| `Counts.InstanceMicroExactly` | analysis/security.py:118-137 | the same over all cells, and the rate times the total is the count |
| `Matrix.FamilyLoop` | src/harness/campaign.py:643-653 | the family is that named by the first part of the subcase to begin with one, F1 by default: the separate rule for the head changes nothing |
| `Matrix.FamilyExactly` | src/harness/campaign.py:643-653 | the family is the one at the first place, at the beginning or behind a colon, where F1 to F5 stands, and F1 without such a place |
| `Matrix.RefusedForTheFirstReason` | src/harness/matrix_grouping.py:107-127 | a cell is refused for an unknown family, else for an arm off the nine-arm ladder, else for a missing configuration of F4 or F5, else for a configuration of F1 to F3, and else not |
| `Matrix.SoundExactlyUnderOneConfiguration` | src/harness/matrix_grouping.py:134-171 | among recordable cells a comparison is sound exactly when all share one configuration |
| `Clock.CredentialWindowsLoop` | src/harness/campaign.py:443-469 | every time-bound value is found, in name order |
| `Clock.ClockRefusalLoop` | src/harness/campaign.py:472-540 | the two early-return loops compute the first refusal |
| `Clock.ScorableExactlyWhen` | src/harness/campaign.py:472-540 | no refusal exactly when every credential is in force and every freshness-bound artifact fresh at the instant judged at |
| `Clock.RefusalNamesTheCause` | src/harness/campaign.py:472-540 | a refusal names the first credential, by name, that is not in force, with the window it was judged by, and only where all are in force an artifact that is not fresh, the declassification first |
| `Clock.UnreadableIsRefused` | src/harness/campaign.py:374-417 | an unreadable credential is refused at every instant, an unreadable approval at every instant from 1970 on |
| `Scoring.RaisesExactlyOnAGuard` | src/harness/campaign.py:656-731 | scoring a cell raises exactly for two mediation records, a sealed record without benignness, or on a ledger-backed F3 cell an intent for another call, without a digest, or unreadable arguments |
| `Scoring.CellRecordsWhatHappened` | src/harness/campaign.py:656-731 | on every run of a wired call the cell records what happened to it, what the arm answered and how many effects there were, and raises for nothing the instrument did |
| `Scoring.CellHarmExactly` | src/harness/campaign.py:689-706 | a ledger-backed cell of one of the five families records harm exactly where its family's condition on the rows holds; any other cell records none |
| `Scoring.CellQuantitiesExactly` | src/harness/campaign.py:673-731 | the remaining quantities of a cell, each from the sealed record and the records of the run |
| `Campaign.RunCampaign` | src/harness/campaign.py:781-973 | the nested loops compute the table or the first error |
| `Campaign.RowsTabulate` | src/harness/campaign.py:870-967 | they tabulate, in order, the outcomes of the whole product |
| `Campaign.TablePartitionsTheMatrix` | src/harness/campaign.py:868-973 | where every arm calls itself by its key, the two lists together account for exactly the product of scenarios and arms, with multiplicity |
| `Campaign.EveryPairExactlyOnce` | src/harness/campaign.py:868-973 | there, with distinct names, each pair is in exactly one list, once |
| `Campaign.AccountedAsRecorded` | src/harness/campaign.py:868-973 | whatever the arms call themselves, a pair is accounted for as often as its scenario's row records an outcome under its name |
| `Campaign.MisfiledArmIsLost` | src/harness/campaign.py:868-973 | a scored arm filed under a key that is not its name leaves its pair in neither list |
| `Campaign.TableHoldsTheOutcomes` | src/harness/campaign.py:868-973 | an entry is in its list exactly when it is the outcome of some pair |
| `Campaign.CellsExactly` | src/harness/campaign.py:868-973 | the cells are exactly the verdicts of scoring the completed runs of the pairs whose arm applies, whose minting succeeds and whose credentials and artifacts hold at the clock reading, whatever the verdicts say |
| `Campaign.CompletedRunsAreScored` | src/harness/campaign.py:914-967 | each such pair whose run completes has its verdict in the table |
| `Campaign.EntriesExactly` | src/harness/campaign.py:880-929 | with distinct arms, a pair is listed as not applicable, refused or incomplete exactly when the arm does not apply, a credential or artifact does not hold, or it may run and its run ends in a `RunnerError`, with that error |
| `Campaign.ScoredCellsAreCovered` | src/harness/campaign.py:880-967 | a scored cell applies to its arm, its credentials and artifacts cover the very instant the oracle judges at, it holds what scoring its run gives and the campaign's configuration, which the checked cell carried exactly if its family has one |
| `Campaign.FailsExactly` | src/harness/campaign.py:781-973 | a campaign ends without a table exactly when its configuration is missing, a scenario cannot be read or has an unknown fault, or a pair comes up whose minting breaks, or which the clock lets run and whose run breaks other than by a `RunnerError`, whose checks break, whose arm is off the ladder, whose mediation record is ambiguous, whose sealed record has no benignness, or whose context binding cannot be judged |
| `Campaign.BrokenRunEndsTheCampaign` | src/harness/campaign.py:914-929 | a campaign of one such pair ends without a table if the run breaks, and with one if it ends in a `RunnerError` |
| `Campaign.ErrorExactly` | src/harness/campaign.py:781-973 | the error a campaign ends with is that of what came first: the missing configuration, else of the first scenario that ends it, and there of the first arm, and for that the first thing that goes wrong with the pair |
| `DotSegments.RemoveDotSegmentsLoop` | src/sut/dpop.py:89-100 | the stack loop computes the fold over segments |
| `DotSegments.RemovalIsIdempotent` | src/sut/dpop.py:89-100 | on every path no dot segment is left and a second pass changes nothing |
| `DotSegments.NormalizationIsIdempotent` | src/sut/dpop.py:72-86 | normalizing a normalized target changes nothing |
| `DotSegments.NormalFormsAgreeExactly` | src/sut/dpop.py:72-86 | two targets normalize alike exactly when scheme and host agree without case, effective ports agree and cleaned paths agree; query and fragment never matter |
| `Rfc3986.BufferIsFold` | src/sut/dpop.py:89-100 | the buffer-rewriting algorithm of section 5.2.4 of RFC 3986 as a fold over segments |
| `Rfc3986.AgreesExactly` | src/sut/dpop.py:89-100 | for every absolute path: not ending in a dot segment, the loop is the standard exactly when no `..` meets an empty segment; ending in one, exactly when one does, every later one meets a stack of one segment, and the loop's answer is empty segments from the first refused one on |
| `Rfc3986.AgreesExactlyWithoutRefusals` | src/sut/dpop.py:89-100 | for absolute paths not ending in a dot segment, the loop is the standard exactly when no `..` meets an empty segment |
| `Rfc3986.FinalDotSegmentLosesTheSlash` | src/sut/dpop.py:89-100 | for those ending in one, without such a meeting, the standard's answer has one more slash |
| `Rfc3986.DotLosesItsSlash` | src/sut/dpop.py:89-100 | `/a/.` gives `/a`, and `/a/` by the standard |
| `Rfc3986.EmptySegmentIsKept` | src/sut/dpop.py:89-100 | `//../a` gives another path than by the standard |
| `Rfc3986.AgreesUnlessThePathEndsInADot` | src/sut/dpop.py:89-100 | for absolute paths without inner empty segments the two agree exactly when the last segment is not a dot segment |
| `Substitution.SubstituteBackExactly` | tools/reframe/verify_rename.py:163-165 | leftmost non-overlapping substitution is undone exactly on texts without the new name, for any unbordered name that cannot overlap the old one |
| `Rename.ReverseIsExactInverse` | tools/reframe/verify_rename.py:163-165 | for the two names of the reframe: reversed exactly on the byte strings that did not hold the new name |
| `Rename.NamesExactly` | tools/reframe/verify_rename.py:163-165 | the names are `CLAUDE.md` and `PROJECT_RULES.md` |
| `Prune.CheckOpcodes` | tools/workplan/verify_prune.py:193-218 | without failures the new lines are the old ones minus the removed indices, in order, each equal or reverting to its old line; there are no failures exactly when every opcode is an unchanged or deleted range or one replaced line by line by lines that revert; the removed lines are those of the deleted ranges |
| `Prune.SplitRuns` | tools/workplan/verify_prune.py:219-228 | the runs concatenate to the removed lines, each contiguous and none extensible |
| `Prune.Categorize` | tools/workplan/verify_prune.py:229-240 | each total grows by exactly the removed lines of its own category, own or inherited from the run, and the uncategorized total by the rest |
| `Prune.CategoryExactly` | tools/workplan/verify_prune.py:229-236 | a line falls in its own category, or if it has none and is structural in the one category that all categorized lines of its run share |
| `Prune.CategoriesPartition` | tools/workplan/verify_prune.py:229-240 | every removed line is in exactly one of the four lists, as often as it was removed |
| `Prune.NothingLeftOver` | tools/workplan/verify_prune.py:229-240 | none stays uncategorized exactly when every line of every run falls in a category |
| `Prune.CheckFile` | tools/workplan/verify_prune.py:186-243 | a file without failures lost whole lines only, all categorized and all counted; it has none exactly when every opcode may stand and no removed line is left uncategorized |
| `Prune.SurvivesExactly` | tools/workplan/verify_prune.py:204-206 | a line survives unchanged or by reverting `docs/workplan` to `docs/tasks` |
| `Prune.AllowedExactly` | tools/workplan/verify_prune.py:193-218 | an opcode may stand exactly if it is equal, a deletion, or a replacement of as many lines each of which reverts to its old line |
| `Codec.HexRoundTrip` | src/harness/sut_process.py:50-67 | bytes survive their hexadecimal form |
| `Codec.HexTextIsRead` | src/harness/sut_process.py:59-67 | a text is read as bytes exactly when it is pairs of digits of either case with white space around the pairs, and as the bytes whose hexadecimal form it is in small letters without the white space |
| `Codec.BytesTravelAs` | src/harness/sut_process.py:50-67 | bytes travel as the one entry `__bytes__` with their hexadecimal form |
| `Codec.RoundTrip` | src/harness/sut_process.py:50-67 | for every nested value, decoding the encoding gives it back with tuples as lists exactly when nothing in it could be mistaken for bytes |
| `Codec.EncodedIsJson` | src/harness/sut_process.py:50-57 | encodings hold no bytes and no tuples |
| `Codec.EncodingIsStable` | src/harness/sut_process.py:50-67 | re-encoding the decoded message of a value in which nothing looks like bytes gives the same message |
| `Codec.StableExactly` | src/harness/sut_process.py:50-67 | for every value, exactly when each dict in it that looks like bytes holds lower-case hexadecimal without spaces |
| `Codec.UpperCaseIsNotStable` | src/harness/sut_process.py:50-67 | a look-alike holding `AB` is read and comes back different |
| `FrozenConfig.ValidateAblation` | src/harness/authorizer/frozen_config.py:115-126 | accepts exactly the ablations derived from gamma whose declared and overridden paths agree and all exist |
| `FrozenConfig.MaterializeAblation` | src/harness/authorizer/frozen_config.py:166-181 | the loop over the overrides computes their composition |
| `FrozenConfig.MaterializesExactlyWhen` | src/harness/authorizer/frozen_config.py:166-181 | for every list of overrides, nested or not: materializing succeeds exactly when each override finds an object at its parent, in the last earlier override strictly above it or else in gamma |
| `FrozenConfig.AblationIsGoverned` | src/harness/authorizer/frozen_config.py:166-181 | what the result holds at a path below which nothing was written since it was last set is read from that override, or from gamma |
| `FrozenConfig.AblationDiffersExactlyThere` | src/harness/authorizer/frozen_config.py:166-181 | materializing an accepted prefix-free ablation never fails, sets every path, and agrees with gamma on every path neither above nor below one |
| `FrozenConfig.NestedOverridesCanFail` | src/harness/authorizer/frozen_config.py:166-181 | an accepted ablation that overrides a path and then one below it can fail where the other order succeeds |
| `ObjectGraph.DeepCopy` | src/harness/authorizer/frozen_config.py:161-163 | the copy shows the same document in new dicts only |
| `ObjectGraph.Assign` | src/harness/authorizer/frozen_config.py:175-180 | walking the keys and assigning the last one writes one field of one dict, and fails exactly when the parent is no object |
| `SharedOverrides.GammaAblation` | src/harness/authorizer/frozen_config.py:166-181 | on shared dicts: the result is the one computed on values, gamma is untouched, the overrides before the first that does not find its parent are written, and the document is unchanged exactly when what they wrote left each override value as it was |
| `SharedOverrides.PrefixFreeIsHarmless` | src/harness/authorizer/frozen_config.py:166-181 | prefix-free overrides leave the document unchanged |
| `SharedOverrides.HarmlessExactlyWhenRepeating` | src/harness/authorizer/frozen_config.py:166-181 | an override value written into at paths not on one another is left as it was exactly when each write repeats what is there |
| `SharedOverrides.NestedOverrideWritesIntoTheDocument` | src/harness/authorizer/frozen_config.py:166-181 | an override below an earlier one is written into the document itself, by an ablation that passes validation and materializes |

## Left out

- Cryptography and canonicalization (Ed25519, SHA-256, Biscuit, RFC 8785, JOSE): abstract parameters.
- The signature and window checks of declassifications, the validator of approvals, and the shape readers of tokens and certificates: abstract, as `Harm.Declassification`, `Harm.Validators`, `Scores.Gates` and `Clock.Reading`.
- Processes, pipes, sockets, files, clocks and the MCP session: a sequence of lines, an instant or a list of rows stands for each. `LedgerWriter`'s platform check is not part of this model.
- Floating point: durations are reals, so rounding inside a percentile is not captured.
- The pseudo-random generator: any sequence of indices within range.
- `reference_allow`'s construction of the reference effect, `_apply_exceptions`, the sets of files compared by the two document checkers, `e5_bit_difference`, `arm_pair_delta` and `llm_turn_fraction`: conjunctions, scripts and finite tables around what is modelled.
- The other campaign preconditions (frozen rows, run mode, single process, ledger availability, one stack): guards over the environment that return or raise before the loop.
- `dict` mutators that Python implements in C and the registry does not override (`|=`): the model has the three overridden ones.
- NormalizationIsIdempotent: speaks of URL components, so `urlsplit` and `urlunsplit` are not part of this model; lower-casing is that of ASCII, and IPv6 brackets are not modelled.
- SameMessageSameBlocks: compares acceptance and identifiers, not which of several faults is reported first, because reordering fields changes that.
- RoundTrip: keys are strings, so two keys that become equal under `str` are not captured.
- PairingConservesTheTotal: sums the two spans as reals, without the order of floating-point addition.
- FailsExactly: takes the preconditions checked before the loop, other than the configuration's, as met.
- RunCampaign: the messages of refusals, the timing seams and the run record are not modelled; a scenario without a sealed record is one error, and sealed documents of a wrong shape, other than a missing `is_benign` and an unknown fault, are not modelled.
- HarmlessExactlyWhenRepeating: where the writes inside one value lie on one another, the condition stays `SharedOverrides.Harmless`, which composes them on values before the call.
