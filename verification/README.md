# Pod0 release tooling, verified

This project models the parts of the Pod0 repository that decide releases: the product-proof
evaluator, the lexers and parsers of the architecture checkers, the ownership and migration
inventories, and the recording sink actor that the signal tests wait on. Python comprehensions
and pure helpers are functions; Python loops, dictionaries changed in place and the Swift actor
are methods and a class, each proved against a specification that does not follow their order
of work.

- `Wilson.dfy`, `Measures.dfy`: the Wilson interval over exact reals, the status of one
  measure, and what further trials do to it. The square root is any function that returns a
  non-negative root of every non-negative real, and the normal quantile `z` is a parameter, of
  which the evaluator's `Z95` is one instance (`QuantileIsZ95`). Everything follows from the
  score test: a threshold is below the lower bound exactly when a polynomial inequality in the
  counts holds.
- `Signals.dfy`, `Reading.dfy`, `Cohort.dfy`, `Evaluator.dfy`: activation of an install, the counts behind the
  twelve measures as cardinalities on a set of signals, and the evaluator that merges, groups,
  counts and judges. `Reading.dfy` writes out, for each measure and without any of their
  definitions, which installs and signals it counts; the report is proved to say exactly that. Times are microseconds; days are quotients. Python dictionaries are a list
  of distinct keys in insertion order with a map.
- `Scanner.dfy`, `Comments.dfy`, `Masking.dfy`: regular-expression substitution for the four
  patterns the checkers use, the one-pass comment scanner, the two-pass comment deletion and
  the mask of strings and comments.
- `Enums.dfy`: the Rust enum reader.
- `CoreIo.dfy`: the line tracker of the main-actor ratchet. The three regular expressions it
  applies to a line are parameters; the braces are counted in the text.
- `Ownership.dfy`, `Behaviors.dfy`, `Inventory.dfy`: the most specific owner of a path and the
  two validators of the ownership inventory, with their counters.
- `SchemaPolicy.dfy`: the migration policy. The digest is any function of the bytes.
- `SignalSink.dfy`: the sink actor as a class and as a state machine over its atomic steps.

`Outcomes.dfy`, `Collections.dfy` and `Counters.dfy` hold optional values, results, finite-set
counting and counters.

What the proofs show about the code, beyond that it does its job:

- For seven of the ten measures with a Wilson threshold, the evidence minimum is large enough
  that the threshold can never decide: the point threshold alone says whether they miss. For
  play reliability, resume reliability and citation use it can: 296 of 300 plays, 97 of 100
  resumes, and 3 citations out of 10 grounded recalls with 50 asked, meet the evidence minimum
  and the point threshold and miss. Which samples miss is stated exactly and without a root
  (`Measures.StatusIsRootFree`), and so is the verdict (`Evaluator.VerdictFromCounts`).
- A launch before every known launch, by however little, can remove an activation when it is
  merged later; if the activation survives it comes no later. No other signal removes one.
- When a line comment contains a block-comment opener that reaches past the line, the two-pass
  stripper can delete code of the following lines that the one-pass scanner keeps. The one-pass
  scanner in turn takes two slashes in a string literal for a comment and hides the code behind
  it.
- A Rust variant with a discriminant is dropped by the enum reader without an error, whatever
  documentation and attributes stand before it.
- An actor whose declaration line does not open more braces than it closes, for instance because
  its brace is on the next line, exempts nothing from the ratchet.
- The comment on `path_matches` speaks of incomplete file names; the code treats every selector
  that does not end in `.swift` as a prefix, complete or not. The model follows the code.

## Model

| member | source | states |
|---|---|---|
| Wilson.BoundsAreTheRoots | scripts/product_proof_cohort.py:53-66 | The two bounds are the two roots of the score quadratic, neither clamp ever changes a value, and 0 <= lower <= n/d <= upper <= 1 |
| Wilson.RootTest | scripts/product_proof_cohort.py:60-66 | A threshold is met (or strictly exceeded) by the lower root exactly when a root-free inequality on the counts holds |
| Wilson.EvidenceMovesTheBounds | scripts/product_proof_cohort.py:53-66 | One more success strictly raises the lower bound, one more failure strictly lowers it, more trials at the same rate or a better rate raise it, without successes it is zero, and lower(n,d) = 1 - upper(d-n,d) |
| Wilson.EnoughTrials | scripts/product_proof_cohort.py:60-66 | How many trials make a point threshold imply a Wilson threshold; at exactly the point threshold that number is also necessary |
| Measures.PassingSurvivesSuccess | scripts/product_proof_cohort.py:69-108 | A passing measure still passes after one more success, for any gate |
| Measures.MissingSurvivesFailure | scripts/product_proof_cohort.py:69-108 | A measure that misses its threshold still misses it after one more failure, for any gate |
| Measures.StatusIsRootFree | scripts/product_proof_cohort.py:69-108 | The exact status of every measure of the evaluator for any counts and any evidence: on enough evidence it misses exactly when its proportion is below the point threshold or a root-free polynomial in the counts is negative |
| Measures.MeasureIsExact | scripts/product_proof_cohort.py:69-108 | A measure raises exactly when it counts more successes than trials; otherwise it holds those counts, their proportion, the two roots of their score quadratic, its evidence sample and its exact status |
| Measures.WilsonGateIsIdle | scripts/product_proof_cohort.py:191-204 | For the other seven measures with a Wilson threshold, any sample misses exactly when its proportion is below the point threshold: the Wilson threshold never decides |
| Measures.WilsonGateDecides | scripts/product_proof_cohort.py:195-199 | Samples of play reliability, resume reliability and citation use that meet the evidence minimum and the point threshold and still miss |
| Measures.OnLeastEvidence | scripts/product_proof_cohort.py:192-203 | For each measure, the fewest successes that pass on the least evidence, and that one trial less is never enough evidence; the two reliabilities need one and two successes more than their point threshold says |
| Signals.MatchingCardinality | scripts/product_proof_cohort.py:22-31 | The length of a filtered list of distinct signals is the cardinality of the set of matching signals |
| Signals.ActivationIsLeast | scripts/product_proof_cohort.py:34-50 | The computed activation is the least instant, within a day of the first launch, by which both a created subscription and a succeeded play have occurred |
| Signals.ActivationIgnoresOrder | scripts/product_proof_cohort.py:34-50 | Activation depends only on the set of signals |
| Signals.MoreSignalsActivateNoLater | scripts/product_proof_cohort.py:34-50 | Further signals never remove or delay an activation as long as every further launch follows an old one |
| Signals.EarlierLaunchMovesTheWindow | scripts/product_proof_cohort.py:38-50 | After adding a launch before all others, the install is activated exactly when a subscription and a play fall into that day, and then no later than before |
| Signals.EarlierLaunchRemovesActivation | scripts/product_proof_cohort.py:38-50 | Signals for which every earlier launch, by however little, removes the activation |
| Cohort.TallyInclusions | scripts/product_proof_cohort.py:123-204 | Every numerator except grounded recalls and opened citations counts a part of what its denominator counts |
| Cohort.OneMeasureForEachRow | scripts/product_proof_cohort.py:191-204 | Without an error there is exactly one measure for each row of the table, in order, with that row's counts and gate |
| Cohort.BuildRaisesAtFirstExcess | scripts/product_proof_cohort.py:78-79 | Building the table raises exactly when some numerator exceeds its denominator, and names the first such row |
| Cohort.OnlyTwoGuardsCanFire | scripts/product_proof_cohort.py:78-79 | Building the measures raises exactly when grounded recalls exceed asked ones or opened citations exceed grounded recalls, and names the first of these |
| Cohort.RowsRead | scripts/product_proof_cohort.py:156-204 | Each row of the table holds the numerator, denominator and evidence sample of its own measure, written out as cardinalities over the signals |
| Evaluator.ActivatedInstalls | scripts/product_proof_cohort.py:111-120 | Exactly the installs with an activation are kept, each with its activation |
| Evaluator.InstallCounts | scripts/product_proof_cohort.py:123-153 | Each of the four counters is the number of activated installs that show that habit |
| Evaluator.CountInstalls | scripts/product_proof_cohort.py:157-176 | Counting over any list of the evaluated installs gives the cardinalities on the set of signals |
| Evaluator.CountEvents | scripts/product_proof_cohort.py:162-190 | Counting over the flattened installs gives the cardinalities on the set of signals |
| Evaluator.BuildMeasures | scripts/product_proof_cohort.py:156-204 | The result is the twelve measures in order, each exact for the cardinalities written out over the signals, or an error for the first measure that counts more successes than trials |
| Evaluator.ArchiveChecks | scripts/product_proof_export.py:194-202 | An archive is accepted exactly when its declared count is its length and its signals share one install |
| Evaluator.MergeAll | scripts/product_proof_cohort.py:212-221 | Merging fails exactly on an invalid archive or on two different signals with one id, at the first archive that spoils it, and otherwise merges the set of all signals |
| Evaluator.MergeableOrSpoiled | scripts/product_proof_cohort.py:214-221 | The archives can be merged exactly when none is the first to spoil the merge, and only one archive can be that, either by being invalid or by a conflict |
| Evaluator.GroupByInstall | scripts/product_proof_cohort.py:223-225 | Each install's list holds exactly its signals, once each |
| Evaluator.LaunchedInstalls | scripts/product_proof_cohort.py:226-229 | Exactly the installs with a launch are evaluated |
| Evaluator.Analyze | scripts/product_proof_cohort.py:207-266 | The report says of the set of all signals exactly what is written out: archives, unique signals, launched and other installs, the twelve measures, data loss and verdict; each kind of error is raised exactly when the first obstacle is of that kind |
| Evaluator.ReportIgnoresOrder | scripts/product_proof_cohort.py:212-246 | Reordering or repeating archives, or splitting the same signals over other valid archives, changes nothing but the archive count |
| Evaluator.Conservation | scripts/product_proof_cohort.py:248-254 | Unique signals are the distinct ids and the sum of the group sizes; evaluated and ignored installs are all installs, at most one for each archive |
| Evaluator.VerdictFromCounts | scripts/product_proof_cohort.py:230-246 | The verdict from the counts alone: a signal of data loss, a measure whose counts miss its thresholds, or all twelve passing the root-free test |
| Evaluator.ReportIsDetermined | scripts/product_proof_cohort.py:248-266 | Only one report says what a set of signals amounts to, so the result is the same for every square root |
| Scanner.MatchEndIsTheMatch | scripts/native_business_logic_scan.py:22-25 | The matcher finds the one match of the pattern at a position, and none exactly when there is none |
| Scanner.CutsAreLeftmost | scripts/native_business_logic_scan.py:94-100 | The substituted stretches are disjoint matches in order with no match beginning between them |
| Scanner.MaskIsLeftmost | scripts/native_business_logic_scan.py:94-100 | The masked text is blank exactly inside the leftmost matches and unchanged elsewhere; newlines survive |
| Scanner.DeleteIsLeftmost | scripts/check_chapter_single_writer.py:97-99 | A deletion keeps exactly the characters outside the leftmost matches, in order |
| Comments.StripComments | scripts/check_main_actor_core_io.py:30-56 | The one-pass scanner computes the mask of comments, unclosed blocks included |
| Comments.LineNumbersSurvive | scripts/check_ui_storage_boundary.py:43-51 | A line number computed on the blanked text is one more than the number of newlines before that index in the source |
| Comments.NoOpenerIsLeft | scripts/check_ui_storage_boundary.py:13-40 | The blanked text contains no comment opener at any position |
| Comments.StripIsIdempotent | scripts/check_ui_storage_boundary.py:13-40 | Blanking a second time changes nothing |
| Comments.StrippersAgree | scripts/check_chapter_single_writer.py:97-99 | If no block that the first pass deletes reaches over the slashes or the end of a line comment, both strippers keep the same code characters in the same order exactly when every block comment is closed |
| Comments.HarmlessOpeners | scripts/check_chapter_single_writer.py:97-99 | A line comment meets that proviso when each block opener in it is past the slashes and closed in the line, or closed nowhere |
| Comments.OpenerInLineCommentHidesCode | scripts/check_chapter_single_writer.py:97-99 | A source for which the two-pass form deletes code that the one-pass form keeps |
| Masking.NothingIsLeft | scripts/native_business_logic_scan.py:94-100 | No string or comment begins at any position of the masked text |
| Masking.StillUnterminated | scripts/native_business_logic_scan.py:22-25 | An unterminated quote stays unterminated after masking, escaped quotes included |
| Masking.CodeOnlyIsIdempotent | scripts/native_business_logic_scan.py:94-100 | Masking twice is masking once |
| Masking.StripAgreesWithCodeOnly | scripts/check_main_actor_core_io.py:30-56 | If no string literal contains a comment opener, the comment scanner and the mask leave the same text outside string literals exactly when every block comment is closed |
| Masking.SlashesInStringHideCode | scripts/check_main_actor_core_io.py:49-53 | A source in which two slashes in a string make the comment scanner hide code that the mask keeps |
| Enums.EnumBody | scripts/activity_conformance_lib.py:94-108 | The loop returns the balanced text behind the first header, an error for no header exactly when no position of the text starts one, and an error for no closing brace exactly when no balanced body follows |
| Enums.HeaderIsExact | scripts/activity_conformance_lib.py:95 | A header is found at a position exactly when the declaration, the name, only white space and the opening brace stand there, and it ends behind that brace |
| Enums.EnumBodyIsUnique | scripts/activity_conformance_lib.py:94-108 | No other result meets that description |
| Enums.BraceDepthCounts | scripts/activity_conformance_lib.py:99-107 | The depth is the number of opening minus the number of closing braces |
| Enums.BodyIsBalanced | scripts/activity_conformance_lib.py:100-107 | A found body is brace-balanced and followed by the closing brace |
| Enums.BodyIsFound | scripts/activity_conformance_lib.py:100-107 | A balanced body is found whatever follows its closing brace |
| Enums.Chunks | scripts/activity_conformance_lib.py:113-124 | The splitting loop computes the chunks |
| Enums.ChunksAreCut | scripts/activity_conformance_lib.py:113-124 | The chunks joined by commas give back the body, and the cuts are exactly the depth-zero commas |
| Enums.NestingCounts | scripts/activity_conformance_lib.py:117-120 | The depth is the number of opening minus the number of closing brackets of all three kinds |
| Enums.SplitInvertsJoin | scripts/activity_conformance_lib.py:113-124 | No other splitting has that property |
| Enums.EnumVariants | scripts/activity_conformance_lib.py:111-133 | The reader returns the first name found in each chunk, in order, of a splitting of the body whose cuts are the depth-zero commas; its errors are those of the body |
| Enums.FirstVariantIsFound | scripts/activity_conformance_lib.py:127-132 | The name read from a chunk is that of the first line that consists of white space, a capitalised name, white space and a payload or nothing; none is read exactly when there is no such line |
| Enums.NameIsFound | scripts/activity_conformance_lib.py:126-132 | What is read from a chunk whose name follows any documentation and attribute lines: the name exactly when a payload or nothing follows it, and otherwise what a later line of the tail declares, if anything |
| Enums.RenderedVariantsAreRead | scripts/activity_conformance_lib.py:94-133 | Round trip: the variants of a rendered enum are its names in order, whatever follows it and whatever header-free text precedes it |
| Enums.DiscriminantsAreDropped | scripts/activity_conformance_lib.py:127-130 | With a one-line tail, the variant is read if and only if the tail is a payload or empty, whatever lead stands before it |
| CoreIo.TracksLine | scripts/check_main_actor_core_io.py:67-76 | The single depth is set on a line exactly when some declared actor is still open there, and it never exceeds the brace depth |
| CoreIo.TracksNext | scripts/check_main_actor_core_io.py:79-81 | Each line keeps the single depth at the body depth of the outermost open actor |
| CoreIo.DepthCounts | scripts/check_main_actor_core_io.py:79 | The depth at the start of a line is the number of opening minus closing braces in the text before it |
| CoreIo.Findings | scripts/check_main_actor_core_io.py:59-83 | Exactly the calls on lines with no open actor and whose last declaration is not nonisolated are reported, each once, in order of line and position, with its line number and under the name of that declaration or of the file |
| CoreIo.ActorNeedsItsBrace | scripts/check_main_actor_core_io.py:68-81 | An actor is open after its declaration line exactly when that line opens more braces than it closes, and otherwise never |
| CoreIo.CurrentCounts | scripts/check_main_actor_core_io.py:94-102 | Each count is the number of positions of findings with that key |
| CoreIo.Ratchet | scripts/check_main_actor_core_io.py:109-122 | Every key whose count differs from its baseline is reported exactly once, with both numbers and the right direction, and nothing else is |
| Ownership.NoOwner | scripts/check_architecture_ownership.py:31-75 | No owner exactly when each entry has no include that selects the path or has an exclude that does, with selection written out on the text |
| Ownership.LongestIsOwner | scripts/check_architecture_ownership.py:31-85 | An entry that claims the path by a longest selecting include is an owner |
| Ownership.OwnerHasLongest | scripts/check_architecture_ownership.py:31-85 | Every owner claims the path by a longest selecting include |
| Ownership.AmbiguousOwner | scripts/check_architecture_ownership.py:31-85 | More than one owner exactly when two claiming entries list the identical longest selector |
| Ownership.SoleOwner | scripts/check_architecture_ownership.py:71-85 | An entry is the one owner exactly when it lists a longest selector of the path and no other entry lists one |
| Inventory.ValidateInventory | scripts/check_architecture_ownership.py:154-211 | No error exactly when entries, files and behavioral inventories are sound; every key of the merged counter is exact in every case |
| Inventory.ValidateFiles | scripts/check_architecture_ownership.py:164-202 | The entry, file and stale checks report nothing exactly on sound inventories; the three counters are exact and add up to the owned files in every case |
| Inventory.FilesArePositions | scripts/check_architecture_ownership.py:183-198 | Each counter holds the number of files with one owner under that classification, language or id |
| Inventory.SoundOwnership | scripts/check_architecture_ownership.py:181-210 | In a sound inventory ownership is a total function from files onto entries, each counter adds up to the number of files, and there are no more entries than files |
| Behaviors.RecordFacts | scripts/check_architecture_ownership.py:127-139 | The facts of a row are recorded under their first owner and reported exactly when an owner is missing or differs |
| Behaviors.FactsAreStated | scripts/check_architecture_ownership.py:115-137 | The recorded facts are exactly those that some row states: a fact field names the fact, and its owner stands in the fact-owner field or, without one, in the only filled owner field |
| Behaviors.KindsAreRead | scripts/check_architecture_ownership.py:115-121 | The rows counted under a kind are those with exactly one filled owner field whose kind field, or else whose manifest, says so |
| Behaviors.ValidateBehaviors | scripts/check_architecture_ownership.py:88-151 | No error exactly on sound behavioral inventories, stated without order; then the fact table is the ownership of all facts; the count of every kind is exact in every case |
| Behaviors.OrderIsIrrelevant | scripts/check_architecture_ownership.py:94-139 | Reordering or repeating manifests and reordering the rows inside them changes neither acceptance nor the recorded facts |
| Behaviors.SoundRowsAreCounted | scripts/check_architecture_ownership.py:121 | Without an error every row of every manifest is counted under exactly one kind |
| SchemaPolicy.PrefixesAreDisjoint | scripts/check_rust_schema_policy.py:20-22 | No file name starts with the prefixes of two versions, beyond four digits too |
| SchemaPolicy.PrefixIsPadded | scripts/check_rust_schema_policy.py:19 | The prefix of a version is its one decimal form with leading zeros only up to four digits, and an underscore |
| SchemaPolicy.Evaluate | scripts/check_rust_schema_policy.py:12-42 | No error exactly when versions, files, lock and fixture agree |
| SchemaPolicy.CompliantMigrations | scripts/check_rust_schema_policy.py:18-41 | Without an error the files are in bijection with the versions and as many as the lock entries |
| SignalSink.RecordingProductSignalSink.RecordObservation | AppTests/Sources/ProductSignalTestSupport.swift:15-18 | Recording is a step of the run: it appends the observation and resumes exactly the satisfied waiters, each once, in any order |
| SignalSink.RecordingProductSignalSink.WaitForCount | AppTests/Sources/ProductSignalTestSupport.swift:28-48 | A wait returns at once exactly when the count is reached, and otherwise registers one waiter |
| SignalSink.RecordingProductSignalSink.ResumeSatisfiedWaiters | AppTests/Sources/ProductSignalTestSupport.swift:50-56 | Exactly the satisfied waiters are removed and resumed with the current observations |
| SignalSink.RecordingProductSignalSink.ResumeWaiter | AppTests/Sources/ProductSignalTestSupport.swift:58-60 | A registered waiter is removed and resumed once; any other identity changes nothing |
| SignalSink.StepKeeps | AppTests/Sources/ProductSignalTestSupport.swift:15-60 | Every step keeps the invariant and every earlier delivery |
| SignalSink.EveryRunIsSafe | AppTests/Sources/ProductSignalTestSupport.swift:15-60 | In every interleaving no continuation is resumed twice, no waiter stays with its minimum reached, each wait is pending or delivered and never both, and a result is short exactly when a timeout or cancellation produced it |
| SignalSink.DeliveriesAreFinal | AppTests/Sources/ProductSignalTestSupport.swift:58-60 | Later states keep every delivery in order |
| SignalSink.ObservationsAreRecorded | AppTests/Sources/ProductSignalTestSupport.swift:15-22 | In every run the observations are the arguments of the recordings since the last deletion, in step order |
| SignalSink.DeliveriesAreProduced | AppTests/Sources/ProductSignalTestSupport.swift:28-60 | Every delivery comes from one step and holds exactly what was recorded since the last deletion up to it, in order; that step is the completing recording, the wait, its timeout or its cancellation, and the minimum is the one asked for |
| SignalSink.TimeoutReturns | AppTests/Sources/ProductSignalTestSupport.swift:40-43 | After its timeout step a wait has returned |

## Left out

- Floating-point rounding and the six-digit rounding of reported numbers: the model is over exact reals; statuses use unrounded bounds in the source too.
- Field-level validation of exported archives (schema versions, privacy text, allow lists, UUID and ISO-8601 parsing): one flag says whether an archive passes it. Duplicate JSON keys are part of it.
- Deadlines beyond the last representable date: the source raises there, the model's times are unbounded.
- Comments.StrippersAgree: without the proviso on line comments it says nothing, because the two strippers can then agree by accident (Comments.AgreementByAccident) or not (Comments.OpenerInLineCommentHidesCode).
- Reading files, JSON decoding, directory walks, command lines, printing and exit codes: file contents, rows, paths and counts are arguments.
- The rule patterns of the business-logic scan, the presentation scan and the ratchet: only where their matches are looked for and which line they report is modelled.
- The exception bookkeeping of the presentation scan and the stale-row reports of the conformance inventory: set comparisons without a deeper invariant.
- The splitting of a source into lines: the ratchet takes the list of lines, so line separators other than the newline are not modelled.
- Entries that lack some fields make the inventory validator raise a key error: their includes when a path is looked up, their id in the stale check, their classification when they own a file. The model gives every entry these three and lets only other fields be missing.
- Row fields that are neither text nor absent, and whether a counter holds a zero or no entry for a key.
- Masking.StripAgreesWithCodeOnly: one direction of the proviso on string literals is left open, because a literal with an opener in it may be followed by nothing but blanks.
- CoreIo.Ratchet: the order of the reports is not modelled.
- Enums.RenderedVariantsAreRead: documentation lines may not contain depth-zero commas, which the source cuts at.
- Swift task scheduling inside the sink: each actor method up to its suspension is one step, timeouts and cancellations may come at any time, and fairness is not modelled.
- The Rust kernel, the Swift application and the remaining checkers.
