# Test prioritization and APFD, modelled in Dafny

This project models the core of a test-case prioritization experiment. Tests
are ordered by one of several strategies, and the order is then scored by how
early it reveals faults.

The model covers:

- **Greedy submodular prioritization** (`base/test_prioritization.py`).
  - Three marginal-gain objectives over coverage sets:
    - new-element count;
    - mean Jaccard distance;
    - their alpha-weighted mix.
  - The greedy loop picks, in each round, the first remaining test of
    strictly largest gain.
  - `evaluate_prioritization` computes APFD and the fault detection rate
    (FDR) curve over an explicit fault -> detecting-tests mapping.
- **The experiment's orderings**
  (`small_python_experiemnt/prioritization/prioritization_methods.py`):
  - a semantic score with a stable descending sort;
  - a previous-failure score with a stable descending sort;
  - a facility-location greedy over an abstract similarity `sim(test, function)`.
- **Semantic feature extraction** (`extract_semantic_features` in `utils.py`).
  It covers substring tests and the `calculator.<identifier>(` call pattern.
- **Two more APFD evaluators**, both producing their metrics:
  - `APFDCalculator.calculate_apfd`, with its first-match fault classifier,
    over a list of parsed results (`apfd_calculator.py`);
  - `evaluate_fault_detection_efficiency` (`utils.py`). Each test run is an
    input record `(failed, stderr, stdout)`.

All three evaluators share the formula APFD = 1 - (TF_1 + ... + TF_m)/(n*m) + 1/(2n).
Every quantity Python computes as a float (APFD, Jaccard distance, alpha,
similarities, means, percentages) is a Dafny `real`.

## Modules

| module | file | content |
|---|---|---|
| `Common` | common.dfy | option type, sums, maximum, `Distinct`, `Range` |
| `Text` | text.dfy | Python's `in`, `str.split`, `str.join`, `str.replace` on `seq<char>` |
| `StableSort` | stable_sort.dfy | `sorted(xs, key=k, reverse=True)` on integer keys |
| `Greedy` | greedy.dfy | the first-strict-maximum greedy loop shared by both prioritizers |
| `ApfdFormula` | apfd_formula.dfy | the APFD formula and its bounds |
| `TestPrioritization` | test_prioritization.dfy | objectives, `prioritize`, `evaluate_prioritization` |
| `ApfdCalculator` | apfd_calculator.dfy | `_identify_fault`, first detections, `calculate_apfd` |
| `SemanticFeatures` | semantic_features.dfy | `extract_semantic_features` |
| `FaultEfficiency` | fault_efficiency.dfy | `evaluate_fault_detection_efficiency` after the test runs |
| `PrioritizationMethods` | prioritization_methods.dfy | semantic, previous-failure and facility-location orderings |

## Model

| member | source | states |
|---|---|---|
| `TestPrioritization.CoveredBy` | base/test_prioritization.py:30 | an element is in the union exactly when some selected test covers it |
| `TestPrioritization.CoverageGain` | base/test_prioritization.py:28-32 | the coverage gain lies in [0, size of the candidate's coverage]; it is that size when nothing is selected; it is 0 exactly when everything the candidate covers is already covered |
| `TestPrioritization.CoverageGainIsMarginal` | base/test_prioritization.py:28-32 | the gain is the increase in the size of the covered union when the candidate is added, i.e. the marginal value of the coverage set function |
| `TestPrioritization.CoverageDiminishingReturns` | base/test_prioritization.py:28-32 | diminishing returns: when one selection covers at least what another covers, the candidate gains no more against it |
| `TestPrioritization.CoverageGainShrinksAlongSelection` | base/test_prioritization.py:28-32 | selecting further tests never increases a candidate's coverage gain |
| `TestPrioritization.OverlapBounds` | base/test_prioritization.py:43-45 | the intersection-over-union ratio lies in [0, 1]; it is 1 for equal non-empty sets and 0 for disjoint ones |
| `TestPrioritization.JaccardDistance` | base/test_prioritization.py:43-45 | the distance lies in [0, 1]; it is 0 for equal non-empty sets and 1 for disjoint sets, including two empty sets |
| `TestPrioritization.DiversityGain` | base/test_prioritization.py:35-48 | the diversity gain lies in [0, 1] and is 1 for the first pick |
| `TestPrioritization.DiversityOfDisjointCandidate` | base/test_prioritization.py:37-48 | a candidate sharing nothing with any selected test has diversity 1 |
| `TestPrioritization.DiversityOfDuplicateCandidate` | base/test_prioritization.py:37-48 | a non-empty candidate identical to every selected test has diversity 0 |
| `TestPrioritization.MixBetween` | base/test_prioritization.py:62 | for alpha in [0, 1] the weighted mix lies between its two inputs; alpha 1 and alpha 0 select one input each |
| `TestPrioritization.CombinedGain` | base/test_prioritization.py:58-62 | the combined gain lies between the coverage and diversity gains of the same selection and candidate; at alpha 1 and 0 it equals one of them |
| `TestPrioritization.Evaluate` | base/test_prioritization.py:18-22 | every objective yields a non-negative gain when its alpha lies in [0, 1] |
| `TestPrioritization.RoundPickMaximizesObjective` | base/test_prioritization.py:77-86 | a round's pick has the largest objective value among the tests not yet picked, and beats every earlier test strictly |
| `TestPrioritization.GreedyPicksMaximizeObjective` | base/test_prioritization.py:74-86 | in every round of a greedy order, the pick is a per-round argmax and the earliest one |
| `TestPrioritization.Prioritize` | base/test_prioritization.py:69-88 | the result has min(max(k,0), n) tests, all from the input, at distinct positions. It is a permutation when k >= n. Each pick is the first argmax of its round. Distinct inputs give distinct outputs |
| `TestPrioritization.FirstDetectionIsFirst` | base/test_prioritization.py:138-142 | the position found is the 1-based position of the first detecting test; 0 means no test detects the fault |
| `TestPrioritization.EvaluatePrioritization` | base/test_prioritization.py:131-134 | the curve is absent exactly when there are no tests or no faults, and APFD and FDR are then 0 |
| `TestPrioritization.DetectedIdsGrow` | base/test_prioritization.py:147-153 | a fault detected by a prefix of the order stays detected by every longer prefix |
| `TestPrioritization.DetectedFractionBounds` | base/test_prioritization.py:147-154 | the detected share of faults lies in [0, 1] |
| `TestPrioritization.FullDetection` | base/test_prioritization.py:147-154 | with distinct fault ids (dictionary keys), the detected share is 1.0 if and only if every fault has a detecting test in the prefix |
| `TestPrioritization.FdrCurveGrows` | base/test_prioritization.py:150-154 | the FDR curve never decreases |
| `TestPrioritization.EvaluationCurve` | base/test_prioritization.py:146-160 | the curve has one point per test, never decreases and stays in [0, 1]; the returned FDR is its last point, which is the share of faults the whole order detects |
| `TestPrioritization.EvaluationApfdBounds` | base/test_prioritization.py:137-144 | APFD is at least 1/(2n); when every fault is detected it is also at most 1 - 1/(2n) |
| `TestPrioritization.EvaluationIgnoresFaultOrder` | base/test_prioritization.py:138-154 | the result does not depend on the iteration order of the fault dictionary |
| `TestPrioritization.UndetectedFaultLiftsApfdAboveOne` | base/test_prioritization.py:137-144 | an undetected fault adds nothing to tf: one test and one undetected fault give APFD 1.5 |
| `TestPrioritization.ExampleIsGreedy` | base/test_prioritization.py:74-86 | on three concrete tests, the order t1, t2, t3 is a greedy order for the coverage objective |
| `TestPrioritization.ExampleCoverageOrder` | base/test_prioritization.py:69-88 | on those tests it is the only greedy order of length 3: ties go to the earlier test |
| `Greedy.Rounds` | base/test_prioritization.py:74 | the number of rounds is at most n: 0 for k <= 0, k for 0 <= k <= n, and n for k >= n |
| `Greedy.FirstStrictMax` | base/test_prioritization.py:75-82 | the strict-improvement scan returns a position of maximal gain that every earlier position falls strictly short of |
| `Greedy.RemoveAtMembers` | base/test_prioritization.py:86 | removing the pick from the ascending pool keeps it ascending and removes exactly the picked item |
| `Greedy.RoundPickFromMax` | base/test_prioritization.py:77-83 | the maximum of the round's gains, taken over the pool in input order, is the round pick |
| `Greedy.ExtendGreedyOrder` | base/test_prioritization.py:84-86 | appending a round pick to a greedy order gives a greedy order |
| `Greedy.PartitionStep` | base/test_prioritization.py:84-86 | moving the pick from the pool to the selection keeps picks and pool a partition of all positions, with the pool ascending |
| `Greedy.GreedyStep` | base/test_prioritization.py:77-86 | one round of the loop extends the greedy order |
| `Greedy.Select` | base/test_prioritization.py:69-88 | the loop returns Rounds(k, n) distinct positions forming a greedy order; with k >= n they are a permutation of all positions |
| `Greedy.GreedyOrderIsDistinct` | base/test_prioritization.py:84-86 | no item is picked twice |
| `Greedy.RoundPickIsUnique` | base/test_prioritization.py:77-83 | with the same history, a round has only one pick |
| `Greedy.GreedyIsDeterministic` | base/test_prioritization.py:69-88 | two greedy orders of the same length are equal |
| `Greedy.PickMultisetMonotone` | base/test_prioritization.py:84-86 | picking along a sub-multiset of positions yields a sub-multiset of items |
| `Greedy.PickPermutation` | base/test_prioritization.py:69-88 | picking along a permutation of all positions yields a permutation of the items |
| `Greedy.PickSubMultiset` | base/test_prioritization.py:84-86 | picking along distinct in-range positions never invents or repeats an item |
| `ApfdFormula.ApfdBounds` | small_python_experiemnt/prioritization/apfd_calculator.py:7-10 | when all first positions lie in 1..n, APFD lies in [1/(2n), 1 - 1/(2n)], hence in [0, 1] |
| `ApfdFormula.ApfdLowerBound` | base/test_prioritization.py:144 | if the positions total at most n*m, APFD is at least 1/(2n) |
| `ApfdFormula.ApfdAntitone` | small_python_experiemnt/prioritization/apfd_calculator.py:10 | finding faults earlier never lowers APFD |
| `ApfdFormula.AverageBounds` | small_python_experiemnt/prioritization/apfd_calculator.py:179 | the average first-detection position lies in [1, n] |
| `ApfdFormula.PercentageBounds` | small_python_experiemnt/prioritization/apfd_calculator.py:182-183 | the percentage of tests needed lies in (0, 100] |
| `ApfdFormula.ApfdExample` | small_python_experiemnt/prioritization/apfd_calculator.py:176 | 4 tests and faults first found at positions 2 and 4 give APFD 0.375 |
| `ApfdCalculator.FirstMatchFromIsFirst` | small_python_experiemnt/prioritization/apfd_calculator.py:110-130 | scanning the rules from position k returns the fault of the first rule there that fires, or the unknown fault when none fires |
| `ApfdCalculator.FirstMatchIsFirst` | small_python_experiemnt/prioritization/apfd_calculator.py:110-130 | first-match semantics over the whole rule table |
| `ApfdCalculator.IdentifyFaultIsFirstMatch` | small_python_experiemnt/prioritization/apfd_calculator.py:113-130 | the if/elif chain is the first-match rule over the table of eight rules |
| `ApfdCalculator.IdentifyFaultRange` | small_python_experiemnt/prioritization/apfd_calculator.py:37-46 | the classifier only reports a key of `fault_mapping` or `unknown_fault` |
| `ApfdCalculator.IdentifyFaultUnknownIff` | small_python_experiemnt/prioritization/apfd_calculator.py:110-130 | the result is `unknown_fault` exactly when no rule fires |
| `ApfdCalculator.CombinedOperationsIgnoresOutput` | small_python_experiemnt/prioritization/apfd_calculator.py:125-126 | a `test_combined_operations` name gives that fault whatever the output, unless an earlier rule fired |
| `ApfdCalculator.ResultFor` | small_python_experiemnt/prioritization/apfd_calculator.py:81-90 | a result carries a fault label exactly when it failed, and the label is never empty |
| `ApfdCalculator.DetectionsAreFirstReports` | small_python_experiemnt/prioritization/apfd_calculator.py:150-155 | each recorded fault sits at the 1-based position of its first failing report. Positions increase along the records. Every reported fault is recorded |
| `ApfdCalculator.DetectionLabelsDistinct` | small_python_experiemnt/prioritization/apfd_calculator.py:153-155 | each fault is recorded once |
| `ApfdCalculator.DetectionsOfPrefix` | small_python_experiemnt/prioritization/apfd_calculator.py:150-155 | later results never change earlier records: the records of a prefix are a prefix of all records, and later ones lie beyond it |
| `ApfdCalculator.PositionsBounds` | small_python_experiemnt/prioritization/apfd_calculator.py:175-182 | the positions sum to between m and n*m, and the latest one lies in 1..n |
| `ApfdCalculator.SortedPositionsUnchanged` | small_python_experiemnt/prioritization/apfd_calculator.py:190 | the records are already in position order, so sorting them by position leaves them unchanged |
| `ApfdCalculator.SortedDetections` | small_python_experiemnt/prioritization/apfd_calculator.py:190 | the sorted records are the records in insertion order |
| `ApfdCalculator.ErrorDetection` | small_python_experiemnt/prioritization/apfd_calculator.py:186-199 | the walk over the sorted records produces, for each i in 1..n, the point (i, number of faults detected by the first i results) |
| `ApfdCalculator.ErrorDetectionCurve` | small_python_experiemnt/prioritization/apfd_calculator.py:186-199 | the number of faults detected by a prefix of the results never decreases as the prefix grows and never exceeds the number detected by all results |
| `ApfdCalculator.CalculateApfd` | small_python_experiemnt/prioritization/apfd_calculator.py:145-210 | without faults or tests: all-zero metrics. Otherwise: positions are the first reports; APFD is the formula, in [0, 1]; average in [1, n]; percentage is the largest first position over n, times 100, and lies in (0, 100]; n curve points ending at the fault count |
| `ApfdCalculator.CalculateApfdExample` | small_python_experiemnt/prioritization/apfd_calculator.py:150-176 | a repeated failure does not move a fault's position: the worked list gives positions 2 and 4 and APFD 0.375 |
| `SemanticFeatures.FirstContained` | small_python_experiemnt/prioritization/utils.py:180-183 | the result is absent exactly when no name occurs in the method name; otherwise it is the first name in list order that occurs |
| `SemanticFeatures.MatchAtIsCall` | small_python_experiemnt/prioritization/utils.py:187 | a match is the text `calculator.` followed by a non-empty identifier and `(` |
| `SemanticFeatures.FunctionCalls` | small_python_experiemnt/prioritization/utils.py:187-188 | every found call is a non-empty `[a-zA-Z_]` identifier that occurs in the code as `calculator.<name>(` |
| `SemanticFeatures.MatchOfCall` | small_python_experiemnt/prioritization/utils.py:187 | conversely, `calculator.<identifier>(` at the start of the text is matched, with exactly that identifier and length |
| `SemanticFeatures.NoCallInsideMatch` | small_python_experiemnt/prioritization/utils.py:187 | no occurrence of `calculator.<identifier>(` starts strictly inside a match, so skipping past a match loses no call |
| `SemanticFeatures.CallFoundAt` | small_python_experiemnt/prioritization/utils.py:187-188 | every occurrence of `calculator.<identifier>(` in the code is the call the scan finds at that very position |
| `SemanticFeatures.CallFound` | small_python_experiemnt/prioritization/utils.py:187-188 | completeness: every occurrence of `calculator.<identifier>(` in the code is in the result |
| `SemanticFeatures.MatchStartsIncreasing` | small_python_experiemnt/prioritization/utils.py:187 | the calls are found left to right: their start positions lie in the code and strictly increase |
| `SemanticFeatures.CallsInOrder` | small_python_experiemnt/prioritization/utils.py:187-188 | of two calls in the code, the one that starts earlier comes earlier in the result |
| `SemanticFeatures.NoCallsWithoutPrefix` | small_python_experiemnt/prioritization/utils.py:187 | code that never mentions `calculator.` yields no calls |
| `SemanticFeatures.Dedup` | small_python_experiemnt/prioritization/utils.py:189 | the result has no duplicates, the same elements as the input and no more entries |
| `SemanticFeatures.DedupCountsDistinct` | small_python_experiemnt/prioritization/utils.py:189 | the unique list is as long as the number of distinct calls |
| `SemanticFeatures.ExtractSemanticFeatures` | small_python_experiemnt/prioritization/utils.py:171-194 | features: assertion count copied; code length is the code's length; `tests_exceptions` iff `pytest.raises` occurs; `tests_function` absent iff no calculator function occurs in the name; unique calls are the calls without duplicates |
| `SemanticFeatures.TestsFunctionPrefersListOrder` | small_python_experiemnt/prioritization/utils.py:178-183 | list order wins over position in the name: `test_subtract_add` tests `add` |
| `FaultEfficiency.KeepErrorLines` | small_python_experiemnt/prioritization/utils.py:278-279 | exactly the lines mentioning ERROR or FAILED are kept |
| `FaultEfficiency.KeepErrorLinesCounts` | small_python_experiemnt/prioritization/utils.py:278-279 | every ERROR or FAILED line is kept as often as it occurs, and no other line is kept |
| `FaultEfficiency.KeepErrorLinesConcat` | small_python_experiemnt/prioritization/utils.py:278-279 | filtering keeps the lines' order: filtering a concatenation is the concatenation of the filtered parts |
| `FaultEfficiency.QuietRunAddsNothing` | small_python_experiemnt/prioritization/utils.py:276-281 | a passing run, or a failing run without ERROR or FAILED lines in stderr, changes nothing |
| `FaultEfficiency.UnknownLabelIsFresh` | small_python_experiemnt/prioritization/utils.py:293 | the unknown-fault label built from the current fault count has not been seen |
| `FaultEfficiency.AddFaultConsistent` | small_python_experiemnt/prioritization/utils.py:295-299 | recording an unseen fault keeps the invariant: detected equals all faults, one position per fault, positions in 1..n, unknown indices below the count |
| `FaultEfficiency.RecordLineConsistent` | small_python_experiemnt/prioritization/utils.py:283-299 | one error line keeps the invariant and only appends positions equal to the current test's |
| `FaultEfficiency.RecordLinesConsistent` | small_python_experiemnt/prioritization/utils.py:281-299 | all error lines of a test keep the invariant and only append positions equal to the current test's |
| `FaultEfficiency.RunConsistent` | small_python_experiemnt/prioritization/utils.py:265-299 | after any number of tests the invariant holds with positions in 1..n |
| `FaultEfficiency.RunExtends` | small_python_experiemnt/prioritization/utils.py:297-299 | only the first detection records a position: later tests only append positions beyond the earlier ones |
| `FaultEfficiency.UnknownLinesAreSeparateFaults` | small_python_experiemnt/prioritization/utils.py:281-295 | in the unknown branch each error line is a new fault: k lines add k faults and k positions |
| `FaultEfficiency.FaultsNeedTests` | small_python_experiemnt/prioritization/utils.py:265-299 | a run that recorded faults ran at least one test |
| `FaultEfficiency.EvaluateFaultDetectionEfficiency` | small_python_experiemnt/prioritization/utils.py:303-328 | the report counts all tests, every fault seen, equal total and detected counts, and all-zero metrics without faults |
| `FaultEfficiency.EfficiencyBounds` | small_python_experiemnt/prioritization/utils.py:303-317 | with faults: APFD is the formula over the first positions and lies in [0, 1]; average in [1, n]; percentage in (0, 100] |
| `StableSort.SortDescending` | small_python_experiemnt/prioritization/prioritization_methods.py:73 | the sort returns a permutation of its input in non-increasing key order |
| `StableSort.SortIsStable` | small_python_experiemnt/prioritization/prioritization_methods.py:73 | for every key value, the elements carrying it keep their input order |
| `StableSort.SortOfSortedIsIdentity` | small_python_experiemnt/prioritization/prioritization_methods.py:124 | an input already in non-increasing key order is returned unchanged |
| `PrioritizationMethods.ComplexityTableCoversCalculatorFunctions` | small_python_experiemnt/prioritization/prioritization_methods.py:55-62 | the complexity table prices exactly the six calculator functions the extractor looks for, at 5 to 50 each |
| `PrioritizationMethods.ComplexityOfExtractedFeatures` | small_python_experiemnt/prioritization/prioritization_methods.py:64-65 | the complexity bonus is positive exactly when the method name mentions a calculator function |
| `PrioritizationMethods.ScoreWeights` | small_python_experiemnt/prioritization/prioritization_methods.py:43-70 | exception testing adds 100, each assertion 10, each distinct call 5, and the tested function between 0 and 50 |
| `PrioritizationMethods.ExceptionsRankFirst` | small_python_experiemnt/prioritization/prioritization_methods.py:47-52 | an exception test outscores a non-exception test with no more assertions and distinct calls |
| `PrioritizationMethods.SemanticOrdering` | small_python_experiemnt/prioritization/prioritization_methods.py:73 | the semantic ordering is a permutation in non-increasing score order, and equal-score tests keep their input order |
| `PrioritizationMethods.InitialScores` | small_python_experiemnt/prioritization/prioritization_methods.py:93 | every test starts at score 0 |
| `PrioritizationMethods.MarkMethodLookup` | small_python_experiemnt/prioritization/prioritization_methods.py:111-113 | after marking a method name, a full name scores 100 exactly when some test has both names; otherwise its score is unchanged |
| `PrioritizationMethods.ApplyHistoryLookup` | small_python_experiemnt/prioritization/prioritization_methods.py:104-113 | after the history, a full name scores 100 exactly when a FAIL entry's last `::` segment names its method; otherwise its score is unchanged |
| `PrioritizationMethods.FailureScoreCharacterized` | small_python_experiemnt/prioritization/prioritization_methods.py:93-121 | a test scores 100 exactly when a FAIL entry names its method; otherwise, or without a usable history, it scores 0 |
| `PrioritizationMethods.PreviousFailureOrdering` | small_python_experiemnt/prioritization/prioritization_methods.py:124 | the previous-failure ordering is a permutation: score-100 tests, then score-0 tests, each group in input order |
| `PrioritizationMethods.NoFailuresKeepOrder` | small_python_experiemnt/prioritization/prioritization_methods.py:117-124 | without a FAIL entry, and in particular without a usable history, the order is unchanged |
| `PrioritizationMethods.MaxSim` | small_python_experiemnt/prioritization/prioritization_methods.py:205 | the best similarity is attained by some selected test and bounds every selected test's similarity |
| `PrioritizationMethods.SubmodGainIsMarginal` | small_python_experiemnt/prioritization/prioritization_methods.py:202-211 | after the first round the gain is exactly the increase of the facility-location objective |
| `PrioritizationMethods.SubmodGainNonNegative` | small_python_experiemnt/prioritization/prioritization_methods.py:202-211 | after the first round no gain is negative |
| `PrioritizationMethods.SelectedTestGainsNothing` | small_python_experiemnt/prioritization/prioritization_methods.py:202-211 | an already selected test gains nothing |
| `PrioritizationMethods.SubmodDiminishingReturns` | small_python_experiemnt/prioritization/prioritization_methods.py:202-211 | diminishing returns: a larger selection never gives a candidate more gain |
| `PrioritizationMethods.SubmodPicksMaximizeGain` | small_python_experiemnt/prioritization/prioritization_methods.py:219-228 | every pick has the largest gain among the remaining indices, and the smallest such index |
| `PrioritizationMethods.SubmodOrdering` | small_python_experiemnt/prioritization/prioritization_methods.py:213-231 | every index is selected exactly once, so the output is a permutation of the tests; each pick is the first argmax of its round |
| `Text.ContainsIffOccurs` | small_python_experiemnt/prioritization/utils.py:181 | the substring test holds exactly when the pattern occurs at some position |
| `Text.SplitJoinRoundTrip` | small_python_experiemnt/prioritization/prioritization_methods.py:108 | joining the pieces of a split with the same separator gives the string back |
| `Text.ReplaceIsSplitJoin` | small_python_experiemnt/prioritization/utils.py:266 | replacing is splitting on the target and joining with the replacement |
| `Text.LastSegmentAfterSeparator` | small_python_experiemnt/prioritization/prioritization_methods.py:108 | the last `::` segment of `X::name` is `name` when `name` contains no `::` |

## Left out

- Coverage extraction (`extract_coverage`, Python AST walking): a test's coverage set is an input.
- Method extraction (`extract_test_methods*`) and the AST assertion count: `MethodInfo.assertions` is an input.
- `parse_test_output`: the regular expressions over raw pytest transcripts are not modelled. `calculate_apfd` takes the parsed result list. `ResultFor` models the record built for each match.
- Embedding generation, model loading and numpy cosine similarity in `submod_ordering`: the similarity is an abstract function `sim(test, function)` over reals.
- `PrioritizationMethods.SubmodOrdering`: requires at least one source function when there are tests. With none, `np.mean([])` is NaN, no candidate beats minus infinity, and the source fails on `remove(None)`; that path is not modelled.
- `subprocess.run` in `evaluate_fault_detection_efficiency`: each test's outcome is an input `RunOutcome(failed, stderr, stdout)`.
- The test command formatting and the `tests_executed` counter: nothing in the returned statistics depends on them.
- `random_prioritization`: it is non-deterministic.
- Plotting, reports, JSON persistence, logging, `print` and command-line entry points: these have no effect on the computed values.
- Floating point: every float is a Dafny `real`, so rounding, NaN and infinity are not modelled. The greedy loops' `-inf` start is modelled as "no candidate yet".
- `TestPrioritization.JaccardDistance`: for two empty coverage sets the code yields `1 - 0 = 1`, and the model follows the code.
- `TestPrioritization.EvaluatePrioritization`: `evaluate_prioritization` adds nothing to `tf` for a fault no test detects. This is modelled as written, so APFD can exceed 1 (`UndetectedFaultLiftsApfdAboveOne`). The bounds are stated for the case where every fault is detected.
- `TestPrioritization.Prioritize`: the `if best_test:` guard is always true here, because a picked test is always present and test objects are truthy. Tests are picked and removed by position, which matches Python's identity-based `remove` for test objects without `__eq__`.
- `TestPrioritization.EvaluatePrioritization`: the fault dictionary is a list of `(id, detecting tests)` entries in iteration order, and `original_order` is accepted and unused, as in the source.
- `TestPrioritization.FullDetection`: fault ids are dictionary keys and therefore distinct. The list of entries does not enforce this, so the lemma takes distinct ids as its premise. With repeated ids, `DetectedFraction` counts each id once over the number of entries, and that case has no counterpart in the source.
- `PrioritizationMethods.SubmodOrdering`: `remaining_indices` is a Python set of small integers, iterated here in ascending order. Ties therefore go to the smallest remaining index.
- `SemanticFeatures.Dedup`: `list(set(xs))` has an unspecified order. The model keeps first occurrences, and the contract states only membership, distinctness and size.
- `ApfdCalculator.CalculateApfd`: `detected_faults` (`list(set)`) is kept as a set because its order is unspecified. `fault_detection_positions` is a sequence of `(fault, position)` pairs in insertion order.
- `FaultEfficiency.Label`: fault labels are a datatype rather than the strings `division_by_zero`, `assertion_in_<method>`, `unknown_fault_<k>` and so on. The fixed prefixes keep the textual labels of different kinds apart, so equality of labels is preserved.
- `PrioritizationMethods.FailureScores`: the history file is an optional list of `(test name, result)` entries. A missing file or invalid JSON is `None`; JSON duplicate keys and other exceptions are not modelled.
- `PrioritizationMethods.Score`: the feature dictionary always carries every key, so the `features.get(..., default)` fallbacks for missing keys are not modelled, except the absent `tests_function`.
- `Text.Split`: only non-empty separators are modelled, which are the only ones the source uses.
