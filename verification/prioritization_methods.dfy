/** small_python_experiemnt/prioritization/prioritization_methods.py: the
    three deterministic orderings of the experiment. Two score each test and
    sort stably by descending score; the third greedily maximizes a
    facility-location objective over a similarity matrix between tests and
    source functions. */
module PrioritizationMethods {
  import opened Common
  import opened Text
  import opened StableSort
  import opened Greedy
  import opened SemanticFeatures

  /** The fields of a test dictionary the orderings read. */
  datatype Test = Test(fullName: string, methodName: string, features: Features)

  // ---------------------------------------------------------------------
  // semantic_prioritization
  // ---------------------------------------------------------------------

  /** `function_complexity` in `score_test`. */
  const ComplexityTable: map<string, nat> :=
    map["square_root" := 50, "divide" := 40, "power" := 30, "multiply" := 20, "subtract" := 10, "add" := 5]

  /** The complexity bonus: the table entry of the tested function, 0 for an
      unknown name or when `tests_function` is absent. */
  function Complexity(testsFunction: Option<string>): nat
  {
    if testsFunction.Some? && testsFunction.value in ComplexityTable then ComplexityTable[testsFunction.value]
    else 0
  }

  /** The table prices exactly the functions the feature extractor looks
      for, at most 50 each. */
  lemma ComplexityTableCoversCalculatorFunctions()
    ensures ComplexityTable.Keys == set f | f in CalculatorFunctions
    ensures forall f :: f in ComplexityTable ==> 5 <= ComplexityTable[f] <= 50
  {
  }

  /** For an extracted feature set the complexity bonus is positive exactly
      when the method name mentions a calculator function. */
  lemma ComplexityOfExtractedFeatures(info: MethodInfo)
    ensures Complexity(ExtractSemanticFeatures(info).testsFunction) > 0
        <==> exists i :: 0 <= i < |CalculatorFunctions| && Contains(info.methodName, CalculatorFunctions[i])
  {
    ComplexityTableCoversCalculatorFunctions();
  }

  /** `score_test`. */
  function Score(f: Features): nat
  {
    (if f.testsExceptions then 100 else 0)
    + 10 * f.assertionCount
    + Complexity(f.testsFunction)
    + 5 * |f.uniqueFunctionCalls|
  }

  function ScoreOf(t: Test): int
  {
    Score(t.features)
  }

  /** The score grows by 100 for exception handling, by 10 per assertion and
      by 5 per distinct called function, and by no more than 50 for the
      tested function. */
  lemma ScoreWeights(f: Features)
    ensures Score(f.(testsExceptions := true)) == Score(f.(testsExceptions := false)) + 100
    ensures Score(f.(assertionCount := f.assertionCount + 1)) == Score(f) + 10
    ensures Score(f.(uniqueFunctionCalls := f.uniqueFunctionCalls + ["calculator"])) == Score(f) + 5
    ensures 0 <= Score(f) - (Score(f.(testsFunction := None))) <= 50
  {
    ComplexityTableCoversCalculatorFunctions();
  }

  /** Exception handling ranks first: a test that checks for exceptions
      outscores one that does not, unless the latter has more assertions or
      more distinct calls. */
  lemma ExceptionsRankFirst(f: Features, g: Features)
    requires f.testsExceptions && !g.testsExceptions
    requires f.assertionCount >= g.assertionCount
    requires |f.uniqueFunctionCalls| >= |g.uniqueFunctionCalls|
    ensures Score(f) > Score(g)
  {
    ComplexityTableCoversCalculatorFunctions();
  }

  /** `sorted(tests, key=score_test, reverse=True)`. */
  function SemanticPrioritization(tests: seq<Test>): seq<Test>
  {
    SortDescending(tests, ScoreOf)
  }

  /** The semantic ordering is a permutation of the tests in non-increasing
      score order in which tests of equal score keep their input order. */
  lemma SemanticOrdering(tests: seq<Test>, v: int)
    ensures var r := SemanticPrioritization(tests);
            && multiset(r) == multiset(tests)
            && (forall i, j :: 0 <= i < j < |r| ==> Score(r[i].features) >= Score(r[j].features))
            && WithKey(r, ScoreOf, v) == WithKey(tests, ScoreOf, v)
  {
    SortIsStable(tests, ScoreOf, v);
  }

  // ---------------------------------------------------------------------
  // previous_failure_prioritization
  // ---------------------------------------------------------------------

  /** `test_scores.get(name, 0)`. */
  function Lookup(scores: map<string, nat>, name: string): nat
  {
    if name in scores then scores[name] else 0
  }

  /** `{test['full_name']: 0 for test in tests}`. */
  function InitialScores(tests: seq<Test>): (scores: map<string, nat>)
    ensures forall name :: Lookup(scores, name) == 0
  {
    map t | t in tests :: t.fullName := 0
  }

  /** The inner loop: every test with this method name gets score 100. */
  function MarkMethod(scores: map<string, nat>, tests: seq<Test>, methodName: string): map<string, nat>
    decreases |tests|
  {
    if |tests| == 0 then scores
    else
      var marked := if tests[0].methodName == methodName then scores[tests[0].fullName := 100] else scores;
      MarkMethod(marked, tests[1..], methodName)
  }

  /** The outer loop over the history's entries (name, result). */
  function ApplyHistory(scores: map<string, nat>, tests: seq<Test>, history: seq<(string, string)>): map<string, nat>
    decreases |history|
  {
    if |history| == 0 then scores
    else
      var entry := history[0];
      var next := if entry.1 == "FAIL" then MarkMethod(scores, tests, LastSegment(entry.0, "::")) else scores;
      ApplyHistory(next, tests, history[1..])
  }

  /** The scores after the `try` block. A history that is missing or not
      valid JSON is `None`; the default scores then stand. */
  function FailureScores(tests: seq<Test>, history: Option<seq<(string, string)>>): map<string, nat>
  {
    match history
    case None => InitialScores(tests)
    case Some(entries) => ApplyHistory(InitialScores(tests), tests, entries)
  }

  function FailureKey(tests: seq<Test>, history: Option<seq<(string, string)>>): Test -> int
  {
    var scores := FailureScores(tests, history);
    (t: Test) => Lookup(scores, t.fullName)
  }

  /** `previous_failure_prioritization`. */
  function PreviousFailurePrioritization(tests: seq<Test>, history: Option<seq<(string, string)>>): seq<Test>
  {
    SortDescending(tests, FailureKey(tests, history))
  }

  /** Some test with this full name has this method name. */
  predicate Marks(tests: seq<Test>, methodName: string, name: string)
  {
    exists t :: t in tests && t.fullName == name && t.methodName == methodName
  }

  /** Some entry failed whose last `::` segment is the method name of a
      test with this full name. */
  predicate FailedBefore(tests: seq<Test>, history: seq<(string, string)>, name: string)
  {
    exists e :: e in history && e.1 == "FAIL" && Marks(tests, LastSegment(e.0, "::"), name)
  }

  lemma {:induction false} MarkMethodLookup(scores: map<string, nat>, tests: seq<Test>, methodName: string, name: string)
    ensures Lookup(MarkMethod(scores, tests, methodName), name)
         == if Marks(tests, methodName, name) then 100 else Lookup(scores, name)
    decreases |tests|
  {
    if |tests| > 0 {
      var marked := if tests[0].methodName == methodName then scores[tests[0].fullName := 100] else scores;
      MarkMethodLookup(marked, tests[1..], methodName, name);
      assert forall t :: t in tests <==> t == tests[0] || t in tests[1..] by {
        assert tests == [tests[0]] + tests[1..];
      }
      if Marks(tests[1..], methodName, name) {
        var t :| t in tests[1..] && t.fullName == name && t.methodName == methodName;
        assert t in tests;
      }
    }
  }

  lemma {:induction false} ApplyHistoryLookup(scores: map<string, nat>, tests: seq<Test>,
                                              history: seq<(string, string)>, name: string)
    ensures Lookup(ApplyHistory(scores, tests, history), name)
         == if FailedBefore(tests, history, name) then 100 else Lookup(scores, name)
    decreases |history|
  {
    if |history| > 0 {
      var entry := history[0];
      var next := if entry.1 == "FAIL" then MarkMethod(scores, tests, LastSegment(entry.0, "::")) else scores;
      ApplyHistoryLookup(next, tests, history[1..], name);
      MarkMethodLookup(scores, tests, LastSegment(entry.0, "::"), name);
      assert forall e :: e in history <==> e == entry || e in history[1..] by {
        assert history == [entry] + history[1..];
      }
      if FailedBefore(tests, history[1..], name) {
        var e :| e in history[1..] && e.1 == "FAIL" && Marks(tests, LastSegment(e.0, "::"), name);
        assert e in history;
      }
    }
  }

  /** A test scores 100 exactly when a history entry marked FAIL names its
      method (by the last `::` segment) for some test sharing its full name,
      and 0 otherwise; with no usable history every score is 0. */
  lemma FailureScoreCharacterized(tests: seq<Test>, history: Option<seq<(string, string)>>, t: Test)
    ensures FailureKey(tests, history)(t)
         == if history.Some? && FailedBefore(tests, history.value, t.fullName) then 100 else 0
  {
    if history.Some? {
      ApplyHistoryLookup(InitialScores(tests), tests, history.value, t.fullName);
    }
  }

  /** The previous-failure ordering is a permutation that puts every test
      scoring 100 before every test scoring 0, each group in input order. */
  lemma PreviousFailureOrdering(tests: seq<Test>, history: Option<seq<(string, string)>>)
    ensures var r := PreviousFailurePrioritization(tests, history);
            var key := FailureKey(tests, history);
            && multiset(r) == multiset(tests)
            && (forall i :: 0 <= i < |r| ==> key(r[i]) == 0 || key(r[i]) == 100)
            && (forall i, j :: 0 <= i < j < |r| && key(r[j]) == 100 ==> key(r[i]) == 100)
            && WithKey(r, key, 100) == WithKey(tests, key, 100)
            && WithKey(r, key, 0) == WithKey(tests, key, 0)
  {
    var r := PreviousFailurePrioritization(tests, history);
    var key := FailureKey(tests, history);
    forall i | 0 <= i < |r|
      ensures key(r[i]) == 0 || key(r[i]) == 100
    {
      FailureScoreCharacterized(tests, history, r[i]);
    }
    SortIsStable(tests, key, 100);
    SortIsStable(tests, key, 0);
  }

  /** Without a failing entry, in particular without a usable history,
      every score is 0 and the order is left as it was. */
  lemma NoFailuresKeepOrder(tests: seq<Test>, history: Option<seq<(string, string)>>)
    requires history.Some? ==> forall e :: e in history.value ==> e.1 != "FAIL"
    ensures PreviousFailurePrioritization(tests, history) == tests
  {
    var key := FailureKey(tests, history);
    forall i | 0 <= i < |tests|
      ensures key(tests[i]) == 0
    {
      FailureScoreCharacterized(tests, history, tests[i]);
    }
    SortOfSortedIsIdentity(tests, key);
  }

  // ---------------------------------------------------------------------
  // submod_ordering
  // ---------------------------------------------------------------------

  /** `sim(i, f)` is the cosine similarity between the embedding of test i
      and that of source function f; the embeddings themselves are not
      modelled. */
  type Similarity = (nat, nat) -> real

  /** g(0) + ... + g(k - 1), summed in that order as the source does. */
  function SumTo(k: nat, g: nat -> real): real
  {
    if k == 0 then 0.0 else SumTo(k - 1, g) + g(k - 1)
  }

  lemma {:induction false} SumToMonotone(k: nat, g: nat -> real, h: nat -> real)
    requires forall x :: 0 <= x < k ==> g(x) <= h(x)
    ensures SumTo(k, g) <= SumTo(k, h)
  {
    if k > 0 {
      SumToMonotone(k - 1, g, h);
    }
  }

  lemma {:induction false} SumToDifference(k: nat, g: nat -> real, h: nat -> real, d: nat -> real)
    requires forall x :: 0 <= x < k ==> d(x) == g(x) - h(x)
    ensures SumTo(k, d) == SumTo(k, g) - SumTo(k, h)
  {
    if k > 0 {
      SumToDifference(k - 1, g, h, d);
    }
  }

  lemma {:induction false} SumToOfZeros(k: nat, g: nat -> real)
    requires forall x :: 0 <= x < k ==> g(x) == 0.0
    ensures SumTo(k, g) == 0.0
  {
    if k > 0 {
      SumToOfZeros(k - 1, g);
    }
  }

  lemma {:induction false} SumToNonNegative(k: nat, g: nat -> real)
    requires forall x :: 0 <= x < k ==> 0.0 <= g(x)
    ensures 0.0 <= SumTo(k, g)
  {
    if k > 0 {
      SumToNonNegative(k - 1, g);
    }
  }

  function RealMax(a: real, b: real): real
  {
    if a >= b then a else b
  }

  /** `max(0, x)`. */
  function PositivePart(x: real): real
  {
    if x > 0.0 then x else 0.0
  }

  /** `max([similarity(test_embeddings[idx], f) for idx in selected_indices])`. */
  function MaxSim(sim: Similarity, selected: seq<nat>, f: nat): (m: real)
    requires |selected| > 0
    ensures exists i :: 0 <= i < |selected| && m == sim(selected[i], f)
    ensures forall i :: 0 <= i < |selected| ==> sim(selected[i], f) <= m
  {
    var n := |selected|;
    if n == 1 then sim(selected[0], f)
    else
      var m := MaxSim(sim, selected[..n - 1], f);
      assert forall i :: 0 <= i < n - 1 ==> selected[..n - 1][i] == selected[i];
      RealMax(m, sim(selected[n - 1], f))
  }

  /** `np.mean` of the candidate's similarities to the source functions. */
  function MeanSimilarity(sim: Similarity, numFunctions: nat, c: nat): real
    requires numFunctions > 0
  {
    SumTo(numFunctions, (f: nat) => sim(c, f)) / (numFunctions as real)
  }

  /** The clipped improvement of function f's best similarity. */
  function Improvement(sim: Similarity, selected: seq<nat>, c: nat, f: nat): real
    requires |selected| > 0
  {
    PositivePart(sim(c, f) - MaxSim(sim, selected, f))
  }

  /** `calculate_gain(selected_indices, candidate_index)`. The mean of an
      empty list is NaN in the source, so the first round needs at least one
      source function. */
  function SubmodGain(sim: Similarity, numFunctions: nat, selected: seq<nat>, c: nat): real
    requires |selected| > 0 || numFunctions > 0
  {
    if |selected| == 0 then MeanSimilarity(sim, numFunctions, c)
    else SumTo(numFunctions, (f: nat) => Improvement(sim, selected, c, f))
  }

  /** The facility-location objective: each source function is credited
      with its best similarity among the selected tests. */
  function FacilityLocation(sim: Similarity, numFunctions: nat, selected: seq<nat>): real
    requires |selected| > 0
  {
    SumTo(numFunctions, (f: nat) => MaxSim(sim, selected, f))
  }

  lemma MaxSimAppend(sim: Similarity, selected: seq<nat>, c: nat, f: nat)
    requires |selected| > 0
    ensures MaxSim(sim, selected + [c], f) == RealMax(MaxSim(sim, selected, f), sim(c, f))
  {
    assert (selected + [c])[..|selected|] == selected;
  }

  /** After the first round the gain is exactly the increase of the
      facility-location objective, so the greedy loop maximizes that
      objective one test at a time. */
  lemma SubmodGainIsMarginal(sim: Similarity, numFunctions: nat, selected: seq<nat>, c: nat)
    requires |selected| > 0
    ensures SubmodGain(sim, numFunctions, selected, c)
         == FacilityLocation(sim, numFunctions, selected + [c]) - FacilityLocation(sim, numFunctions, selected)
  {
    forall f | 0 <= f < numFunctions
      ensures Improvement(sim, selected, c, f) == MaxSim(sim, selected + [c], f) - MaxSim(sim, selected, f)
    {
      MaxSimAppend(sim, selected, c, f);
    }
    SumToDifference(numFunctions,
                    (f: nat) => MaxSim(sim, selected + [c], f),
                    (f: nat) => MaxSim(sim, selected, f),
                    (f: nat) => Improvement(sim, selected, c, f));
  }

  /** After the first round no candidate has a negative gain. */
  lemma SubmodGainNonNegative(sim: Similarity, numFunctions: nat, selected: seq<nat>, c: nat)
    requires |selected| > 0
    ensures 0.0 <= SubmodGain(sim, numFunctions, selected, c)
  {
    SumToNonNegative(numFunctions, (f: nat) => Improvement(sim, selected, c, f));
  }

  /** A test already selected gains nothing. */
  lemma SelectedTestGainsNothing(sim: Similarity, numFunctions: nat, selected: seq<nat>, c: nat)
    requires c in selected
    ensures SubmodGain(sim, numFunctions, selected, c) == 0.0
  {
    forall f | 0 <= f < numFunctions
      ensures Improvement(sim, selected, c, f) == 0.0
    {
      var i :| 0 <= i < |selected| && selected[i] == c;
      assert sim(selected[i], f) <= MaxSim(sim, selected, f);
    }
    SumToOfZeros(numFunctions, (f: nat) => Improvement(sim, selected, c, f));
  }

  lemma MaxSimMonotone(sim: Similarity, small: seq<nat>, large: seq<nat>, f: nat)
    requires |small| > 0 && |large| > 0
    requires forall x :: x in small ==> x in large
    ensures MaxSim(sim, small, f) <= MaxSim(sim, large, f)
  {
    var i :| 0 <= i < |small| && MaxSim(sim, small, f) == sim(small[i], f);
    assert small[i] in large;
    var j :| 0 <= j < |large| && large[j] == small[i];
  }

  /** Diminishing returns: once more tests are selected, no candidate gains
      more than before. */
  lemma SubmodDiminishingReturns(sim: Similarity, numFunctions: nat, small: seq<nat>, large: seq<nat>, c: nat)
    requires |small| > 0 && |large| > 0
    requires forall x :: x in small ==> x in large
    ensures SubmodGain(sim, numFunctions, large, c) <= SubmodGain(sim, numFunctions, small, c)
  {
    forall f | 0 <= f < numFunctions
      ensures Improvement(sim, large, c, f) <= Improvement(sim, small, c, f)
    {
      MaxSimMonotone(sim, small, large, f);
    }
    SumToMonotone(numFunctions, (f: nat) => Improvement(sim, large, c, f), (f: nat) => Improvement(sim, small, c, f));
  }

  /** Positions of `range(n)` pick themselves. */
  lemma PickOfRange(n: nat, idx: seq<nat>)
    requires InRange(idx, n)
    ensures InRange(idx, |Range(n)|) && Pick(Range(n), idx) == idx
  {
  }

  /** Each greedy round over `range(n)` picks a remaining index of largest
      gain, and the smallest such index. */
  lemma SubmodPicksMaximizeGain(sim: Similarity, numFunctions: nat, n: nat, order: seq<nat>)
    requires numFunctions > 0
    requires IsGreedyOrder(Range(n), (s: seq<nat>, c: nat) => SubmodGain(sim, numFunctions, s, c), order)
    ensures forall r, j :: 0 <= r < |order| && 0 <= j < n && j !in order[..r] ==>
              && SubmodGain(sim, numFunctions, order[..r], j) <= SubmodGain(sim, numFunctions, order[..r], order[r])
              && (j < order[r] ==> SubmodGain(sim, numFunctions, order[..r], j) < SubmodGain(sim, numFunctions, order[..r], order[r]))
  {
    var gain := (s: seq<nat>, c: nat) => SubmodGain(sim, numFunctions, s, c);
    forall r, j | 0 <= r < |order| && 0 <= j < n && j !in order[..r]
      ensures SubmodGain(sim, numFunctions, order[..r], j) <= SubmodGain(sim, numFunctions, order[..r], order[r])
      ensures j < order[r] ==> SubmodGain(sim, numFunctions, order[..r], j) < SubmodGain(sim, numFunctions, order[..r], order[r])
    {
      assert IsRoundPick(Range(n), gain, order[..r], order[r]);
      PickOfRange(n, order[..r]);
    }
  }

  /** The selection loop of `submod_ordering` over `range(len(tests))`. The
      set `remaining_indices` is iterated in ascending order. Returns the
      selected indices and the tests in that order. */
  method SubmodOrdering(tests: seq<Test>, sim: Similarity, numFunctions: nat)
    returns (order: seq<nat>, prioritized: seq<Test>)
    requires |tests| == 0 || numFunctions > 0
    ensures multiset(order) == multiset(Range(|tests|))
    ensures Distinct(order) && InRange(order, |tests|)
    ensures prioritized == Pick(tests, order)
    ensures multiset(prioritized) == multiset(tests)
    ensures forall r, j :: 0 <= r < |order| && 0 <= j < |tests| && j !in order[..r] ==>
              && SubmodGain(sim, numFunctions, order[..r], j) <= SubmodGain(sim, numFunctions, order[..r], order[r])
              && (j < order[r] ==> SubmodGain(sim, numFunctions, order[..r], j) < SubmodGain(sim, numFunctions, order[..r], order[r]))
  {
    var n := |tests|;
    if n == 0 {
      order := [];
      prioritized := [];
      return;
    }
    var gain := (s: seq<nat>, c: nat) => SubmodGain(sim, numFunctions, s, c);
    order := Select(Range(n), gain, n);
    GreedyOrderIsDistinct(Range(n), gain, order);
    SubmodPicksMaximizeGain(sim, numFunctions, n, order);
    PickPermutation(tests, order);
    prioritized := Pick(tests, order);
  }
}
