/** base/test_prioritization.py: submodular objective functions over
    coverage sets, the greedy `TestPrioritization.prioritize`, and
    `evaluate_prioritization` (APFD and the fault detection rate curve over
    an explicit fault -> detecting-tests mapping). */
module TestPrioritization {
  import opened Common
  import opened Greedy
  import opened ApfdFormula

  /** A test case. `coverage` is the set of covered elements; how it was
      extracted from `code` is not part of this model. Test cases have no
      equality of their own in the source, so the greedy loop works with
      their positions. */
  datatype TestCase = TestCase(name: string, code: string, coverage: set<string>)

  // ---------------------------------------------------------------------
  // Objective functions: the marginal gain of adding `candidate` to `selected`.
  // ---------------------------------------------------------------------

  /** The union of the coverage sets of the selected tests. */
  function CoveredBy(selected: seq<TestCase>): (u: set<string>)
    ensures forall e :: e in u <==> exists i :: 0 <= i < |selected| && e in selected[i].coverage
  {
    if |selected| == 0 then {}
    else
      var rest := CoveredBy(selected[1..]);
      assert forall e :: e in rest <==> exists i :: 1 <= i < |selected| && e in selected[i].coverage by {
        forall e | e in rest
          ensures exists i :: 1 <= i < |selected| && e in selected[i].coverage
        {
          var i :| 0 <= i < |selected[1..]| && e in selected[1..][i].coverage;
          assert e in selected[i + 1].coverage;
        }
        forall e | exists i :: 1 <= i < |selected| && e in selected[i].coverage
          ensures e in rest
        {
          var i :| 1 <= i < |selected| && e in selected[i].coverage;
          assert selected[1..][i - 1] == selected[i];
        }
      }
      selected[0].coverage + rest
  }

  lemma CoveredByConcat(s: seq<TestCase>, t: seq<TestCase>)
    ensures CoveredBy(s + t) == CoveredBy(s) + CoveredBy(t)
  {
    var u := s + t;
    forall e | e in CoveredBy(u)
      ensures e in CoveredBy(s) + CoveredBy(t)
    {
      var i :| 0 <= i < |u| && e in u[i].coverage;
      if i < |s| {
        assert u[i] == s[i];
      } else {
        assert u[i] == t[i - |s|];
      }
    }
    forall e | e in CoveredBy(s) + CoveredBy(t)
      ensures e in CoveredBy(u)
    {
      if e in CoveredBy(s) {
        var i :| 0 <= i < |s| && e in s[i].coverage;
        assert u[i] == s[i];
      } else {
        var i :| 0 <= i < |t| && e in t[i].coverage;
        assert u[|s| + i] == t[i];
      }
    }
  }

  lemma SubsetCard<T>(a: set<T>, b: set<T>)
    requires a <= b
    ensures |a| <= |b|
  {
    assert b == a + (b - a);
  }

  lemma EmptyDifference<T>(a: set<T>, b: set<T>)
    ensures |a - b| == 0 <==> a <= b
  {
    if !(a <= b) {
      var e :| e in a && e !in b;
      assert e in a - b;
    }
  }

  /** `CoverageBasedFunction.evaluate`: the number of the candidate's
      elements that no selected test covers yet. */
  function CoverageGain(selected: seq<TestCase>, candidate: TestCase): (r: real)
    ensures 0.0 <= r <= |candidate.coverage| as real
    ensures |selected| == 0 ==> r == |candidate.coverage| as real
    ensures r == 0.0 <==> candidate.coverage <= CoveredBy(selected)
  {
    var uncovered := candidate.coverage - CoveredBy(selected);
    SubsetCard(uncovered, candidate.coverage);
    EmptyDifference(candidate.coverage, CoveredBy(selected));
    |uncovered| as real
  }

  /** The coverage gain is the marginal value of the coverage-size set
      function: size of the covered union after adding the candidate, minus
      the size before. */
  lemma CoverageGainIsMarginal(selected: seq<TestCase>, candidate: TestCase)
    ensures CoverageGain(selected, candidate)
         == (|CoveredBy(selected + [candidate])| - |CoveredBy(selected)|) as real
  {
    var before := CoveredBy(selected);
    CoveredByConcat(selected, [candidate]);
    assert CoveredBy([candidate]) == candidate.coverage by {
      assert CoveredBy([candidate][1..]) == {};
    }
    var uncovered := candidate.coverage - before;
    assert before + candidate.coverage == before + uncovered;
    assert before !! uncovered;
  }

  /** Diminishing returns: once more is covered, the candidate gains no more. */
  lemma CoverageDiminishingReturns(small: seq<TestCase>, large: seq<TestCase>, candidate: TestCase)
    requires CoveredBy(small) <= CoveredBy(large)
    ensures CoverageGain(large, candidate) <= CoverageGain(small, candidate)
  {
    SubsetCard(candidate.coverage - CoveredBy(large), candidate.coverage - CoveredBy(small));
  }

  /** Selecting more tests never increases a candidate's coverage gain. */
  lemma CoverageGainShrinksAlongSelection(selected: seq<TestCase>, more: seq<TestCase>, candidate: TestCase)
    ensures CoverageGain(selected + more, candidate) <= CoverageGain(selected, candidate)
  {
    CoveredByConcat(selected, more);
    CoverageDiminishingReturns(selected, selected + more, candidate);
  }

  /** `|a & b| / |a | b|`, or 0 when the union is empty. */
  function Overlap(a: set<string>, b: set<string>): real
  {
    if |a + b| > 0 then (|a * b| as real) / (|a + b| as real) else 0.0
  }

  lemma OverlapBounds(a: set<string>, b: set<string>)
    ensures 0.0 <= Overlap(a, b) <= 1.0
    ensures a == b && a != {} ==> Overlap(a, b) == 1.0
    ensures a !! b ==> Overlap(a, b) == 0.0
  {
    if |a + b| > 0 {
      SubsetCard(a * b, a + b);
      DivisionBelowOne(|a * b| as real, |a + b| as real);
      if a == b {
        assert a * b == a + b;
      }
      if a !! b {
        assert a * b == {};
      }
    }
  }

  /** Jaccard distance `1 - |a & b| / |a | b|`, where an empty union gives
      `1 - 0`. */
  function JaccardDistance(a: set<string>, b: set<string>): (r: real)
    ensures 0.0 <= r <= 1.0
    ensures a == b && a != {} ==> r == 0.0
    ensures a !! b ==> r == 1.0
  {
    OverlapBounds(a, b);
    1.0 - Overlap(a, b)
  }

  /** The Jaccard distances from the candidate to each selected test. */
  function Distances(selected: seq<TestCase>, candidate: TestCase): seq<real>
  {
    seq(|selected|, i requires 0 <= i < |selected| => JaccardDistance(candidate.coverage, selected[i].coverage))
  }

  /** `DiversityBasedFunction.evaluate`: 1.0 for the first pick, otherwise
      the mean Jaccard distance to the selected tests. */
  function DiversityGain(selected: seq<TestCase>, candidate: TestCase): (r: real)
    ensures 0.0 <= r <= 1.0
    ensures |selected| == 0 ==> r == 1.0
  {
    if |selected| == 0 then 1.0
    else
      var d := Distances(selected, candidate);
      MeanBounds(d, 0.0, 1.0);
      Sum(d) / (|selected| as real)
  }

  /** A candidate sharing no element with any selected test is maximally diverse. */
  lemma DiversityOfDisjointCandidate(selected: seq<TestCase>, candidate: TestCase)
    requires forall i :: 0 <= i < |selected| ==> candidate.coverage !! selected[i].coverage
    ensures DiversityGain(selected, candidate) == 1.0
  {
    if |selected| > 0 {
      var d := Distances(selected, candidate);
      SumBounds(d, 1.0, 1.0);
      assert Sum(d) == |selected| as real;
    }
  }

  /** A candidate identical to every selected test (and covering something)
      adds no diversity. */
  lemma DiversityOfDuplicateCandidate(selected: seq<TestCase>, candidate: TestCase)
    requires |selected| > 0 && candidate.coverage != {}
    requires forall i :: 0 <= i < |selected| ==> selected[i].coverage == candidate.coverage
    ensures DiversityGain(selected, candidate) == 0.0
  {
    SumBounds(Distances(selected, candidate), 0.0, 0.0);
  }

  function Min(a: real, b: real): real { if a <= b then a else b }
  function Max(a: real, b: real): real { if a >= b then a else b }

  lemma ProductNonNegative(x: real, y: real)
    requires 0.0 <= x && 0.0 <= y
    ensures 0.0 <= x * y
  {
  }

  /** The alpha-weighted mix of two values. */
  function Mix(alpha: real, c: real, d: real): real
  {
    alpha * c + (1.0 - alpha) * d
  }

  lemma MixBetween(alpha: real, c: real, d: real)
    ensures 0.0 <= alpha <= 1.0 ==> Min(c, d) <= Mix(alpha, c, d) <= Max(c, d)
    ensures alpha == 1.0 ==> Mix(alpha, c, d) == c
    ensures alpha == 0.0 ==> Mix(alpha, c, d) == d
  {
    var x := Mix(alpha, c, d);
    assert x == d + alpha * (c - d);
    assert x == c + (1.0 - alpha) * (d - c);
    if 0.0 <= alpha <= 1.0 {
      if c <= d {
        ProductNonNegative(alpha, d - c);
        ProductNonNegative(1.0 - alpha, d - c);
      } else {
        ProductNonNegative(alpha, c - d);
        ProductNonNegative(1.0 - alpha, c - d);
      }
    }
  }

  /** `CombinedFunction.evaluate`: the alpha-weighted mix of the two gains,
      both computed for the same selection and candidate. */
  function CombinedGain(alpha: real, selected: seq<TestCase>, candidate: TestCase): (r: real)
    ensures var c := CoverageGain(selected, candidate);
            var d := DiversityGain(selected, candidate);
            && (0.0 <= alpha <= 1.0 ==> Min(c, d) <= r <= Max(c, d))
            && (alpha == 1.0 ==> r == c)
            && (alpha == 0.0 ==> r == d)
  {
    var c := CoverageGain(selected, candidate);
    var d := DiversityGain(selected, candidate);
    MixBetween(alpha, c, d);
    Mix(alpha, c, d)
  }

  /** The objective a prioritization run is configured with. The coverage
      objective carries the universe of elements it was built with, which
      its evaluation does not consult. */
  datatype Objective =
    | CoverageBased(allElements: set<string>)
    | DiversityBased
    | Combined(allElements: set<string>, alpha: real)

  /** The default weight of `CombinedFunction`. */
  const DefaultAlpha: real := 0.5

  /** `SubmodularFunction.evaluate`, dispatched on the objective. */
  function Evaluate(objective: Objective, selected: seq<TestCase>, candidate: TestCase): (r: real)
    ensures (!objective.Combined? || 0.0 <= objective.alpha <= 1.0) ==> r >= 0.0
  {
    match objective
    case CoverageBased(_) => CoverageGain(selected, candidate)
    case DiversityBased => DiversityGain(selected, candidate)
    case Combined(_, alpha) => CombinedGain(alpha, selected, candidate)
  }

  function GainOf(objective: Objective): (seq<TestCase>, TestCase) -> real
  {
    (selected, candidate) => Evaluate(objective, selected, candidate)
  }

  /** A round pick has the largest objective value among the tests not
      yet chosen, and the smallest position among those that reach it. */
  lemma RoundPickMaximizesObjective(tests: seq<TestCase>, objective: Objective, chosen: seq<nat>, p: nat, j: nat)
    requires InRange(chosen, |tests|)
    requires IsRoundPick(tests, GainOf(objective), chosen, p)
    requires j < |tests| && j !in chosen
    ensures Evaluate(objective, Pick(tests, chosen), tests[j]) <= Evaluate(objective, Pick(tests, chosen), tests[p])
    ensures j < p ==> Evaluate(objective, Pick(tests, chosen), tests[j]) < Evaluate(objective, Pick(tests, chosen), tests[p])
  {
    assert GainAfter(tests, GainOf(objective), chosen, j) <= GainAfter(tests, GainOf(objective), chosen, p);
  }

  /** Each pick of a greedy order has the largest objective value among the
      tests not yet picked, and the smallest position among those that
      reach it. */
  lemma GreedyPicksMaximizeObjective(tests: seq<TestCase>, objective: Objective, order: seq<nat>)
    requires IsGreedyOrder(tests, GainOf(objective), order)
    ensures var selected := Pick(tests, order);
            forall r, j :: 0 <= r < |order| && 0 <= j < |tests| && j !in order[..r] ==>
              && Evaluate(objective, selected[..r], tests[j]) <= Evaluate(objective, selected[..r], selected[r])
              && (j < order[r] ==> Evaluate(objective, selected[..r], tests[j]) < Evaluate(objective, selected[..r], selected[r]))
  {
    var selected := Pick(tests, order);
    forall r, j | 0 <= r < |order| && 0 <= j < |tests| && j !in order[..r]
      ensures Evaluate(objective, selected[..r], tests[j]) <= Evaluate(objective, selected[..r], selected[r])
      ensures j < order[r] ==> Evaluate(objective, selected[..r], tests[j]) < Evaluate(objective, selected[..r], selected[r])
    {
      assert IsRoundPick(tests, GainOf(objective), order[..r], order[r]);
      PickPrefix(tests, order, r);
      RoundPickMaximizesObjective(tests, objective, order[..r], order[r], j);
    }
  }

  /** Distinct positions of distinct tests pick distinct tests. */
  lemma PickOfDistinct(tests: seq<TestCase>, order: seq<nat>)
    requires InRange(order, |tests|) && Distinct(order)
    ensures Distinct(tests) ==> Distinct(Pick(tests, order))
  {
  }

  /** `TestPrioritization.prioritize(k)`: min(k, n) greedy rounds (none when
      k <= 0). Returns the selected tests and their input positions. */
  method Prioritize(tests: seq<TestCase>, objective: Objective, k: int)
    returns (selected: seq<TestCase>, order: seq<nat>)
    ensures |selected| == Rounds(k, |tests|)
    ensures InRange(order, |tests|) && selected == Pick(tests, order)
    ensures IsGreedyOrder(tests, GainOf(objective), order)
    ensures forall r, j :: 0 <= r < |order| && 0 <= j < |tests| && j !in order[..r] ==>
              && Evaluate(objective, selected[..r], tests[j]) <= Evaluate(objective, selected[..r], selected[r])
              && (j < order[r] ==> Evaluate(objective, selected[..r], tests[j]) < Evaluate(objective, selected[..r], selected[r]))
    ensures Distinct(order)
    ensures multiset(selected) <= multiset(tests)
    ensures k >= |tests| ==> multiset(selected) == multiset(tests)
    ensures Distinct(tests) ==> Distinct(selected)
  {
    order := Select(tests, GainOf(objective), k);
    PickSubMultiset(tests, order);
    selected := Pick(tests, order);
    if k >= |tests| {
      PickPermutation(tests, order);
    }
    GreedyPicksMaximizeObjective(tests, objective, order);
    GreedyOrderIsDistinct(tests, GainOf(objective), order);
    PickOfDistinct(tests, order);
  }

  // ---------------------------------------------------------------------
  // evaluate_prioritization
  // ---------------------------------------------------------------------

  /** One entry of the fault dictionary: a fault id and the names of the
      tests able to detect it. The dictionary is a list of entries in its
      iteration order. */
  datatype Fault = Fault(id: string, detectors: set<string>)

  /** The returned metrics; `curve` is absent in the degenerate case, where
      the source returns only APFD and FDR. */
  datatype Evaluation = Evaluation(apfd: real, fdr: real, curve: Option<seq<real>>)

  /** The 1-based position of the first test in `order` that detects the
      fault, or 0 when none does (the source then adds nothing). */
  function FirstDetection(order: seq<TestCase>, detectors: set<string>): (pos: nat)
    ensures pos <= |order|
  {
    if |order| == 0 then 0
    else if order[0].name in detectors then 1
    else
      var rest := FirstDetection(order[1..], detectors);
      if rest == 0 then 0 else rest + 1
  }

  /** The position found is that of the first detecting test; 0 means that
      no test of the order detects the fault. */
  lemma {:induction false} FirstDetectionIsFirst(order: seq<TestCase>, detectors: set<string>)
    ensures var pos := FirstDetection(order, detectors);
            && (pos == 0 <==> forall i :: 0 <= i < |order| ==> order[i].name !in detectors)
            && (pos > 0 ==> order[pos - 1].name in detectors)
            && (pos > 0 ==> forall i :: 0 <= i < pos - 1 ==> order[i].name !in detectors)
  {
    if |order| > 0 && order[0].name !in detectors {
      FirstDetectionIsFirst(order[1..], detectors);
      assert forall i :: 1 <= i < |order| ==> order[i] == order[1..][i - 1];
    }
  }

  /** `tf`: the sum over all faults of their first detecting positions. */
  function TotalFirstPositions(order: seq<TestCase>, faults: seq<Fault>): int
  {
    SumBy(faults, (f: Fault) => FirstDetection(order, f.detectors))
  }

  /** The ids of the faults detected by some test of `prefix`. */
  function DetectedIds(prefix: seq<TestCase>, faults: seq<Fault>): set<string>
  {
    set f | f in faults && FirstDetection(prefix, f.detectors) > 0 :: f.id
  }

  lemma IdsCard(faults: seq<Fault>)
    ensures |set f | f in faults :: f.id| <= |faults|
  {
    var ids := seq(|faults|, i requires 0 <= i < |faults| => faults[i].id);
    assert (set f | f in faults :: f.id) == (set x | x in ids) by {
      forall f | f in faults ensures f.id in ids {
        var i :| 0 <= i < |faults| && faults[i] == f;
        assert ids[i] == f.id;
      }
    }
    CardOfElements(ids);
  }

  lemma FractionMonotone(a: nat, b: nat, m: nat)
    requires a <= b && m > 0
    ensures (a as real) / (m as real) <= (b as real) / (m as real)
  {
  }

  /** More detected ids make a larger fraction. */
  lemma DetectedIdsCardGrows(order: seq<TestCase>, faults: seq<Fault>, i: nat, j: nat)
    requires i <= j <= |order|
    ensures |DetectedIds(order[..i], faults)| <= |DetectedIds(order[..j], faults)|
  {
    DetectedIdsGrow(order, faults, i, j);
    SubsetCard(DetectedIds(order[..i], faults), DetectedIds(order[..j], faults));
  }

  /** `a / m` as a Python true division. */
  function Fraction(a: nat, m: nat): real
    requires m > 0
  {
    (a as real) / (m as real)
  }

  /** The share of all faults detected by some test of `prefix`. */
  function DetectedFraction(prefix: seq<TestCase>, faults: seq<Fault>): real
    requires |faults| > 0
  {
    Fraction(|DetectedIds(prefix, faults)|, |faults|)
  }

  lemma DetectedFractionBounds(prefix: seq<TestCase>, faults: seq<Fault>)
    requires |faults| > 0
    ensures 0.0 <= DetectedFraction(prefix, faults) <= 1.0
  {
    var d := DetectedIds(prefix, faults);
    SubsetCard(d, set f | f in faults :: f.id);
    IdsCard(faults);
    FractionMonotone(|d|, |faults|, |faults|);
  }

  /** The fault ids in dictionary order. */
  function FaultIds(faults: seq<Fault>): (ids: seq<string>)
    ensures |ids| == |faults| && forall i :: 0 <= i < |faults| ==> ids[i] == faults[i].id
  {
    seq(|faults|, i requires 0 <= i < |faults| => faults[i].id)
  }

  lemma DetectedIdsWithin(prefix: seq<TestCase>, faults: seq<Fault>)
    ensures DetectedIds(prefix, faults) <= set x | x in FaultIds(faults)
  {
    var ids := FaultIds(faults);
    forall x | x in DetectedIds(prefix, faults) ensures x in ids {
      var f :| f in faults && FirstDetection(prefix, f.detectors) > 0 && f.id == x;
      var i :| 0 <= i < |faults| && faults[i] == f;
      assert ids[i] == x;
    }
  }

  lemma AllDetectedIds(prefix: seq<TestCase>, faults: seq<Fault>)
    requires forall i :: 0 <= i < |faults| ==> FirstDetection(prefix, faults[i].detectors) > 0
    ensures DetectedIds(prefix, faults) == set x | x in FaultIds(faults)
  {
    var ids := FaultIds(faults);
    DetectedIdsWithin(prefix, faults);
    forall x | x in ids ensures x in DetectedIds(prefix, faults) {
      var i :| 0 <= i < |ids| && ids[i] == x;
      assert faults[i] in faults;
    }
  }

  /** With distinct ids, an undetected fault leaves its id out. */
  lemma MissedId(prefix: seq<TestCase>, faults: seq<Fault>, i: nat)
    requires Distinct(FaultIds(faults))
    requires i < |faults| && FirstDetection(prefix, faults[i].detectors) == 0
    ensures faults[i].id !in DetectedIds(prefix, faults)
  {
    var ids := FaultIds(faults);
    forall f | f in faults && f.id == faults[i].id
      ensures FirstDetection(prefix, f.detectors) == 0
    {
      var j :| 0 <= j < |faults| && faults[j] == f;
      assert ids[j] == ids[i];
    }
  }

  lemma FractionOne(a: nat, m: nat)
    requires 0 < m && a <= m
    ensures Fraction(a, m) == 1.0 <==> a == m
  {
    if a < m {
      assert Fraction(a, m) * (m as real) == a as real;
    }
  }

  /** Fault ids are the keys of a dictionary, hence distinct. Then the
      detected share is 1.0 exactly when every fault is detected by some
      test of the prefix. */
  lemma FullDetection(prefix: seq<TestCase>, faults: seq<Fault>)
    requires |faults| > 0 && Distinct(FaultIds(faults))
    ensures (DetectedFraction(prefix, faults) == 1.0) <==>
            (forall i :: 0 <= i < |faults| ==> FirstDetection(prefix, faults[i].detectors) > 0)
  {
    var ids := FaultIds(faults);
    var all := set x | x in ids;
    var d := DetectedIds(prefix, faults);
    CardOfElements(ids);
    DetectedIdsWithin(prefix, faults);
    SubsetCard(d, all);
    if forall i :: 0 <= i < |faults| ==> FirstDetection(prefix, faults[i].detectors) > 0 {
      AllDetectedIds(prefix, faults);
    } else {
      var i :| 0 <= i < |faults| && FirstDetection(prefix, faults[i].detectors) == 0;
      MissedId(prefix, faults, i);
      assert ids[i] in all;
      assert d <= all - {ids[i]};
      SubsetCard(d, all - {ids[i]});
    }
    FractionOne(|d|, |faults|);
  }

  /** The fraction of faults detected after each executed test. */
  function FdrCurve(order: seq<TestCase>, faults: seq<Fault>): (curve: seq<real>)
    requires |faults| > 0
    ensures |curve| == |order|
  {
    seq(|order|, i requires 0 <= i < |order| => DetectedFraction(order[..i + 1], faults))
  }

  lemma FdrCurvePoint(order: seq<TestCase>, faults: seq<Fault>, i: nat)
    requires |faults| > 0 && i < |order|
    ensures FdrCurve(order, faults)[i] == DetectedFraction(order[..i + 1], faults)
  {
  }

  /** `evaluate_prioritization`. The original order is accepted and ignored,
      as in the source. */
  function EvaluatePrioritization(original: seq<TestCase>, prioritized: seq<TestCase>, faults: seq<Fault>)
    : (e: Evaluation)
    ensures e.curve.None? <==> |prioritized| == 0 || |faults| == 0
    ensures e.curve.None? ==> e.apfd == 0.0 && e.fdr == 0.0
  {
    var n := |prioritized|;
    var m := |faults|;
    if n == 0 || m == 0 then Evaluation(0.0, 0.0, None)
    else
      var curve := FdrCurve(prioritized, faults);
      Evaluation(Apfd(TotalFirstPositions(prioritized, faults), n, m), curve[n - 1], Some(curve))
  }

  lemma DetectedIdsGrow(order: seq<TestCase>, faults: seq<Fault>, i: nat, j: nat)
    requires i <= j <= |order|
    ensures DetectedIds(order[..i], faults) <= DetectedIds(order[..j], faults)
  {
    forall f | f in faults && FirstDetection(order[..i], f.detectors) > 0
      ensures FirstDetection(order[..j], f.detectors) > 0
    {
      FirstDetectionIsFirst(order[..i], f.detectors);
      FirstDetectionIsFirst(order[..j], f.detectors);
      var p := FirstDetection(order[..i], f.detectors);
      assert order[..j][p - 1] == order[..i][p - 1];
    }
  }

  lemma DetectedFractionGrows(order: seq<TestCase>, faults: seq<Fault>, i: nat, j: nat)
    requires i <= j <= |order| && |faults| > 0
    ensures DetectedFraction(order[..i], faults) <= DetectedFraction(order[..j], faults)
  {
    var a := |DetectedIds(order[..i], faults)|;
    var b := |DetectedIds(order[..j], faults)|;
    DetectedIdsCardGrows(order, faults, i, j);
    FractionMonotone(a, b, |faults|);
  }

  lemma FdrCurveGrows(order: seq<TestCase>, faults: seq<Fault>)
    requires |faults| > 0
    ensures forall i, j :: 0 <= i <= j < |order| ==> FdrCurve(order, faults)[i] <= FdrCurve(order, faults)[j]
  {
    forall i, j | 0 <= i <= j < |order|
      ensures FdrCurve(order, faults)[i] <= FdrCurve(order, faults)[j]
    {
      CurvePointsGrow(order, faults, i, j);
    }
  }

  lemma CurvePointsGrow(order: seq<TestCase>, faults: seq<Fault>, i: nat, j: nat)
    requires |faults| > 0 && i <= j < |order|
    ensures FdrCurve(order, faults)[i] <= FdrCurve(order, faults)[j]
  {
    calc {
      FdrCurve(order, faults)[i];
    == { FdrCurvePoint(order, faults, i); }
      DetectedFraction(order[..i + 1], faults);
    <= { DetectedFractionGrows(order, faults, i + 1, j + 1); }
      DetectedFraction(order[..j + 1], faults);
    == { FdrCurvePoint(order, faults, j); }
      FdrCurve(order, faults)[j];
    }
  }

  /** The FDR curve has one point per executed test, never decreases, stays
      in [0, 1], and ends at the returned FDR, which is the fraction of all
      faults detected by the whole order. */
  lemma EvaluationCurve(original: seq<TestCase>, prioritized: seq<TestCase>, faults: seq<Fault>)
    requires |prioritized| > 0 && |faults| > 0
    ensures var e := EvaluatePrioritization(original, prioritized, faults);
            && e.curve.Some?
            && |e.curve.value| == |prioritized|
            && (forall i, j :: 0 <= i <= j < |prioritized| ==> e.curve.value[i] <= e.curve.value[j])
            && (forall i :: 0 <= i < |prioritized| ==> 0.0 <= e.curve.value[i] <= 1.0)
            && e.fdr == e.curve.value[|prioritized| - 1]
            && e.fdr == DetectedFraction(prioritized, faults)
  {
    var e := EvaluatePrioritization(original, prioritized, faults);
    var curve := FdrCurve(prioritized, faults);
    assert e.curve == Some(curve);
    FdrCurveGrows(prioritized, faults);
    forall i | 0 <= i < |prioritized|
      ensures 0.0 <= curve[i] <= 1.0
    {
      FdrCurvePoint(prioritized, faults, i);
      DetectedFractionBounds(prioritized[..i + 1], faults);
    }
    FdrCurvePoint(prioritized, faults, |prioritized| - 1);
    assert prioritized[..|prioritized|] == prioritized;
  }

  /** Every non-degenerate APFD is at least 1/(2n); when every fault is
      detected by some test of the order it is at most 1 - 1/(2n). */
  lemma EvaluationApfdBounds(original: seq<TestCase>, prioritized: seq<TestCase>, faults: seq<Fault>)
    requires |prioritized| > 0 && |faults| > 0
    ensures var n := |prioritized|;
            var e := EvaluatePrioritization(original, prioritized, faults);
            && 1.0 / ((2 * n) as real) <= e.apfd
            && ((forall i :: 0 <= i < |faults| ==> FirstDetection(prioritized, faults[i].detectors) > 0)
                  ==> e.apfd <= 1.0 - 1.0 / ((2 * n) as real))
  {
    var n := |prioritized|;
    var m := |faults|;
    var first := (f: Fault) => FirstDetection(prioritized, f.detectors);
    var tf := TotalFirstPositions(prioritized, faults);
    SumByBounds(faults, first, 0, n);
    assert m * n == n * m;
    ApfdLowerBound(tf, n, m);
    if forall i :: 0 <= i < m ==> FirstDetection(prioritized, faults[i].detectors) > 0 {
      SumByBounds(faults, first, 1, n);
      ApfdBounds(tf, n, m);
    }
  }

  lemma SameMultisetSameMembers<T>(a: seq<T>, b: seq<T>)
    requires multiset(a) == multiset(b)
    ensures |a| == |b|
    ensures forall x :: x in a <==> x in b
  {
    assert |a| == |multiset(a)| == |b|;
    forall x
      ensures x in a <==> x in b
    {
      assert x in a <==> x in multiset(a);
      assert x in b <==> x in multiset(b);
    }
  }

  lemma DetectedIdsOfSameFaults(prefix: seq<TestCase>, faults: seq<Fault>, reordered: seq<Fault>)
    requires forall f :: f in faults <==> f in reordered
    ensures DetectedIds(prefix, faults) == DetectedIds(prefix, reordered)
  {
  }

  lemma FdrCurveOfSameFaults(order: seq<TestCase>, faults: seq<Fault>, reordered: seq<Fault>)
    requires |faults| == |reordered| > 0
    requires forall f :: f in faults <==> f in reordered
    ensures FdrCurve(order, faults) == FdrCurve(order, reordered)
  {
    var c1 := FdrCurve(order, faults);
    var c2 := FdrCurve(order, reordered);
    forall i | 0 <= i < |order|
      ensures c1[i] == c2[i]
    {
      DetectedIdsOfSameFaults(order[..i + 1], faults, reordered);
    }
  }

  /** The result depends only on which faults there are, not on the
      iteration order of the fault dictionary. */
  lemma EvaluationIgnoresFaultOrder(original: seq<TestCase>, prioritized: seq<TestCase>,
                                    faults: seq<Fault>, reordered: seq<Fault>)
    requires multiset(faults) == multiset(reordered)
    ensures EvaluatePrioritization(original, prioritized, faults)
         == EvaluatePrioritization(original, prioritized, reordered)
  {
    SameMultisetSameMembers(faults, reordered);
    if |prioritized| > 0 && |faults| > 0 {
      SumByPermutation(faults, reordered, (f: Fault) => FirstDetection(prioritized, f.detectors));
      FdrCurveOfSameFaults(prioritized, faults, reordered);
    }
  }

  /** A fault no test detects adds nothing to `tf`, so APFD can exceed 1:
      one test, one undetected fault gives 1 - 0 + 1/2. */
  lemma UndetectedFaultLiftsApfdAboveOne(t: TestCase)
    ensures EvaluatePrioritization([t], [t], [Fault("f", {})]).apfd == 1.5
  {
    assert FirstDetection([t], {}) == 0;
    assert TotalFirstPositions([t], [Fault("f", {})]) == 0;
  }

  // ---------------------------------------------------------------------
  // A worked prioritization: t1 covers {a, b}, t2 covers {b, c}, t3 covers {d}.
  // ---------------------------------------------------------------------

  const ExampleTests: seq<TestCase> := [
    TestCase("t1", "", {"a", "b"}),
    TestCase("t2", "", {"b", "c"}),
    TestCase("t3", "", {"d"})
  ]

  const ExampleObjective: Objective := CoverageBased({"a", "b", "c", "d"})

  /** The coverage gain of each example test before anything is selected. */
  lemma ExampleFirstGains()
    ensures GainAfter(ExampleTests, GainOf(ExampleObjective), [], 0) == 2.0
    ensures GainAfter(ExampleTests, GainOf(ExampleObjective), [], 1) == 2.0
    ensures GainAfter(ExampleTests, GainOf(ExampleObjective), [], 2) == 1.0
  {
    var t := ExampleTests;
    assert Pick(t, []) == [];
    assert CoveredBy([]) == {};
    assert t[0].coverage - {} == {"a", "b"};
    assert t[1].coverage - {} == {"b", "c"};
    assert t[2].coverage - {} == {"d"};
  }

  lemma ExampleFirstRound()
    ensures IsRoundPick(ExampleTests, GainOf(ExampleObjective), [], 0)
  {
    ExampleFirstGains();
    forall j | 0 <= j < 3
      ensures GainAfter(ExampleTests, GainOf(ExampleObjective), [], j)
           <= GainAfter(ExampleTests, GainOf(ExampleObjective), [], 0)
    {
      assert j == 0 || j == 1 || j == 2;
    }
  }

  /** The gains of the two tests left after t1 is selected. */
  lemma ExampleSecondGains()
    ensures GainAfter(ExampleTests, GainOf(ExampleObjective), [0], 1) == 1.0
    ensures GainAfter(ExampleTests, GainOf(ExampleObjective), [0], 2) == 1.0
  {
    var t := ExampleTests;
    assert Pick(t, [0]) == [t[0]];
    assert CoveredBy([t[0]]) == {"a", "b"} by {
      assert CoveredBy([t[0]][1..]) == {};
    }
    assert t[1].coverage - {"a", "b"} == {"c"};
    assert t[2].coverage - {"a", "b"} == {"d"};
  }

  lemma ExampleSecondRound()
    ensures IsRoundPick(ExampleTests, GainOf(ExampleObjective), [0], 1)
  {
    var chosen: seq<nat> := [0];
    ExampleSecondGains();
    forall j | 0 <= j < 3 && j !in chosen
      ensures GainAfter(ExampleTests, GainOf(ExampleObjective), chosen, j)
           <= GainAfter(ExampleTests, GainOf(ExampleObjective), chosen, 1)
      ensures j >= 1
    {
      assert j != 0 by {
        assert chosen[0] == 0;
      }
      assert j == 1 || j == 2;
    }
  }

  lemma ExampleThirdRound()
    ensures IsRoundPick(ExampleTests, GainOf(ExampleObjective), [0, 1], 2)
  {
    var chosen: seq<nat> := [0, 1];
    forall j | 0 <= j < 3 && j !in chosen
      ensures j == 2
    {
      assert j != 0 && j != 1 by {
        assert chosen[0] == 0 && chosen[1] == 1;
      }
    }
  }

  lemma ExampleIsGreedy()
    ensures IsGreedyOrder(ExampleTests, GainOf(ExampleObjective), [0, 1, 2])
  {
    var expected: seq<nat> := [0, 1, 2];
    forall r | 0 <= r < 3
      ensures IsRoundPick(ExampleTests, GainOf(ExampleObjective), expected[..r], expected[r])
    {
      if r == 0 {
        assert expected[..0] == [];
        ExampleFirstRound();
      } else if r == 1 {
        assert expected[..1] == [0];
        ExampleSecondRound();
      } else {
        assert expected[..2] == [0, 1];
        ExampleThirdRound();
      }
    }
  }

  /** With the coverage objective and k = 3, the only greedy order is
      t1, t2, t3: t1 and t2 tie at gain 2 and t1 comes first; then t2 and t3
      tie at gain 1 and t2 comes first. */
  lemma ExampleCoverageOrder(order: seq<nat>)
    requires IsGreedyOrder(ExampleTests, GainOf(ExampleObjective), order)
    requires |order| == 3
    ensures order == [0, 1, 2]
  {
    ExampleIsGreedy();
    GreedyIsDeterministic(ExampleTests, GainOf(ExampleObjective), order, [0, 1, 2]);
  }
}
