/** small_python_experiemnt/prioritization/apfd_calculator.py: the fault
    classifier of a failed test and `APFDCalculator.calculate_apfd` over the
    list of parsed test results, in execution order. */
module ApfdCalculator {
  import opened Common
  import opened Text
  import opened StableSort
  import opened ApfdFormula

  // ---------------------------------------------------------------------
  // Fault classification
  // ---------------------------------------------------------------------

  /** `fault_mapping`: each seeded fault with the test meant to reveal it,
      in declaration order. */
  const FaultMapping: seq<(string, string)> := [
    ("negative_gcd", "test_gcd"),
    ("negative_exponent", "test_power"),
    ("sqrt_approximation", "test_square_root"),
    ("missing_modulus_zero_check", "test_modulus"),
    ("factorial_zero_case", "test_factorial"),
    ("missing_division_zero_check", "test_divide"),
    ("combined_operations", "test_combined_operations"),
    ("subtraction_negative", "test_subtract")
  ]

  const UnknownFault: string := "unknown_fault"

  /** The keys of `fault_mapping`. */
  function FaultIds(): (ids: seq<string>)
    ensures |ids| == |FaultMapping|
    ensures forall i :: 0 <= i < |ids| ==> ids[i] == FaultMapping[i].0
  {
    seq(|FaultMapping|, i requires 0 <= i < |FaultMapping| => FaultMapping[i].0)
  }

  /** One branch of the classifier: it fires when the test name contains
      `namePattern` and, if present, the output contains `outputPattern`. */
  datatype Rule = Rule(namePattern: string, outputPattern: Option<string>, fault: string)

  predicate Fires(rule: Rule, testName: string, output: string)
  {
    && Contains(testName, rule.namePattern)
    && (rule.outputPattern.None? || Contains(output, rule.outputPattern.value))
  }

  /** The branches of the classifier as a table, in source order. */
  const Rules: seq<Rule> := [
    Rule("test_gcd", Some("assert -6 == 6"), "negative_gcd"),
    Rule("test_power", Some("assert 0 == 0.5"), "negative_exponent"),
    Rule("test_square_root", Some("assert 1.99"), "sqrt_approximation"),
    Rule("test_modulus", Some("ZeroDivisionError"), "missing_modulus_zero_check"),
    Rule("test_factorial", Some("assert 0 == 1"), "factorial_zero_case"),
    Rule("test_divide", Some("ZeroDivisionError"), "missing_division_zero_check"),
    Rule("test_combined_operations", None, "combined_operations"),
    Rule("test_subtract", Some("subtract"), "subtraction_negative")
  ]

  /** The fault of the first rule at or after position k that fires, or
      the unknown fault. */
  function FirstMatchFrom(rules: seq<Rule>, k: nat, testName: string, output: string): (fault: string)
    ensures fault == UnknownFault || exists i :: k <= i < |rules| && fault == rules[i].fault
    decreases |rules| - k
  {
    if k >= |rules| then UnknownFault
    else if Fires(rules[k], testName, output) then rules[k].fault
    else FirstMatchFrom(rules, k + 1, testName, output)
  }

  /** The fault of the first rule that fires, or the unknown fault. */
  function FirstMatch(rules: seq<Rule>, testName: string, output: string): string
  {
    FirstMatchFrom(rules, 0, testName, output)
  }

  /** The scan from position k returns the fault of the first rule at or
      after k that fires, and the unknown fault when none does. */
  lemma {:induction false} FirstMatchFromIsFirst(rules: seq<Rule>, k: nat, testName: string, output: string)
    ensures (forall i :: k <= i < |rules| ==> !Fires(rules[i], testName, output))
              ==> FirstMatchFrom(rules, k, testName, output) == UnknownFault
    ensures forall i :: k <= i < |rules| && Fires(rules[i], testName, output)
              && (forall j :: k <= j < i ==> !Fires(rules[j], testName, output))
              ==> FirstMatchFrom(rules, k, testName, output) == rules[i].fault
    decreases |rules| - k
  {
    if k < |rules| && !Fires(rules[k], testName, output) {
      FirstMatchFromIsFirst(rules, k + 1, testName, output);
      forall i | k <= i < |rules| && Fires(rules[i], testName, output)
                 && (forall j :: k <= j < i ==> !Fires(rules[j], testName, output))
        ensures FirstMatchFrom(rules, k, testName, output) == rules[i].fault
      {
        assert k + 1 <= i;
      }
    }
  }

  /** The first-match rule: the result is the fault of the first rule that
      fires, and the unknown fault exactly when none fires. */
  lemma FirstMatchIsFirst(rules: seq<Rule>, testName: string, output: string)
    ensures (forall i :: 0 <= i < |rules| ==> !Fires(rules[i], testName, output))
              ==> FirstMatch(rules, testName, output) == UnknownFault
    ensures forall i :: 0 <= i < |rules| && Fires(rules[i], testName, output)
              && (forall j :: 0 <= j < i ==> !Fires(rules[j], testName, output))
              ==> FirstMatch(rules, testName, output) == rules[i].fault
  {
    FirstMatchFromIsFirst(rules, 0, testName, output);
  }

  /** `_identify_fault`: the if/elif chain over name and output. */
  function IdentifyFault(testName: string, output: string): string
  {
    if Contains(testName, "test_gcd") && Contains(output, "assert -6 == 6") then "negative_gcd"
    else if Contains(testName, "test_power") && Contains(output, "assert 0 == 0.5") then "negative_exponent"
    else if Contains(testName, "test_square_root") && Contains(output, "assert 1.99") then "sqrt_approximation"
    else if Contains(testName, "test_modulus") && Contains(output, "ZeroDivisionError") then "missing_modulus_zero_check"
    else if Contains(testName, "test_factorial") && Contains(output, "assert 0 == 1") then "factorial_zero_case"
    else if Contains(testName, "test_divide") && Contains(output, "ZeroDivisionError") then "missing_division_zero_check"
    else if Contains(testName, "test_combined_operations") then "combined_operations"
    else if Contains(testName, "test_subtract") && Contains(output, "subtract") then "subtraction_negative"
    else UnknownFault
  }

  /** The last four rows of the table as a chain. */
  lemma LaterRulesMatch(n: string, o: string)
    ensures FirstMatchFrom(Rules, 4, n, o)
         == if Contains(n, "test_factorial") && Contains(o, "assert 0 == 1") then "factorial_zero_case"
            else if Contains(n, "test_divide") && Contains(o, "ZeroDivisionError") then "missing_division_zero_check"
            else if Contains(n, "test_combined_operations") then "combined_operations"
            else if Contains(n, "test_subtract") && Contains(o, "subtract") then "subtraction_negative"
            else UnknownFault
  {
    RulesFire(n, o);
    assert FirstMatchFrom(Rules, 8, n, o) == UnknownFault;
    assert FirstMatchFrom(Rules, 7, n, o) == if Fires(Rules[7], n, o) then Rules[7].fault else UnknownFault;
    assert FirstMatchFrom(Rules, 6, n, o) == if Fires(Rules[6], n, o) then Rules[6].fault else FirstMatchFrom(Rules, 7, n, o);
    assert FirstMatchFrom(Rules, 5, n, o) == if Fires(Rules[5], n, o) then Rules[5].fault else FirstMatchFrom(Rules, 6, n, o);
  }

  /** The written-out chain agrees with the rule table, rule for rule. */
  lemma IdentifyFaultIsFirstMatch(testName: string, output: string)
    ensures IdentifyFault(testName, output) == FirstMatch(Rules, testName, output)
  {
    var n := testName;
    var o := output;
    RulesFire(n, o);
    LaterRulesMatch(n, o);
    assert FirstMatchFrom(Rules, 3, n, o) == if Fires(Rules[3], n, o) then Rules[3].fault else FirstMatchFrom(Rules, 4, n, o);
    assert FirstMatchFrom(Rules, 2, n, o) == if Fires(Rules[2], n, o) then Rules[2].fault else FirstMatchFrom(Rules, 3, n, o);
    assert FirstMatchFrom(Rules, 1, n, o) == if Fires(Rules[1], n, o) then Rules[1].fault else FirstMatchFrom(Rules, 2, n, o);
  }

  /** Each row of the table fires under the condition of its branch. */
  lemma RulesFire(n: string, o: string)
    ensures Fires(Rules[0], n, o) == (Contains(n, "test_gcd") && Contains(o, "assert -6 == 6"))
    ensures Fires(Rules[1], n, o) == (Contains(n, "test_power") && Contains(o, "assert 0 == 0.5"))
    ensures Fires(Rules[2], n, o) == (Contains(n, "test_square_root") && Contains(o, "assert 1.99"))
    ensures Fires(Rules[3], n, o) == (Contains(n, "test_modulus") && Contains(o, "ZeroDivisionError"))
    ensures Fires(Rules[4], n, o) == (Contains(n, "test_factorial") && Contains(o, "assert 0 == 1"))
    ensures Fires(Rules[5], n, o) == (Contains(n, "test_divide") && Contains(o, "ZeroDivisionError"))
    ensures Fires(Rules[6], n, o) == Contains(n, "test_combined_operations")
    ensures Fires(Rules[7], n, o) == (Contains(n, "test_subtract") && Contains(o, "subtract"))
    ensures Rules[0].fault == "negative_gcd" && Rules[1].fault == "negative_exponent"
    ensures Rules[2].fault == "sqrt_approximation" && Rules[3].fault == "missing_modulus_zero_check"
    ensures Rules[4].fault == "factorial_zero_case" && Rules[5].fault == "missing_division_zero_check"
    ensures Rules[6].fault == "combined_operations" && Rules[7].fault == "subtraction_negative"
  {
  }

  /** The classifier only ever reports a key of `fault_mapping` or the
      unknown fault. */
  lemma IdentifyFaultRange(testName: string, output: string)
    ensures var fault := IdentifyFault(testName, output);
            fault == UnknownFault || fault in FaultIds()
  {
    var ids := FaultIds();
    assert ids[0] == "negative_gcd" && ids[1] == "negative_exponent";
    assert ids[2] == "sqrt_approximation" && ids[3] == "missing_modulus_zero_check";
    assert ids[4] == "factorial_zero_case" && ids[5] == "missing_division_zero_check";
    assert ids[6] == "combined_operations" && ids[7] == "subtraction_negative";
  }

  /** The classifier reports the unknown fault exactly when no branch fires. */
  lemma IdentifyFaultUnknownIff(testName: string, output: string)
    ensures IdentifyFault(testName, output) == UnknownFault
        <==> forall i :: 0 <= i < |Rules| ==> !Fires(Rules[i], testName, output)
  {
    IdentifyFaultIsFirstMatch(testName, output);
    FirstMatchIsFirst(Rules, testName, output);
    if exists i :: 0 <= i < |Rules| && Fires(Rules[i], testName, output) {
      var i := FirstFiring(Rules, testName, output);
      assert FirstMatch(Rules, testName, output) == Rules[i].fault;
      assert Rules[i].fault != UnknownFault;
    }
  }

  /** The position of the first rule that fires, when one does. */
  lemma FirstFiring(rules: seq<Rule>, testName: string, output: string) returns (i: nat)
    requires exists k :: 0 <= k < |rules| && Fires(rules[k], testName, output)
    ensures i < |rules| && Fires(rules[i], testName, output)
    ensures forall j :: 0 <= j < i ==> !Fires(rules[j], testName, output)
  {
    var k :| 0 <= k < |rules| && Fires(rules[k], testName, output);
    i := 0;
    while !Fires(rules[i], testName, output)
      invariant i <= k
      invariant forall j :: 0 <= j < i ==> !Fires(rules[j], testName, output)
      decreases k - i
    {
      i := i + 1;
    }
  }

  /** A combined-operations test is classified as that fault whatever its
      output, unless an earlier branch fired. */
  lemma CombinedOperationsIgnoresOutput(testName: string, output: string)
    requires Contains(testName, "test_combined_operations")
    requires forall i :: 0 <= i < 6 ==> !Fires(Rules[i], testName, output)
    ensures IdentifyFault(testName, output) == "combined_operations"
  {
    IdentifyFaultIsFirstMatch(testName, output);
    FirstMatchIsFirst(Rules, testName, output);
    assert Fires(Rules[6], testName, output);
  }

  // ---------------------------------------------------------------------
  // Parsed results and first detections
  // ---------------------------------------------------------------------

  datatype Status = Passed | Failed

  /** One parsed result: `{"test_name", "status", "output", "detected_fault"}`. */
  datatype TestResult = TestResult(testName: string, status: Status, output: string, detectedFault: Option<string>)

  /** The record `parse_test_output` builds for one matched test: only a
      failed test is classified. */
  function ResultFor(testName: string, status: Status, output: string): (r: TestResult)
    ensures r.detectedFault.Some? <==> status == Failed
    ensures r.detectedFault.Some? ==> r.detectedFault.value != ""
    ensures r.testName == testName && r.status == status && r.output == output
  {
    TestResult(testName, status, output,
      if status == Failed then Some(IdentifyFault(testName, output)) else None)
  }

  /** The result counts as detecting fault f: it failed and carries the
      non-empty (truthy) label f. */
  predicate Reports(t: TestResult, f: string)
  {
    t.status == Failed && t.detectedFault == Some(f) && f != ""
  }

  predicate Counts(t: TestResult)
  {
    t.status == Failed && t.detectedFault.Some? && t.detectedFault.value != ""
  }

  /** Position p (1-based) holds the first result reporting f. */
  predicate IsFirstReport(results: seq<TestResult>, f: string, p: nat)
  {
    && 1 <= p <= |results|
    && Reports(results[p - 1], f)
    && forall q :: 0 <= q < p - 1 ==> !Reports(results[q], f)
  }

  predicate HasLabel(d: seq<(string, nat)>, f: string)
  {
    exists i :: 0 <= i < |d| && d[i].0 == f
  }

  /** `fault_detection_positions`, in insertion order: a result that
      reports a fault not seen before records the fault with the result's
      1-based position. */
  function Detections(results: seq<TestResult>): seq<(string, nat)>
    decreases |results|
  {
    if |results| == 0 then []
    else
      var prev := Detections(results[..|results| - 1]);
      var t := results[|results| - 1];
      if Counts(t) && !HasLabel(prev, t.detectedFault.value) then prev + [(t.detectedFault.value, |results|)]
      else prev
  }

  /** Every detection is the first report of its fault, positions increase
      along the detections, and every reported fault is detected. */
  lemma DetectionsAreFirstReports(results: seq<TestResult>)
    ensures var d := Detections(results);
            && (forall i :: 0 <= i < |d| ==> IsFirstReport(results, d[i].0, d[i].1))
            && (forall i, j :: 0 <= i < j < |d| ==> d[i].1 < d[j].1)
            && (forall q :: 0 <= q < |results| && Counts(results[q]) ==> HasLabel(d, results[q].detectedFault.value))
  {
    DetectionsAreFirst(results);
    ReportedFaultsAreDetected(results);
  }

  /** Every detection is the first report of its fault, and positions
      increase along the detections. */
  lemma {:induction false} DetectionsAreFirst(results: seq<TestResult>)
    ensures var d := Detections(results);
            && (forall i :: 0 <= i < |d| ==> IsFirstReport(results, d[i].0, d[i].1))
            && (forall i, j :: 0 <= i < j < |d| ==> d[i].1 < d[j].1)
    decreases |results|
  {
    if |results| > 0 {
      var n := |results|;
      var prefix := results[..n - 1];
      var prev := Detections(prefix);
      var t := results[n - 1];
      DetectionsAreFirst(prefix);
      assert var d := Detections(prefix); forall i :: 0 <= i < |d| ==> IsFirstReport(prefix, d[i].0, d[i].1);
      FirstReportsExtend(results, prev);
      if Counts(t) && !HasLabel(prev, t.detectedFault.value) {
        var d := Detections(results);
        assert d == prev + [(t.detectedFault.value, n)];
        LastIsFirstReport(results, prev);
      }
    }
  }

  /** A fault reported by the last result and absent from the detections
      of the earlier ones is first reported at the last position. */
  lemma LastIsFirstReport(results: seq<TestResult>, prev: seq<(string, nat)>)
    requires |results| > 0
    requires prev == Detections(results[..|results| - 1])
    requires Counts(results[|results| - 1])
    requires !HasLabel(prev, results[|results| - 1].detectedFault.value)
    ensures IsFirstReport(results, results[|results| - 1].detectedFault.value, |results|)
  {
    var n := |results|;
    var f := results[n - 1].detectedFault.value;
    var prefix := results[..n - 1];
    ReportedFaultsAreDetected(prefix);
    forall q | 0 <= q < n - 1
      ensures !Reports(results[q], f)
    {
      assert results[q] == prefix[q];
    }
  }

  /** Every fault some result reports is among the detections. */
  lemma {:induction false} ReportedFaultsAreDetected(results: seq<TestResult>)
    ensures var d := Detections(results);
            forall q :: 0 <= q < |results| && Counts(results[q]) ==> HasLabel(d, results[q].detectedFault.value)
    decreases |results|
  {
    if |results| > 0 {
      var n := |results|;
      var prefix := results[..n - 1];
      var prev := Detections(prefix);
      var t := results[n - 1];
      var d := Detections(results);
      ReportedFaultsAreDetected(prefix);
      DetectionsUnfold(results);
      forall q | 0 <= q < n && Counts(results[q])
        ensures HasLabel(d, results[q].detectedFault.value)
      {
        if q < n - 1 {
          assert results[q] == prefix[q];
          var i :| 0 <= i < |prev| && prev[i].0 == results[q].detectedFault.value;
          assert d[i] == prev[i];
        } else if !HasLabel(prev, t.detectedFault.value) {
          assert d[|prev|].0 == results[q].detectedFault.value;
        } else {
          var i :| 0 <= i < |prev| && prev[i].0 == results[q].detectedFault.value;
          assert d[i] == prev[i];
        }
      }
    }
  }

  /** First reports in a prefix stay first reports in the whole list. */
  lemma FirstReportsExtend(results: seq<TestResult>, prev: seq<(string, nat)>)
    requires |results| > 0
    requires forall i :: 0 <= i < |prev| ==> IsFirstReport(results[..|results| - 1], prev[i].0, prev[i].1)
    ensures forall i :: 0 <= i < |prev| ==> IsFirstReport(results, prev[i].0, prev[i].1)
    ensures forall i :: 0 <= i < |prev| ==> prev[i].1 < |results|
  {
    var prefix := results[..|results| - 1];
    forall i | 0 <= i < |prev|
      ensures IsFirstReport(results, prev[i].0, prev[i].1)
    {
      assert forall q :: 0 <= q < |prefix| ==> prefix[q] == results[q];
    }
  }

  /** Each fault appears once among the detections. */
  lemma DetectionLabelsDistinct(results: seq<TestResult>)
    ensures var d := Detections(results);
            forall i, j :: 0 <= i < j < |d| ==> d[i].0 != d[j].0
  {
    DetectionsAreFirstReports(results);
    var d := Detections(results);
    forall i, j | 0 <= i < j < |d|
      ensures d[i].0 != d[j].0
    {
      var p := d[i].1 - 1;
      assert Reports(results[p], d[i].0);
      assert !Reports(results[p], d[j].0);
    }
  }

  /** The last result adds at most one detection, at its own position. */
  lemma DetectionsUnfold(results: seq<TestResult>)
    requires |results| > 0
    ensures var prev := Detections(results[..|results| - 1]);
            var d := Detections(results);
            && prev <= d
            && |d| <= |prev| + 1
            && (|d| > |prev| ==> d[|prev|].1 == |results|)
  {
  }

  /** Later results never change earlier detections: the detections of a
      prefix are a prefix of the detections of the whole list, and every
      further detection lies beyond the prefix. */
  lemma {:induction false} DetectionsOfPrefix(results: seq<TestResult>, k: nat)
    requires k <= |results|
    ensures Detections(results[..k]) <= Detections(results)
    ensures forall j :: |Detections(results[..k])| <= j < |Detections(results)| ==> Detections(results)[j].1 > k
    decreases |results| - k
  {
    if k < |results| {
      var n := |results|;
      var shorter := results[..n - 1];
      assert shorter[..k] == results[..k];
      DetectionsOfPrefix(shorter, k);
      DetectionsUnfold(results);
    } else {
      assert results[..k] == results;
    }
  }

  /** One more result adds at most one detection, and adds one exactly
      when the detections contain one at that position. */
  lemma DetectionsStep(results: seq<TestResult>, i: nat)
    requires 0 < i <= |results|
    ensures var before := Detections(results[..i - 1]);
            var after := Detections(results[..i]);
            var d := Detections(results);
            && |before| <= |after| <= |before| + 1
            && (|before| < |d| && d[|before|].1 == i <==> |after| == |before| + 1)
  {
    var d := Detections(results);
    var before := Detections(results[..i - 1]);
    var after := Detections(results[..i]);
    assert results[..i][..i - 1] == results[..i - 1];
    DetectionsOfPrefix(results, i - 1);
    DetectionsOfPrefix(results, i);
    if |after| == |before| + 1 {
      assert after[|before|].1 == i;
      assert d[|before|] == after[|before|];
    }
  }

  /** The count of detections grows by one at position i exactly when the
      next detection in order is the one at position i. */
  lemma CurveStep(results: seq<TestResult>, i: nat)
    requires 0 < i <= |results|
    ensures var before := |Detections(results[..i - 1])|;
            var d := Detections(results);
            |Detections(results[..i])| == if before < |d| && d[before].1 == i then before + 1 else before
  {
    DetectionsStep(results, i);
  }

  // ---------------------------------------------------------------------
  // calculate_apfd
  // ---------------------------------------------------------------------

  /** The returned metrics. `detectedFaults` is `list(detected_faults)`, whose
      order is unspecified, so it is kept as a set. */
  datatype Metrics = Metrics(
    apfd: real,
    totalTests: nat,
    totalFaults: nat,
    positions: seq<(string, nat)>,
    detectedFaults: set<string>,
    avgPosition: real,
    testsNeededPercentage: real,
    errorDetection: seq<(nat, nat)>)

  function SumPositions(d: seq<(string, nat)>): int
  {
    SumBy(d, PositionOf)
  }

  function LabelSet(d: seq<(string, nat)>): set<string>
  {
    set i | 0 <= i < |d| :: d[i].0
  }

  /** Negated position: `sorted(..., key=lambda x: x[1])` ascending is the
      stable descending sort on this key. */
  function ByEarliest(x: (string, nat)): int { 0 - x.1 as int }

  lemma PositionsBounds(results: seq<TestResult>)
    requires |Detections(results)| > 0
    ensures var d := Detections(results);
            var n := |results|;
            && |d| <= SumPositions(d) <= n * |d|
            && 1 <= MaxOf(PositionList(d)) <= n
  {
    DetectionsAreFirstReports(results);
    var d := Detections(results);
    SumByBounds(d, PositionOf, 1, |results|);
    assert |d| * |results| == |results| * |d|;
  }

  /** The detections are already in position order, so sorting them by
      position changes nothing. */
  lemma SortedPositionsUnchanged(results: seq<TestResult>)
    ensures SortDescending(Detections(results), ByEarliest) == Detections(results)
  {
    DetectionsAreFirstReports(results);
    SortOfSortedIsIdentity(Detections(results), ByEarliest);
  }

  /** The first k points of the error detection curve: after the i-th
      result, the number of faults detected so far. */
  function DetectionCurve(results: seq<TestResult>, k: nat): (curve: seq<(nat, nat)>)
    requires k <= |results|
    ensures |curve| == k
  {
    seq(k, j requires 0 <= j < k => (j + 1, |Detections(results[..j + 1])|))
  }

  lemma DetectionCurveStep(results: seq<TestResult>, k: nat)
    requires k < |results|
    ensures DetectionCurve(results, k + 1) == DetectionCurve(results, k) + [(k + 1, |Detections(results[..k + 1])|)]
  {
  }

  /** `sorted(fault_detection_positions.items(), key=lambda x: x[1])`. */
  function SortedDetections(results: seq<TestResult>): (sorted: seq<(string, nat)>)
    ensures sorted == Detections(results)
  {
    SortedPositionsUnchanged(results);
    SortDescending(Detections(results), ByEarliest)
  }

  /** The `error_detection` points, computed by the walk over the
      detections sorted by position that the source performs. */
  method ErrorDetection(results: seq<TestResult>) returns (curve: seq<(nat, nat)>)
    ensures |curve| == |results|
    ensures forall i :: 0 <= i < |results| ==> curve[i] == (i + 1, |Detections(results[..i + 1])|)
  {
    var n := |results|;
    var sorted := SortedDetections(results);
    curve := [];
    var found: nat := 0;
    var index := 0;
    var k := 0;
    assert results[..0] == [];
    while k < n
      invariant k <= n
      invariant index == found == |Detections(results[..k])|
      invariant curve == DetectionCurve(results, k)
    {
      var i := k + 1;
      CurveStep(results, i);
      if index < |sorted| && sorted[index].1 == i {
        found := found + 1;
        index := index + 1;
      }
      DetectionCurveStep(results, k);
      curve := curve + [(i, found)];
      k := i;
    }
  }

  /** `calculate_apfd`. */
  method CalculateApfd(results: seq<TestResult>) returns (m: Metrics)
    ensures m.totalTests == |results|
    ensures m.totalFaults == |Detections(results)|
    ensures m.totalFaults == 0 ==> m == Metrics(0.0, |results|, 0, [], {}, 0.0, 0.0, [])
    ensures m.totalFaults > 0 ==>
              && m.positions == Detections(results)
              && m.detectedFaults == LabelSet(m.positions)
              && m.apfd == Apfd(SumPositions(m.positions), |results|, m.totalFaults)
              && 0.0 <= m.apfd <= 1.0
              && m.avgPosition == (SumPositions(m.positions) as real) / (m.totalFaults as real)
              && 1.0 <= m.avgPosition <= |results| as real
              && m.testsNeededPercentage == (MaxOf(PositionList(m.positions)) as real) / (|results| as real) * 100.0
              && 0.0 < m.testsNeededPercentage <= 100.0
              && |m.errorDetection| == |results|
              && (forall i :: 0 <= i < |results| ==>
                    m.errorDetection[i] == (i + 1, |Detections(results[..i + 1])|))
              && m.errorDetection[|results| - 1].1 == m.totalFaults
  {
    var n := |results|;
    var d := Detections(results);
    var total := |d|;
    if total == 0 || n == 0 {
      return Metrics(0.0, n, 0, [], {}, 0.0, 0.0, []);
    }
    var s := SumPositions(d);
    PositionsBounds(results);
    ApfdBounds(s, n, total);
    var apfd := Apfd(s, n, total);
    AverageBounds(s, total, n);
    var avg := (s as real) / (total as real);
    var mx := MaxOf(PositionList(d));
    PercentageBounds(mx, n);
    var pct := ((mx as real) / (n as real)) * 100.0;

    var curve := ErrorDetection(results);
    assert results[..n] == results;
    m := Metrics(apfd, n, total, d, LabelSet(d), avg, pct, curve);
  }

  /** The error detection curve never decreases and never exceeds the
      number of detected faults. */
  lemma ErrorDetectionCurve(results: seq<TestResult>, i: nat, j: nat)
    requires i <= j <= |results|
    ensures |Detections(results[..i])| <= |Detections(results[..j])|
    ensures |Detections(results[..j])| <= |Detections(results)|
  {
    assert results[..j][..i] == results[..i];
    DetectionsOfPrefix(results[..j], i);
    DetectionsOfPrefix(results, j);
  }

  /** Worked example: four results, the second and fourth fail with
      different faults and the third repeats the second's fault; the
      positions are 2 and 4 and APFD is 1 - 6/8 + 1/8. */
  lemma CalculateApfdExample()
    ensures var results := [
              TestResult("test_add", Passed, "", None),
              TestResult("test_gcd", Failed, "", Some("negative_gcd")),
              TestResult("test_gcd", Failed, "", Some("negative_gcd")),
              TestResult("test_divide", Failed, "", Some("missing_division_zero_check"))];
            && Detections(results) == [("negative_gcd", 2), ("missing_division_zero_check", 4)]
            && Apfd(SumPositions(Detections(results)), 4, 2) == 0.375
  {
    var results := [
      TestResult("test_add", Passed, "", None),
      TestResult("test_gcd", Failed, "", Some("negative_gcd")),
      TestResult("test_gcd", Failed, "", Some("negative_gcd")),
      TestResult("test_divide", Failed, "", Some("missing_division_zero_check"))];
    assert results[..1][..0] == [];
    assert results[..2][..1] == results[..1];
    assert results[..3][..2] == results[..2];
    assert results[..4][..3] == results[..3];
    assert Detections(results[..1]) == [];
    assert Detections(results[..2]) == [("negative_gcd", 2)];
    assert Detections(results[..2])[0].0 == "negative_gcd";
    assert Detections(results[..3]) == [("negative_gcd", 2)];
    assert !HasLabel([("negative_gcd", 2)], "missing_division_zero_check");
    assert results[..4] == results;
    var d: seq<(string, nat)> := [("negative_gcd", 2), ("missing_division_zero_check", 4)];
    assert d[1..][1..] == [];
    assert SumPositions(d) == 6;
    ApfdExample();
  }
}
