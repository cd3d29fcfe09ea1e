/** small_python_experiemnt/prioritization/utils.py,
    `evaluate_fault_detection_efficiency`: each test of the prioritized
    list is run once (the run's outcome is an input here), the error lines
    of a failing run are classified into fault labels, and APFD is computed
    over every fault seen. */
module FaultEfficiency {
  import opened Common
  import opened Text
  import opened ApfdFormula

  /** The fault labels the evaluator produces. Their texts are
      `division_by_zero`, `negative_exponent`, `incorrect_sqrt`,
      `assertion_in_<method>` and `unknown_fault_<k>`; the fixed prefixes
      keep different labels apart. */
  datatype Label =
    | DivisionByZero
    | NegativeExponent
    | IncorrectSqrt
    | AssertionIn(methodName: string)
    | UnknownFault(index: nat)

  /** The fields of a prioritized test the evaluator reads. */
  datatype PrioritizedTest = PrioritizedTest(fullName: string, methodName: string)

  /** What running one test produced: a non-zero return code, stderr and
      stdout. */
  datatype RunOutcome = RunOutcome(failed: bool, stderr: string, stdout: string)

  datatype Execution = Execution(test: PrioritizedTest, outcome: RunOutcome)

  /** `test['full_name'].replace('::', '.')`. */
  function DisplayName(test: PrioritizedTest): string
  {
    Replace(test.fullName, "::", ".")
  }

  predicate IsErrorLine(line: string)
  {
    Contains(line, "ERROR") || Contains(line, "FAILED")
  }

  /** The lines kept by the list comprehension, in order. */
  function KeepErrorLines(lines: seq<string>): (kept: seq<string>)
    ensures |kept| <= |lines|
    ensures forall l :: l in kept <==> l in lines && IsErrorLine(l)
  {
    if |lines| == 0 then []
    else (if IsErrorLine(lines[0]) then [lines[0]] else []) + KeepErrorLines(lines[1..])
  }

  /** Every error line is kept as often as it occurs, and no other line is
      kept. Repeated lines matter: in the unknown branch each kept line adds
      its own fault. */
  lemma {:induction false} KeepErrorLinesCounts(lines: seq<string>)
    ensures forall l :: multiset(KeepErrorLines(lines))[l] == if IsErrorLine(l) then multiset(lines)[l] else 0
  {
    if |lines| > 0 {
      KeepErrorLinesCounts(lines[1..]);
      assert lines == [lines[0]] + lines[1..];
    }
  }

  /** The filter keeps the order of the lines: filtering a concatenation
      concatenates the filtered parts. */
  lemma {:induction false} KeepErrorLinesConcat(a: seq<string>, b: seq<string>)
    ensures KeepErrorLines(a + b) == KeepErrorLines(a) + KeepErrorLines(b)
  {
    if |a| > 0 {
      assert (a + b)[1..] == a[1..] + b;
      KeepErrorLinesConcat(a[1..], b);
    } else {
      assert a + b == b;
    }
  }

  /** `[line for line in stderr.split('\n') if 'ERROR' in line or 'FAILED' in line]`. */
  function ErrorLines(stderr: string): seq<string>
  {
    KeepErrorLines(Split(stderr, "\n"))
  }

  /** The fault of one error line. It depends on the run's stdout, the
      display name and the method name, and for unknown faults on how many
      faults have been seen, but not on the line itself. */
  function Classify(test: PrioritizedTest, stdout: string, faultsSeen: nat): Label
  {
    if Contains(stdout, "ZeroDivisionError") then DivisionByZero
    else if Contains(stdout, "AssertionError") then
      if Contains(DisplayName(test), "power") then NegativeExponent
      else if Contains(DisplayName(test), "square_root") then IncorrectSqrt
      else AssertionIn(test.methodName)
    else UnknownFault(faultsSeen)
  }

  /** The evaluator's state: `all_faults`, `detected_faults` and
      `fault_detection_positions` in insertion order. */
  datatype Tally = Tally(all: set<Label>, detected: set<Label>, positions: seq<(Label, nat)>)

  const EmptyTally := Tally({}, {}, [])

  /** The body of the loop over error lines, at 1-based test position i. */
  function RecordLine(t: Tally, test: PrioritizedTest, stdout: string, i: nat): Tally
  {
    var fault := Classify(test, stdout, |t.all|);
    var all := t.all + {fault};
    if fault !in t.detected then Tally(all, t.detected + {fault}, t.positions + [(fault, i)])
    else Tally(all, t.detected, t.positions)
  }

  function RecordLines(t: Tally, test: PrioritizedTest, stdout: string, i: nat, lines: seq<string>): Tally
    decreases |lines|
  {
    if |lines| == 0 then t
    else RecordLines(RecordLine(t, test, stdout, i), test, stdout, i, lines[1..])
  }

  /** One iteration of the loop over tests. */
  function RecordTest(t: Tally, e: Execution, i: nat): Tally
  {
    if e.outcome.failed then RecordLines(t, e.test, e.outcome.stdout, i, ErrorLines(e.outcome.stderr))
    else t
  }

  /** The state after the loop over the executions. */
  function Run(executions: seq<Execution>): Tally
    decreases |executions|
  {
    if |executions| == 0 then EmptyTally
    else
      var n := |executions|;
      RecordTest(Run(executions[..n - 1]), executions[n - 1], n)
  }

  function LabelsOf(positions: seq<(Label, nat)>): set<Label>
  {
    set i | 0 <= i < |positions| :: positions[i].0
  }

  /** The invariant the evaluator keeps after the first `upTo` tests. */
  ghost predicate Consistent(t: Tally, upTo: nat)
  {
    && t.detected == t.all
    && LabelsOf(t.positions) == t.all
    && |t.positions| == |t.all|
    && (forall i, j :: 0 <= i < j < |t.positions| ==> t.positions[i].0 != t.positions[j].0)
    && (forall i :: 0 <= i < |t.positions| ==> 1 <= t.positions[i].1 <= upTo)
    && (forall k: nat :: UnknownFault(k) in t.all ==> k < |t.all|)
  }

  lemma LabelsOfAppend(positions: seq<(Label, nat)>, x: (Label, nat))
    ensures LabelsOf(positions + [x]) == LabelsOf(positions) + {x.0}
  {
    var p := positions + [x];
    assert forall i :: 0 <= i < |positions| ==> p[i] == positions[i];
    assert p[|positions|] == x;
  }

  lemma DistinctLabelsCard(positions: seq<(Label, nat)>)
    requires forall i, j :: 0 <= i < j < |positions| ==> positions[i].0 != positions[j].0
    ensures |LabelsOf(positions)| == |positions|
  {
    var labels := seq(|positions|, i requires 0 <= i < |positions| => positions[i].0);
    assert (set x | x in labels) == LabelsOf(positions) by {
      forall x | x in labels ensures x in LabelsOf(positions) {
        var i :| 0 <= i < |labels| && labels[i] == x;
      }
      forall x | x in LabelsOf(positions) ensures x in labels {
        var i :| 0 <= i < |positions| && positions[i].0 == x;
        assert labels[i] == x;
      }
    }
    assert Distinct(labels);
    CardOfElements(labels);
  }

  /** An unknown fault is new: its index is the current number of faults. */
  lemma UnknownLabelIsFresh(t: Tally, upTo: nat)
    requires Consistent(t, upTo)
    ensures UnknownFault(|t.all|) !in t.all
  {
  }

  /** Adding a fault that has not been seen, at position i, keeps the
      invariant. */
  lemma AddFaultConsistent(t: Tally, fault: Label, i: nat, upTo: nat)
    requires Consistent(t, upTo) && 1 <= i <= upTo
    requires fault !in t.all
    requires fault.UnknownFault? ==> fault.index == |t.all|
    ensures Consistent(Tally(t.all + {fault}, t.detected + {fault}, t.positions + [(fault, i)]), upTo)
  {
    var t' := Tally(t.all + {fault}, t.detected + {fault}, t.positions + [(fault, i)]);
    var n := |t.positions|;
    LabelsOfAppend(t.positions, (fault, i));
    assert |t'.all| == |t.all| + 1;
    forall j, l | 0 <= j < l < |t'.positions|
      ensures t'.positions[j].0 != t'.positions[l].0
    {
      assert t'.positions[j] == t.positions[j];
      if l == n {
        assert t.positions[j].0 in LabelsOf(t.positions);
      } else {
        assert t'.positions[l] == t.positions[l];
      }
    }
    forall j | 0 <= j < |t'.positions|
      ensures 1 <= t'.positions[j].1 <= upTo
    {
      if j < n {
        assert t'.positions[j] == t.positions[j];
      }
    }
  }

  /** One error line keeps the invariant and adds at most one fault, which
      is recorded at position i. */
  lemma RecordLineConsistent(t: Tally, test: PrioritizedTest, stdout: string, i: nat, upTo: nat)
    requires Consistent(t, upTo) && 1 <= i <= upTo
    ensures var t' := RecordLine(t, test, stdout, i);
            && Consistent(t', upTo)
            && t.positions <= t'.positions
            && (forall j :: |t.positions| <= j < |t'.positions| ==> t'.positions[j].1 == i)
  {
    var fault := Classify(test, stdout, |t.all|);
    if fault !in t.detected {
      AddFaultConsistent(t, fault, i, upTo);
    }
  }

  lemma {:induction false} RecordLinesConsistent(t: Tally, test: PrioritizedTest, stdout: string, i: nat,
                                                 lines: seq<string>, upTo: nat)
    requires Consistent(t, upTo) && 1 <= i <= upTo
    ensures var t' := RecordLines(t, test, stdout, i, lines);
            && Consistent(t', upTo)
            && t.positions <= t'.positions
            && (forall j :: |t.positions| <= j < |t'.positions| ==> t'.positions[j].1 == i)
    decreases |lines|
  {
    if |lines| > 0 {
      var mid := RecordLine(t, test, stdout, i);
      RecordLineConsistent(t, test, stdout, i, upTo);
      RecordLinesConsistent(mid, test, stdout, i, lines[1..], upTo);
    }
  }

  lemma ConsistentWeaken(t: Tally, upTo: nat, more: nat)
    requires Consistent(t, upTo) && upTo <= more
    ensures Consistent(t, more)
  {
  }

  /** The evaluator's invariant holds after every prefix of the run, and
      later tests only append to the recorded positions. */
  lemma {:induction false} RunConsistent(executions: seq<Execution>)
    ensures Consistent(Run(executions), |executions|)
    decreases |executions|
  {
    if |executions| > 0 {
      var n := |executions|;
      var before := Run(executions[..n - 1]);
      RunConsistent(executions[..n - 1]);
      ConsistentWeaken(before, n - 1, n);
      var e := executions[n - 1];
      if e.outcome.failed {
        RecordLinesConsistent(before, e.test, e.outcome.stdout, n, ErrorLines(e.outcome.stderr), n);
      }
    }
  }

  /** Positions are recorded only once: the positions after a prefix of the
      run are a prefix of the final positions, and every later entry lies
      beyond that prefix. */
  lemma {:induction false} RunExtends(executions: seq<Execution>, k: nat)
    requires k <= |executions|
    ensures var p := Run(executions[..k]).positions;
            var q := Run(executions).positions;
            && p <= q
            && forall j :: |p| <= j < |q| ==> q[j].1 > k
    decreases |executions| - k
  {
    var n := |executions|;
    if k == n {
      assert executions[..k] == executions;
    } else {
      var shorter := executions[..n - 1];
      assert shorter[..k] == executions[..k];
      RunExtends(shorter, k);
      var before := Run(shorter);
      RunConsistent(shorter);
      ConsistentWeaken(before, n - 1, n);
      var e := executions[n - 1];
      if e.outcome.failed {
        RecordLinesConsistent(before, e.test, e.outcome.stdout, n, ErrorLines(e.outcome.stderr), n);
      }
    }
  }

  /** A passing run, or a failing run none of whose stderr lines mentions
      ERROR or FAILED, contributes no fault. */
  lemma QuietRunAddsNothing(t: Tally, e: Execution, i: nat)
    requires !e.outcome.failed
          || forall l :: l in Split(e.outcome.stderr, "\n") ==> !IsErrorLine(l)
    ensures RecordTest(t, e, i) == t
  {
    if e.outcome.failed {
      NothingKept(Split(e.outcome.stderr, "\n"));
    }
  }

  lemma {:induction false} NothingKept(lines: seq<string>)
    requires forall l :: l in lines ==> !IsErrorLine(l)
    ensures KeepErrorLines(lines) == []
  {
    if |lines| > 0 {
      assert lines[0] in lines;
      assert forall l :: l in lines[1..] ==> l in lines;
      NothingKept(lines[1..]);
    }
  }

  /** In the unknown branch every error line is a new fault, all recorded at
      the same position. */
  lemma {:induction false} UnknownLinesAreSeparateFaults(t: Tally, test: PrioritizedTest, stdout: string, i: nat,
                                                         lines: seq<string>, upTo: nat)
    requires Consistent(t, upTo) && 1 <= i <= upTo
    requires !Contains(stdout, "ZeroDivisionError") && !Contains(stdout, "AssertionError")
    ensures var t' := RecordLines(t, test, stdout, i, lines);
            && |t'.all| == |t.all| + |lines|
            && |t'.positions| == |t.positions| + |lines|
    decreases |lines|
  {
    if |lines| > 0 {
      var mid := RecordLine(t, test, stdout, i);
      UnknownLabelIsFresh(t, upTo);
      RecordLineConsistent(t, test, stdout, i, upTo);
      UnknownLinesAreSeparateFaults(mid, test, stdout, i, lines[1..], upTo);
    }
  }

  /** The returned statistics. `all_faults` is an unordered list, kept as
      a set. */
  datatype EfficiencyReport = EfficiencyReport(
    totalTests: nat,
    totalFaults: nat,
    detectedFaults: nat,
    apfd: real,
    avgPosition: real,
    testsNeededPercentage: real,
    positions: seq<(Label, nat)>,
    allFaults: set<Label>)

  /** A fault is only recorded by a test, so a run with faults has tests. */
  lemma FaultsNeedTests(executions: seq<Execution>)
    ensures |Run(executions).all| > 0 ==> |executions| > 0
  {
    var t := Run(executions);
    RunConsistent(executions);
    if |t.all| > 0 {
      assert 1 <= t.positions[0].1 <= |executions|;
    }
  }

  /** `evaluate_fault_detection_efficiency` over already-materialized runs. */
  function EvaluateFaultDetectionEfficiency(executions: seq<Execution>): (r: EfficiencyReport)
    ensures r.totalTests == |executions|
    ensures r.allFaults == Run(executions).all
    ensures r.positions == Run(executions).positions
    ensures r.totalFaults == r.detectedFaults == |r.allFaults|
    ensures r.totalFaults == 0 ==> r.apfd == 0.0 && r.avgPosition == 0.0 && r.testsNeededPercentage == 0.0
  {
    var t := Run(executions);
    var n := |executions|;
    RunConsistent(executions);
    var m := |t.all|;
    if m > 0 then
      FaultsNeedTests(executions);
      var s := SumBy(t.positions, PositionOf);
      var latest := MaxOf(PositionList(t.positions));
      EfficiencyReport(n, m, |t.detected|, Apfd(s, n, m), (s as real) / (m as real),
                       (latest as real) / (n as real) * 100.0, t.positions, t.all)
    else
      EfficiencyReport(n, 0, |t.detected|, 0.0, 0.0, 0.0, t.positions, t.all)
  }

  /** With at least one fault, the report's APFD is the formula over the
      recorded first positions and lies in [0, 1], the average position lies
      in [1, n] and the percentage of tests needed in (0, 100]. */
  lemma EfficiencyBounds(executions: seq<Execution>)
    ensures var r := EvaluateFaultDetectionEfficiency(executions);
            r.totalFaults > 0 ==>
              && 0 < |executions|
              && r.apfd == Apfd(SumBy(r.positions, PositionOf), |executions|, r.totalFaults)
              && 0.0 <= r.apfd <= 1.0
              && 1.0 <= r.avgPosition <= |executions| as real
              && 0.0 < r.testsNeededPercentage <= 100.0
  {
    var r := EvaluateFaultDetectionEfficiency(executions);
    var t := Run(executions);
    var n := |executions|;
    var m := |t.all|;
    RunConsistent(executions);
    FaultsNeedTests(executions);
    if m > 0 {
      var s := SumBy(t.positions, PositionOf);
      SumByBounds(t.positions, PositionOf, 1, n);
      assert m * n == n * m;
      ApfdBounds(s, n, m);
      assert r.apfd == Apfd(s, n, m);
      AverageBounds(s, m, n);
      var latest := MaxOf(PositionList(t.positions));
      assert 1 <= latest <= n;
      PercentageBounds(latest, n);
    }
  }
}
