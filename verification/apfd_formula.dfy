/** The APFD formula shared by the three evaluators:
      APFD = 1 - (TF_1 + ... + TF_m) / (n * m) + 1 / (2 * n)
    where TF_i is the 1-based position of the first test revealing fault i,
    n the number of tests and m the number of faults, together with the
    average position and the percentage of tests needed that accompany it.
    All divisions are Python true divisions, modelled exactly with `real`. */
module ApfdFormula {
  import opened Common

  function Apfd(sumPositions: int, n: nat, m: nat): real
    requires n > 0 && m > 0
  {
    1.0 - (sumPositions as real) / ((n * m) as real) + 1.0 / ((2 * n) as real)
  }

  lemma DivisionBelowOne(a: real, b: real)
    requires 0.0 < b && a <= b
    ensures a / b <= 1.0
  {
  }

  lemma DivideMonotone(a: real, b: real, c: real)
    requires 0.0 < c && a <= b
    ensures a / c <= b / c
  {
  }

  /** When every position lies in 1..n, APFD lies in [1/(2n), 1 - 1/(2n)],
      hence in [0, 1]. */
  lemma ApfdBounds(sumPositions: int, n: nat, m: nat)
    requires n > 0 && m > 0
    requires m <= sumPositions <= n * m
    ensures 1.0 / ((2 * n) as real) <= Apfd(sumPositions, n, m) <= 1.0 - 1.0 / ((2 * n) as real)
    ensures 0.0 <= Apfd(sumPositions, n, m) <= 1.0
  {
    var nm := (n * m) as real;
    var s := sumPositions as real;
    var half := 1.0 / ((2 * n) as real);
    assert 0.0 < nm;
    DivisionBelowOne(s, nm);
    assert (m as real) / nm == 1.0 / (n as real) by {
      assert nm == (n as real) * (m as real);
    }
    DivideMonotone(m as real, s, nm);
    assert 1.0 / (n as real) == 2.0 * half;
    assert half <= 0.5;
  }

  /** Whatever the positions, as long as they total at most n * m, APFD is
      at least 1/(2n): the lower bound needs no detection guarantee. */
  lemma ApfdLowerBound(sumPositions: int, n: nat, m: nat)
    requires n > 0 && m > 0
    requires sumPositions <= n * m
    ensures 1.0 / ((2 * n) as real) <= Apfd(sumPositions, n, m)
  {
    DivisionBelowOne(sumPositions as real, (n * m) as real);
  }

  /** Finding faults earlier never lowers APFD. */
  lemma ApfdAntitone(s1: int, s2: int, n: nat, m: nat)
    requires n > 0 && m > 0
    requires s1 <= s2
    ensures Apfd(s2, n, m) <= Apfd(s1, n, m)
  {
    var nm := (n * m) as real;
    assert (s1 as real) / nm <= (s2 as real) / nm;
  }

  /** The share of tests run before the last first detection, in percent. */
  lemma PercentageBounds(mx: nat, n: nat)
    requires 1 <= mx <= n
    ensures 0.0 < ((mx as real) / (n as real)) * 100.0 <= 100.0
  {
    DivisionBelowOne(mx as real, n as real);
  }

  /** The average first-detection position, S / m, lies in [1, n]. */
  lemma AverageBounds(s: int, m: nat, n: nat)
    requires 0 < m && m <= s <= n * m
    ensures 1.0 <= (s as real) / (m as real) <= n as real
  {
    assert (n * m) as real == (n as real) * (m as real);
    DivideBounds(s as real, m as real, 1.0, n as real);
  }

  /** Worked example: 4 tests, 2 faults first found at positions 2 and 4. */
  lemma ApfdExample()
    ensures Apfd(2 + 4, 4, 2) == 0.375
  {
  }
}
