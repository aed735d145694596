/**
 * The zero-bias arithmetic of `Bridge.connect_mario`
 * (bridge/mario_bridge.py): the bias of an axis is `sum(xs) / len(xs)` over
 * the EMA values polled during calibration.
 */
module Calibration {

  /** `sum(s)`, adding left to right. */
  function Sum(s: seq<real>): (r: real)
    ensures s == [] ==> r == 0.0
    ensures |s| == 1 ==> r == s[0]
    decreases |s|
  {
    if s == [] then 0.0 else Sum(s[..|s| - 1]) + s[|s| - 1]
  }

  /** `sum(s) / len(s)`. */
  function Mean(s: seq<real>): (m: real)
    requires |s| > 0
    ensures m * (|s| as real) == Sum(s)
    ensures |s| == 1 ==> m == s[0]
  {
    Sum(s) / (|s| as real)
  }

  /** Appending one value adds it to the sum. */
  lemma SumAppend(s: seq<real>, x: real)
    ensures Sum(s + [x]) == Sum(s) + x
  {
    assert (s + [x])[..|s|] == s;
  }

  /** The sum of values in [lo, hi] lies between `|s| * lo` and `|s| * hi`. */
  lemma {:induction false} SumBounds(s: seq<real>, lo: real, hi: real)
    requires forall i :: 0 <= i < |s| ==> lo <= s[i] <= hi
    ensures (|s| as real) * lo <= Sum(s) <= (|s| as real) * hi
  {
    if s != [] {
      var p := s[..|s| - 1];
      assert forall i :: 0 <= i < |p| ==> p[i] == s[i];
      SumBounds(p, lo, hi);
      SuccessorTimes(|p|, lo);
      SuccessorTimes(|p|, hi);
    }
  }

  /** `(n + 1) * x == n * x + x`. */
  lemma SuccessorTimes(n: nat, x: real)
    ensures ((n + 1) as real) * x == (n as real) * x + x
  {
  }

  /** The mean of values in [lo, hi] lies in [lo, hi]. */
  lemma MeanBounds(s: seq<real>, lo: real, hi: real)
    requires |s| > 0
    requires forall i :: 0 <= i < |s| ==> lo <= s[i] <= hi
    ensures lo <= Mean(s) <= hi
  {
    SumBounds(s, lo, hi);
    QuotientBounds(Mean(s), Sum(s), |s| as real, lo, hi);
  }

  /** A quotient `m = total / n` of a total within `[n * lo, n * hi]` lies in `[lo, hi]`. */
  lemma QuotientBounds(m: real, total: real, n: real, lo: real, hi: real)
    requires 0.0 < n
    requires m * n == total
    requires n * lo <= total <= n * hi
    ensures lo <= m <= hi
  {
    assert (m - lo) * n >= 0.0;
    assert (hi - m) * n >= 0.0;
  }

  /** The sum of `|s|` copies of `c` is `|s| * c`. */
  lemma {:induction false} SumConstant(s: seq<real>, c: real)
    requires forall i :: 0 <= i < |s| ==> s[i] == c
    ensures Sum(s) == (|s| as real) * c
  {
    if s != [] {
      var p := s[..|s| - 1];
      assert forall i :: 0 <= i < |p| ==> p[i] == s[i];
      SumConstant(p, c);
      SuccessorTimes(|p|, c);
    }
  }

  /** Samples that all equal `c` calibrate to exactly `c`. */
  lemma MeanConstant(s: seq<real>, c: real)
    requires |s| > 0
    requires forall i :: 0 <= i < |s| ==> s[i] == c
    ensures Mean(s) == c
  {
    SumConstant(s, c);
  }
}
