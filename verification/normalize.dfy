/**
 Normalisation of a swept magnitude, mag / np.max(mag), as every filter plot
 does before drawing.
 */
module Normalization {
  import opened Reals

  /** np.max: the largest element of a nonempty sequence. */
  function SeqMax(xs: seq<real>): (m: real)
    requires |xs| > 0
    ensures m in xs
    ensures forall i :: 0 <= i < |xs| ==> xs[i] <= m
    decreases |xs|
  {
    if |xs| == 1 then xs[0]
    else
      var rest := SeqMax(xs[1..]);
      assert forall i :: 1 <= i < |xs| ==> xs[i] == xs[1..][i - 1];
      if xs[0] >= rest then xs[0] else rest
  }

  /** Every element divided by the maximum. */
  function Normalize(xs: seq<real>): (ys: seq<real>)
    requires |xs| > 0 && SeqMax(xs) != 0.0
    ensures |ys| == |xs|
    ensures forall i :: 0 <= i < |xs| ==> ys[i] == Scale(xs[i], SeqMax(xs))
  {
    var m := SeqMax(xs);
    seq(|xs|, i requires 0 <= i < |xs| => Scale(xs[i], m))
  }

  /** x / m, stated by what it undoes. */
  function Scale(x: real, m: real): (y: real)
    requires m != 0.0
    ensures y * m == x
  {
    DivMul(x, m);
    x / m
  }

  predicate NonNegative(xs: seq<real>) {
    forall i :: 0 <= i < |xs| ==> xs[i] >= 0.0
  }

  /**
   Normalised non-negative values lie in [0, 1], the maximum lands exactly on
   1, and nothing else does unless it ties with the maximum.
   */
  lemma NormalizedRange(xs: seq<real>)
    requires |xs| > 0 && NonNegative(xs) && SeqMax(xs) > 0.0
    ensures forall i :: 0 <= i < |xs| ==> 0.0 <= Normalize(xs)[i] <= 1.0
    ensures forall i :: 0 <= i < |xs| ==> (Normalize(xs)[i] == 1.0 <==> xs[i] == SeqMax(xs))
    ensures exists i :: 0 <= i < |xs| && Normalize(xs)[i] == 1.0
    ensures SeqMax(Normalize(xs)) == 1.0
  {
    var m := SeqMax(xs);
    var ys := Normalize(xs);
    forall i | 0 <= i < |xs|
      ensures 0.0 <= ys[i] <= 1.0
      ensures ys[i] == 1.0 <==> xs[i] == m
    {
      ScaleBelow(xs[i], m);
    }
    var k :| 0 <= k < |xs| && xs[k] == m;
    MaxAttained(ys, k);
  }

  /**
   When the k-th sample is a positive peak, normalisation maps it to exactly 1
   and every sample into [0, 1].
   */
  lemma NormalizedAtPeak(xs: seq<real>, k: int)
    requires NonNegative(xs) && 0 <= k < |xs| && xs[k] > 0.0
    requires forall i :: 0 <= i < |xs| ==> xs[i] <= xs[k]
    ensures SeqMax(xs) == xs[k]
    ensures forall i :: 0 <= i < |xs| ==> 0.0 <= Normalize(xs)[i] <= 1.0
    ensures Normalize(xs)[k] == 1.0
  {
    MaxAttained(xs, k);
    NormalizedRange(xs);
  }

  /** An element that bounds all others is the maximum. */
  lemma MaxAttained(ys: seq<real>, k: int)
    requires 0 <= k < |ys|
    requires forall i :: 0 <= i < |ys| ==> ys[i] <= ys[k]
    ensures SeqMax(ys) == ys[k]
  {
  }

  /** x / m for 0 <= x <= m lies in [0, 1], and equals 1 exactly when x = m. */
  lemma ScaleBelow(x: real, m: real)
    requires m > 0.0 && 0.0 <= x <= m
    ensures 0.0 <= Scale(x, m) <= 1.0
    ensures Scale(x, m) == 1.0 <==> x == m
  {
    var y := Scale(x, m);
    if y < 0.0 {
      MulPos(-y, m);
    }
    if y > 1.0 {
      MulPos(y - 1.0, m);
    }
    if y < 1.0 && x == m {
      MulPos(1.0 - y, m);
    }
  }

  /** Element-wise squares. */
  function Squares(xs: seq<real>): (ys: seq<real>)
    ensures |ys| == |xs|
    ensures forall i :: 0 <= i < |xs| ==> ys[i] == Sq(xs[i])
  {
    seq(|xs|, i requires 0 <= i < |xs| => Sq(xs[i]))
  }

  /** Squaring commutes with taking the maximum of non-negative values. */
  lemma {:induction false} MaxOfSquares(xs: seq<real>)
    requires |xs| > 0 && NonNegative(xs)
    ensures SeqMax(Squares(xs)) == Sq(SeqMax(xs))
    decreases |xs|
  {
    if |xs| > 1 {
      var tail := xs[1..];
      assert Squares(xs)[1..] == Squares(tail);
      MaxOfSquares(tail);
      SqLess(xs[0], SeqMax(tail));
    }
  }

  /**
   Normalising squared magnitudes gives the squares of the normalised
   magnitudes, so statements about |H|^2 carry over to the plotted |H|.
   */
  lemma NormalizeSquares(xs: seq<real>)
    requires |xs| > 0 && NonNegative(xs) && SeqMax(xs) > 0.0
    ensures SeqMax(Squares(xs)) > 0.0
    ensures Normalize(Squares(xs)) == Squares(Normalize(xs))
  {
    var m := SeqMax(xs);
    MaxOfSquares(xs);
    SqPos(m);
    forall i | 0 <= i < |xs|
      ensures Normalize(Squares(xs))[i] == Squares(Normalize(xs))[i]
    {
      ScaleSq(xs[i], m);
    }
  }

  /** Scaling commutes with squaring. */
  lemma ScaleSq(x: real, m: real)
    requires m != 0.0
    ensures Sq(m) != 0.0
    ensures Scale(Sq(x), Sq(m)) == Sq(Scale(x, m))
  {
    SqPos(m);
    var y := Scale(x, m);
    SqMul(y, m);
    CancelFactor(Scale(Sq(x), Sq(m)), Sq(y), Sq(m));
  }

  /** A non-increasing sequence peaks at its first element. */
  lemma {:induction false} MaxOfNonIncreasing(xs: seq<real>)
    requires |xs| > 0
    requires forall i, j :: 0 <= i < j < |xs| ==> xs[j] <= xs[i]
    ensures SeqMax(xs) == xs[0]
  {
    assert forall i :: 0 <= i < |xs| ==> xs[i] <= xs[0] by {
      forall i | 0 < i < |xs|
        ensures xs[i] <= xs[0]
      {
      }
    }
  }
}
