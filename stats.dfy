/**
 * Specification of the statistics pass of getRaw (src/main.cpp:54-77):
 * the running sum, the minimum and maximum seeded from the first sample
 * and replaced on a strict comparison, and the average.
 */
module Stats {
  import opened Geometry
  /** A frame of n equal samples. */
  function Const(n: nat, v: int): (s: seq<int>)
    ensures |s| == n && forall i :: 0 <= i < n ==> s[i] == v
  {
    seq(n, _ => v)
  }

  /** The sum of the samples, accumulated first to last. */
  function Sum(s: seq<int>): int {
    if |s| == 0 then 0 else Sum(s[..|s| - 1]) + s[|s| - 1]
  }

  /**
   * The value `min` holds after the loop: the first sample, replaced by every
   * later sample strictly smaller than the current one.
   */
  function MinOf(s: seq<int>): int
    requires |s| >= 1
  {
    if |s| == 1 then s[0]
    else
      var m := MinOf(s[..|s| - 1]);
      if s[|s| - 1] < m then s[|s| - 1] else m
  }

  /** The value `max` holds after the loop, symmetric to MinOf. */
  function MaxOf(s: seq<int>): int
    requires |s| >= 1
  {
    if |s| == 1 then s[0]
    else
      var m := MaxOf(s[..|s| - 1]);
      if s[|s| - 1] > m then s[|s| - 1] else m
  }

  /** The minimum is a lower bound of the frame and is one of its samples (it is seeded from sample 0, not from a sentinel). */
  lemma {:induction false} MinOfIsLeast(s: seq<int>)
    requires |s| >= 1
    ensures forall k :: 0 <= k < |s| ==> MinOf(s) <= s[k]
    ensures exists k :: 0 <= k < |s| && s[k] == MinOf(s)
  {
    if |s| > 1 {
      var p := s[..|s| - 1];
      MinOfIsLeast(p);
      assert forall k :: 0 <= k < |p| ==> p[k] == s[k];
      var j :| 0 <= j < |p| && p[j] == MinOf(p);
      if s[|s| - 1] < MinOf(p) {
        assert s[|s| - 1] == MinOf(s);
      } else {
        assert s[j] == MinOf(s);
      }
    } else {
      assert s[0] == MinOf(s);
    }
  }

  /** The maximum is an upper bound of the frame and is one of its samples. */
  lemma {:induction false} MaxOfIsGreatest(s: seq<int>)
    requires |s| >= 1
    ensures forall k :: 0 <= k < |s| ==> s[k] <= MaxOf(s)
    ensures exists k :: 0 <= k < |s| && s[k] == MaxOf(s)
  {
    if |s| > 1 {
      var p := s[..|s| - 1];
      MaxOfIsGreatest(p);
      assert forall k :: 0 <= k < |p| ==> p[k] == s[k];
      var j :| 0 <= j < |p| && p[j] == MaxOf(p);
      if s[|s| - 1] > MaxOf(p) {
        assert s[|s| - 1] == MaxOf(s);
      } else {
        assert s[j] == MaxOf(s);
      }
    } else {
      assert s[0] == MaxOf(s);
    }
  }

  /** What one iteration of the statistics loop does: sample i extends the sum, the minimum and the maximum of the samples before it. */
  lemma PrefixStep(s: seq<int>, i: int)
    requires 0 <= i < |s|
    ensures Sum(s[..i + 1]) == Sum(s[..i]) + s[i]
    ensures i == 0 ==> MinOf(s[..i + 1]) == s[i] && MaxOf(s[..i + 1]) == s[i]
    ensures i > 0 ==> MinOf(s[..i + 1]) == (if s[i] < MinOf(s[..i]) then s[i] else MinOf(s[..i]))
    ensures i > 0 ==> MaxOf(s[..i + 1]) == (if s[i] > MaxOf(s[..i]) then s[i] else MaxOf(s[..i]))
  {
    assert s[..i + 1][..i] == s[..i];
  }

  /** The arithmetic mean, the sum divided by `total_pixels`, exact in the reals. */
  function Avg(s: seq<int>): real
    requires |s| == TotalPixels
  {
    Sum(s) as real / TotalPixels as real
  }

  lemma {:induction false} SumAppend(a: seq<int>, b: seq<int>)
    ensures Sum(a + b) == Sum(a) + Sum(b)
  {
    if |b| == 0 {
      assert a + b == a;
    } else {
      assert (a + b)[..|a + b| - 1] == a + b[..|b| - 1];
      SumAppend(a, b[..|b| - 1]);
    }
  }

  lemma {:induction false} SumConst(n: nat, v: int)
    ensures Sum(Const(n, v)) == n * v
  {
    if n > 0 {
      assert Const(n, v)[..n - 1] == Const(n - 1, v);
      SumConst(n - 1, v);
    }
  }

  /** Every sample between lo and hi puts the sum between |s| * lo and |s| * hi. */
  lemma {:induction false} SumBounds(s: seq<int>, lo: int, hi: int)
    requires forall k :: 0 <= k < |s| ==> lo <= s[k] <= hi
    ensures |s| * lo <= Sum(s) <= |s| * hi
  {
    if |s| > 0 {
      SumBounds(s[..|s| - 1], lo, hi);
      assert |s| * lo == (|s| - 1) * lo + lo;
      assert |s| * hi == (|s| - 1) * hi + hi;
    }
  }

  /** The average lies between the minimum and the maximum. */
  lemma AvgBetweenMinAndMax(s: seq<int>)
    requires |s| == TotalPixels
    ensures MinOf(s) as real <= Avg(s) <= MaxOf(s) as real
  {
    var lo, hi, total := MinOf(s), MaxOf(s), Sum(s);
    MinOfIsLeast(s);
    MaxOfIsGreatest(s);
    SumBounds(s, lo, hi);
    assert 768 * lo <= total <= 768 * hi;
  }

  /** For a uniform frame of value v, min = max = avg = v. */
  lemma UniformStats(v: int)
    ensures MinOf(Const(TotalPixels, v)) == v && MaxOf(Const(TotalPixels, v)) == v
    ensures Avg(Const(TotalPixels, v)) == v as real
  {
    var s := Const(TotalPixels, v);
    MinOfIsLeast(s);
    MaxOfIsGreatest(s);
    SumConst(TotalPixels, v);
  }
}
