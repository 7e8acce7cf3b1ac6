/** The Option type used for table cells that are never written. */
module Options {
  datatype Option<+T> = None | Some(value: T)
}

/**
 * Exact integer stand-ins for the floating-point logarithms the program calls
 * (math.log2 and math.log(x, 2)), and the minimum of a non-empty range, the
 * quantity every table cell and every query is about.
 */
module MinLog {

  /** 2^k, the program's `1 << k` and `2**k`. */
  function Pow2(k: nat): (p: nat)
    ensures p >= 1
  {
    if k == 0 then 1 else 2 * Pow2(k - 1)
  }

  lemma {:induction false} Pow2Monotone(i: nat, j: nat)
    requires i <= j
    ensures Pow2(i) <= Pow2(j)
  {
    if i < j {
      Pow2Monotone(i, j - 1);
    }
  }

  /** floor(log2 k): the exponent of the largest power of two not above k. */
  function FloorLog2(k: nat): (r: nat)
    requires k >= 1
    ensures Pow2(r) <= k < Pow2(r + 1)
  {
    if k == 1 then 0 else FloorLog2(k / 2) + 1
  }

  /** ceil(log2 k): the exponent of the smallest power of two not below k. */
  function CeilLog2(k: nat): (r: nat)
    requires k >= 1
    ensures k <= Pow2(r)
    ensures r == 0 || Pow2(r - 1) < k
  {
    if k == 1 then 0 else CeilLog2((k + 1) / 2) + 1
  }

  /** The two bounds pin the logarithms down: no other exponent satisfies them. */
  lemma FloorLog2Unique(k: nat, r: nat)
    requires k >= 1
    requires Pow2(r) <= k < Pow2(r + 1)
    ensures r == FloorLog2(k)
  {
    var f := FloorLog2(k);
    if r < f {
      Pow2Monotone(r + 1, f);
    } else if f < r {
      Pow2Monotone(f + 1, r);
    }
  }

  lemma CeilLog2Unique(k: nat, r: nat)
    requires k >= 1
    requires k <= Pow2(r) && (r == 0 || Pow2(r - 1) < k)
    ensures r == CeilLog2(k)
  {
    var c := CeilLog2(k);
    if r < c {
      Pow2Monotone(r, c - 1);
    } else if c < r {
      Pow2Monotone(c, r - 1);
    }
  }

  /** A larger length never needs a smaller power of two. */
  lemma CeilLog2Monotone(j: nat, k: nat)
    requires 1 <= j <= k
    ensures CeilLog2(j) <= CeilLog2(k)
  {
    var cj, ck := CeilLog2(j), CeilLog2(k);
    if ck < cj {
      Pow2Monotone(ck, cj - 1);
    }
  }

  /** Python's two-argument min: the first argument unless the second is smaller. */
  function Min(x: int, y: int): (m: int)
  {
    if y < x then y else x
  }

  function Max(x: int, y: int): (m: int)
  {
    if y > x then y else x
  }

  /** The minimum of a non-empty sequence, folded from the right. */
  function MinOf(s: seq<int>): (m: int)
    requires |s| >= 1
  {
    if |s| == 1 then s[0] else Min(s[0], MinOf(s[1..]))
  }

  /** MinOf is one of the elements, and below or equal to all of them. */
  lemma {:induction false} MinOfIsMinimum(s: seq<int>)
    requires |s| >= 1
    ensures MinOf(s) in s
    ensures forall i :: 0 <= i < |s| ==> MinOf(s) <= s[i]
  {
    if |s| > 1 {
      MinOfIsMinimum(s[1..]);
      assert forall i :: 1 <= i < |s| ==> s[i] == s[1..][i - 1];
    }
  }

  /** Any element that is below or equal to all the others is the minimum. */
  lemma MinOfUnique(s: seq<int>, m: int)
    requires m in s
    requires forall i :: 0 <= i < |s| ==> m <= s[i]
    ensures MinOf(s) == m
  {
    MinOfIsMinimum(s);
    var i :| 0 <= i < |s| && s[i] == MinOf(s);
  }

  /**
   * Two windows [lo, mid) and [start, hi) that lie inside [lo, hi) and
   * together cover it -- adjacent or overlapping -- determine its minimum.
   * This is why both the build and the overlapping query are right.
   */
  lemma MinOfCover(a: seq<int>, lo: nat, mid: nat, start: nat, hi: nat)
    requires lo < mid && start < hi && start <= mid && hi <= |a|
    requires lo <= start && mid <= hi
    ensures MinOf(a[lo..hi]) == Min(MinOf(a[lo..mid]), MinOf(a[start..hi]))
  {
    var left, right, whole := a[lo..mid], a[start..hi], a[lo..hi];
    var m := Min(MinOf(left), MinOf(right));
    MinOfIsMinimum(left);
    MinOfIsMinimum(right);
    var i :| 0 <= i < |left| && left[i] == MinOf(left);
    var j :| 0 <= j < |right| && right[j] == MinOf(right);
    assert whole[i] == left[i];
    assert whole[start - lo + j] == right[j];
    forall t | 0 <= t < |whole|
      ensures m <= whole[t]
    {
      if lo + t < mid {
        assert whole[t] == left[t];
      } else {
        assert whole[t] == right[lo + t - start];
      }
    }
    MinOfUnique(whole, m);
  }

  /** A one-element range is its own minimum. */
  lemma MinOfSingle(a: seq<int>, i: nat)
    requires i < |a|
    ensures MinOf(a[i..i + 1]) == a[i]
  {
    assert a[i..i + 1] == [a[i]];
  }
}
