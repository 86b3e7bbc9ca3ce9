/**
 The block exchange at the heart of argument permutation (src/replib/getopt_long.c):
 two adjacent segments of an array trade places by repeatedly swapping the shorter one
 with the far end of the longer one.
 */
module Exchange {

  /** The sequence with the adjacent blocks s[lo..mid] and s[mid..hi] in the other order. */
  function Rotated<T>(s: seq<T>, lo: nat, mid: nat, hi: nat): (r: seq<T>)
    requires lo <= mid <= hi <= |s|
    ensures |r| == |s|
  {
    s[..lo] + s[mid..hi] + s[lo..mid] + s[hi..]
  }

  /** The sequence with the equally long, disjoint blocks at p and q traded. */
  ghost predicate BlocksSwapped<T>(s: seq<T>, r: seq<T>, p: nat, q: nat, len: nat)
    requires p + len <= q && q + len <= |s|
  {
    && |r| == |s|
    && (forall k :: p <= k < p + len ==> r[k] == s[k - p + q])
    && (forall k :: q <= k < q + len ==> r[k] == s[k - q + p])
    && (forall k :: 0 <= k < |s| && !(p <= k < p + len) && !(q <= k < q + len) ==> r[k] == s[k])
  }

  /** If the bottom block is the shorter one, swapping it with the end of the top block
      leaves a smaller exchange with the same outcome. */
  lemma {:induction false} ShortBottom<T>(s: seq<T>, r: seq<T>, lo: nat, mid: nat, hi: nat)
    requires lo <= mid <= hi <= |s| && mid - lo < hi - mid
    requires BlocksSwapped(s, r, lo, hi - (mid - lo), mid - lo)
    ensures Rotated(r, lo, mid, hi - (mid - lo)) == Rotated(s, lo, mid, hi)
  {
    var k := hi - (mid - lo);
    BottomSwapped(s, r, lo, mid, hi);
    assert s[mid..hi] == s[mid..k] + s[k..hi];
    Regroup(s[..lo], s[mid..k], s[k..hi], s[lo..mid], s[hi..]);
  }

  lemma {:induction false} BottomSwapped<T>(s: seq<T>, r: seq<T>, lo: nat, mid: nat, hi: nat)
    requires lo <= mid <= hi <= |s| && mid - lo < hi - mid
    requires BlocksSwapped(s, r, lo, hi - (mid - lo), mid - lo)
    ensures var k := hi - (mid - lo);
      && |r| == |s| && r[..lo] == s[..lo] && r[mid..k] == s[mid..k]
      && r[lo..mid] == s[k..hi] && r[k..] == s[lo..mid] + s[hi..]
  {
  }

  lemma {:induction false} Regroup<T>(a: seq<T>, b: seq<T>, c: seq<T>, d: seq<T>, e: seq<T>)
    ensures a + b + c + (d + e) == a + (b + c) + d + e
  {
  }

  /** If the top block is no longer than the bottom one, swapping it with the start of the
      bottom block leaves a smaller exchange with the same outcome. */
  lemma {:induction false} ShortTop<T>(s: seq<T>, r: seq<T>, lo: nat, mid: nat, hi: nat)
    requires lo <= mid <= hi <= |s| && hi - mid <= mid - lo
    requires BlocksSwapped(s, r, lo, mid, hi - mid)
    ensures Rotated(r, lo + (hi - mid), mid, hi) == Rotated(s, lo, mid, hi)
  {
    var len := hi - mid;
    assert r[..lo + len] == s[..lo] + s[mid..hi];
    assert r[mid..hi] == s[lo..lo + len];
    assert r[lo + len..mid] == s[lo + len..mid];
    assert r[hi..] == s[hi..];
    assert s[lo..mid] == s[lo..lo + len] + s[lo + len..mid];
  }

  lemma {:induction false} NothingToExchange<T>(s: seq<T>, lo: nat, mid: nat, hi: nat)
    requires lo <= mid <= hi <= |s| && (lo == mid || mid == hi)
    ensures Rotated(s, lo, mid, hi) == s
  {
    assert s == s[..lo] + s[lo..mid] + s[mid..hi] + s[hi..];
  }

  // ----- how many element swaps the exchange takes

  /** Swaps made on adjacent segments of lengths a and b. */
  function SwapCount(a: nat, b: nat): nat
    decreases a + b
  {
    if a == 0 || b == 0 then 0
    else if b > a then a + SwapCount(a, b - a)
    else b + SwapCount(a - b, b)
  }

  lemma {:induction false} SwapCountStep(a: nat, b: nat)
    requires 0 < a && 0 < b
    ensures SwapCount(a, b) == if b > a then a + SwapCount(a, b - a) else b + SwapCount(a - b, b)
  {
  }

  predicate IsMultiple(k: nat, d: nat, n: nat) {
    k * d == n
  }

  ghost predicate Divides(d: nat, n: nat) {
    exists k: nat :: IsMultiple(k, d, n)
  }

  lemma {:induction false} DividesSum(d: nat, m: nat, n: nat)
    requires Divides(d, m) && Divides(d, n)
    ensures Divides(d, m + n)
  {
    var j: nat :| IsMultiple(j, d, m);
    var k: nat :| IsMultiple(k, d, n);
    assert IsMultiple(j + k, d, m + n);
  }

  lemma {:induction false} FactorsOrdered(j: nat, k: nat, d: nat)
    requires 0 < d && j * d <= k * d
    ensures j <= k
  {
    assert j * d - k * d == (j - k) * d;
  }

  lemma {:induction false} DividesDifference(d: nat, m: nat, n: nat)
    requires 0 < d && m <= n && Divides(d, m) && Divides(d, n)
    ensures Divides(d, n - m)
  {
    var j: nat :| IsMultiple(j, d, m);
    var k: nat :| IsMultiple(k, d, n);
    FactorsOrdered(j, k, d);
    assert (k - j) * d == n - m;
    assert IsMultiple(k - j, d, n - m);
  }

  /** The exchange of two non-empty segments of lengths a and b takes a + b - g swaps, where
      g is the greatest common divisor of a and b. */
  lemma {:induction false} SwapCountIsLengthLessGcd(a: nat, b: nat)
    requires 0 < a && 0 < b
    ensures SwapCount(a, b) < a + b
    ensures Divides(a + b - SwapCount(a, b), a) && Divides(a + b - SwapCount(a, b), b)
    ensures forall d: nat :: 0 < d && Divides(d, a) && Divides(d, b) ==> Divides(d, a + b - SwapCount(a, b))
    decreases a + b
  {
    if a == b {
      assert SwapCount(0, b) == 0;
      assert IsMultiple(1, a, a);
    } else if b > a {
      SwapCountIsLengthLessGcd(a, b - a);
      DividesSum(a + b - SwapCount(a, b), a, b - a);
      forall d: nat | 0 < d && Divides(d, a) && Divides(d, b) ensures Divides(d, b - a) {
        DividesDifference(d, a, b);
      }
    } else {
      SwapCountIsLengthLessGcd(a - b, b);
      DividesSum(a + b - SwapCount(a, b), a - b, b);
      forall d: nat | 0 < d && Divides(d, a) && Divides(d, b) ensures Divides(d, a - b) {
        DividesDifference(d, b, a);
      }
    }
  }

  // ----- the array algorithm

  method SwapBlocks<T>(a: array<T>, p: nat, q: nat, len: nat) returns (ghost swaps: nat)
    requires p + len <= q && q + len <= a.Length
    modifies a
    ensures BlocksSwapped(old(a[..]), a[..], p, q, len)
    ensures swaps == len
  {
    swaps := 0;
    for i := 0 to len
      invariant swaps == i
      invariant BlocksSwapped(old(a[..]), a[..], p, q, i)
    {
      var tem := a[p + i];
      a[p + i] := a[q + i];
      a[q + i] := tem;
      swaps := swaps + 1;
    }
  }

  /** One round of the exchange: swaps the shorter segment with the far end of the longer one
      and returns the bounds of what is left to exchange. */
  method Round<T>(a: array<T>, bottom: nat, middle: nat, top: nat) returns (bottom': nat, top': nat, ghost swaps: nat)
    requires bottom < middle < top <= a.Length
    modifies a
    ensures bottom <= bottom' <= middle <= top' <= top && top' - bottom' < top - bottom
    ensures Rotated(a[..], bottom', middle, top') == Rotated(old(a[..]), bottom, middle, top)
    ensures swaps + SwapCount(middle - bottom', top' - middle) == SwapCount(middle - bottom, top - middle)
  {
    hide Rotated, BlocksSwapped, SwapCount;
    SwapCountStep(middle - bottom, top - middle);
    bottom', top' := bottom, top;
    if top - middle > middle - bottom {
      var len := middle - bottom;
      swaps := SwapBlocks(a, bottom, top - (middle - bottom), len);
      ShortBottom(old(a[..]), a[..], bottom, middle, top);
      top' := top - len;
    } else {
      var len := top - middle;
      swaps := SwapBlocks(a, bottom, middle, len);
      ShortTop(old(a[..]), a[..], bottom, middle, top);
      bottom' := bottom + len;
    }
  }

  /** Trades a[lo..mid] and a[mid..hi] in place, and counts the element swaps. */
  method ExchangeBlocks<T>(a: array<T>, lo: nat, mid: nat, hi: nat) returns (ghost swaps: nat)
    requires lo <= mid <= hi <= a.Length
    modifies a
    ensures a[..] == Rotated(old(a[..]), lo, mid, hi)
    ensures swaps == SwapCount(mid - lo, hi - mid)
  {
    swaps := 0;
    var bottom: nat, top: nat := lo, hi;
    ghost var target := Rotated(a[..], lo, mid, hi);
    while top > mid && mid > bottom
      invariant bottom <= mid <= top <= a.Length
      invariant Rotated(a[..], bottom, mid, top) == target
      invariant swaps + SwapCount(mid - bottom, top - mid) == SwapCount(mid - lo, hi - mid)
      decreases top - bottom
    {
      ghost var n;
      bottom, top, n := Round(a, bottom, mid, top);
      swaps := swaps + n;
    }
    NothingToExchange(a[..], bottom, mid, top);
  }
}
