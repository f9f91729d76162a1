/**
 * Samples, C integer arithmetic, and the specification functions over
 * sample windows that the filters are proved against.
 */
module Samples {

  /** An 8-bit unsigned sensor reading (`uint8_t`). */
  type u8 = x: int | 0 <= x < 256

  /** A 16-bit unsigned accumulator (`uint16_t`). */
  type u16 = x: int | 0 <= x < 65536

  /** The spike threshold of the limiter filters (`#define LIMIT 10`). */
  const LIMIT: int := 10

  function Abs(x: int): nat { if x < 0 then -x else x }

  /**
   * C's `/` on `int`: the quotient is truncated toward zero
   * (ISO/IEC 9899:2011 section 6.5.5), unlike Dafny's Euclidean `/`.
   */
  function CDiv(x: int, y: int): (q: int)
    requires y != 0
    ensures x >= 0 && y > 0 ==> q == x / y
  {
    if (x < 0) == (y < 0) then Abs(x) / Abs(y) else -(Abs(x) / Abs(y))
  }

  /** Conversion of an `int` to `uint8_t`: reduction modulo 2^8 (section 6.3.1.3). */
  function ToU8(x: int): (r: u8)
    ensures 0 <= x < 256 ==> r == x
  {
    x % 256
  }

  /** Conversion of an `int` to `uint16_t`: reduction modulo 2^16 (section 6.3.1.3). */
  function ToU16(x: int): (r: u16)
    ensures 0 <= x < 65536 ==> r == x
  {
    x % 65536
  }

  /**
   * Division rounded half up, as every filter writes it: `(x + d/2) / d`.
   * Both operands are non-negative there, so C's `/` and Dafny's agree.
   */
  function RoundedDiv(x: nat, d: nat): nat
    requires d > 0
  {
    (x + d / 2) / d
  }

  // ---------------------------------------------------------------------
  // Window statistics

  /** The sum of the samples of a window. */
  function Sum(s: seq<u8>): (r: nat)
    ensures r <= 255 * |s|
  {
    if s == [] then 0 else Sum(s[..|s| - 1]) + s[|s| - 1]
  }

  /** The largest sample of a non-empty window. */
  function Max(s: seq<u8>): u8
    requires |s| > 0
  {
    if |s| == 1 then s[0]
    else
      var p := Max(s[..|s| - 1]);
      if s[|s| - 1] > p then s[|s| - 1] else p
  }

  /** The smallest sample of a non-empty window. */
  function Min(s: seq<u8>): u8
    requires |s| > 0
  {
    if |s| == 1 then s[0]
    else
      var p := Min(s[..|s| - 1]);
      if s[|s| - 1] < p then s[|s| - 1] else p
  }

  /**
   * Max and Min are samples of the window, and every sample lies between
   * them.
   */
  lemma {:induction false} Extremes(s: seq<u8>)
    requires |s| > 0
    ensures Max(s) in s && Min(s) in s
    ensures forall k :: 0 <= k < |s| ==> Min(s) <= s[k] <= Max(s)
  {
    if |s| > 1 {
      var n := |s| - 1;
      Extremes(s[..n]);
      assert s == s[..n] + [s[n]];
    }
  }

  /** The window is in ascending order. */
  predicate Sorted(s: seq<u8>) {
    forall i, j :: 0 <= i < j < |s| ==> s[i] <= s[j]
  }

  /** Every sample of the window equals `v`. */
  predicate Constant(s: seq<u8>, v: u8) {
    forall k :: 0 <= k < |s| ==> s[k] == v
  }

  /**
   * The mean of a non-empty window, rounded half up with integer division:
   * `(sum + len/2) / len`.
   */
  function RoundedMean(s: seq<u8>): (r: u8)
    requires |s| > 0
    ensures Min(s) <= r <= Max(s)
  {
    Extremes(s);
    SumBetween(s, Min(s), Max(s));
    RoundedDivBetween(Sum(s), |s|, Min(s), Max(s));
    RoundedDiv(Sum(s), |s|)
  }

  /**
   * The mean of a window of at least three samples after one largest and
   * one smallest sample are discarded, rounded half up.
   */
  function TrimmedMean(s: seq<u8>): (r: u8)
    requires |s| >= 3
    ensures Min(s) <= r <= Max(s)
  {
    TrimmedSumBetween(s);
    MulLeft(0, Min(s), |s| - 2);
    var middle := Sum(s) - Max(s) - Min(s);
    RoundedDivBetween(middle, |s| - 2, Min(s), Max(s));
    RoundedDiv(middle, |s| - 2)
  }

  /**
   * The tail of glide_middle_average_value_filter on the sum, maximum and
   * minimum of a window of three or more samples: subtracting the two
   * extremes from the `uint16_t` sum cannot go below zero, nothing wraps,
   * and the rounded division by `len - 2` converted to `uint8_t` is the
   * trimmed mean.
   */
  lemma TrimmedMeanInC(s: seq<u8>, total: int, max: int, min: int, r: int)
    requires 3 <= |s| <= 255
    requires total == Sum(s) && max == Max(s) && min == Min(s)
    requires r == ToU8(CDiv(ToU16(total - max - min) + CDiv(|s| - 2, 2), |s| - 2))
    ensures 0 <= total - max - min < 65536
    ensures r == TrimmedMean(s)
  {
    var x := total - max - min;
    assert 0 <= x by {
      TrimmedSumBetween(s);
      MulLeft(0, Min(s), |s| - 2);
    }
    RoundedDivInC(x, |s| - 2);
    var m := TrimmedMean(s);
    assert m == RoundedDiv(x, |s| - 2);
    assert ToU8(m) == m;
  }

  /**
   * The result expression of middle_average_value_filter on the sum of the
   * middle part of the sorted window `t`: it is the rounded mean of that
   * part, and the trimmed mean of the window `s` before sorting.
   */
  lemma SortedTrimInC(s: seq<u8>, t: seq<u8>, sum: int, r: int)
    requires 3 <= |s| <= 255 && |t| == |s| && Sorted(t) && multiset(s) == multiset(t)
    requires sum == Sum(t[1..|t| - 1])
    requires r == ToU8(CDiv(sum + CDiv(|t| - 2, 2), |t| - 2))
    ensures r == RoundedDiv(sum, |t| - 2) == TrimmedMean(s)
  {
    SortedTrimMean(s, t);
    RoundedDivInC(sum, |t| - 2);
    var m := TrimmedMean(s);
    assert ToU16(sum) == sum;
    assert ToU8(m) == m;
  }

  /**
   * The same expression on a window of fewer than two samples: the sum is
   * 0, the divisor `len - 2` is negative, and the truncating division
   * gives 0.
   */
  lemma ShortTrimInC(n: int, sum: int, r: int)
    requires 0 <= n < 2 && sum == 0
    requires r == ToU8(CDiv(sum + CDiv(n - 2, 2), n - 2))
    ensures r == 0
  {
    if n == 0 {
      assert CDiv(-2, 2) == -1 && CDiv(-1, -2) == 0;
    } else {
      assert CDiv(-1, 2) == 0 && CDiv(0, -1) == 0;
    }
  }

  /** Dividing `m >= 2` by `n >= 2` with rounding gives less than `m`. */
  lemma RoundedDivShrinks(m: nat, n: nat)
    requires m >= 2 && n >= 2
    ensures RoundedDiv(m, n) < m
  {
    var x := m + n / 2;
    MulLeft(2, m, n - 1);
    MulSucc(m, n - 1);
    assert x < m * n;
    var q := x / n;
    assert q * n <= x;
    if q >= m {
      MulLeft(m, q, n);
      assert false;
    }
  }

  /** C's rounded division of a non-negative `uint16_t` sum by `d > 0` is `RoundedDiv`. */
  lemma RoundedDivInC(x: nat, d: nat)
    requires x < 65536 && d > 0
    ensures CDiv(ToU16(x) + CDiv(d, 2), d) == RoundedDiv(x, d)
  {
    assert ToU16(x) == x;
    assert CDiv(d, 2) == d / 2;
  }

  /**
   * The same tail on a window of one sample `v`: the difference `v - v - v`
   * wraps in the `uint16_t`, the divisor `len - 2` is -1, and the
   * conversion to `uint8_t` gives back `v`.
   */
  lemma SingletonTrimInC(s: seq<u8>, total: int, max: int, min: int, r: int)
    requires |s| == 1
    requires total == Sum(s) && max == Max(s) && min == Min(s)
    requires r == ToU8(CDiv(ToU16(total - max - min) + CDiv(|s| - 2, 2), |s| - 2))
    ensures r == s[0]
  {
    var v := s[0];
    assert total == v && max == v && min == v by {
      assert s[..0] == [];
    }
    var y := ToU16(total - max - min);
    assert CDiv(-1, 2) == 0;
    if v == 0 {
      assert y == 0;
    } else {
      assert y == 65536 - v as int;
      assert CDiv(y, -1) == v as int - 65536;
    }
  }

  /** The window after one sliding step: the oldest sample leaves, `x` enters as newest. */
  function Slide(s: seq<u8>, x: u8): (r: seq<u8>)
    requires |s| > 0
    ensures |r| == |s| && r[|r| - 1] == x
    ensures forall k :: 0 <= k < |s| - 1 ==> r[k] == s[k + 1]
  {
    seq(|s|, k requires 0 <= k < |s| => if k < |s| - 1 then s[k + 1] else x)
  }

  /** The window after one sliding step per element of `xs`, in order. */
  function SlideAll(s: seq<u8>, xs: seq<u8>): (r: seq<u8>)
    requires |s| > 0
    ensures |r| == |s|
    decreases |xs|
  {
    if xs == [] then s else SlideAll(Slide(s, xs[0]), xs[1..])
  }

  /** `Σ s[i] * c[i]`: the weighted sum of a window. */
  function WeightedSum(s: seq<u8>, c: seq<u8>): (r: nat)
    requires |s| == |c|
  {
    if s == [] then 0
    else WeightedSum(s[..|s| - 1], c[..|c| - 1]) + (s[|s| - 1] as int) * (c[|c| - 1] as int)
  }

  // ---------------------------------------------------------------------
  // Arithmetic lemmas

  lemma MulSucc(a: int, n: int)
    ensures a * (n + 1) == a * n + a
  {
  }

  lemma MulAdd(a: int, x: int, y: int)
    ensures a * (x + y) == a * x + a * y
  {
  }

  lemma MulLeft(a: int, b: int, n: nat)
    requires a <= b
    ensures a * n <= b * n
  {
  }

  /**
   * Rounded division keeps a value between bounds: when `lo*n <= x <= hi*n`
   * then `lo <= RoundedDiv(x, n) <= hi`.
   */
  lemma RoundedDivBetween(x: nat, n: nat, lo: int, hi: int)
    requires n > 0 && lo * n <= x <= hi * n
    ensures lo <= RoundedDiv(x, n) <= hi
  {
    var q := (x + n / 2) / n;
    var rem := (x + n / 2) % n;
    assert x + n / 2 == q * n + rem && 0 <= rem < n;
    if q > hi {
      MulLeft(hi + 1, q, n);
      assert false;
    }
    if q < lo {
      MulLeft(q + 1, lo, n);
      assert false;
    }
  }

  // ---------------------------------------------------------------------
  // Lemmas about the window statistics

  /** Every sample lies in `[lo, hi]`, so the sum lies in `[lo*len, hi*len]`. */
  lemma {:induction false} SumBetween(s: seq<u8>, lo: int, hi: int)
    requires forall k :: 0 <= k < |s| ==> lo <= s[k] <= hi
    ensures lo * |s| <= Sum(s) <= hi * |s|
  {
    if s != [] {
      SumBetween(s[..|s| - 1], lo, hi);
      MulSucc(lo, |s| - 1);
      MulSucc(hi, |s| - 1);
    }
  }

  /**
   * The sum of a window without the two distinct slots `p` and `q` lies
   * between `lo*(len-2)` and `hi*(len-2)`.
   */
  lemma {:induction false} TrimBetween(s: seq<u8>, p: int, q: int, lo: int, hi: int)
    requires 0 <= p < |s| && 0 <= q < |s| && p != q
    requires forall k :: 0 <= k < |s| ==> lo <= s[k] <= hi
    ensures lo * (|s| - 2) <= Sum(s) - s[p] - s[q] <= hi * (|s| - 2)
  {
    var n := |s| - 1;
    if p == n {
      DropBetween(s[..n], q, lo, hi);
    } else if q == n {
      DropBetween(s[..n], p, lo, hi);
    } else {
      TrimBetween(s[..n], p, q, lo, hi);
      MulSucc(lo, |s| - 3);
      MulSucc(hi, |s| - 3);
    }
  }

  /** The sum of a window without slot `p` lies between `lo*(len-1)` and `hi*(len-1)`. */
  lemma {:induction false} DropBetween(s: seq<u8>, p: int, lo: int, hi: int)
    requires 0 <= p < |s|
    requires forall k :: 0 <= k < |s| ==> lo <= s[k] <= hi
    ensures lo * (|s| - 1) <= Sum(s) - s[p] <= hi * (|s| - 1)
  {
    var n := |s| - 1;
    if p == n {
      SumBetween(s[..n], lo, hi);
    } else {
      DropBetween(s[..n], p, lo, hi);
      MulSucc(lo, |s| - 2);
      MulSucc(hi, |s| - 2);
    }
  }

  /**
   * Discarding one largest and one smallest sample leaves a sum between
   * `min*(len-2)` and `max*(len-2)`; in particular it does not go negative.
   */
  lemma TrimmedSumBetween(s: seq<u8>)
    requires |s| >= 2
    ensures Min(s) * (|s| - 2) <= Sum(s) - Max(s) - Min(s) <= Max(s) * (|s| - 2)
  {
    Extremes(s);
    var p, q := ExtremeIndices(s);
    TrimBetween(s, p, q, Min(s), Max(s));
  }

  /**
   * Folding one more sample `x` into a running maximum and minimum: `x`
   * above the maximum replaces it and leaves the minimum alone (the minimum
   * is never above the maximum), otherwise `x` below the minimum replaces
   * it, otherwise nothing changes.
   */
  lemma ExtremesStep(s: seq<u8>, x: u8)
    requires |s| > 0
    ensures Min(s) <= Max(s)
    ensures Max(s + [x]) == if x > Max(s) then x else Max(s)
    ensures Min(s + [x]) == if x > Max(s) then Min(s) else if x < Min(s) then x else Min(s)
  {
    Extremes(s);
    assert (s + [x])[..|s|] == s;
  }

  /** Two distinct slots of a window holding its largest and its smallest sample. */
  lemma ExtremeIndices(s: seq<u8>) returns (p: int, q: int)
    requires |s| >= 2
    ensures 0 <= p < |s| && 0 <= q < |s| && p != q
    ensures s[p] == Max(s) && s[q] == Min(s)
  {
    Extremes(s);
    p :| 0 <= p < |s| && s[p] == Max(s);
    q :| 0 <= q < |s| && s[q] == Min(s);
    if q == p {
      // the maximum is the minimum, so every slot holds it
      q := if p == 0 then 1 else 0;
    }
  }

  /** The sum of a concatenation is the sum of the sums. */
  lemma {:induction false} SumConcat(a: seq<u8>, b: seq<u8>)
    ensures Sum(a + b) == Sum(a) + Sum(b)
  {
    if b != [] {
      assert (a + b)[..|a + b| - 1] == a + b[..|b| - 1];
      SumConcat(a, b[..|b| - 1]);
    } else {
      assert a + b == a;
    }
  }

  /** Taking slot `k` out of a window takes `t[k]` out of its sum and its multiset. */
  lemma SumRemove(t: seq<u8>, k: int)
    requires 0 <= k < |t|
    ensures Sum(t) == Sum(t[..k] + t[k + 1..]) + t[k]
    ensures multiset(t[..k] + t[k + 1..]) == multiset(t) - multiset{t[k]}
  {
    var x, a, b := t[k], t[..k], t[k + 1..];
    assert a + [x] == t[..k + 1];
    assert t == (a + [x]) + b by { assert t == t[..k + 1] + t[k + 1..]; }
    assert Sum(t) == Sum(a + b) + x by {
      SumConcat(a + [x], b);
      SumConcat(a, [x]);
      SumConcat(a, b);
      assert Sum([x]) == x by { assert [x][..0] == []; }
    }
    assert multiset(a + b) == multiset(t) - multiset{x} by {
      assert multiset(t) == multiset(a) + multiset{x} + multiset(b);
    }
  }

  /** Reordering a window does not change its sum. */
  lemma {:induction false} SumPermutation(s: seq<u8>, t: seq<u8>)
    requires multiset(s) == multiset(t)
    ensures Sum(s) == Sum(t)
  {
    if s == [] {
      assert t == [] by { assert |multiset(t)| == 0; }
    } else {
      var n := |s| - 1;
      var x := s[n];
      assert multiset(s[..n]) == multiset(s) - multiset{x} && x in multiset(t) by {
        assert s == s[..n] + [x];
      }
      var k :| 0 <= k < |t| && t[k] == x;
      SumRemove(t, k);
      SumPermutation(s[..n], t[..k] + t[k + 1..]);
    }
  }

  /** Reordering a window does not change its largest and smallest sample. */
  lemma ExtremesPermutation(s: seq<u8>, t: seq<u8>)
    requires |s| > 0 && |t| == |s| && multiset(s) == multiset(t)
    ensures Max(s) == Max(t) && Min(s) == Min(t)
  {
    Extremes(s);
    assert forall x :: x in s <==> x in t by {
      forall x ensures x in s <==> x in t {
        assert x in s <==> x in multiset(s);
        assert x in t <==> x in multiset(t);
      }
    }
    Extremes(t);
  }

  /**
   * One step of a running sum, maximum and minimum seeded with `x` over the
   * prefixes of `w`; the minimum is only updated when the sample does not
   * raise the maximum.
   */
  lemma GatherStep(x: u8, w: seq<u8>, i: int)
    requires 0 <= i < |w|
    ensures Sum(w[..i + 1]) == Sum(w[..i]) + w[i]
    ensures Max([x] + w[..i + 1]) == if w[i] > Max([x] + w[..i]) then w[i] else Max([x] + w[..i])
    ensures Min([x] + w[..i + 1]) ==
              if w[i] > Max([x] + w[..i]) then Min([x] + w[..i])
              else if w[i] < Min([x] + w[..i]) then w[i] else Min([x] + w[..i])
  {
    SumStep(w, i);
    assert [x] + w[..i + 1] == ([x] + w[..i]) + [w[i]];
    ExtremesStep([x] + w[..i], w[i]);
  }

  /** Moving the newest sample to the front keeps the largest and smallest sample. */
  lemma RotatedExtremes(p: seq<u8>, x: u8)
    ensures Max([x] + p) == Max(p + [x]) && Min([x] + p) == Min(p + [x])
  {
    var s, t := [x] + p, p + [x];
    Extremes(s);
    Extremes(t);
    assert Max(s) in t && Min(s) in t && Max(t) in s && Min(t) in s;
  }

  /** In a sorted window the first sample is the smallest and the last the largest. */
  lemma SortedEnds(t: seq<u8>)
    requires |t| > 0 && Sorted(t)
    ensures t[0] == Min(t) && t[|t| - 1] == Max(t)
  {
    Extremes(t);
  }

  /**
   * Sorting and then dropping the two end slots removes exactly one
   * largest and one smallest sample: for every sorted reordering `t` of
   * `s`, `Σ t[1..len-1] == Σ s - max s - min s`.
   */
  lemma SortedTrimSum(s: seq<u8>, t: seq<u8>)
    requires |s| >= 2 && Sorted(t) && multiset(s) == multiset(t)
    ensures |t| == |s|
    ensures Sum(t[1..|t| - 1]) == Sum(s) - Max(s) - Min(s)
  {
    assert |t| == |s| by { assert |multiset(t)| == |t| && |multiset(s)| == |s|; }
    SumPermutation(s, t);
    ExtremesPermutation(s, t);
    SortedEnds(t);
    SumEnds(t);
  }

  /** The sum of a window of two or more is its end slots plus its middle part. */
  lemma SumEnds(t: seq<u8>)
    requires |t| >= 2
    ensures Sum(t) == t[0] + Sum(t[1..|t| - 1]) + t[|t| - 1]
  {
    SplitEnds(t);
    SumSplit(t[0], t[1..|t| - 1], t[|t| - 1]);
  }

  /** A window of two or more is its first slot, its middle part and its last slot. */
  lemma SplitEnds(t: seq<u8>)
    requires |t| >= 2
    ensures t == [t[0]] + t[1..|t| - 1] + [t[|t| - 1]]
  {
  }

  /** The sum of `[x] + m + [y]`. */
  lemma SumSplit(x: u8, m: seq<u8>, y: u8)
    ensures Sum([x] + m + [y]) == x + Sum(m) + y
  {
    assert ([x] + m + [y])[..|m| + 1] == [x] + m;
    SumConcat([x], m);
    assert Sum([x]) == x by { assert [x][..0] == []; }
  }

  /**
   * The sort-then-trim mean (middle_average_value_filter) and the
   * min/max-trim mean (glide_middle_average_value_filter) agree.
   */
  lemma SortedTrimMean(s: seq<u8>, t: seq<u8>)
    requires |s| >= 3 && Sorted(t) && multiset(s) == multiset(t)
    ensures |t| == |s|
    ensures RoundedDiv(Sum(t[1..|t| - 1]), |t| - 2) == TrimmedMean(s)
  {
    SortedTrimSum(s, t);
  }

  /** Every reordering of a constant window is that constant window. */
  lemma ConstantPermutation(s: seq<u8>, t: seq<u8>, v: u8)
    requires Constant(s, v) && multiset(s) == multiset(t)
    ensures Constant(t, v)
  {
    forall k | 0 <= k < |t| ensures t[k] == v {
      assert t[k] in multiset(t);
      assert t[k] in s;
    }
  }

  /** A window of copies of `v` averages to `v`. */
  lemma ConstantRoundedMean(s: seq<u8>, v: u8)
    requires |s| > 0 && Constant(s, v)
    ensures RoundedMean(s) == v
  {
    assert Min(s) == v && Max(s) == v by { Extremes(s); assert s[0] == v; }
  }

  /** Trimming the extremes of a window of copies of `v` still averages to `v`. */
  lemma ConstantTrimmedMean(s: seq<u8>, v: u8)
    requires |s| >= 3 && Constant(s, v)
    ensures TrimmedMean(s) == v
  {
    assert Min(s) == v && Max(s) == v by { Extremes(s); assert s[0] == v; }
  }

  /**
   * After sliding in `xs` (no more samples than the window holds), the
   * window is the last `len` samples of the old window followed by `xs`:
   * its newest `|xs|` slots hold `xs` in order.
   */
  lemma {:induction false} SlideAllWindow(s: seq<u8>, xs: seq<u8>)
    requires |s| > 0 && |xs| <= |s|
    ensures SlideAll(s, xs) == (s + xs)[|xs|..]
    ensures SlideAll(s, xs)[|s| - |xs|..] == xs
    decreases |xs|
  {
    if xs != [] {
      var s' := Slide(s, xs[0]);
      SlideAllWindow(s', xs[1..]);
      assert (s' + xs[1..])[|xs| - 1..] == (s + xs)[|xs|..];
    }
  }

  // ---------------------------------------------------------------------
  // Weighted sums

  /** Extending a prefix of the window by one slot adds that slot's sample. */
  lemma SumStep(s: seq<u8>, i: int)
    requires 0 <= i < |s|
    ensures Sum(s[..i + 1]) == Sum(s[..i]) + s[i]
  {
    assert s[..i + 1][..i] == s[..i];
  }

  /** Extending a slice that starts at slot 1 by one slot adds that slot's sample. */
  lemma SumRangeStep(t: seq<u8>, i: int)
    requires 1 <= i < |t|
    ensures Sum(t[1..i + 1]) == Sum(t[1..i]) + t[i]
  {
    assert t[1..i + 1][..i - 1] == t[1..i];
  }

  /** Extending a prefix by one slot adds that slot's product, and stays within the whole. */
  lemma WeightedSumStep(s: seq<u8>, c: seq<u8>, i: int)
    requires |s| == |c| && 0 <= i < |s|
    ensures WeightedSum(s[..i + 1], c[..i + 1]) == WeightedSum(s[..i], c[..i]) + (s[i] as int) * (c[i] as int)
    ensures WeightedSum(s[..i + 1], c[..i + 1]) <= WeightedSum(s, c)
  {
    assert s[..i + 1][..i] == s[..i] && c[..i + 1][..i] == c[..i];
    WeightedSumPrefix(s, c, i + 1);
  }

  /** A prefix of a weighted sum never exceeds the whole. */
  lemma {:induction false} WeightedSumPrefix(s: seq<u8>, c: seq<u8>, i: nat)
    requires |s| == |c| && i <= |s|
    ensures WeightedSum(s[..i], c[..i]) <= WeightedSum(s, c)
    decreases |s|
  {
    if i < |s| {
      var n := |s| - 1;
      assert s[..n][..i] == s[..i] && c[..n][..i] == c[..i];
      WeightedSumPrefix(s[..n], c[..n], i);
    } else {
      assert s[..i] == s && c[..i] == c;
    }
  }

  /**
   * Samples in `[lo, hi]` give a weighted sum between `lo` and `hi` times
   * the weight sum.
   */
  lemma {:induction false} WeightedSumBetween(s: seq<u8>, c: seq<u8>, lo: int, hi: int)
    requires |s| == |c|
    requires forall k :: 0 <= k < |s| ==> lo <= s[k] <= hi
    ensures lo * Sum(c) <= WeightedSum(s, c) <= hi * Sum(c)
  {
    if s != [] {
      var n := |s| - 1;
      WeightedSumBetween(s[..n], c[..n], lo, hi);
      MulLeft(lo, s[n], c[n]);
      MulLeft(s[n], hi, c[n]);
      MulAdd(lo, Sum(c[..n]), c[n]);
      MulAdd(hi, Sum(c[..n]), c[n]);
    }
  }

  /** All weights 1: the weighted sum is the plain sum. */
  lemma {:induction false} WeightedSumUnit(s: seq<u8>, c: seq<u8>)
    requires |s| == |c| && Constant(c, 1)
    ensures WeightedSum(s, c) == Sum(s) && Sum(c) == |c|
  {
    if s != [] {
      WeightedSumUnit(s[..|s| - 1], c[..|c| - 1]);
    }
  }

  /**
   * The weighted mean `(W + C/2) / C` of a window, `W` the weighted sum and
   * `C` the (positive) weight sum: the normalisation the weighted filter
   * evidently intends.
   */
  function WeightedMean(s: seq<u8>, c: seq<u8>): (r: u8)
    requires |s| == |c| && |s| > 0 && Sum(c) > 0
    ensures Min(s) <= r <= Max(s)
  {
    Extremes(s);
    WeightedSumBetween(s, c, Min(s), Max(s));
    RoundedDivBetween(WeightedSum(s, c), Sum(c), Min(s), Max(s));
    RoundedDiv(WeightedSum(s, c), Sum(c))
  }

  /** A window of copies of `v` has weighted mean `v`, whatever the weights. */
  lemma ConstantWeightedMean(s: seq<u8>, c: seq<u8>, v: u8)
    requires |s| == |c| && |s| > 0 && Sum(c) > 0 && Constant(s, v)
    ensures WeightedMean(s, c) == v
  {
    assert Min(s) == v && Max(s) == v by { Extremes(s); assert s[0] == v; }
  }

  /** With every weight 1 the weighted mean is the plain rounded mean. */
  lemma UnitWeightedMean(s: seq<u8>, c: seq<u8>)
    requires |s| == |c| && |s| > 0 && Constant(c, 1)
    ensures Sum(c) == |s| && WeightedMean(s, c) == RoundedMean(s)
  {
    WeightedSumUnit(s, c);
  }
}
