/**
 * The noise filters of filter.c over 8-bit samples. A window `buf` of
 * `len` samples is an `array<u8>` whose length is `len`; `len` is a
 * `uint8_t`, so every window holds at most 255 samples. Integer
 * promotion is explicit: every difference and product of two samples is
 * taken as an `int`, every `uint16_t` accumulator is a `u16` whose range
 * the verifier checks at each update (so none of them wraps), and where
 * a negative operand can reach `/` the truncating `CDiv` is used.
 */
module Filter {
  import opened Samples

  // ---------------------------------------------------------------------
  // amplitude_limiter_filter

  /**
   * The limiter exactly as its guard is written: the old sample is kept
   * when the new one exceeds it by more than LIMIT, or when the old one
   * exceeds the new one by less than LIMIT. The second comparison holds
   * for every upward step and every small step, so the new sample passes
   * only when it lies at least LIMIT below the old one.
   */
  function AmplitudeLimiterAsWritten(newValue: u8, oldValue: u8): (r: u8)
    ensures r == newValue || r == oldValue
    ensures oldValue >= newValue + LIMIT ==> r == newValue
    ensures oldValue < newValue + LIMIT ==> r == oldValue
  {
    if (newValue as int) - oldValue > LIMIT || (oldValue as int) - newValue < LIMIT then
      oldValue
    else
      newValue
  }

  /**
   * The limiter as its name and the guard of the clamped sliding filter
   * describe it: a new sample more than LIMIT away from the old one, in
   * either direction, is a spike and is replaced by the old sample.
   */
  function AmplitudeLimiter(newValue: u8, oldValue: u8): (r: u8)
    ensures Abs(newValue - oldValue) <= LIMIT ==> r == newValue
    ensures Abs(newValue - oldValue) > LIMIT ==> r == oldValue
    ensures Abs(r - oldValue) <= LIMIT
  {
    if (newValue as int) - oldValue > LIMIT || (oldValue as int) - newValue > LIMIT then
      oldValue
    else
      newValue
  }

  /**
   * The written guard and the symmetric one agree only when the samples
   * are equal, when the new sample is exactly LIMIT below the old one, or
   * when it is more than LIMIT above it.
   */
  lemma LimiterAsWrittenAgreement(newValue: u8, oldValue: u8)
    ensures AmplitudeLimiterAsWritten(newValue, oldValue) == AmplitudeLimiter(newValue, oldValue)
            <==> (oldValue == newValue || oldValue == newValue + LIMIT || oldValue < newValue - LIMIT)
  {
  }

  /**
   * As written, a downward spike from 100 to 0 passes the limiter, and a
   * step of one from 12 to 13 is rejected; the symmetric limiter does the
   * opposite in both cases.
   */
  lemma LimiterAsWrittenExamples()
    ensures AmplitudeLimiterAsWritten(0, 100) == 0 && AmplitudeLimiter(0, 100) == 100
    ensures AmplitudeLimiterAsWritten(13, 12) == 12 && AmplitudeLimiter(13, 12) == 13
  {
  }

  // ---------------------------------------------------------------------
  // The bubble sort shared by middle_value_filter and middle_average_value_filter

  /**
   * Bubble sort in place: pass `j` carries the largest sample of
   * `buf[..len-j]` to slot `len-1-j`, so after pass `j` the last `j+1`
   * slots hold the largest samples in order.
   */
  method BubbleSort(buf: array<u8>)
    modifies buf
    ensures Sorted(buf[..])
    ensures multiset(buf[..]) == multiset(old(buf[..]))
  {
    var n := buf.Length;
    var j := 0;
    while j < n - 1
      invariant 0 <= j <= n && (n > 0 ==> j <= n - 1)
      invariant multiset(buf[..]) == multiset(old(buf[..]))
      invariant forall p, q :: n - j <= p < q < n ==> buf[p] <= buf[q]
      invariant forall p, q :: 0 <= p < n - j <= q < n ==> buf[p] <= buf[q]
    {
      BubblePass(buf, n - 1 - j);
      j := j + 1;
    }
  }

  /** Exchanges the adjacent slots `i` and `i+1` through a temporary. */
  method Swap(buf: array<u8>, i: int)
    requires 0 <= i < buf.Length - 1
    modifies buf
    ensures buf[i] == old(buf[i + 1]) && buf[i + 1] == old(buf[i])
    ensures forall k :: 0 <= k < buf.Length && k != i && k != i + 1 ==> buf[k] == old(buf[k])
    ensures multiset(buf[..]) == multiset(old(buf[..]))
  {
    var tmp := buf[i];
    buf[i] := buf[i + 1];
    buf[i + 1] := tmp;
  }

  /**
   * One pass of the bubble sort over `buf[..m+1]`: adjacent slots out of
   * order are swapped, which carries the largest of them to slot `m`. The
   * slots after `m` are untouched, and the pass keeps every slot up to `m`
   * below every slot after it.
   */
  method BubblePass(buf: array<u8>, m: int)
    requires 0 <= m < buf.Length
    requires forall p, q :: 0 <= p <= m < q < buf.Length ==> buf[p] <= buf[q]
    modifies buf
    ensures multiset(buf[..]) == multiset(old(buf[..]))
    ensures forall p :: 0 <= p <= m ==> buf[p] <= buf[m]
    ensures forall k :: m < k < buf.Length ==> buf[k] == old(buf[k])
    ensures forall p, q :: 0 <= p <= m < q < buf.Length ==> buf[p] <= buf[q]
  {
    var i := 0;
    while i < m
      invariant 0 <= i <= m
      invariant multiset(buf[..]) == multiset(old(buf[..]))
      invariant forall p :: 0 <= p <= i ==> buf[p] <= buf[i]
      invariant forall k :: m < k < buf.Length ==> buf[k] == old(buf[k])
      invariant forall p, q :: 0 <= p <= m < q < buf.Length ==> buf[p] <= buf[q]
    {
      if buf[i] > buf[i + 1] {
        Swap(buf, i);
      }
      i := i + 1;
    }
  }

  // ---------------------------------------------------------------------
  // middle_value_filter

  /**
   * Sorts the window in place and returns its lower median, the sample at
   * slot `(len-1)/2` of the sorted window.
   */
  method MiddleValue(buf: array<u8>) returns (r: u8)
    requires 1 <= buf.Length <= 255
    modifies buf
    ensures Sorted(buf[..])
    ensures multiset(buf[..]) == multiset(old(buf[..]))
    ensures r == buf[(buf.Length - 1) / 2]
    ensures Constant(old(buf[..]), old(buf[0])) ==> r == old(buf[0])
  {
    BubbleSort(buf);
    if Constant(old(buf[..]), old(buf[0])) {
      ConstantPermutation(old(buf[..]), buf[..], old(buf[0]));
    }
    r := buf[(buf.Length - 1) / 2];
  }

  // ---------------------------------------------------------------------
  // arithmetical_average_value_filter

  /** The rounded mean of the window; the window is only read. */
  method ArithmeticalAverage(buf: array<u8>) returns (r: u8)
    requires 1 <= buf.Length <= 255
    ensures r == RoundedMean(buf[..])
  {
    var n := buf.Length;
    var sum: u16 := 0;
    for i := 0 to n
      invariant sum == Sum(buf[..i])
    {
      assert buf[..i + 1][..i] == buf[..i];
      sum := sum + buf[i];
    }
    assert buf[..n] == buf[..];
    assert sum == Sum(buf[..]);
    assert RoundedDiv(sum, n) == RoundedMean(buf[..]);
    r := RoundedDiv(sum, n);
  }

  // ---------------------------------------------------------------------
  // glide_average_value_filter

  /**
   * Slides `newValue` into the window and returns the rounded mean of the
   * updated window; the sum is gathered while shifting.
   */
  method GlideAverage(buf: array<u8>, newValue: u8) returns (r: u8)
    requires 1 <= buf.Length <= 255
    modifies buf
    ensures buf[..] == Slide(old(buf[..]), newValue)
    ensures r == RoundedMean(buf[..])
  {
    var sum := SlideSum(buf, newValue);
    assert RoundedDiv(sum, buf.Length) == RoundedMean(buf[..]);
    r := RoundedDiv(sum, buf.Length);
  }

  /**
   * The loop shared by glide_average_value_filter and
   * limit_glide_average_value_filter: shifts the window one slot towards
   * the front, stores `newValue` in the last slot, and sums the updated
   * window on the way.
   */
  method SlideSum(buf: array<u8>, newValue: u8) returns (sum: u16)
    requires 1 <= buf.Length <= 255
    modifies buf
    ensures buf[..] == Slide(old(buf[..]), newValue)
    ensures sum == Sum(buf[..])
  {
    ghost var w := Slide(buf[..], newValue);
    var n := buf.Length;
    sum := 0;
    for i := 0 to n - 1
      invariant forall k :: 0 <= k < i ==> buf[k] == w[k]
      invariant forall k :: i <= k < n ==> buf[k] == old(buf[k])
      invariant sum == Sum(w[..i])
    {
      buf[i] := buf[i + 1];
      SumStep(w, i);
      sum := sum + buf[i];
    }
    buf[n - 1] := newValue;
    sum := sum + buf[n - 1];
    assert buf[..] == w;
  }

  // ---------------------------------------------------------------------
  // middle_average_value_filter

  /**
   * Sorts the window in place, drops its two end slots and returns the
   * rounded mean of the rest, which is the trimmed mean of the window as
   * it was. With fewer than two samples C's truncating division makes the
   * result 0; a window of two divides by zero and is excluded.
   */
  method MiddleAverage(buf: array<u8>) returns (r: u8)
    requires buf.Length <= 255 && buf.Length != 2
    modifies buf
    ensures Sorted(buf[..])
    ensures multiset(buf[..]) == multiset(old(buf[..]))
    ensures buf.Length >= 3 ==> r == RoundedDiv(Sum(buf[1..buf.Length - 1]), buf.Length - 2)
    ensures buf.Length >= 3 ==> r == TrimmedMean(old(buf[..]))
    ensures buf.Length < 2 ==> r == 0
  {
    BubbleSort(buf);
    var n := buf.Length;
    ghost var t := buf[..];
    var sum: u16 := 0;
    var i := 1;
    while i < n - 1
      modifies {}
      invariant buf[..] == t
      invariant n < 2 ==> i == 1 && sum == 0
      invariant n >= 2 ==> 1 <= i <= n - 1 && sum == Sum(t[1..i])
    {
      SumRangeStep(t, i);
      sum := sum + buf[i];
      i := i + 1;
    }
    r := ToU8(CDiv(sum + CDiv(n - 2, 2), n - 2));
    if n >= 3 {
      assert i == |t| - 1;
      SortedTrimInC(old(buf[..]), t, sum, r);
    } else {
      ShortTrimInC(n, sum, r);
    }
  }

  // ---------------------------------------------------------------------
  // glide_middle_average_value_filter

  /**
   * Slides `newValue` into the window while keeping a running sum, maximum
   * and minimum (seeded with `newValue`), then discards one maximum and one
   * minimum: the result is the trimmed mean of the updated window, the
   * value MiddleAverage gives on it, without sorting. For a window of one
   * the `uint16_t` difference wraps and the result is `newValue`; a window
   * of two divides by zero and is excluded.
   */
  method GlideMiddleAverage(buf: array<u8>, newValue: u8) returns (r: u8)
    requires 1 <= buf.Length <= 255 && buf.Length != 2
    modifies buf
    ensures buf[..] == Slide(old(buf[..]), newValue)
    ensures buf.Length >= 3 ==> r == TrimmedMean(buf[..])
    ensures buf.Length == 1 ==> r == newValue
  {
    var n := buf.Length;
    var sum, max, min := SlideGather(buf, newValue);
    ghost var w, total := buf[..], sum;
    sum := ToU16(sum as int - max - min);
    r := ToU8(CDiv(sum + CDiv(n - 2, 2), n - 2));
    if n >= 3 {
      TrimmedMeanInC(w, total, max, min, r);
    } else {
      SingletonTrimInC(w, total, max, min, r);
    }
  }

  /**
   * The loop of glide_middle_average_value_filter: shifts the window one
   * slot towards the front, stores `newValue` in the last slot, and gathers
   * the sum, the maximum and the minimum of the updated window, all three
   * seeded with `newValue`. The minimum is only updated by a sample that
   * does not raise the maximum, which still finds the minimum.
   */
  method SlideGather(buf: array<u8>, newValue: u8) returns (sum: u16, max: u8, min: u8)
    requires 1 <= buf.Length <= 255
    modifies buf
    ensures buf[..] == Slide(old(buf[..]), newValue)
    ensures sum == Sum(buf[..]) && max == Max(buf[..]) && min == Min(buf[..])
  {
    ghost var w := Slide(buf[..], newValue);
    var n := buf.Length;
    sum, max, min := newValue, newValue, newValue;
    for i := 0 to n - 1
      invariant forall k :: 0 <= k < i ==> buf[k] == w[k]
      invariant forall k :: i <= k < n ==> buf[k] == old(buf[k])
      invariant sum == Sum(w[..i]) + newValue
      invariant max == Max([newValue] + w[..i]) && min == Min([newValue] + w[..i])
    {
      buf[i] := buf[i + 1];
      GatherStep(newValue, w, i);
      sum := sum + buf[i];
      if buf[i] > max {
        max := buf[i];
      } else if buf[i] < min {
        min := buf[i];
      }
    }
    buf[n - 1] := newValue;
    assert buf[..] == w;
    assert w == w[..n - 1] + [newValue];
    RotatedExtremes(w[..n - 1], newValue);
  }

  // ---------------------------------------------------------------------
  // limit_glide_average_value_filter

  /**
   * Clamps `newValue` against the newest sample with the symmetric limiter,
   * then slides the clamped value in and returns the rounded mean: the
   * same as GlideAverage applied to `AmplitudeLimiter(newValue, buf[len-1])`.
   */
  method LimitGlideAverage(buf: array<u8>, newValue: u8) returns (r: u8)
    requires 1 <= buf.Length <= 255
    modifies buf
    ensures buf[..] == Slide(old(buf[..]), AmplitudeLimiter(newValue, old(buf[buf.Length - 1])))
    ensures r == RoundedMean(buf[..])
  {
    var n := buf.Length;
    var v := newValue;
    if (v as int) - buf[n - 1] > LIMIT || (buf[n - 1] as int) - v > LIMIT {
      v := buf[n - 1];
    }
    assert v == AmplitudeLimiter(newValue, buf[n - 1]);
    var sum := SlideSum(buf, v);
    assert RoundedDiv(sum, n) == RoundedMean(buf[..]);
    r := RoundedDiv(sum, n);
  }

  // ---------------------------------------------------------------------
  // weighted_glide_average_value_filter

  /**
   * What the weighted filter returns for the updated window `s` and the
   * weights `c`: the weighted mean, then divided once more by the window
   * length with rounding. The second division can only lower the value.
   */
  function WeightedGlideValue(s: seq<u8>, c: seq<u8>): (r: u8)
    requires |s| == |c| && |s| > 0 && Sum(c) > 0
    ensures r <= WeightedMean(s, c)
    ensures |s| == 1 ==> r == WeightedMean(s, c)
  {
    var m := WeightedMean(s, c);
    MulLeft(1, |s|, m);
    RoundedDivBetween(m, |s|, 0, m);
    RoundedDiv(m, |s|)
  }

  /**
   * Slides `newValue` into the window and returns WeightedGlideValue of the
   * updated window and the first `len` weights. The weights are only read.
   * The caller keeps the weighted sum below 2^16 so that the `uint16_t`
   * accumulator does not wrap.
   */
  method WeightedGlideAverage(buf: array<u8>, newValue: u8, coe: array<u8>) returns (r: u8)
    requires 1 <= buf.Length <= 255 && coe.Length >= buf.Length && coe != buf
    requires Sum(coe[..buf.Length]) > 0
    requires WeightedSum(Slide(buf[..], newValue), coe[..buf.Length]) < 65536
    modifies buf
    ensures buf[..] == Slide(old(buf[..]), newValue)
    ensures r == WeightedGlideValue(buf[..], coe[..buf.Length])
  {
    var n := buf.Length;
    var sum, coeSum := SlideWeigh(buf, newValue, coe);
    assert RoundedDiv(sum, coeSum) == WeightedMean(buf[..], coe[..n]);
    sum := RoundedDiv(sum, coeSum);
    assert RoundedDiv(sum, n) == WeightedGlideValue(buf[..], coe[..n]);
    r := RoundedDiv(sum, n);
  }

  /**
   * The loop of weighted_glide_average_value_filter: shifts the window one
   * slot towards the front, stores `newValue` in the last slot, and gathers
   * the weighted sum and the weight sum of the updated window.
   */
  method SlideWeigh(buf: array<u8>, newValue: u8, coe: array<u8>) returns (sum: u16, coeSum: u16)
    requires 1 <= buf.Length <= 255 && coe.Length >= buf.Length && coe != buf
    requires WeightedSum(Slide(buf[..], newValue), coe[..buf.Length]) < 65536
    modifies buf
    ensures buf[..] == Slide(old(buf[..]), newValue)
    ensures sum == WeightedSum(buf[..], coe[..buf.Length]) && coeSum == Sum(coe[..buf.Length])
  {
    ghost var w := Slide(buf[..], newValue);
    var n := buf.Length;
    ghost var c := coe[..n];
    sum, coeSum := 0, 0;
    for i := 0 to n - 1
      invariant forall k :: 0 <= k < i ==> buf[k] == w[k]
      invariant forall k :: i <= k < n ==> buf[k] == old(buf[k])
      invariant sum == WeightedSum(w[..i], c[..i])
      invariant coeSum == Sum(c[..i])
    {
      buf[i] := buf[i + 1];
      assert buf[i] == w[i] && coe[i] == c[i];
      WeightedSumStep(w, c, i);
      SumStep(c, i);
      sum := sum + (buf[i] as int) * (coe[i] as int);
      coeSum := coeSum + coe[i];
    }
    buf[n - 1] := newValue;
    assert coe[n - 1] == c[n - 1];
    sum := sum + (buf[n - 1] as int) * (coe[n - 1] as int);
    coeSum := coeSum + coe[n - 1];
    assert buf[..] == w;
  }

  /**
   * A window of copies of `v` makes the first division return `v` exactly,
   * so the filter returns `(v + len/2) / len` rather than `v`.
   */
  lemma WeightedGlideConstant(s: seq<u8>, c: seq<u8>, v: u8)
    requires |s| == |c| && |s| > 0 && Sum(c) > 0 && Constant(s, v)
    ensures WeightedGlideValue(s, c) == RoundedDiv(v, |s|)
  {
    ConstantWeightedMean(s, c, v);
  }

  /**
   * For every window of two or more samples whose weighted mean is at
   * least 2, the filter returns strictly less than that mean.
   */
  lemma WeightedGlideUnderstates(s: seq<u8>, c: seq<u8>)
    requires |s| == |c| && |s| >= 2 && Sum(c) > 0 && WeightedMean(s, c) >= 2
    ensures WeightedGlideValue(s, c) < WeightedMean(s, c)
  {
    RoundedDivShrinks(WeightedMean(s, c), |s|);
  }

  /**
   * The window [100, 100] with unit weights: its weighted mean is 100 and
   * the filter returns 50.
   */
  lemma WeightedGlideExample()
    ensures Sum([1, 1]) == 2
    ensures WeightedMean([100, 100], [1, 1]) == 100
    ensures WeightedGlideValue([100, 100], [1, 1]) == 50
  {
    ConstantWeightedMean([100, 100], [1, 1], 100);
    WeightedGlideConstant([100, 100], [1, 1], 100);
  }
}
