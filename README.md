# Software sampling filters for 8-bit readings

This project models `filter.c`, a small C library of digital filters for
8-bit sensor samples (`uint8_t`) kept in a caller-owned buffer of `len`
samples. It has eight filters:

- an amplitude limiter;
- a median ("middle value") filter;
- an arithmetic mean;
- a sliding ("glide") mean;
- a mean that drops the largest and the smallest sample;
- a sliding version of that trimmed mean;
- a sliding mean whose new sample first passes the amplitude limiter;
- a sliding weighted mean.

The model has two modules.

- `Samples` (`samples.dfy`) holds the C arithmetic the filters rely on and the
  specification functions over sample windows:
  - C arithmetic: the `uint8_t` and `uint16_t` ranges (`u8`, `u16`), division
    truncating toward zero (`CDiv`), and the modular conversions back to the
    unsigned types (`ToU8`, `ToU16`);
  - window functions: `Sum`, `Max` and `Min`, the rounded mean
    `RoundedMean`, the trimmed mean `TrimmedMean` and the weighted mean
    `WeightedMean`;
  - the window shift `Slide`, which drops the oldest sample and appends the
    new one.

  Its lemmas relate these functions to each other (permutations, constant
  windows, bounds). They also show that the C expressions the filters
  evaluate compute exactly these functions, wrap-around included.
- `Filter` (`filter.dfy`) holds the filters themselves. Each filter that
  changes its buffer is a method over an `array<u8>`. Its contract states the
  new buffer contents and the returned value in terms of the `Samples`
  functions. The bubble sort works in place and is proved to sort and to
  permute. Each sliding loop is its own method (`SlideSum`, `SlideGather`,
  `SlideWeigh`), which proves what the loop accumulates.

A buffer's `len` is the array's length, at most 255 because `len` is a
`uint8_t`. Each `uint16_t` accumulator is shown not to wrap whenever the
source's own arithmetic keeps it in range. For 255 samples the sum is at
most 255 · 255 = 65025. The weighted sum has no such bound, so the model
states it as a precondition (see Left out).

## Model

| member | source | states |
|---|---|---|
| Filter.AmplitudeLimiterAsWritten | filter.c:12-22 | The guard as written returns the new value exactly when old ≥ new + 10, and otherwise returns the old value. |
| Filter.AmplitudeLimiter | filter.c:196-199 | The intended limiter keeps the new value when it differs from the old one by at most LIMIT (10), and otherwise returns the old value. The result never lies more than LIMIT from the old value. |
| Filter.LimiterAsWrittenAgreement | filter.c:14-21 | The guard as written and the intended limiter agree exactly when the samples are equal, when the new sample is exactly LIMIT below the old one, or when it is more than LIMIT above it. The two directions are stated as an if-and-only-if over all inputs. |
| Filter.LimiterAsWrittenExamples | filter.c:14-21 | Two concrete inputs on which the guard as written and the intended limiter differ: (0, 100) and (13, 12). |
| Filter.BubbleSort | filter.c:41-52 | Afterwards the buffer is sorted in ascending order and is a permutation of the original. |
| Filter.Swap | filter.c:47-49 | Exchanges two neighbouring samples, leaves every other sample unchanged and keeps the multiset. |
| Filter.BubblePass | filter.c:43-51 | One inner pass moves the largest sample of the unsorted prefix to its last slot. It keeps the sorted suffix and the multiset. |
| Filter.MiddleValue | filter.c:36-55 | Sorts the buffer (a permutation) and returns the sample at index (len−1)/2, the lower median. A constant buffer yields its constant. |
| Filter.ArithmeticalAverage | filter.c:68-78 | The result is the rounded mean of the buffer, which lies between its minimum and maximum. |
| Filter.GlideAverage | filter.c:92-105 | The buffer becomes the old window shifted by one with the new sample last. The result is the rounded mean of that new window. |
| Filter.SlideSum | filter.c:96-102 | The shifting loop leaves the shifted window in the buffer and returns its exact sum, with no uint16_t wrap. |
| Filter.MiddleAverage | filter.c:118-143 | Sorts the buffer (a permutation). For len ≥ 3 it returns the rounded mean of the samples without one maximum and one minimum, which is TrimmedMean of the original buffer. For len 0 or 1 it returns 0. |
| Filter.GlideMiddleAverage | filter.c:157-178 | The buffer becomes the shifted window. For len ≥ 3 the result is TrimmedMean of the new window. For len 1 the result is the new sample. |
| Filter.SlideGather | filter.c:164-174 | The loop that starts from the new sample returns the sum, maximum and minimum of the shifted window, even though the new sample is written last. |
| Filter.LimitGlideAverage | filter.c:192-213 | The new sample is first limited against the newest stored sample. The buffer becomes the window shifted by that limited value, and the result is its rounded mean. |
| Filter.WeightedGlideValue | filter.c:244-247 | The weighted filter's result never exceeds the weighted mean, and for a one-sample window it equals it. |
| Filter.WeightedGlideAverage | filter.c:229-248 | The buffer becomes the shifted window, and the result is WeightedGlideValue of that window and its weights. |
| Filter.SlideWeigh | filter.c:234-243 | The loop leaves the shifted window in the buffer. It returns the exact weighted sum and the exact sum of the first len weights. |
| Filter.WeightedGlideConstant | filter.c:244-247 | For a constant window of value v the weighted filter returns v/len rounded, not v. |
| Filter.WeightedGlideUnderstates | filter.c:244-247 | For every window of two or more samples whose weighted mean is at least 2, the weighted filter returns strictly less than the weighted mean. |
| Filter.WeightedGlideExample | filter.c:244-247 | Window [100, 100] with weights [1, 1] has weighted mean 100 but gives 50. |
| Samples.CDiv | filter.c:142 | C division truncates toward zero and agrees with Euclidean division on a non-negative dividend and a positive divisor. |
| Samples.ToU8 | filter.c:142 | Conversion to uint8_t is the identity on values in range. |
| Samples.ToU16 | filter.c:175 | Conversion to uint16_t is the identity on values in range. |
| Samples.Sum | filter.c:72-75 | A window's sum is at most 255 times its length. |
| Samples.Extremes | filter.c:169-171 | Max and Min are elements of the window and bound every sample. |
| Samples.RoundedMean | filter.c:77 | The rounded mean (sum + len/2)/len lies between the window's minimum and maximum, so it fits in uint8_t. |
| Samples.TrimmedMean | filter.c:175-177 | The mean with one maximum and one minimum removed lies between the window's minimum and maximum. |
| Samples.TrimmedMeanInC | filter.c:175-177 | In the glide-middle filter, sum − max − min neither underflows nor overflows uint16_t, and the C return expression equals TrimmedMean. |
| Samples.SingletonTrimInC | filter.c:175-177 | With one sample, the uint16_t wrap of sum − max − min and the division by −1 still return that sample. |
| Samples.SortedTrimInC | filter.c:137-142 | After sorting, the C return expression over samples 1 … len−2 equals TrimmedMean of the unsorted input. |
| Samples.ShortTrimInC | filter.c:137-142 | For len 0 or 1 the C return expression evaluates to 0. |
| Samples.RoundedDivInC | filter.c:177 | The C expression (sum + d/2)/d, with sum stored in uint16_t, equals rounded division. |
| Samples.RoundedDivShrinks | filter.c:247 | Dividing a value of at least 2 by a len of at least 2 with rounding gives a strictly smaller value. |
| Samples.Slide | filter.c:96-101 | The shifted window keeps the length, moves every sample one slot toward index 0 and ends with the new sample. |
| Samples.SlideAllWindow | filter.c:96-101 | After k ≤ len calls with new samples xs, the buffer holds the old buffer without its first k samples, followed by xs. |
| Samples.TrimmedSumBetween | filter.c:175 | sum − max − min lies between min·(len−2) and max·(len−2). |
| Samples.TrimBetween | filter.c:175 | Removing any two samples from a bounded window leaves a sum bounded by len−2 times the bounds. |
| Samples.SumBetween | filter.c:72-75 | A window whose samples lie in [lo, hi] has a sum between lo·len and hi·len. |
| Samples.ExtremesStep | filter.c:170-171 | The max/else-if-min update equals the maximum and minimum of the extended window. The else branch loses nothing, because a new maximum cannot also be a new minimum. |
| Samples.GatherStep | filter.c:166-171 | One loop step extends the sum, maximum and minimum of the samples seen so far, starting from the new sample. |
| Samples.RotatedExtremes | filter.c:164-174 | Folding the new sample in first or last gives the same maximum and minimum. |
| Samples.ExtremeIndices | filter.c:175 | A window of two or more samples has a maximum and a minimum at two distinct indices. |
| Samples.SumPermutation | filter.c:41-52 | Sorting does not change the sum. |
| Samples.ExtremesPermutation | filter.c:41-52 | Sorting does not change the maximum or the minimum. |
| Samples.SortedEnds | filter.c:137-140 | A sorted window starts with its minimum and ends with its maximum. |
| Samples.SortedTrimSum | filter.c:137-140 | The sum of samples 1 … len−2 of the sorted buffer equals the original sum minus its maximum and its minimum. |
| Samples.SortedTrimMean | filter.c:137-142 | Sort-then-average-the-middle and the single-pass glide-middle computation give the same trimmed mean. |
| Samples.ConstantPermutation | filter.c:54 | A permutation of a constant window is the same constant window. |
| Samples.ConstantRoundedMean | filter.c:77 | The rounded mean of a constant window is its constant. |
| Samples.ConstantTrimmedMean | filter.c:142 | The trimmed mean of a constant window is its constant. |
| Samples.SumConcat | filter.c:72-75 | The sum of two joined windows is the sum of their sums. |
| Samples.SumRemove | filter.c:41-52 | Removing one sample lowers the sum by that sample and the multiset by that element. |
| Samples.SumStep | filter.c:99 | Adding the next sample extends the prefix sum. |
| Samples.SumRangeStep | filter.c:139 | Adding sample i extends the sum of samples 1 … i−1. |
| Samples.WeightedSumStep | filter.c:237 | Adding the next product extends the weighted prefix sum, which never exceeds the whole weighted sum. |
| Samples.WeightedSumPrefix | filter.c:237 | A weighted prefix sum never exceeds the whole weighted sum, so the accumulator cannot wrap before the end. |
| Samples.WeightedSumBetween | filter.c:237-245 | A window whose samples lie in [lo, hi] has a weighted sum between lo·Σc and hi·Σc. |
| Samples.WeightedSumUnit | filter.c:237-243 | With every weight 1, the weighted sum is the plain sum and the weights sum to len. |
| Samples.WeightedMean | filter.c:245 | The rounded weighted mean (sum + Σc/2)/Σc lies between the window's minimum and maximum. |
| Samples.ConstantWeightedMean | filter.c:245 | The weighted mean of a constant window is its constant, whatever the weights. |
| Samples.UnitWeightedMean | filter.c:245 | With every weight 1, the weighted mean is the plain rounded mean. |

## Left out

- `eliminate_dithering_filter` (filter.c:261-270) is not modelled. Its loop body is empty and it returns no value, so it has no behaviour to state.
- `limit_glide_average_value_filter` line 196 does not compile as written: the `if` condition's parentheses close after the first comparison. The model reads it as the symmetric test `|new − buf[len−1]| > LIMIT`, which is what both comparisons together say.
- Filter.SlideWeigh: requires the weighted sum of the shifted window to stay below 65536. Above that bound the C `uint16_t` accumulator wraps, and the model does not describe the wrapped result.
- Filter.WeightedGlideAverage: requires the same weighted-sum bound as SlideWeigh. It also requires the weights to sum to at least 1, because a sum of 0 divides by zero in C.
- Filter.WeightedGlideAverage: requires the weight array to be a different array from the sample buffer. The model does not describe a call that aliases them.
- Filter.MiddleValue, Filter.ArithmeticalAverage, Filter.GlideAverage, Filter.GlideMiddleAverage, Filter.LimitGlideAverage and Filter.WeightedGlideAverage: require len ≥ 1. With len 0 the C code divides by zero or indexes `buf[-1]`.
- Filter.MiddleAverage and Filter.GlideMiddleAverage: require len ≠ 2, where the C code divides by len − 2 = 0. The lengths 0 and 1 of the middle-average filter and the length 1 of the glide-middle filter are defined C and are modelled.
- The buffer lengths come from a `uint8_t` parameter. The model takes the array's own length, at most 255, and does not model a `len` smaller than the buffer.
- Sample acquisition, sensor I/O and the compile-time configuration (`#define LIMIT`) are outside the library. LIMIT is the constant 10.
- The sliding filters' loops are separate methods (SlideSum, SlideGather, SlideWeigh). The glide and limit-glide filters share SlideSum because their loops are identical.

## Findings

| source | as written | input that shows it | evidently intended | confidence | as-written member | corrected member |
|---|---|---|---|---|---|---|
| filter.c:14 | The guard `(new − old) > LIMIT \|\| (old − new) < LIMIT` returns the old value for every new value not at least LIMIT below it. Any increase, and any decrease by less than 10, is rejected. A decrease of 10 or more is accepted. | new = 0, old = 100 returns 0 (a jump of 100 accepted). new = 13, old = 12 returns 12 (a change of 1 rejected). | Keep the new value when \|new − old\| ≤ LIMIT, and otherwise return the old value, as the limit-glide filter's guard does at filter.c:196. | not executed | Filter.AmplitudeLimiterAsWritten, Filter.LimiterAsWrittenExamples | Filter.AmplitudeLimiter |
