# Radix-2 FFT: a verified model

This project models the `FFT` class in `fft/src/fft/FFT.java`. The class holds one transform length `n = 2^m`. It keeps cosine and sine lookup tables of `n/2` entries and a Blackman window of `n` samples. Its `fft(x, y)` method runs an in-place radix-2 decimation-in-time FFT. The method takes a complex frame as two arrays, `x` for the real parts and `y` for the imaginary parts. It reorders both arrays by bit reversal and then runs `m` butterfly stages. The project also models the "next power of two" loop from `main`.

The project has three modules.

- `Bits` (`bits.dfy`) holds the integer index logic:
  - powers of two and the exponent of a length;
  - the m-bit reversal `Rev` and the "reversed increment" `RevInc` that the carry loop performs;
  - the shift used for the twiddle index;
  - `Low(p, c)`, the offset of `p` within its block of `2^c`, which places an index in a stage's columns and butterfly pairs.
- `Spectrum` (`spectrum.dfy`) states on values what `fft` computes:
  - `BitReversed` and `Reordered` give the permutation.
  - `StageAt`, `Stage` and `Stages` give one stage and the first `c` stages.
  - `Transform` is the whole transform.
  - The properties proved about these are:
    - the permutation facts;
    - the pairing of indices at each stage;
    - known outputs (zero gives zero, and an impulse gives a flat spectrum);
    - linearity;
    - for n = 4 with exact tables, equality with the DFT.
- `Fft` (`fft.dfy`) is the class itself. It has mutable arrays, `modifies` clauses and loops with invariants. Each loop of `fft` is proved against the `Spectrum` functions.

Sample values are exact `real`s. The results of `Math.cos` and `Math.sin` are a parameter, `Trig`. The class is proved to store exactly what that library returns. `fft` is proved to compute `Transform` over whatever the stored tables hold.

## Model

| member | source | states |
|---|---|---|
| Fft.Blackman | fft/src/fft/FFT.java:76-77 | Definition: the Blackman window value 0.42 - 0.5 cos(2 pi i/(n-1)) + 0.08 cos(4 pi i/(n-1)), with the cosine taken from `Trig`. |
| Bits.Rev | fft/src/fft/FFT.java:111-119 | Definition: the m-bit reversal of i. Bit b of i becomes bit m-1-b. This is the j that the carry loop pairs with i. |
| Bits.RevInc | fft/src/fft/FFT.java:114-119 | Definition: j + 1 counted with the bits reversed. While the top remaining bit n1 is set it is cleared and n1 halves; then n1 is added. |
| Spectrum.SwapAt | fft/src/fft/FFT.java:121-128 | Definition: the loop body at i. With j = Rev(m, i), slots i and j trade samples when i < j; otherwise nothing changes. |
| Spectrum.Reordered | fft/src/fft/FFT.java:110-129 | Definition: the bit reversal applied to x and y together, so the real and imaginary parts of each sample move as one. |
| Spectrum.BitReversed | fft/src/fft/FFT.java:110-129 | Definition: the whole reordering. Slot p receives the sample from Rev(m, p). |
| Bits.Shl | fft/src/fft/FFT.java:143 | Definition: x << e as x times 2^e, the step 1 << (m-i-1) added to a. |
| Spectrum.Rotate | fft/src/fft/FFT.java:146-147 | Definition: t1 = c x - s y and t2 = s x + c y, the partner sample rotated by the twiddle (c, s). |
| Spectrum.Butterfly | fft/src/fft/FFT.java:146-151 | Definition: the upper slot gets u + t and the lower slot gets u - t, where t is the partner rotated by (c, s). |
| Spectrum.Partner | fft/src/fft/FFT.java:145-151 | Definition: the slot a butterfly pairs with p in stage s. It is p + n1 when p is in the upper half of its block of n2, otherwise p - n1. |
| Spectrum.StageAt | fft/src/fft/FFT.java:140-151 | Definition: slot p after stage s. If p's offset in its block of 2^(s+1) is below 2^s, it is the upper output of the pair (p, p + 2^s). Otherwise it is the lower output of (p - 2^s, p). The twiddle slot is (offset mod 2^s) << (m-s-1). |
| Spectrum.Stage | fft/src/fft/FFT.java:140-153 | Definition: the frame after stage s, holding StageAt at every slot. |
| Spectrum.Stages | fft/src/fft/FFT.java:135-154 | Definition: the first c stages applied in order 0, 1, ..., c-1. |
| Spectrum.Transform | fft/src/fft/FFT.java:104-155 | Definition: bit reversal followed by all m stages, the value fft leaves in x and y. |
| Bits.PowerOfTwoTest | fft/src/fft/FFT.java:52-56 | The test `n == 1 << m` is true exactly for powers of two. Here m is the floor of log2 n, or 0 when n < 1. |
| Bits.PowerOfTwoIsPow2 | fft/src/fft/FFT.java:52-56 | Every power of two n is at least 1 and equals 2 to the power of its floor-log2. |
| Bits.FloorLog2OfPow2 | fft/src/fft/FFT.java:52 | The exponent computed for 2^k is k, so m is recovered exactly from n. |
| Bits.FloorLog2 | fft/src/fft/FFT.java:52 | The exponent m satisfies 2^m <= n < 2^(m+1). |
| Fft.FFT.Create | fft/src/fft/FFT.java:50-56 | Construction succeeds if and only if n is a power of two. On success the object and its three arrays are fresh, and the object is valid and has length n. Otherwise it fails with "FFT length must be power of 2". |
| Fft.FFT.constructor | fft/src/fft/FFT.java:50-68 | The tables are fresh arrays of n/2 entries. Entry i is cos(-2 pi i/n) and sin(-2 pi i/n) as the trigonometric library returns them. The window is filled as makeWindow fills it. |
| Fft.FFT.MakeWindow | fft/src/fft/FFT.java:71-78 | The window is a fresh array of n samples. Slot i holds 0.42 - 0.5 cos(2 pi i/(n-1)) + 0.08 cos(4 pi i/(n-1)). |
| Fft.FFT.GetWindow | fft/src/fft/FFT.java:80-82 | Returns the window array itself, not a copy, on any object. On a valid object it holds the n Blackman values. |
| Bits.RevIncCarry | fft/src/fft/FFT.java:115-118 | An unfolding of RevInc, used as ReverseIncrement's loop invariant step. One turn of the carry loop (j >= n1) clears the top bit, and the reversed increment continues on the remaining bits. |
| Bits.RevIncStop | fft/src/fft/FFT.java:119 | An unfolding of RevInc, used at ReverseIncrement's loop exit. When the loop stops (j < n1), adding n1 completes the reversed increment. |
| Fft.FFT.ReverseIncrement | fft/src/fft/FFT.java:114-119 | Starting from n1 = n/2, the carry loop turns j into RevInc(m, j). |
| Bits.RevSucc | fft/src/fft/FFT.java:111-119 | The reversed increment of Rev(m, i) is Rev(m, i+1). So the loop keeps j equal to the m-bit reversal of i. |
| Bits.RevNext | fft/src/fft/FFT.java:113-119 | If j is the reversal of i - 1, its reversed increment is the reversal of i. This is the loop invariant j == Rev(m, i) carried one step. |
| Bits.RevInvolution | fft/src/fft/FFT.java:121-128 | Reversing twice gives back the index, so the pair (i, j) and the pair (j, i) are the same pair. |
| Bits.RevInjective | fft/src/fft/FFT.java:121-128 | Distinct indices have distinct reversals. |
| Bits.RevEnds | fft/src/fft/FFT.java:113 | 0 and n-1 are their own reversals. This is why the loop can skip them. |
| Bits.SwapPairsDisjoint | fft/src/fft/FFT.java:121-128 | Two swaps allowed by the `i < j` guard at different i touch four distinct slots, so no element is swapped twice. |
| Spectrum.SwapAtStep | fft/src/fft/FFT.java:121-128 | One pass of the loop at i extends "every slot below i is settled" to i+1 and keeps the multiset of samples. |
| Spectrum.SwappedBelowStart | fft/src/fft/FFT.java:111-113 | Before the loop, slot 0 is already settled. |
| Spectrum.SwappedBelowDone | fft/src/fft/FFT.java:129 | An unfolding of SwappedBelow at i = n, used at BitReverse's loop exit. When every slot is settled, the array is the bit-reversed permutation of its original contents. |
| Fft.FFT.SwapIfBelow | fft/src/fft/FFT.java:121-128 | With j = Rev(m, i), the guarded swap performs SwapAt on x and on y alike. It settles slot i (and its partner) in both arrays. |
| Fft.FFT.Exchange | fft/src/fft/FFT.java:121-128 | x[i] and x[j] trade places, and so do y[i] and y[j]. |
| Fft.FFT.BitReverse | fft/src/fft/FFT.java:110-129 | Afterwards x holds BitReversed(m, old x) and y holds BitReversed(m, old y). |
| Spectrum.BitReversedMoves | fft/src/fft/FFT.java:110-129 | The sample at index i ends up at index Rev(m, i). |
| Spectrum.BitReversedEnds | fft/src/fft/FFT.java:113 | Slots 0 and n-1 keep their samples. |
| Spectrum.BitReversedIsPermutation | fft/src/fft/FFT.java:110-129 | The multiset of samples is unchanged. |
| Spectrum.ReorderedMoves | fft/src/fft/FFT.java:121-128 | The real and imaginary parts of a sample move together to Rev(m, i). |
| Bits.ShlSucc | fft/src/fft/FFT.java:138-143 | a starts at 0 and grows by 1 << (m-i-1) per column, so in column j it equals j << (m-i-1). |
| Bits.TwiddleIndexInBounds | fft/src/fft/FFT.java:141-143 | The twiddle index j << (m-i-1) of every column j < 2^i is below n/2. |
| Spectrum.TwiddleIndex | fft/src/fft/FFT.java:141-142 | The table slot a read for a column is below n/2. |
| Bits.PartnerInBounds | fft/src/fft/FFT.java:145-146 | Every k visited in stage i (offset below n1 in its block of n2) has k + n1 < n. |
| Bits.ColumnStep | fft/src/fft/FFT.java:145 | Stepping k by n2 stays in column j. Its partner k + n1 is in the lower half of the same block. |
| Bits.ColumnGap | fft/src/fft/FFT.java:145 | No index of column j lies strictly between k and k + n2 other than k + n1. |
| Spectrum.LowerPartner | fft/src/fft/FFT.java:145-151 | An index in the lower half of its block is the partner of the index n1 below it, which lies in the upper half. |
| Spectrum.PartnerPairs | fft/src/fft/FFT.java:140-151 | Each stage splits [0, n) into butterfly pairs. The partner map is a fixed-point-free involution that stays in bounds and keeps the column. Exactly one index of each pair is the upper slot. |
| Spectrum.StagePair | fft/src/fft/FFT.java:145-151 | After stage i, slots k and k + n1 of column j hold the upper and lower butterfly outputs of the old pair, using the twiddle of column j. |
| Spectrum.StageIndex | fft/src/fft/FFT.java:135-154 | Slot p of a stage's output is that stage's butterfly value at p. |
| Spectrum.StagePrefixAt | fft/src/fft/FFT.java:135-154 | Building a stage's output slot by slot puts the butterfly value of p at p. |
| Spectrum.StagesStep | fft/src/fft/FFT.java:135-137 | An unfolding of Stages, used by Fft's stage loop. The first c stages are stage c-1 applied to the first c-1 stages. |
| Fft.FFT.ButterflyAt | fft/src/fft/FFT.java:146-151 | Slot k gets u + t and slot k + n1 gets u - t, where t is the old x/y at k + n1 rotated by (c, s). Every other slot of x and y is unchanged. |
| Fft.ColumnPairValues | fft/src/fft/FFT.java:146-151 | The two slots a butterfly writes then hold their values after the stage. |
| Fft.StagedStep | fft/src/fft/FFT.java:145 | After the butterfly at k, the column loop's invariant holds at k + n2. |
| Fft.ColumnAdvance | fft/src/fft/FFT.java:145-152 | One turn of the k loop, from k to k + n2, keeps the invariant. |
| Fft.StagedColumnStart | fft/src/fft/FFT.java:145 | An unfolding of Staged, used on entry to ButterflyColumn's loop. Starting the k loop at j keeps the state of the finished columns. |
| Fft.StagedColumnEnd | fft/src/fft/FFT.java:145 | An unfolding of Staged, used at ButterflyColumn's loop exit. When k reaches n, column j is finished. |
| Fft.StagedDone | fft/src/fft/FFT.java:140-153 | When every column j < n1 is finished, x and y hold the whole stage. |
| Fft.FFT.ButterflyColumn | fft/src/fft/FFT.java:145-152 | The butterflies of column j at k = j, j + n2, ... leave columns below j and column j at their stage values, and every other slot untouched. |
| Fft.FFT.ButterflyStage | fft/src/fft/FFT.java:136-153 | One pass of the stage loop turns x/y into Stage(i) of their old contents, over the stored tables. |
| Fft.FFT.Fft | fft/src/fft/FFT.java:104-155 | x/y end as Transform of their old contents over the stored tables. The object's fields and tables are unchanged, and only x and y are written. |
| Spectrum.StageOfZero | fft/src/fft/FFT.java:145-151 | One stage maps the zero frame to zero. |
| Spectrum.StagesOfZero | fft/src/fft/FFT.java:135-154 | Any number of stages maps zero to zero. |
| Spectrum.TransformOfZero | fft/src/fft/FFT.java:104-155 | An all-zero x/y stays all zero, for any tables. |
| Spectrum.ButterflyOfZeroPartner | fft/src/fft/FFT.java:146-151 | When the partner sample is zero, t is zero and both outputs equal u. |
| Spectrum.StageOfFront | fft/src/fft/FFT.java:140-153 | Stage i copies the leading 2^i ones onto the next 2^i slots. |
| Spectrum.StagesOfImpulse | fft/src/fft/FFT.java:135-154 | After c stages an impulse has become 2^c leading ones. |
| Spectrum.ReorderedImpulse | fft/src/fft/FFT.java:110-129 | Bit reversal leaves an impulse at index 0 in place. |
| Spectrum.TransformOfImpulse | fft/src/fft/FFT.java:104-155 | An impulse (x[0] = 1, the rest 0) becomes x[i] = 1, y[i] = 0 for all i, for any tables. |
| Spectrum.RotateAdditive | fft/src/fft/FFT.java:146-147 | The twiddle rotation (t1, t2) is additive. |
| Spectrum.RotateHomogeneous | fft/src/fft/FFT.java:146-147 | The twiddle rotation commutes with scaling. |
| Spectrum.ButterflyAdditive | fft/src/fft/FFT.java:146-151 | Each butterfly output is additive in the pair. |
| Spectrum.ButterflyHomogeneous | fft/src/fft/FFT.java:146-151 | Each butterfly output commutes with scaling. |
| Spectrum.StageAtAdditive | fft/src/fft/FFT.java:145-151 | Every slot of a stage is additive. |
| Spectrum.StageAtHomogeneous | fft/src/fft/FFT.java:145-151 | Every slot of a stage commutes with scaling. |
| Spectrum.StageAdditive | fft/src/fft/FFT.java:140-153 | One stage of a sum is the sum of the stages. |
| Spectrum.StageHomogeneous | fft/src/fft/FFT.java:140-153 | One stage of c times a frame is c times the stage. |
| Spectrum.StagesAdditive | fft/src/fft/FFT.java:135-154 | The first c stages are additive. |
| Spectrum.StagesAdditiveStep | fft/src/fft/FFT.java:135-154 | Additivity of the first c-1 stages carries over to c stages. |
| Spectrum.StagesHomogeneous | fft/src/fft/FFT.java:135-154 | The first c stages commute with scaling. |
| Spectrum.StagesHomogeneousStep | fft/src/fft/FFT.java:135-154 | Homogeneity of the first c-1 stages carries over to c stages. |
| Spectrum.BitReversedPlus | fft/src/fft/FFT.java:110-129 | Bit reversal of a sum is the sum of the bit reversals. |
| Spectrum.BitReversedTimes | fft/src/fft/FFT.java:110-129 | Bit reversal commutes with scaling. |
| Spectrum.TransformAdditive | fft/src/fft/FFT.java:104-155 | For fixed tables, fft(a + b) = fft(a) + fft(b) elementwise. |
| Spectrum.TransformHomogeneous | fft/src/fft/FFT.java:104-155 | For fixed tables, fft(c a) = c fft(a) elementwise. |
| Spectrum.Dft4 | fft/src/fft/FFT.java:92 | Definition: coefficient k of the 4-point DFT, the sum over j of x[j] exp(-2 pi i j k/4), with the roots of unity exact. |
| Spectrum.Turn | fft/src/fft/FFT.java:92 | Definition: multiplication by the 4th root of unity exp(-2 pi i e/4), written as a quarter turn clockwise per unit of e. |
| Spectrum.TurnIsMul | fft/src/fft/FFT.java:92 | The quarter turn equals the complex product with Root4(e), for every sample and every e. |
| Spectrum.Reordered4 | fft/src/fft/FFT.java:110-129 | For n = 4 the bit reversal swaps slots 1 and 2 and keeps 0 and 3. |
| Spectrum.FirstStage4 | fft/src/fft/FFT.java:140-153 | For n = 4, stage 0 combines slots (0, 1) and (2, 3) with twiddle 1. |
| Spectrum.SecondStage4 | fft/src/fft/FFT.java:140-153 | For n = 4, stage 1 combines (0, 2) with twiddle 1 and (1, 3) with twiddle -i. |
| Spectrum.Transform4 | fft/src/fft/FFT.java:135-137 | For n = 4 the transform is the bit reversal followed by stage 0 and stage 1. |
| Spectrum.Dft4ByStages | fft/src/fft/FFT.java:92 | The two butterfly stages over the reordered input produce the four DFT coefficients. |
| Spectrum.TransformIsDft4 | fft/src/fft/FFT.java:92 | With exact tables cos = [1, 0] and sin = [0, -1], fft of length 4 computes the DFT: coefficient k is the sum over j of x[j] exp(-2 pi i j k/4), for every input. |
| Spectrum.Dft4Parts | fft/src/fft/FFT.java:92 | The four DFT coefficients written out as sums and differences of the real and imaginary parts. |
| Spectrum.TransformParts4 | fft/src/fft/FFT.java:104-155 | With exact tables, the output of fft of length 4 written out as sums and differences of the input's real and imaginary parts. |
| Spectrum.TransformOfOnes4 | fft/src/fft/FFT.java:104-155 | fft of [1, 1, 1, 1] with exact tables is [4, 0, 0, 0]. |
| Spectrum.TransformOfRamp4 | fft/src/fft/FFT.java:104-155 | fft of [1, 2, 3, 4] with exact tables is [10, -2 + 2i, -2, -2 - 2i]. |
| Bits.SmallestPowerAbove | fft/src/fft/FFT.java:189-190 | Doubling from 1 cannot step over a power of two: any power of two above 2^(k-1) is at least 2^k. |
| Fft.NextPowTwo | fft/src/fft/FFT.java:187-192 | The result is a power of two that is at least N and no larger than any other such power of two. It is 1 when N <= 1, and below 2N when N >= 1. |

## Left out

- Floating point. Samples, tables and window values are exact reals. Rounding, NaN and infinities are not modelled. This includes the window's division by n - 1 = 0 when n = 1, which gives NaN in the source.
- Math.cos and Math.sin. Their values are the `Trig` parameter. The class is proved to store exactly those values, and every transform property holds for arbitrary table contents, except the n = 4 DFT lemmas, which assume the exact tables `Cos4`/`Sin4`.
- Fft.FFT.Create: the exponent is the exact floor of log2 n, or 0 below 1. The double-precision quotient `Math.log(n) / Math.log(2)` and its truncation are not modelled. The RuntimeException becomes a `Failure` result. The constructor itself takes the exponent and requires n == 2^m.
- Fft.FFT.Fft: requires x and y to have exactly n slots, as the method's header comment demands. Longer arrays, whose tail the source leaves alone, are not covered. Nor are shorter arrays. In Java these may throw ArrayIndexOutOfBoundsException, possibly after some swaps or butterflies have been written. With n - 1 slots the throw comes at the last butterfly of stage 0; with n = 2 and one slot it comes at the first read, before any write. For n = 1 no loop runs, so any arrays are accepted and left unchanged.
- Fft.FFT.Fft: requires x and y to be distinct arrays. The effect of aliasing x with y is not modelled. The window array may alias x or y, so nothing is promised about the window.
- Fft.FFT.Fft: the inner loops are separate methods: BitReverse, SwapIfBelow, Exchange, ReverseIncrement, ButterflyAt, ButterflyColumn and ButterflyStage. They perform the same updates in the same order.
- Fft.NextPowTwo: does not model 32-bit wrap-around. In Java, for N > 2^30 the doubling overflows to a negative value and then to 0, and the loop never ends. Here integers are unbounded.
- Integer widths elsewhere are unbounded. Every index used is below n, and a Java power of two n is at most 2^30, so no sum in fft overflows an int.
- The equality of `Transform` with the DFT sum, named in the header comment at line 92, is proved only for n = 4 with exact tables (`TransformIsDft4`). The general case needs a root-of-unity algebra for the tables.
- main, apart from lines 187-192, is left out: spreadsheet reading and writing, file paths, timing and console output. So are `beforeAfter` and `printReIm`, and `fft/src/org/apache/poi/ss/examples/CalendarDemo.java`, which only opens a spreadsheet.
