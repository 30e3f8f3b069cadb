/**
 * Integer index arithmetic behind the radix-2 transform: powers of two,
 * the exponent of a transform length, and the m-bit reversal of an index
 * together with the "reversed increment" that the bit-reverse loop of
 * FFT.fft performs with its carry loop.
 */
module Bits {

  /** 2^k. */
  function Pow2(k: nat): (r: nat)
    ensures r >= 1
  {
    if k == 0 then 1 else 2 * Pow2(k - 1)
  }

  /** An independent definition of "power of two": halve until 1. */
  predicate IsPowerOfTwo(n: int)
    decreases if n < 0 then 0 else n
  {
    n == 1 || (n >= 2 && n % 2 == 0 && IsPowerOfTwo(n / 2))
  }

  /** The largest k with 2^k <= n: the value (int)(log n / log 2) is meant to compute. */
  function FloorLog2(n: int): (k: nat)
    requires n >= 1
    ensures Pow2(k) <= n < Pow2(k + 1)
  {
    if n == 1 then 0 else 1 + FloorLog2(n / 2)
  }

  lemma {:induction false} Pow2Strict(a: nat, b: nat)
    requires a < b
    ensures Pow2(a) < Pow2(b)
  {
    if a + 1 < b {
      Pow2Strict(a, b - 1);
    }
  }

  /** Powers of two are exactly the values IsPowerOfTwo accepts. */
  lemma {:induction false} Pow2IsPowerOfTwo(k: nat)
    ensures IsPowerOfTwo(Pow2(k))
  {
    if k > 0 {
      Pow2IsPowerOfTwo(k - 1);
      assert Pow2(k) / 2 == Pow2(k - 1);
    }
  }

  /** The exponent of 2^k is k. */
  lemma {:induction false} FloorLog2OfPow2(k: nat)
    ensures FloorLog2(Pow2(k)) == k
  {
    var r := FloorLog2(Pow2(k));
    if r + 1 < k {
      Pow2Strict(r + 1, k);
    } else if r > k {
      Pow2Strict(k, r);
    }
  }

  /**
   * The constructor's test `n == 1 << m`, with m the floor of log2 n
   * (0 when n < 1), accepts exactly the powers of two.
   */
  lemma {:induction false} PowerOfTwoTest(n: int)
    ensures (n >= 1 && n == Pow2(FloorLog2(n))) <==> IsPowerOfTwo(n)
  {
    if n >= 1 && n == Pow2(FloorLog2(n)) {
      Pow2IsPowerOfTwo(FloorLog2(n));
    }
    if IsPowerOfTwo(n) {
      PowerOfTwoIsPow2(n);
    }
  }

  lemma {:induction false} PowerOfTwoIsPow2(n: int)
    requires IsPowerOfTwo(n)
    ensures n >= 1 && n == Pow2(FloorLog2(n))
    decreases if n < 0 then 0 else n
  {
    if n != 1 {
      PowerOfTwoIsPow2(n / 2);
    }
  }

  /**
   * A power of two above 2^(k-1) (any power of two when k = 0) is at least
   * 2^k: doubling from 1 cannot step over a power of two.
   */
  lemma SmallestPowerAbove(k: nat, q: int)
    requires IsPowerOfTwo(q) && (k == 0 || Pow2(k - 1) < q)
    ensures Pow2(k) <= q
  {
    PowerOfTwoIsPow2(q);
    var a := FloorLog2(q);
    if a < k - 1 {
      Pow2Strict(a, k - 1);
    } else if k < a {
      Pow2Strict(k, a);
    }
  }

  /** The m-bit reversal of i: bit t of i becomes bit m-1-t of the result. */
  function Rev(m: nat, i: nat): (r: nat)
    ensures r < Pow2(m)
  {
    if m == 0 then 0 else (if i % 2 == 1 then Pow2(m - 1) else 0) + Rev(m - 1, i / 2)
  }

  /**
   * Adding one at the top bit of an m-bit value r and carrying downwards:
   * the top bits that are set are cleared until the first clear one, which
   * is set. r must not be all ones, or the carry would run off the end.
   */
  function RevInc(m: nat, r: nat): (s: nat)
    requires r < Pow2(m) - 1
    ensures s < Pow2(m)
  {
    if r < Pow2(m - 1) then r + Pow2(m - 1) else RevInc(m - 1, r - Pow2(m - 1))
  }

  /** One round of the carry: the top bit of r < 2^(e+1) - 1 is set, clear it and go on one bit lower. */
  lemma RevIncCarry(e: nat, r: nat)
    requires Pow2(e) <= r < Pow2(e + 1) - 1
    ensures r - Pow2(e) < Pow2(e) - 1
    ensures RevInc(e + 1, r) == RevInc(e, r - Pow2(e))
  {
  }

  /** The end of the carry: the top bit of r is clear, so it is set. */
  lemma RevIncStop(e: nat, r: nat)
    requires r < Pow2(e)
    ensures RevInc(e + 1, r) == r + Pow2(e)
  {
  }

  /** The top bit of an m-bit index becomes the low bit of its reversal. */
  lemma {:induction false} RevTop(m: nat, top: bool, l: nat)
    requires m >= 1 && l < Pow2(m - 1)
    ensures Rev(m, (if top then Pow2(m - 1) else 0) + l) == 2 * Rev(m - 1, l) + (if top then 1 else 0)
  {
    if m == 1 {
      assert Pow2(0) == 1 && l == 0;
      assert Rev(1, if top then 1 else 0) == (if top then 1 else 0) + Rev(0, 0);
    } else {
      var i := (if top then Pow2(m - 1) else 0) + l;
      assert Pow2(m - 1) == 2 * Pow2(m - 2);
      assert i % 2 == l % 2 && i / 2 == (if top then Pow2(m - 2) else 0) + l / 2;
      RevTop(m - 1, top, l / 2);
      var low := if l % 2 == 1 then Pow2(m - 2) else 0;
      assert Rev(m - 1, l) == low + Rev(m - 2, l / 2);
      assert Rev(m, i) == 2 * low + Rev(m - 1, i / 2);
    }
  }

  /** Bit reversal is its own inverse, so it is a bijection on [0, 2^m). */
  lemma {:induction false} RevInvolution(m: nat, i: nat)
    requires i < Pow2(m)
    ensures Rev(m, Rev(m, i)) == i
  {
    if m > 0 {
      RevInvolution(m - 1, i / 2);
      RevTop(m, i % 2 == 1, Rev(m - 1, i / 2));
    }
  }

  lemma RevInjective(m: nat, i: nat, j: nat)
    requires i < Pow2(m) && j < Pow2(m) && Rev(m, i) == Rev(m, j)
    ensures i == j
  {
    RevInvolution(m, i);
    RevInvolution(m, j);
  }

  /** The first and the last index are their own reversals. */
  lemma {:induction false} RevEnds(m: nat)
    ensures Rev(m, 0) == 0 && Rev(m, Pow2(m) - 1) == Pow2(m) - 1
  {
    if m > 0 {
      RevEnds(m - 1);
      assert (Pow2(m) - 1) / 2 == Pow2(m - 1) - 1;
    }
  }

  /** Reversal of an even index and of its successor. */
  lemma RevOfEven(m: nat, x: nat)
    requires m >= 1 && x % 2 == 0
    ensures Rev(m, x) == Rev(m - 1, x / 2)
    ensures Rev(m, x + 1) == Pow2(m - 1) + Rev(m - 1, x / 2)
  {
    assert (x + 1) / 2 == x / 2;
  }

  /** Reversal of an odd index and of its successor. */
  lemma RevOfOdd(m: nat, x: nat)
    requires m >= 1 && x % 2 == 1
    ensures Rev(m, x) == Pow2(m - 1) + Rev(m - 1, x / 2)
    ensures Rev(m, x + 1) == Rev(m - 1, x / 2 + 1)
  {
    assert (x + 1) / 2 == x / 2 + 1;
  }

  /**
   * Incrementing an index reverse-increments its reversal; this is what
   * keeps j equal to the reversal of i in the bit-reverse loop.
   */
  lemma {:induction false} RevSucc(m: nat, x: nat)
    requires x + 1 < Pow2(m)
    ensures Rev(m, x) < Pow2(m) - 1
    ensures Rev(m, x + 1) == RevInc(m, Rev(m, x))
  {
    assert m >= 1 && Pow2(m) == 2 * Pow2(m - 1);
    if x % 2 == 0 {
      RevOfEven(m, x);
    } else {
      RevOfOdd(m, x);
      RevSucc(m - 1, x / 2);
    }
  }

  /** The bit-reverse loop's step: if j is the reversal of i - 1, its reversed increment is the reversal of i. */
  lemma RevNext(m: nat, i: nat, j: nat)
    requires 0 < i < Pow2(m) - 1 && j == Rev(m, i - 1)
    ensures j < Pow2(m) - 1 && RevInc(m, j) == Rev(m, i)
  {
    RevSucc(m, i - 1);
  }

  /** Pairs {i, Rev(m, i)} with i < Rev(m, i) never share an index. */
  lemma SwapPairsDisjoint(m: nat, i: nat, k: nat)
    requires i < Pow2(m) && k < Pow2(m) && i != k
    requires i < Rev(m, i) && k < Rev(m, k)
    ensures i != Rev(m, k) && k != Rev(m, i) && Rev(m, i) != Rev(m, k)
  {
    RevInvolution(m, i);
    RevInvolution(m, k);
  }

  // ---------------------------------------------------------------------
  // Division facts used to locate an index inside a butterfly block.

  /** x << e: x shifted left by e bits, x * 2^e. */
  function Shl(x: nat, e: nat): nat {
    if e == 0 then x else 2 * Shl(x, e - 1)
  }

  lemma {:induction false} ShlBound(x: nat, s: nat, e: nat)
    requires x < Pow2(s)
    ensures Shl(x, e) < Pow2(s + e)
  {
    if e > 0 {
      ShlBound(x, s, e - 1);
    }
  }

  /** Shifting x + 1 adds 2^e to the shift of x; shifting 0 gives 0. */
  lemma {:induction false} ShlSucc(x: nat, e: nat)
    ensures Shl(x + 1, e) == Shl(x, e) + Pow2(e)
    ensures Shl(0, e) == 0
  {
    if e > 0 {
      ShlSucc(x, e - 1);
    }
  }

  /**
   * At stage s the twiddle index j << (m-s-1) of a within-block position
   * j < 2^s lies in a table of 2^m / 2 entries.
   */
  lemma TwiddleIndexInBounds(m: nat, s: nat, j: nat)
    requires s < m && j < Pow2(s)
    ensures Shl(j, m - s - 1) < Pow2(m) / 2
  {
    ShlBound(j, s, m - s - 1);
    assert Pow2(m) == 2 * Pow2(m - 1);
  }

  // ---------------------------------------------------------------------
  // Position of an index inside the blocks of a butterfly stage.

  /**
   * p mod 2^c: the offset of p within its block of 2^c indices, found by
   * stepping back one block at a time.
   */
  function Low(p: nat, c: nat): (r: nat)
    ensures r < Pow2(c) && r <= p
    decreases p
  {
    if p < Pow2(c) then p else Low(p - Pow2(c), c)
  }

  /** Moving by a whole block of 2^c keeps the offset. */
  lemma LowShift(p: nat, c: nat)
    ensures Low(p + Pow2(c), c) == Low(p, c)
  {
  }

  /**
   * The offset in a block of 2^(s+1) is the offset in a half-block of 2^s,
   * plus 2^s in the lower half.
   */
  lemma {:induction false} LowSplit(p: nat, s: nat)
    ensures Low(p, s) == if Low(p, s + 1) < Pow2(s) then Low(p, s + 1) else Low(p, s + 1) - Pow2(s)
    decreases p
  {
    var h := Pow2(s);
    assert Pow2(s + 1) == 2 * h;
    if p >= 2 * h {
      LowSplit(p - 2 * h, s);
      assert Low(p, s) == Low(p - h, s) == Low(p - 2 * h, s);
    } else if p >= h {
      assert Low(p, s) == Low(p - h, s);
    }
  }

  /** Adding x to p stays inside p's block when the offset stays below 2^c. */
  lemma {:induction false} LowAddSmall(p: nat, x: nat, c: nat)
    requires Low(p, c) + x < Pow2(c)
    ensures Low(p + x, c) == Low(p, c) + x
    decreases p
  {
    if p >= Pow2(c) {
      LowAddSmall(p - Pow2(c), x, c);
      assert p + x - Pow2(c) == p - Pow2(c) + x;
    }
  }

  /** Adding a whole number of blocks keeps the offset. */
  lemma {:induction false} LowAddBlocks(a: nat, x: nat, c: nat)
    requires Low(a, c) == 0
    ensures Low(a + x, c) == Low(x, c)
    decreases a
  {
    if a >= Pow2(c) {
      LowAddBlocks(a - Pow2(c), x, c);
      assert a + x - Pow2(c) == a - Pow2(c) + x;
    }
  }

  /** The start p - Low(p, c) of p's block has offset 0. */
  lemma {:induction false} BlockStart(p: nat, c: nat)
    ensures Low(p - Low(p, c), c) == 0
    decreases p
  {
    if p >= Pow2(c) {
      BlockStart(p - Pow2(c), c);
      LowShift(p - Pow2(c) - Low(p, c), c);
      assert p - Pow2(c) - Low(p, c) + Pow2(c) == p - Low(p, c);
    }
  }

  /** 2^m is a whole number of blocks of 2^c when c <= m. */
  lemma {:induction false} LowOfPow2(m: nat, c: nat)
    requires c <= m
    ensures Low(Pow2(m), c) == 0
  {
    if m == c {
      assert Low(Pow2(m), c) == Low(0, c);
    } else {
      LowOfPow2(m - 1, c);
      LowAddBlocks(Pow2(m - 1), Pow2(m - 1), c);
    }
  }

  /** Two different indices with the same offset lie at least a block apart. */
  lemma {:induction false} LowGap(p: nat, q: nat, c: nat)
    requires Low(p, c) == Low(q, c) && p < q
    ensures p + Pow2(c) <= q
    decreases q
  {
    if q - Pow2(c) < p {
      assert q >= Pow2(c);
      LowGap(q - Pow2(c), p, c);
    }
  }

  /** Inside [0, 2^m) a block of 2^c (c <= m) ends at or before 2^m. */
  lemma BlockBound(p: nat, c: nat, m: nat)
    requires c <= m && p < Pow2(m)
    ensures p - Low(p, c) + Pow2(c) <= Pow2(m)
  {
    BlockStart(p, c);
    LowOfPow2(m, c);
    LowGap(p - Low(p, c), Pow2(m), c);
  }

  /**
   * Index k at column j < 2^s of its block of 2^(s+1): k sits at column j
   * of its half-block too, k + 2^s is at column j of the lower half, and the
   * next block's k + 2^(s+1) is again at column j.
   */
  lemma ColumnStep(k: nat, j: nat, s: nat)
    requires Low(k, s + 1) == j && j < Pow2(s)
    ensures Low(k, s) == j
    ensures Low(k + Pow2(s), s + 1) == j + Pow2(s) && Low(k + Pow2(s), s) == j
    ensures Low(k + Pow2(s + 1), s + 1) == j
  {
    assert Pow2(s + 1) == 2 * Pow2(s);
    LowSplit(k, s);
    LowAddSmall(k, Pow2(s), s + 1);
    LowSplit(k + Pow2(s), s);
    LowShift(k, s + 1);
  }

  /**
   * Between k and the next block's k + 2^(s+1), the only index at column j
   * of the half-blocks is k + 2^s.
   */
  lemma ColumnGap(k: nat, j: nat, s: nat, p: nat)
    requires Low(k, s + 1) == j && j < Pow2(s) && Low(p, s) == j && p < k + Pow2(s + 1)
    ensures p < k || p == k || p == k + Pow2(s)
  {
    assert Pow2(s + 1) == 2 * Pow2(s);
    ColumnStep(k, j, s);
    if k < p {
      LowGap(k, p, s);
      if k + Pow2(s) < p {
        LowGap(k + Pow2(s), p, s);
      }
    }
  }

  /** An index in the upper half of its block of 2^(s+1) has its partner k + 2^s inside [0, 2^m). */
  lemma PartnerInBounds(m: nat, s: nat, k: nat)
    requires s < m && k < Pow2(m) && Low(k, s + 1) < Pow2(s)
    ensures k + Pow2(s) < Pow2(m)
  {
    assert Pow2(s + 1) == 2 * Pow2(s);
    BlockBound(k, s + 1, m);
  }
}
