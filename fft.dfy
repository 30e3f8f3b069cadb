/**
 * The FFT class: lookup tables built once per transform length, a Blackman
 * window, and the in-place radix-2 decimation-in-time transform of a
 * complex frame held in two arrays x (real parts) and y (imaginary parts).
 *
 * Floating-point values are exact reals here. The trigonometric library is
 * a parameter (Trig), so the class is proved to store exactly what the
 * library returns and to compute Spectrum.Transform over the stored tables.
 */
module Fft {
  import opened Bits
  import opened Spectrum

  datatype Result<T> = Success(value: T) | Failure(error: string)

  /**
   * What Math.cos and Math.sin return: cos(a, d) stands for cos(2 pi a / d)
   * and sin(a, d) for sin(2 pi a / d).
   */
  datatype Trig = Trig(cos: (int, int) -> real, sin: (int, int) -> real)

  /** Blackman window value at i for length n: 0.42 - 0.5 cos(2 pi i/(n-1)) + 0.08 cos(4 pi i/(n-1)). */
  function Blackman(trig: Trig, i: int, n: int): real {
    0.42 - 0.5 * trig.cos(i, n - 1) + 0.08 * trig.cos(2 * i, n - 1)
  }

  /**
   * The state of the loop over column j of stage s, at index k: every index
   * of a column below j, and every index of column j below k, holds its
   * value after stage s of f; every other index still holds its value in f.
   */
  ghost predicate Staged(m: nat, cs: seq<real>, sn: seq<real>, s: nat, f: Frame, g: Frame, j: nat, k: nat)
    requires Tables(m, cs, sn) && s < m && Sized(f, Pow2(m)) && Sized(g, Pow2(m))
  {
    forall p :: 0 <= p < Pow2(m) ==>
      At(g, p) == if Low(p, s) < j || (Low(p, s) == j && p < k) then At(Spectrum.Stage(m, cs, sn, s, f), p) else At(f, p)
  }

  /**
   * One butterfly of column j at index k (and its partner k + 2^s) with the
   * twiddle of column j moves the column loop from k to k + 2^(s+1): both
   * slots now hold their values after stage s, and no other index of
   * column j lies in between.
   */
  lemma ColumnAdvance(m: nat, cs: seq<real>, sn: seq<real>, s: nat, f: Frame, g: Frame, g': Frame,
                      j: nat, k: nat, c: real, sv: real)
    requires Tables(m, cs, sn) && s < m && Sized(f, Pow2(m)) && Sized(g, Pow2(m)) && Sized(g', Pow2(m))
    requires Low(k, s + 1) == j && j < Pow2(s) && k < Pow2(m)
    requires c == cs[TwiddleIndex(m, s, j)] && sv == sn[TwiddleIndex(m, s, j)]
    requires Staged(m, cs, sn, s, f, g, j, k)
    requires k + Pow2(s) < Pow2(m)
    requires At(g', k) == Butterfly(true, At(g, k), At(g, k + Pow2(s)), c, sv)
    requires At(g', k + Pow2(s)) == Butterfly(false, At(g, k), At(g, k + Pow2(s)), c, sv)
    requires forall p :: 0 <= p < Pow2(m) && p != k && p != k + Pow2(s) ==> At(g', p) == At(g, p)
    ensures Low(k + Pow2(s + 1), s + 1) == j
    ensures Staged(m, cs, sn, s, f, g', j, k + Pow2(s + 1))
  {
    ColumnStep(k, j, s);
    assert At(g, k) == At(f, k) && At(g, k + Pow2(s)) == At(f, k + Pow2(s));
    ColumnPairValues(m, cs, sn, s, f, g, g', j, k, c, sv);
    StagedStep(m, cs, sn, s, f, g, g', j, k);
  }

  /** The two slots a butterfly of column j writes now hold their values after stage s. */
  lemma ColumnPairValues(m: nat, cs: seq<real>, sn: seq<real>, s: nat, f: Frame, g: Frame, g': Frame,
                         j: nat, k: nat, c: real, sv: real)
    requires Tables(m, cs, sn) && s < m && Sized(f, Pow2(m)) && Sized(g, Pow2(m)) && Sized(g', Pow2(m))
    requires Low(k, s + 1) == j && j < Pow2(s) && k < Pow2(m)
    requires c == cs[TwiddleIndex(m, s, j)] && sv == sn[TwiddleIndex(m, s, j)]
    requires k + Pow2(s) < Pow2(m)
    requires At(g, k) == At(f, k) && At(g, k + Pow2(s)) == At(f, k + Pow2(s))
    requires At(g', k) == Butterfly(true, At(g, k), At(g, k + Pow2(s)), c, sv)
    requires At(g', k + Pow2(s)) == Butterfly(false, At(g, k), At(g, k + Pow2(s)), c, sv)
    ensures At(g', k) == At(Spectrum.Stage(m, cs, sn, s, f), k)
    ensures At(g', k + Pow2(s)) == At(Spectrum.Stage(m, cs, sn, s, f), k + Pow2(s))
  {
    var h := Pow2(s);
    StagePair(m, cs, sn, s, f, k, j);
    StageIndex(m, cs, sn, s, f, k);
    StageIndex(m, cs, sn, s, f, k + h);
  }

  /**
   * Once both slots of the butterfly at k hold their stage-s values and
   * nothing else changed, the column loop may move from k to k + 2^(s+1):
   * no other index of column j lies in between.
   */
  lemma StagedStep(m: nat, cs: seq<real>, sn: seq<real>, s: nat, f: Frame, g: Frame, g': Frame, j: nat, k: nat)
    requires Tables(m, cs, sn) && s < m && Sized(f, Pow2(m)) && Sized(g, Pow2(m)) && Sized(g', Pow2(m))
    requires Low(k, s + 1) == j && j < Pow2(s) && k + Pow2(s) < Pow2(m)
    requires Staged(m, cs, sn, s, f, g, j, k)
    requires At(g', k) == At(Spectrum.Stage(m, cs, sn, s, f), k)
    requires At(g', k + Pow2(s)) == At(Spectrum.Stage(m, cs, sn, s, f), k + Pow2(s))
    requires forall p :: 0 <= p < Pow2(m) && p != k && p != k + Pow2(s) ==> At(g', p) == At(g, p)
    ensures Low(k + Pow2(s + 1), s + 1) == j
    ensures Staged(m, cs, sn, s, f, g', j, k + Pow2(s + 1))
  {
    ColumnStep(k, j, s);
    forall p | 0 <= p < Pow2(m) && p != k && p != k + Pow2(s)
      ensures (Low(p, s) == j && p < k + Pow2(s + 1)) <==> (Low(p, s) == j && p < k)
    {
      if Low(p, s) == j && p < k + Pow2(s + 1) {
        ColumnGap(k, j, s, p);
      }
    }
  }

  /** Before column j: the same state as after column j - 1. */
  lemma StagedColumnStart(m: nat, cs: seq<real>, sn: seq<real>, s: nat, f: Frame, g: Frame, j: nat)
    requires Tables(m, cs, sn) && s < m && Sized(f, Pow2(m)) && Sized(g, Pow2(m))
    requires Staged(m, cs, sn, s, f, g, j, 0)
    ensures Staged(m, cs, sn, s, f, g, j, j)
  {
  }

  /** Once k has run past the end, column j is finished. */
  lemma StagedColumnEnd(m: nat, cs: seq<real>, sn: seq<real>, s: nat, f: Frame, g: Frame, j: nat, k: nat)
    requires Tables(m, cs, sn) && s < m && Sized(f, Pow2(m)) && Sized(g, Pow2(m))
    requires Staged(m, cs, sn, s, f, g, j, k) && k >= Pow2(m)
    ensures Staged(m, cs, sn, s, f, g, j + 1, 0)
  {
  }

  /** With every column done the frame is the whole stage. */
  lemma StagedDone(m: nat, cs: seq<real>, sn: seq<real>, s: nat, f: Frame, g: Frame)
    requires Tables(m, cs, sn) && s < m && Sized(f, Pow2(m)) && Sized(g, Pow2(m))
    requires Staged(m, cs, sn, s, f, g, Pow2(s), 0)
    ensures g == Spectrum.Stage(m, cs, sn, s, f)
  {
    FrameExt(g, Spectrum.Stage(m, cs, sn, s, f), Pow2(m));
  }

  class FFT {
    const n: int
    const m: nat
    const cos: array<real>
    const sin: array<real>
    var window: array<real>
    /** The trigonometric library the tables were built with. */
    const trig: Trig

    /** n = 2^m, and each table has n / 2 entries. */
    ghost predicate Shape()
      reads this, cos, sin
    {
      n == Pow2(m) && cos.Length == n / 2 && sin.Length == n / 2
    }

    /** cos[i] = cos(-2 pi i / n) and sin[i] = sin(-2 pi i / n) for i < n / 2, n = 2^m. */
    ghost predicate TablesValid()
      reads this, cos, sin
    {
      Shape() &&
      (forall i :: 0 <= i < n / 2 ==> cos[i] == trig.cos(-i, n)) &&
      (forall i :: 0 <= i < n / 2 ==> sin[i] == trig.sin(-i, n))
    }

    /** The tables, and a Blackman window of n samples. */
    ghost predicate Valid()
      reads this, cos, sin, window
    {
      TablesValid() && window.Length == n &&
      forall i :: 0 <= i < n ==> window[i] == Blackman(trig, i, n)
    }

    /**
     * A transform of n = 2^m points: fills the tables and the window. The
     * power-of-two test that precedes this is Create.
     */
    constructor (n: int, m: nat, trig: Trig)
      requires n == Pow2(m)
      ensures Valid() && this.n == n && this.m == m && this.trig == trig
      ensures fresh(cos) && fresh(sin) && fresh(window)
    {
      this.n, this.m, this.trig := n, m, trig;
      cos := new real[n / 2];
      sin := new real[n / 2];
      window := new real[0];
      new;
      for i := 0 to n / 2
        invariant forall k :: 0 <= k < i ==> cos[k] == trig.cos(-k, n) && sin[k] == trig.sin(-k, n)
      {
        cos[i] := trig.cos(-i, n);
        sin[i] := trig.sin(-i, n);
      }
      MakeWindow();
    }

    /**
     * The constructor's guard: m is the floor of log2 n (0 when n < 1),
     * and the length is refused unless n == 1 << m.
     */
    static method Create(n: int, trig: Trig) returns (r: Result<FFT>)
      ensures r.Success? <==> IsPowerOfTwo(n)
      ensures r.Success? ==> fresh(r.value) && r.value.Valid() && r.value.n == n && r.value.trig == trig
      ensures r.Success? ==> fresh(r.value.cos) && fresh(r.value.sin) && fresh(r.value.window)
      ensures r.Failure? ==> r.error == "FFT length must be power of 2"
    {
      PowerOfTwoTest(n);
      var m: nat := if n >= 1 then FloorLog2(n) else 0;
      if n != Pow2(m) {
        return Failure("FFT length must be power of 2");
      }
      var f := new FFT(n, m, trig);
      return Success(f);
    }

    /** Replaces the window by a fresh Blackman window of n samples. */
    method MakeWindow()
      requires n == Pow2(m)
      modifies this
      ensures fresh(window) && window.Length == n
      ensures forall i :: 0 <= i < n ==> window[i] == Blackman(trig, i, n)
    {
      var w := new real[n];
      for i := 0 to w.Length
        invariant forall k :: 0 <= k < i ==> w[k] == Blackman(trig, k, n)
      {
        w[i] := Blackman(trig, i, n);
      }
      window := w;
    }

    /** The window array itself, not a copy. */
    method GetWindow() returns (w: array<real>)
      ensures w == window
      ensures Valid() ==> w.Length == n && forall i :: 0 <= i < n ==> w[i] == Blackman(trig, i, n)
    {
      w := window;
    }

    /**
     * The bit-reverse pass: j runs through the reversals of i = 1, 2, ...,
     * n - 2, computed by adding 1 at the top bit and carrying downwards,
     * and each pair (i, j) with i < j is exchanged in x and in y alike.
     */
    method BitReverse(x: array<real>, y: array<real>)
      requires n == Pow2(m) && x.Length == n && y.Length == n && x != y
      modifies x, y
      ensures x[..] == BitReversed(m, old(x[..])) && y[..] == BitReversed(m, old(y[..]))
    {
      ghost var sx, sy := x[..], y[..];
      SwappedBelowStart(m, sx);
      SwappedBelowStart(m, sy);
      RevEnds(m);
      var j := 0;
      var n2 := n / 2;
      var i := 1;
      while i < n - 1
        invariant 1 <= i <= n && (n > 1 ==> i < n)
        invariant j == Rev(m, i - 1)
        invariant SwappedBelow(m, sx, x[..], i) && SwappedBelow(m, sy, y[..], i)
      {
        RevNext(m, i, j);
        j := ReverseIncrement(j, n2);
        SwapIfBelow(x, y, i, j, sx, sy);
        i := i + 1;
      }
      if n > 1 {
        SwapAtStep(m, sx, x[..], n - 1);
        SwapAtStep(m, sy, y[..], n - 1);
      }
      SwappedBelowDone(m, sx, x[..]);
      SwappedBelowDone(m, sy, y[..]);
    }

    /**
     * The guarded swap of the bit-reverse pass at i, with j the reversal of
     * i: exchanging only when i < j settles slot i (and j) in both arrays.
     */
    method SwapIfBelow(x: array<real>, y: array<real>, i: int, j: int, ghost sx: seq<real>, ghost sy: seq<real>)
      requires x != y && 0 <= i < x.Length && j == Rev(m, i)
      requires SwappedBelow(m, sx, x[..], i) && SwappedBelow(m, sy, y[..], i)
      modifies x, y
      ensures x[..] == SwapAt(m, old(x[..]), i) && y[..] == SwapAt(m, old(y[..]), i)
      ensures SwappedBelow(m, sx, x[..], i + 1) && SwappedBelow(m, sy, y[..], i + 1)
    {
      SwapAtStep(m, sx, x[..], i);
      SwapAtStep(m, sy, y[..], i);
      if i < j {
        Exchange(x, y, i, j);
      }
    }

    /** The swap of the bit-reverse pass: x[i] with x[j], and y[i] with y[j] alongside. */
    static method Exchange(x: array<real>, y: array<real>, i: int, j: int)
      requires x != y && x.Length == y.Length && 0 <= i < x.Length && 0 <= j < x.Length
      modifies x, y
      ensures x[..] == old(x[..])[i := old(x[j])][j := old(x[i])]
      ensures y[..] == old(y[..])[i := old(y[j])][j := old(y[i])]
    {
      var t1 := x[i];
      x[i] := x[j];
      x[j] := t1;
      t1 := y[i];
      y[i] := y[j];
      y[j] := t1;
    }

    /**
     * The carry loop of the bit-reverse pass: starting from n1 = n / 2,
     * clear the top set bits of j one after another, then set the first
     * clear one.
     */
    method ReverseIncrement(j0: int, n2: int) returns (j: int)
      requires n == Pow2(m) && n2 == n / 2 && 0 <= j0 < n - 1
      ensures j == RevInc(m, j0)
    {
      assert m >= 1 && Pow2(m) == 2 * Pow2(m - 1);
      j := j0;
      ghost var e: nat := m - 1;
      var n1 := n2;
      while j >= n1
        invariant n1 == Pow2(e) && 0 <= j < Pow2(e + 1) - 1
        invariant RevInc(m, j0) == RevInc(e + 1, j)
        decreases n1
      {
        RevIncCarry(e, j);
        assert e >= 1 && Pow2(e) == 2 * Pow2(e - 1);
        j := j - n1;
        n1 := n1 / 2;
        e := e - 1;
      }
      RevIncStop(e, j);
      j := j + n1;
    }

    /**
     * One butterfly on the pair (k, k + n1) with twiddle (c, s): slot k
     * receives the upper output and slot k + n1 the lower one, and no
     * other slot of x or y changes.
     */
    method ButterflyAt(x: array<real>, y: array<real>, k: int, n1: int, c: real, s: real)
      requires x.Length == y.Length && x != y && 0 <= k && 0 < n1 && k + n1 < x.Length
      modifies x, y
      ensures Sized(Frame(x[..], y[..]), x.Length)
      ensures At(Frame(x[..], y[..]), k)
           == Butterfly(true, At(Frame(old(x[..]), old(y[..])), k), At(Frame(old(x[..]), old(y[..])), k + n1), c, s)
      ensures At(Frame(x[..], y[..]), k + n1)
           == Butterfly(false, At(Frame(old(x[..]), old(y[..])), k), At(Frame(old(x[..]), old(y[..])), k + n1), c, s)
      ensures forall p :: 0 <= p < x.Length && p != k && p != k + n1 ==>
                At(Frame(x[..], y[..]), p) == At(Frame(old(x[..]), old(y[..])), p)
    {
      ghost var u, v := At(Frame(x[..], y[..]), k), At(Frame(x[..], y[..]), k + n1);
      var t1 := c * x[k + n1] - s * y[k + n1];
      var t2 := s * x[k + n1] + c * y[k + n1];
      assert Complex(t1, t2) == Rotate(c, s, v);
      x[k + n1] := x[k] - t1;
      y[k + n1] := y[k] - t2;
      x[k] := x[k] + t1;
      y[k] := y[k] + t2;
      assert x[k] == u.re + t1 && y[k] == u.im + t2;
    }

    /**
     * The innermost loop for column j of stage s: the butterflies on
     * (k, k + n1) for k = j, j + n2, j + 2 n2, ... with the twiddle (c, s).
     */
    method ButterflyColumn(x: array<real>, y: array<real>, i: nat, n1: int, n2: int, j: int, c: real, s: real,
                           ghost f: Frame)
      requires Shape() && x.Length == n && y.Length == n && x != y
      requires i < m && n1 == Pow2(i) && n2 == n1 + n1 && 0 <= j < n1
      requires c == cos[TwiddleIndex(m, i, j)] && s == sin[TwiddleIndex(m, i, j)]
      requires Sized(f, n) && Staged(m, cos[..], sin[..], i, f, Frame(x[..], y[..]), j, 0)
      modifies x, y
      ensures Staged(m, cos[..], sin[..], i, f, Frame(x[..], y[..]), j + 1, 0)
    {
      assert Pow2(i + 1) == n2;
      ghost var cs, sn := cos[..], sin[..];
      assert Low(j, i + 1) == j by {
        Pow2Strict(i, i + 1);
      }
      StagedColumnStart(m, cs, sn, i, f, Frame(x[..], y[..]), j);
      var k := j;
      while k < n
        invariant Low(k, i + 1) == j
        invariant cs == cos[..] && sn == sin[..]
        invariant Staged(m, cs, sn, i, f, Frame(x[..], y[..]), j, k)
        decreases n - k
      {
        ghost var g := Frame(x[..], y[..]);
        PartnerInBounds(m, i, k);
        ButterflyAt(x, y, k, n1, c, s);
        ColumnAdvance(m, cs, sn, i, f, g, Frame(x[..], y[..]), j, k, c, s);
        k := k + n2;
      }
      StagedColumnEnd(m, cs, sn, i, f, Frame(x[..], y[..]), j, k);
    }

    /**
     * Stage i: for every column j < n1 = 2^i, read the twiddle at slot a,
     * then step a by 1 << (m - i - 1).
     */
    method ButterflyStage(x: array<real>, y: array<real>, i: nat, n1: int, n2: int)
      requires Shape() && x.Length == n && y.Length == n && x != y
      requires i < m && n1 == Pow2(i) && n2 == n1 + n1
      modifies x, y
      ensures Frame(x[..], y[..]) == Spectrum.Stage(m, cos[..], sin[..], i, Frame(old(x[..]), old(y[..])))
    {
      ghost var f := Frame(x[..], y[..]);
      ghost var cs, sn := cos[..], sin[..];
      ShlSucc(0, m - i - 1);
      var a := 0;
      for j := 0 to n1
        invariant a == Shl(j, m - i - 1)
        invariant cs == cos[..] && sn == sin[..]
        invariant Staged(m, cs, sn, i, f, Frame(x[..], y[..]), j, 0)
      {
        assert a == TwiddleIndex(m, i, j);
        var c := cos[a];
        var s := sin[a];
        ShlSucc(j, m - i - 1);
        a := a + Shl(1, m - i - 1);
        ButterflyColumn(x, y, i, n1, n2, j, c, s, f);
      }
      StagedDone(m, cs, sn, i, f, Frame(x[..], y[..]));
    }

    /**
     * FFT.fft: bit-reverse x and y together, then run the m butterfly
     * stages with n1 = 2^i and n2 = 2^(i+1). The result is the transform
     * over the stored tables; only x and y change.
     */
    method Fft(x: array<real>, y: array<real>)
      requires Shape() && x.Length == n && y.Length == n && x != y
      modifies x, y
      ensures Frame(x[..], y[..]) == Transform(m, cos[..], sin[..], Frame(old(x[..]), old(y[..])))
      ensures unchanged(this, cos, sin)
    {
      ghost var f := Frame(x[..], y[..]);
      BitReverse(x, y);
      ghost var g := Frame(x[..], y[..]);
      assert g == Reordered(m, f);
      ghost var cs, sn := cos[..], sin[..];
      var n1 := 0;
      var n2 := 1;
      for i := 0 to m
        invariant Shape() && cs == cos[..] && sn == sin[..]
        invariant n2 == Pow2(i)
        invariant Frame(x[..], y[..]) == Stages(m, cs, sn, i, g)
      {
        n1 := n2;
        n2 := n2 + n2;
        ghost var h := Frame(x[..], y[..]);
        ButterflyStage(x, y, i, n1, n2);
        StagesStep(m, cs, sn, i + 1, g, h);
      }
    }
  }

  /**
   * The padding length in main: the smallest power of two that is at
   * least N (1 when N <= 1), found by doubling from 1.
   */
  method NextPowTwo(N: int) returns (p: int)
    ensures IsPowerOfTwo(p) && p >= N
    ensures forall q :: IsPowerOfTwo(q) && q >= N ==> p <= q
    ensures N <= 1 ==> p == 1
    ensures N >= 1 ==> p < 2 * N
  {
    ghost var k: nat := 0;
    p := 1;
    while p < N
      invariant p == Pow2(k) && (p == 1 || p / 2 < N)
      decreases N - p
    {
      p := p + p;
      k := k + 1;
    }
    Pow2IsPowerOfTwo(k);
    forall q | IsPowerOfTwo(q) && q >= N
      ensures p <= q
    {
      SmallestPowerAbove(k, q);
    }
  }
}
