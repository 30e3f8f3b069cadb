/**
 * What FFT.fft computes, stated on values: a frame of real and imaginary
 * parts is first permuted into bit-reversed order and then passed through
 * m butterfly stages that read the cosine and sine tables. Sample values
 * are exact reals; the tables are arbitrary sequences of the right length,
 * so every property below holds whatever the trigonometric library returns
 * unless a lemma says otherwise.
 */
module Spectrum {
  import opened Bits

  /** A complex sample: real part re, imaginary part im. */
  datatype Complex = Complex(re: real, im: real)

  /** One complex frame: the x (real) and y (imaginary) arrays of FFT.fft. */
  datatype Frame = Frame(re: seq<real>, im: seq<real>)

  predicate Sized(f: Frame, n: nat) {
    |f.re| == n && |f.im| == n
  }

  /** A transform of 2^m points: its tables hold 2^m / 2 entries each. */
  predicate Tables(m: nat, cs: seq<real>, sn: seq<real>) {
    |cs| == Pow2(m) / 2 && |sn| == Pow2(m) / 2
  }

  /**
   * The bit-reverse permutation: slot p receives the sample at Rev(m, p),
   * so that the sample at index i ends up at index Rev(m, i).
   */
  function BitReversed(m: nat, s: seq<real>): (r: seq<real>)
    requires |s| == Pow2(m)
    ensures |r| == |s|
  {
    seq(|s|, p requires 0 <= p < |s| => s[Rev(m, p)])
  }

  /** The sample at index i ends up at index Rev(m, i). */
  lemma BitReversedMoves(m: nat, s: seq<real>, i: nat)
    requires |s| == Pow2(m) && i < |s|
    ensures BitReversed(m, s)[Rev(m, i)] == s[i]
  {
    RevInvolution(m, i);
  }

  /** The first and the last sample stay where they are. */
  lemma BitReversedEnds(m: nat, s: seq<real>)
    requires |s| == Pow2(m)
    ensures BitReversed(m, s)[0] == s[0] && BitReversed(m, s)[|s| - 1] == s[|s| - 1]
  {
    RevEnds(m);
  }

  /**
   * The state of the bit-reverse loop before index i: every pair
   * {p, Rev(m, p)} with an index below i has been exchanged, every other
   * slot still holds its original sample.
   */
  predicate SwappedBelow(m: nat, s: seq<real>, t: seq<real>, i: nat) {
    |s| == Pow2(m) && |t| == |s| &&
    forall p :: 0 <= p < |s| ==> t[p] == (if p < i || Rev(m, p) < i then s[Rev(m, p)] else s[p])
  }

  /** One pass of the bit-reverse loop at index i: exchange t[i] and t[Rev(m, i)] when i < Rev(m, i). */
  function SwapAt(m: nat, t: seq<real>, i: nat): (r: seq<real>)
    requires |t| == Pow2(m) && i < |t|
    ensures |r| == |t|
  {
    var j := Rev(m, i);
    if i < j then t[i := t[j]][j := t[i]] else t
  }

  /**
   * Exchanging at i moves the loop state from "below i" to "below i + 1"
   * and keeps the multiset of samples.
   */
  lemma SwapAtStep(m: nat, s: seq<real>, t: seq<real>, i: nat)
    requires SwappedBelow(m, s, t, i) && i < |s|
    ensures SwappedBelow(m, s, SwapAt(m, t, i), i + 1)
    ensures multiset(SwapAt(m, t, i)) == multiset(t)
  {
    var j := Rev(m, i);
    RevInvolution(m, i);
    var r := SwapAt(m, t, i);
    forall p | 0 <= p < |s|
      ensures r[p] == (if p < i + 1 || Rev(m, p) < i + 1 then s[Rev(m, p)] else s[p])
    {
      RevInvolution(m, p);
    }
  }

  /** Before the loop: index 0 is its own reversal, so nothing is due below 1. */
  lemma SwappedBelowStart(m: nat, s: seq<real>)
    requires |s| == Pow2(m)
    ensures SwappedBelow(m, s, s, 1)
  {
    RevEnds(m);
    forall p | 0 <= p < |s| && Rev(m, p) < 1
      ensures p == 0
    {
      RevInjective(m, p, 0);
    }
  }

  /** After the loop every slot holds its bit-reversed sample. */
  lemma SwappedBelowDone(m: nat, s: seq<real>, t: seq<real>)
    requires SwappedBelow(m, s, t, |s|)
    ensures t == BitReversed(m, s)
  {
  }

  /** The bit-reverse permutation neither adds nor drops a sample. */
  lemma {:induction false} BitReversedIsPermutation(m: nat, s: seq<real>)
    requires |s| == Pow2(m)
    ensures multiset(BitReversed(m, s)) == multiset(s)
  {
    var t, i := s, 0;
    while i < |s|
      invariant i <= |s| && SwappedBelow(m, s, t, i)
      invariant multiset(t) == multiset(s)
    {
      SwapAtStep(m, s, t, i);
      t, i := SwapAt(m, t, i), i + 1;
    }
    SwappedBelowDone(m, s, t);
  }

  /** Sample q of a frame as a pair (x[q], y[q]). */
  function At(f: Frame, q: nat): Complex
    requires q < |f.re| && q < |f.im|
  {
    Complex(f.re[q], f.im[q])
  }

  /** The frame in bit-reversed order, x and y permuted alike. */
  function Reordered(m: nat, f: Frame): (r: Frame)
    requires Sized(f, Pow2(m))
    ensures Sized(r, Pow2(m))
  {
    Frame(BitReversed(m, f.re), BitReversed(m, f.im))
  }

  /** x[i] and y[i] travel together to index Rev(m, i). */
  lemma ReorderedMoves(m: nat, f: Frame, i: nat)
    requires Sized(f, Pow2(m)) && i < Pow2(m)
    ensures At(Reordered(m, f), Rev(m, i)) == At(f, i)
  {
    BitReversedMoves(m, f.re, i);
    BitReversedMoves(m, f.im, i);
  }

  /** Two frames of one size are equal when they agree at every index. */
  lemma FrameExt(f: Frame, g: Frame, n: nat)
    requires Sized(f, n) && Sized(g, n)
    requires forall p :: 0 <= p < n ==> At(f, p) == At(g, p)
    ensures f == g
  {
    forall p | 0 <= p < n
      ensures f.re[p] == g.re[p] && f.im[p] == g.im[p]
    {
      assert At(f, p) == At(g, p);
    }
    assert f.re == g.re && f.im == g.im;
  }

  // ---------------------------------------------------------------------
  // Butterfly stages

  /**
   * The twiddle-table slot read at stage s for column o < 2^s: o times the
   * stride 2^(m-s-1). It always lies inside the tables of 2^m / 2 entries.
   */
  function TwiddleIndex(m: nat, s: nat, o: nat): (a: nat)
    requires s < m && o < Pow2(s)
    ensures a < Pow2(m) / 2
  {
    TwiddleIndexInBounds(m, s, o);
    Shl(o, m - s - 1)
  }

  /** The complex product (c + i s)(z.re + i z.im): lines t1 and t2 of a butterfly. */
  function Rotate(c: real, s: real, z: Complex): Complex {
    Complex(c * z.re - s * z.im, s * z.re + c * z.im)
  }

  /**
   * One output of a butterfly on the pair (u, v) with twiddle (c, s): the
   * upper slot gets u + t, the lower slot u - t, where t is v rotated.
   */
  function Butterfly(upper: bool, u: Complex, v: Complex, c: real, s: real): Complex {
    var t := Rotate(c, s, v);
    if upper then Complex(u.re + t.re, u.im + t.im) else Complex(u.re - t.re, u.im - t.im)
  }

  /**
   * Sample p after butterfly stage s of frame f. Stage s pairs every index
   * whose offset in its block of 2^(s+1) is below 2^s (the upper half) with
   * the index 2^s further on (the lower half); both use the twiddle of the
   * column Low(p, s). The upper slot receives u + t and the lower u - t.
   */
  function StageAt(m: nat, cs: seq<real>, sn: seq<real>, s: nat, f: Frame, p: nat): Complex
    requires Tables(m, cs, sn) && s < m && Sized(f, Pow2(m)) && p < Pow2(m)
  {
    var h := Pow2(s);
    var a := TwiddleIndex(m, s, Low(p, s));
    if Low(p, s + 1) < h then
      PartnerInBounds(m, s, p);
      Butterfly(true, At(f, p), At(f, p + h), cs[a], sn[a])
    else
      Butterfly(false, At(f, p - h), At(f, p), cs[a], sn[a])
  }

  /** The first q samples after butterfly stage s, one index after another. */
  function StagePrefix(m: nat, cs: seq<real>, sn: seq<real>, s: nat, f: Frame, q: nat): (r: Frame)
    requires Tables(m, cs, sn) && s < m && Sized(f, Pow2(m)) && q <= Pow2(m)
    ensures Sized(r, q)
  {
    if q == 0 then Frame([], [])
    else
      var r, z := StagePrefix(m, cs, sn, s, f, q - 1), StageAt(m, cs, sn, s, f, q - 1);
      Frame(r.re + [z.re], r.im + [z.im])
  }

  lemma {:induction false} StagePrefixAt(m: nat, cs: seq<real>, sn: seq<real>, s: nat, f: Frame, q: nat, p: nat)
    requires Tables(m, cs, sn) && s < m && Sized(f, Pow2(m)) && p < q <= Pow2(m)
    ensures At(StagePrefix(m, cs, sn, s, f, q), p) == StageAt(m, cs, sn, s, f, p)
  {
    if p < q - 1 {
      StagePrefixAt(m, cs, sn, s, f, q - 1, p);
    }
  }

  /** The frame after butterfly stage s. */
  function Stage(m: nat, cs: seq<real>, sn: seq<real>, s: nat, f: Frame): (r: Frame)
    requires Tables(m, cs, sn) && s < m && Sized(f, Pow2(m))
    ensures Sized(r, Pow2(m))
  {
    StagePrefix(m, cs, sn, s, f, Pow2(m))
  }

  /** Sample p of the frame after stage s. */
  lemma StageIndex(m: nat, cs: seq<real>, sn: seq<real>, s: nat, f: Frame, p: nat)
    requires Tables(m, cs, sn) && s < m && Sized(f, Pow2(m)) && p < Pow2(m)
    ensures At(Stage(m, cs, sn, s, f), p) == StageAt(m, cs, sn, s, f, p)
  {
    StagePrefixAt(m, cs, sn, s, f, Pow2(m), p);
  }

  /** The frame after the first c stages 0, 1, ..., c - 1. */
  function Stages(m: nat, cs: seq<real>, sn: seq<real>, c: nat, g: Frame): (r: Frame)
    requires Tables(m, cs, sn) && c <= m && Sized(g, Pow2(m))
    ensures Sized(r, Pow2(m))
  {
    if c == 0 then g else Stage(m, cs, sn, c - 1, Stages(m, cs, sn, c - 1, g))
  }

  /** One more stage on a frame already known to be the first c - 1 stages of g. */
  lemma StagesStep(m: nat, cs: seq<real>, sn: seq<real>, c: nat, g: Frame, h: Frame)
    requires Tables(m, cs, sn) && 0 < c <= m && Sized(g, Pow2(m))
    requires h == Stages(m, cs, sn, c - 1, g)
    ensures Stages(m, cs, sn, c, g) == Stage(m, cs, sn, c - 1, h)
  {
  }

  /** The whole transform: bit-reverse, then all m stages. */
  function Transform(m: nat, cs: seq<real>, sn: seq<real>, f: Frame): (r: Frame)
    requires Tables(m, cs, sn) && Sized(f, Pow2(m))
    ensures Sized(r, Pow2(m))
  {
    Stages(m, cs, sn, m, Reordered(m, f))
  }

  // ---------------------------------------------------------------------
  // Butterfly pairs

  /**
   * Stage s splits [0, 2^m) into disjoint pairs (k, k + 2^s), k in the upper
   * half of its block at column j < 2^s: the partner k + 2^s lies inside the
   * frame in the lower half of the same block, at the same column j, and the
   * two outputs are the sum and the difference of one butterfly on the two
   * inputs with the twiddle of slot TwiddleIndex(m, s, j).
   */
  lemma StagePair(m: nat, cs: seq<real>, sn: seq<real>, s: nat, f: Frame, k: nat, j: nat)
    requires Tables(m, cs, sn) && s < m && Sized(f, Pow2(m)) && k < Pow2(m)
    requires Low(k, s + 1) == j && j < Pow2(s)
    ensures k + Pow2(s) < Pow2(m)
    ensures Low(k + Pow2(s), s + 1) == j + Pow2(s) && Low(k + Pow2(s), s) == j
    ensures var a := TwiddleIndex(m, s, j);
      StageAt(m, cs, sn, s, f, k) == Butterfly(true, At(f, k), At(f, k + Pow2(s)), cs[a], sn[a]) &&
      StageAt(m, cs, sn, s, f, k + Pow2(s)) == Butterfly(false, At(f, k), At(f, k + Pow2(s)), cs[a], sn[a])
  {
    PartnerInBounds(m, s, k);
    ColumnStep(k, j, s);
  }

  /** Every index in a lower half is the partner of the index 2^s before it. */
  lemma LowerPartner(s: nat, p: nat)
    requires Low(p, s + 1) >= Pow2(s)
    ensures p >= Pow2(s) && Low(p - Pow2(s), s + 1) == Low(p, s + 1) - Pow2(s) < Pow2(s)
  {
    assert Pow2(s + 1) == 2 * Pow2(s);
    BlockStart(p, s + 1);
    LowAddSmall(p - Low(p, s + 1), Low(p, s + 1) - Pow2(s), s + 1);
    assert p - Low(p, s + 1) + (Low(p, s + 1) - Pow2(s)) == p - Pow2(s);
  }

  /** The other index of the butterfly that index p takes part in at stage s. */
  function Partner(s: nat, p: nat): nat {
    if Low(p, s + 1) < Pow2(s) then p + Pow2(s) else p - Pow2(s)
  }

  /**
   * Stage s splits [0, 2^m) into butterfly pairs: Partner is an involution
   * without fixed points, keeps the column, stays in bounds, and exactly
   * one index of each pair is the upper slot.
   */
  lemma PartnerPairs(m: nat, s: nat, p: nat)
    requires s < m && p < Pow2(m)
    ensures Partner(s, p) < Pow2(m) && Partner(s, p) != p
    ensures Partner(s, Partner(s, p)) == p
    ensures Low(Partner(s, p), s) == Low(p, s)
    ensures (Low(p, s + 1) < Pow2(s)) != (Low(Partner(s, p), s + 1) < Pow2(s))
  {
    var h := Pow2(s);
    if Low(p, s + 1) < h {
      PartnerInBounds(m, s, p);
      ColumnStep(p, Low(p, s + 1), s);
    } else {
      LowerPartner(s, p);
      var q := p - h;
      ColumnStep(q, Low(q, s + 1), s);
      assert q + h == p;
    }
  }


  // ---------------------------------------------------------------------
  // Known values

  function Zeros(n: nat): (f: Frame)
    ensures Sized(f, n)
    ensures forall i :: 0 <= i < n ==> At(f, i) == Complex(0.0, 0.0)
  {
    Frame(seq(n, _ => 0.0), seq(n, _ => 0.0))
  }

  /** Real part 1 on the first w samples, 0 everywhere else. */
  function Front(n: nat, w: nat): (f: Frame)
    ensures Sized(f, n)
    ensures forall i :: 0 <= i < n ==> At(f, i) == Complex(if i < w then 1.0 else 0.0, 0.0)
  {
    Frame(seq(n, i => if i < w then 1.0 else 0.0), seq(n, _ => 0.0))
  }

  /** A unit impulse at index 0, real part 1. */
  function Impulse(n: nat): (f: Frame)
    ensures Sized(f, n)
    ensures forall i :: 0 <= i < n ==> At(f, i) == Complex(if i == 0 then 1.0 else 0.0, 0.0)
  {
    Front(n, 1)
  }

  /** A butterfly whose partner is zero passes u through unchanged. */
  lemma ButterflyOfZeroPartner(upper: bool, u: Complex, c: real, s: real)
    ensures Butterfly(upper, u, Complex(0.0, 0.0), c, s) == u
  {
    assert Rotate(c, s, Complex(0.0, 0.0)) == Complex(0.0, 0.0);
  }

  /** A butterfly on two zeros gives zero. */
  lemma StageOfZero(m: nat, cs: seq<real>, sn: seq<real>, s: nat)
    requires Tables(m, cs, sn) && s < m
    ensures Stage(m, cs, sn, s, Zeros(Pow2(m))) == Zeros(Pow2(m))
  {
    var z := Zeros(Pow2(m));
    forall p | 0 <= p < Pow2(m)
      ensures At(Stage(m, cs, sn, s, z), p) == At(z, p)
    {
      StageIndex(m, cs, sn, s, z, p);
      var a := TwiddleIndex(m, s, Low(p, s));
      if Low(p, s + 1) < Pow2(s) {
        PartnerInBounds(m, s, p);
      }
      ButterflyOfZeroPartner(Low(p, s + 1) < Pow2(s), Complex(0.0, 0.0), cs[a], sn[a]);
    }
    FrameExt(Stage(m, cs, sn, s, z), z, Pow2(m));
  }

  lemma {:induction false} StagesOfZero(m: nat, cs: seq<real>, sn: seq<real>, c: nat)
    requires Tables(m, cs, sn) && c <= m
    ensures Stages(m, cs, sn, c, Zeros(Pow2(m))) == Zeros(Pow2(m))
  {
    if c > 0 {
      StagesOfZero(m, cs, sn, c - 1);
      StageOfZero(m, cs, sn, c - 1);
    }
  }

  /** An all-zero frame stays all zero, whatever the tables hold. */
  lemma TransformOfZero(m: nat, cs: seq<real>, sn: seq<real>)
    requires Tables(m, cs, sn)
    ensures Transform(m, cs, sn, Zeros(Pow2(m))) == Zeros(Pow2(m))
  {
    var z := Zeros(Pow2(m));
    assert BitReversed(m, z.re) == z.re;
    assert BitReversed(m, z.im) == z.im;
    assert Reordered(m, z) == z;
    StagesOfZero(m, cs, sn, m);
  }

  /**
   * Stage s doubles a front of 2^s ones: in every pair the lower input is
   * zero, so the butterfly copies the upper input into both slots.
   */
  lemma StageOfFront(m: nat, cs: seq<real>, sn: seq<real>, s: nat)
    requires Tables(m, cs, sn) && s < m
    ensures Stage(m, cs, sn, s, Front(Pow2(m), Pow2(s))) == Front(Pow2(m), Pow2(s + 1))
  {
    var n, h := Pow2(m), Pow2(s);
    var f, g := Front(n, h), Front(n, Pow2(s + 1));
    assert Pow2(s + 1) == 2 * h;
    forall p | 0 <= p < n
      ensures At(Stage(m, cs, sn, s, f), p) == At(g, p)
    {
      StageIndex(m, cs, sn, s, f, p);
      var a := TwiddleIndex(m, s, Low(p, s));
      if Low(p, s + 1) < h {
        PartnerInBounds(m, s, p);
        assert p < 2 * h ==> Low(p, s + 1) == p;
        ButterflyOfZeroPartner(true, At(f, p), cs[a], sn[a]);
      } else {
        ButterflyOfZeroPartner(false, At(f, p - h), cs[a], sn[a]);
      }
    }
    FrameExt(Stage(m, cs, sn, s, f), g, n);
  }

  lemma {:induction false} StagesOfImpulse(m: nat, cs: seq<real>, sn: seq<real>, c: nat)
    requires Tables(m, cs, sn) && c <= m
    ensures Stages(m, cs, sn, c, Impulse(Pow2(m))) == Front(Pow2(m), Pow2(c))
  {
    if c > 0 {
      StagesOfImpulse(m, cs, sn, c - 1);
      StageOfFront(m, cs, sn, c - 1);
    }
  }

  /** Bit reversal leaves the unit impulse in place. */
  lemma ReorderedImpulse(m: nat)
    ensures Reordered(m, Impulse(Pow2(m))) == Impulse(Pow2(m))
  {
    var f := Impulse(Pow2(m));
    RevEnds(m);
    forall i | 0 <= i < Pow2(m)
      ensures At(Reordered(m, f), i) == At(f, i)
    {
      if Rev(m, i) == 0 {
        RevInjective(m, i, 0);
      }
      assert At(f, Rev(m, i)) == Complex(if Rev(m, i) == 0 then 1.0 else 0.0, 0.0);
    }
    FrameExt(Reordered(m, f), f, Pow2(m));
  }

  /**
   * A unit impulse becomes a flat spectrum: every x is 1 and every y is 0,
   * whatever the tables hold.
   */
  lemma TransformOfImpulse(m: nat, cs: seq<real>, sn: seq<real>)
    requires Tables(m, cs, sn)
    ensures forall p :: 0 <= p < Pow2(m) ==> At(Transform(m, cs, sn, Impulse(Pow2(m))), p) == Complex(1.0, 0.0)
  {
    ReorderedImpulse(m);
    StagesOfImpulse(m, cs, sn, m);
  }

  // ---------------------------------------------------------------------
  // Linearity

  /** Elementwise sum of two sample sequences. */
  function Plus(s: seq<real>, t: seq<real>): (r: seq<real>)
    requires |s| == |t|
    ensures |r| == |s| && forall i :: 0 <= i < |s| ==> r[i] == s[i] + t[i]
  {
    seq(|s|, i requires 0 <= i < |s| => s[i] + t[i])
  }

  /** Every sample multiplied by c. */
  function Times(c: real, s: seq<real>): (r: seq<real>)
    ensures |r| == |s| && forall i :: 0 <= i < |s| ==> r[i] == c * s[i]
  {
    seq(|s|, i requires 0 <= i < |s| => c * s[i])
  }

  /** Complex sum and real multiple of a sample. */
  function ComplexPlus(u: Complex, v: Complex): Complex {
    Complex(u.re + v.re, u.im + v.im)
  }

  function ComplexTimes(c: real, u: Complex): Complex {
    Complex(c * u.re, c * u.im)
  }

  function Add(f: Frame, g: Frame): (r: Frame)
    requires |f.re| == |g.re| && |f.im| == |g.im|
    ensures |r.re| == |f.re| && |r.im| == |f.im|
  {
    Frame(Plus(f.re, g.re), Plus(f.im, g.im))
  }

  function Scale(c: real, f: Frame): (r: Frame)
    ensures |r.re| == |f.re| && |r.im| == |f.im|
  {
    Frame(Times(c, f.re), Times(c, f.im))
  }

  lemma AddAt(f: Frame, g: Frame, q: nat)
    requires |f.re| == |g.re| && |f.im| == |g.im| && q < |f.re| && q < |f.im|
    ensures At(Add(f, g), q) == ComplexPlus(At(f, q), At(g, q))
  {
  }

  lemma ScaleAt(c: real, f: Frame, q: nat)
    requires q < |f.re| && q < |f.im|
    ensures At(Scale(c, f), q) == ComplexTimes(c, At(f, q))
  {
  }

  lemma RotateAdditive(c: real, s: real, v: Complex, v': Complex)
    ensures Rotate(c, s, ComplexPlus(v, v')) == ComplexPlus(Rotate(c, s, v), Rotate(c, s, v'))
  {
    assert c * (v.re + v'.re) == c * v.re + c * v'.re;
    assert s * (v.im + v'.im) == s * v.im + s * v'.im;
    assert s * (v.re + v'.re) == s * v.re + s * v'.re;
    assert c * (v.im + v'.im) == c * v.im + c * v'.im;
  }

  lemma RotateHomogeneous(c: real, s: real, v: Complex, k: real)
    ensures Rotate(c, s, ComplexTimes(k, v)) == ComplexTimes(k, Rotate(c, s, v))
  {
    assert c * (k * v.re) == k * (c * v.re);
    assert s * (k * v.im) == k * (s * v.im);
    assert s * (k * v.re) == k * (s * v.re);
    assert c * (k * v.im) == k * (c * v.im);
    assert k * (c * v.re - s * v.im) == k * (c * v.re) - k * (s * v.im);
    assert k * (s * v.re + c * v.im) == k * (s * v.re) + k * (c * v.im);
  }

  /** A butterfly is additive in its pair of inputs. */
  lemma ButterflyAdditive(upper: bool, u: Complex, v: Complex, u': Complex, v': Complex, c: real, s: real)
    ensures Butterfly(upper, ComplexPlus(u, u'), ComplexPlus(v, v'), c, s)
         == ComplexPlus(Butterfly(upper, u, v, c, s), Butterfly(upper, u', v', c, s))
  {
    RotateAdditive(c, s, v, v');
  }

  /** A butterfly commutes with scaling both inputs. */
  lemma ButterflyHomogeneous(upper: bool, u: Complex, v: Complex, c: real, s: real, k: real)
    ensures Butterfly(upper, ComplexTimes(k, u), ComplexTimes(k, v), c, s) == ComplexTimes(k, Butterfly(upper, u, v, c, s))
  {
    RotateHomogeneous(c, s, v, k);
    var t := Rotate(c, s, v);
    assert k * (u.re + t.re) == k * u.re + k * t.re;
    assert k * (u.im + t.im) == k * u.im + k * t.im;
    assert k * (u.re - t.re) == k * u.re - k * t.re;
    assert k * (u.im - t.im) == k * u.im - k * t.im;
  }

  /** Each stage is additive. */
  lemma StageAdditive(m: nat, cs: seq<real>, sn: seq<real>, s: nat, f: Frame, g: Frame)
    requires Tables(m, cs, sn) && s < m && Sized(f, Pow2(m)) && Sized(g, Pow2(m))
    ensures Stage(m, cs, sn, s, Add(f, g)) == Add(Stage(m, cs, sn, s, f), Stage(m, cs, sn, s, g))
  {
    var l, r := Stage(m, cs, sn, s, Add(f, g)), Add(Stage(m, cs, sn, s, f), Stage(m, cs, sn, s, g));
    forall p | 0 <= p < Pow2(m)
      ensures At(l, p) == At(r, p)
    {
      StageIndex(m, cs, sn, s, Add(f, g), p);
      StageIndex(m, cs, sn, s, f, p);
      StageIndex(m, cs, sn, s, g, p);
      AddAt(Stage(m, cs, sn, s, f), Stage(m, cs, sn, s, g), p);
      StageAtAdditive(m, cs, sn, s, f, g, p);
    }
    FrameExt(l, r, Pow2(m));
  }

  /** The output of one stage at one index, for a sum of frames. */
  lemma StageAtAdditive(m: nat, cs: seq<real>, sn: seq<real>, s: nat, f: Frame, g: Frame, p: nat)
    requires Tables(m, cs, sn) && s < m && Sized(f, Pow2(m)) && Sized(g, Pow2(m)) && p < Pow2(m)
    ensures StageAt(m, cs, sn, s, Add(f, g), p) == ComplexPlus(StageAt(m, cs, sn, s, f, p), StageAt(m, cs, sn, s, g, p))
  {
    var h, a := Pow2(s), TwiddleIndex(m, s, Low(p, s));
    if Low(p, s + 1) < h {
      PartnerInBounds(m, s, p);
      AddAt(f, g, p);
      AddAt(f, g, p + h);
      ButterflyAdditive(true, At(f, p), At(f, p + h), At(g, p), At(g, p + h), cs[a], sn[a]);
    } else {
      AddAt(f, g, p - h);
      AddAt(f, g, p);
      ButterflyAdditive(false, At(f, p - h), At(f, p), At(g, p - h), At(g, p), cs[a], sn[a]);
    }
  }

  /** Each stage commutes with scaling. */
  lemma StageHomogeneous(m: nat, cs: seq<real>, sn: seq<real>, s: nat, c: real, f: Frame)
    requires Tables(m, cs, sn) && s < m && Sized(f, Pow2(m))
    ensures Stage(m, cs, sn, s, Scale(c, f)) == Scale(c, Stage(m, cs, sn, s, f))
  {
    var l, r := Stage(m, cs, sn, s, Scale(c, f)), Scale(c, Stage(m, cs, sn, s, f));
    forall p | 0 <= p < Pow2(m)
      ensures At(l, p) == At(r, p)
    {
      StageIndex(m, cs, sn, s, Scale(c, f), p);
      StageIndex(m, cs, sn, s, f, p);
      ScaleAt(c, Stage(m, cs, sn, s, f), p);
      StageAtHomogeneous(m, cs, sn, s, c, f, p);
    }
    FrameExt(l, r, Pow2(m));
  }

  /** The output of one stage at one index, for a scaled frame. */
  lemma StageAtHomogeneous(m: nat, cs: seq<real>, sn: seq<real>, s: nat, c: real, f: Frame, p: nat)
    requires Tables(m, cs, sn) && s < m && Sized(f, Pow2(m)) && p < Pow2(m)
    ensures StageAt(m, cs, sn, s, Scale(c, f), p) == ComplexTimes(c, StageAt(m, cs, sn, s, f, p))
  {
    var h, a := Pow2(s), TwiddleIndex(m, s, Low(p, s));
    if Low(p, s + 1) < h {
      PartnerInBounds(m, s, p);
      ScaleAt(c, f, p);
      ScaleAt(c, f, p + h);
      ButterflyHomogeneous(true, At(f, p), At(f, p + h), cs[a], sn[a], c);
    } else {
      ScaleAt(c, f, p - h);
      ScaleAt(c, f, p);
      ButterflyHomogeneous(false, At(f, p - h), At(f, p), cs[a], sn[a], c);
    }
  }

  lemma {:induction false} StagesAdditive(m: nat, cs: seq<real>, sn: seq<real>, c: nat, f: Frame, g: Frame)
    requires Tables(m, cs, sn) && c <= m && Sized(f, Pow2(m)) && Sized(g, Pow2(m))
    ensures Stages(m, cs, sn, c, Add(f, g)) == Add(Stages(m, cs, sn, c, f), Stages(m, cs, sn, c, g))
  {
    if c > 0 {
      StagesAdditive(m, cs, sn, c - 1, f, g);
      StagesAdditiveStep(m, cs, sn, c, f, g);
    }
  }

  lemma StagesAdditiveStep(m: nat, cs: seq<real>, sn: seq<real>, c: nat, f: Frame, g: Frame)
    requires Tables(m, cs, sn) && 0 < c <= m && Sized(f, Pow2(m)) && Sized(g, Pow2(m))
    requires Stages(m, cs, sn, c - 1, Add(f, g)) == Add(Stages(m, cs, sn, c - 1, f), Stages(m, cs, sn, c - 1, g))
    ensures Stages(m, cs, sn, c, Add(f, g)) == Add(Stages(m, cs, sn, c, f), Stages(m, cs, sn, c, g))
  {
    var sf, sg := Stages(m, cs, sn, c - 1, f), Stages(m, cs, sn, c - 1, g);
    StagesStep(m, cs, sn, c, f, sf);
    StagesStep(m, cs, sn, c, g, sg);
    StagesStep(m, cs, sn, c, Add(f, g), Add(sf, sg));
    StageAdditive(m, cs, sn, c - 1, sf, sg);
    var x, y := Stage(m, cs, sn, c - 1, sf), Stage(m, cs, sn, c - 1, sg);
    calc {
      Stages(m, cs, sn, c, Add(f, g));
      Stage(m, cs, sn, c - 1, Add(sf, sg));
      Add(x, y);
      Add(Stages(m, cs, sn, c, f), Stages(m, cs, sn, c, g));
    }
  }

  lemma {:induction false} StagesHomogeneous(m: nat, cs: seq<real>, sn: seq<real>, c: nat, k: real, f: Frame)
    requires Tables(m, cs, sn) && c <= m && Sized(f, Pow2(m))
    ensures Stages(m, cs, sn, c, Scale(k, f)) == Scale(k, Stages(m, cs, sn, c, f))
  {
    if c > 0 {
      StagesHomogeneous(m, cs, sn, c - 1, k, f);
      StagesHomogeneousStep(m, cs, sn, c, k, f);
    }
  }

  lemma StagesHomogeneousStep(m: nat, cs: seq<real>, sn: seq<real>, c: nat, k: real, f: Frame)
    requires Tables(m, cs, sn) && 0 < c <= m && Sized(f, Pow2(m))
    requires Stages(m, cs, sn, c - 1, Scale(k, f)) == Scale(k, Stages(m, cs, sn, c - 1, f))
    ensures Stages(m, cs, sn, c, Scale(k, f)) == Scale(k, Stages(m, cs, sn, c, f))
  {
    var sf := Stages(m, cs, sn, c - 1, f);
    StagesStep(m, cs, sn, c, f, sf);
    StagesStep(m, cs, sn, c, Scale(k, f), Scale(k, sf));
    StageHomogeneous(m, cs, sn, c - 1, k, sf);
    var x := Stage(m, cs, sn, c - 1, sf);
    assert Scale(k, Stages(m, cs, sn, c, f)) == Scale(k, x);
  }

  lemma BitReversedPlus(m: nat, s: seq<real>, t: seq<real>)
    requires |s| == Pow2(m) && |t| == Pow2(m)
    ensures BitReversed(m, Plus(s, t)) == Plus(BitReversed(m, s), BitReversed(m, t))
  {
    var l, r := BitReversed(m, Plus(s, t)), Plus(BitReversed(m, s), BitReversed(m, t));
    forall p | 0 <= p < |s|
      ensures l[p] == r[p]
    {
      assert l[p] == Plus(s, t)[Rev(m, p)];
    }
  }

  lemma BitReversedTimes(m: nat, c: real, s: seq<real>)
    requires |s| == Pow2(m)
    ensures BitReversed(m, Times(c, s)) == Times(c, BitReversed(m, s))
  {
    var l, r := BitReversed(m, Times(c, s)), Times(c, BitReversed(m, s));
    forall p | 0 <= p < |s|
      ensures l[p] == r[p]
    {
      assert l[p] == Times(c, s)[Rev(m, p)];
    }
  }

  /** For fixed tables the transform is additive: fft(a + b) == fft(a) + fft(b). */
  lemma TransformAdditive(m: nat, cs: seq<real>, sn: seq<real>, f: Frame, g: Frame)
    requires Tables(m, cs, sn) && Sized(f, Pow2(m)) && Sized(g, Pow2(m))
    ensures Transform(m, cs, sn, Add(f, g)) == Add(Transform(m, cs, sn, f), Transform(m, cs, sn, g))
  {
    BitReversedPlus(m, f.re, g.re);
    BitReversedPlus(m, f.im, g.im);
    assert Reordered(m, Add(f, g)) == Add(Reordered(m, f), Reordered(m, g));
    StagesAdditive(m, cs, sn, m, Reordered(m, f), Reordered(m, g));
  }

  /** For fixed tables the transform commutes with scaling: fft(c a) == c fft(a). */
  lemma TransformHomogeneous(m: nat, cs: seq<real>, sn: seq<real>, c: real, f: Frame)
    requires Tables(m, cs, sn) && Sized(f, Pow2(m))
    ensures Transform(m, cs, sn, Scale(c, f)) == Scale(c, Transform(m, cs, sn, f))
  {
    BitReversedTimes(m, c, f.re);
    BitReversedTimes(m, c, f.im);
    assert Reordered(m, Scale(c, f)) == Scale(c, Reordered(m, f));
    StagesHomogeneous(m, cs, sn, m, c, Reordered(m, f));
  }

  // Four points: the transform is the discrete Fourier transform

  /** Complex product. */
  function Mul(u: Complex, v: Complex): Complex {
    Complex(u.re * v.re - u.im * v.im, u.re * v.im + u.im * v.re)
  }

  /** The root of unity exp(-2 pi i e / 4), exactly. */
  function Root4(e: nat): Complex {
    var r := e % 4;
    if r == 0 then Complex(1.0, 0.0)
    else if r == 1 then Complex(0.0, -1.0)
    else if r == 2 then Complex(-1.0, 0.0)
    else Complex(0.0, 1.0)
  }

  /** u times Root4(e), written out: a quarter turn clockwise per unit of e. */
  function Turn(u: Complex, e: nat): Complex {
    var r := e % 4;
    if r == 0 then u
    else if r == 1 then Complex(u.im, -u.re)
    else if r == 2 then Complex(-u.re, -u.im)
    else Complex(-u.im, u.re)
  }

  /** A quarter turn per unit of e is the complex product with Root4(e). */
  lemma TurnIsMul(u: Complex, e: nat)
    ensures Turn(u, e) == Mul(u, Root4(e))
  {
  }

  /** Coefficient k of the 4-point DFT: the sum over j of f[j] exp(-2 pi i j k / 4). */
  function Dft4(f: Frame, k: nat): Complex
    requires Sized(f, 4)
  {
    ComplexPlus(ComplexPlus(Turn(At(f, 0), 0), Turn(At(f, 1), k)),
                ComplexPlus(Turn(At(f, 2), 2 * k), Turn(At(f, 3), 3 * k)))
  }

  /** The four DFT coefficients written out in real and imaginary parts. */
  lemma Dft4Parts(f: Frame)
    requires Sized(f, 4)
    ensures var a0, a1, a2, a3 := f.re[0], f.re[1], f.re[2], f.re[3];
      var b0, b1, b2, b3 := f.im[0], f.im[1], f.im[2], f.im[3];
      && Dft4(f, 0) == Complex(a0 + a1 + a2 + a3, b0 + b1 + b2 + b3)
      && Dft4(f, 1) == Complex(a0 + b1 - a2 - b3, b0 - a1 - b2 + a3)
      && Dft4(f, 2) == Complex(a0 - a1 + a2 - a3, b0 - b1 + b2 - b3)
      && Dft4(f, 3) == Complex(a0 - b1 - a2 + b3, b0 + a1 - b2 - a3)
  {
  }

  /** The tables an FFT of length 4 holds when cos and sin are exact: cos(-2 pi i / 4) for i = 0, 1. */
  const Cos4: seq<real> := [1.0, 0.0]
  /** sin(-2 pi i / 4) for i = 0, 1. */
  const Sin4: seq<real> := [0.0, -1.0]

  /** Bit reversal on two bits swaps slots 1 and 2 and keeps 0 and 3. */
  lemma Reordered4(f: Frame)
    requires Sized(f, 4)
    ensures At(Reordered(2, f), 0) == At(f, 0) && At(Reordered(2, f), 1) == At(f, 2)
    ensures At(Reordered(2, f), 2) == At(f, 1) && At(Reordered(2, f), 3) == At(f, 3)
  {
    assert Pow2(2) == 4;
    assert Rev(2, 0) == 0 && Rev(2, 1) == 2 && Rev(2, 2) == 1 && Rev(2, 3) == 3;
    ReorderedMoves(2, f, 0);
    ReorderedMoves(2, f, 1);
    ReorderedMoves(2, f, 2);
    ReorderedMoves(2, f, 3);
  }

  /** Stage 0 of length 4 combines neighbours with twiddle 1. */
  lemma FirstStage4(g: Frame)
    requires Sized(g, 4)
    ensures At(Stage(2, Cos4, Sin4, 0, g), 0) == Butterfly(true, At(g, 0), At(g, 1), 1.0, 0.0)
    ensures At(Stage(2, Cos4, Sin4, 0, g), 1) == Butterfly(false, At(g, 0), At(g, 1), 1.0, 0.0)
    ensures At(Stage(2, Cos4, Sin4, 0, g), 2) == Butterfly(true, At(g, 2), At(g, 3), 1.0, 0.0)
    ensures At(Stage(2, Cos4, Sin4, 0, g), 3) == Butterfly(false, At(g, 2), At(g, 3), 1.0, 0.0)
  {
    StageIndex(2, Cos4, Sin4, 0, g, 0);
    StageIndex(2, Cos4, Sin4, 0, g, 1);
    StageIndex(2, Cos4, Sin4, 0, g, 2);
    StageIndex(2, Cos4, Sin4, 0, g, 3);
  }

  /** Stage 1 of length 4 combines slots two apart, with twiddles 1 and -i. */
  lemma SecondStage4(g: Frame)
    requires Sized(g, 4)
    ensures At(Stage(2, Cos4, Sin4, 1, g), 0) == Butterfly(true, At(g, 0), At(g, 2), 1.0, 0.0)
    ensures At(Stage(2, Cos4, Sin4, 1, g), 1) == Butterfly(true, At(g, 1), At(g, 3), 0.0, -1.0)
    ensures At(Stage(2, Cos4, Sin4, 1, g), 2) == Butterfly(false, At(g, 0), At(g, 2), 1.0, 0.0)
    ensures At(Stage(2, Cos4, Sin4, 1, g), 3) == Butterfly(false, At(g, 1), At(g, 3), 0.0, -1.0)
  {
    StageIndex(2, Cos4, Sin4, 1, g, 0);
    StageIndex(2, Cos4, Sin4, 1, g, 1);
    StageIndex(2, Cos4, Sin4, 1, g, 2);
    StageIndex(2, Cos4, Sin4, 1, g, 3);
  }

  /** A transform of length 4 is the bit reversal followed by stages 0 and 1. */
  lemma Transform4(f: Frame)
    requires Sized(f, 4)
    ensures var g := Reordered(2, f);
      Transform(2, Cos4, Sin4, f) == Stage(2, Cos4, Sin4, 1, Stage(2, Cos4, Sin4, 0, g))
  {
    var g := Reordered(2, f);
    StagesStep(2, Cos4, Sin4, 1, g, g);
    StagesStep(2, Cos4, Sin4, 2, g, Stage(2, Cos4, Sin4, 0, g));
  }

  /** The 4-point DFT written out from the two butterfly stages. */
  lemma Dft4ByStages(f: Frame, g: Frame, h: Frame, t: Frame)
    requires Sized(f, 4) && Sized(g, 4) && Sized(h, 4) && Sized(t, 4)
    requires At(g, 0) == At(f, 0) && At(g, 1) == At(f, 2) && At(g, 2) == At(f, 1) && At(g, 3) == At(f, 3)
    requires At(h, 0) == Butterfly(true, At(g, 0), At(g, 1), 1.0, 0.0)
    requires At(h, 1) == Butterfly(false, At(g, 0), At(g, 1), 1.0, 0.0)
    requires At(h, 2) == Butterfly(true, At(g, 2), At(g, 3), 1.0, 0.0)
    requires At(h, 3) == Butterfly(false, At(g, 2), At(g, 3), 1.0, 0.0)
    requires At(t, 0) == Butterfly(true, At(h, 0), At(h, 2), 1.0, 0.0)
    requires At(t, 1) == Butterfly(true, At(h, 1), At(h, 3), 0.0, -1.0)
    requires At(t, 2) == Butterfly(false, At(h, 0), At(h, 2), 1.0, 0.0)
    requires At(t, 3) == Butterfly(false, At(h, 1), At(h, 3), 0.0, -1.0)
    ensures At(t, 0) == Dft4(f, 0) && At(t, 1) == Dft4(f, 1)
    ensures At(t, 2) == Dft4(f, 2) && At(t, 3) == Dft4(f, 3)
  {
  }

  /**
   * With exact tables, the in-place transform of length 4 computes the
   * discrete Fourier transform of its input, coefficient by coefficient.
   */
  lemma TransformIsDft4(f: Frame)
    requires Sized(f, 4)
    ensures forall k :: 0 <= k < 4 ==> At(Transform(2, Cos4, Sin4, f), k) == Dft4(f, k)
  {
    var g := Reordered(2, f);
    var h := Stage(2, Cos4, Sin4, 0, g);
    var t := Stage(2, Cos4, Sin4, 1, h);
    Transform4(f);
    Reordered4(f);
    FirstStage4(g);
    SecondStage4(h);
    Dft4ByStages(f, g, h, t);
    forall k | 0 <= k < 4
      ensures At(t, k) == Dft4(f, k)
    {
      assert k == 0 || k == 1 || k == 2 || k == 3;
    }
  }

  /** The transform of length 4 with exact tables, written out in real and imaginary parts. */
  lemma TransformParts4(f: Frame)
    requires Sized(f, 4)
    ensures var t := Transform(2, Cos4, Sin4, f);
      var a0, a1, a2, a3 := f.re[0], f.re[1], f.re[2], f.re[3];
      var b0, b1, b2, b3 := f.im[0], f.im[1], f.im[2], f.im[3];
      && At(t, 0) == Complex(a0 + a1 + a2 + a3, b0 + b1 + b2 + b3)
      && At(t, 1) == Complex(a0 + b1 - a2 - b3, b0 - a1 - b2 + a3)
      && At(t, 2) == Complex(a0 - a1 + a2 - a3, b0 - b1 + b2 - b3)
      && At(t, 3) == Complex(a0 - b1 - a2 + b3, b0 + a1 - b2 - a3)
  {
    var t := Transform(2, Cos4, Sin4, f);
    assert At(t, 0) == Dft4(f, 0) && At(t, 1) == Dft4(f, 1) by { TransformIsDft4(f); }
    assert At(t, 2) == Dft4(f, 2) && At(t, 3) == Dft4(f, 3) by { TransformIsDft4(f); }
    Dft4Parts(f);
  }

  /** The worked example: fft([1, 2, 3, 4]) == [10, -2 + 2i, -2, -2 - 2i]. */
  lemma TransformOfRamp4(f: Frame)
    requires Sized(f, 4)
    requires At(f, 0) == Complex(1.0, 0.0) && At(f, 1) == Complex(2.0, 0.0)
    requires At(f, 2) == Complex(3.0, 0.0) && At(f, 3) == Complex(4.0, 0.0)
    ensures At(Transform(2, Cos4, Sin4, f), 0) == Complex(10.0, 0.0)
    ensures At(Transform(2, Cos4, Sin4, f), 1) == Complex(-2.0, 2.0)
    ensures At(Transform(2, Cos4, Sin4, f), 2) == Complex(-2.0, 0.0)
    ensures At(Transform(2, Cos4, Sin4, f), 3) == Complex(-2.0, -2.0)
  {
    TransformParts4(f);
  }

  /** A constant input concentrates in coefficient 0: fft([1, 1, 1, 1]) == [4, 0, 0, 0]. */
  lemma TransformOfOnes4(f: Frame)
    requires Sized(f, 4)
    requires At(f, 0) == Complex(1.0, 0.0) && At(f, 1) == Complex(1.0, 0.0)
    requires At(f, 2) == Complex(1.0, 0.0) && At(f, 3) == Complex(1.0, 0.0)
    ensures At(Transform(2, Cos4, Sin4, f), 0) == Complex(4.0, 0.0)
    ensures At(Transform(2, Cos4, Sin4, f), 1) == Complex(0.0, 0.0)
    ensures At(Transform(2, Cos4, Sin4, f), 2) == Complex(0.0, 0.0)
    ensures At(Transform(2, Cos4, Sin4, f), 3) == Complex(0.0, 0.0)
  {
    TransformParts4(f);
  }
}
