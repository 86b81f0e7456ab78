/**
The vector polynomials of the range proof: the bits of the values, the vectors l(x) and r(x),
and the constant term t0 of their inner product. n stands for the package constant N, the
number of bits of a value.
*/
module Polynomial {
  import opened Algebra
  import opened Bits
  import opened Outcome
  import opened Sequences
  import opened Vectors

  // ---------- Values and their bits ----------

  function FromNat<F>(f: Field<F>, k: nat): F {
    if k == 0 then f.zero else f.Add(FromNat(f, k - 1), f.one)
  }

  function Two<F>(f: Field<F>): F {
    f.Add(f.one, f.one)
  }

  function BitScalar<F>(f: Field<F>, b: bool): F {
    if b then f.one else f.zero
  }

  // The lowest n bits of v as scalars, lowest first.
  function BitsOf<F>(f: Field<F>, v: nat, n: nat): (r: seq<F>)
    ensures |r| == n && forall i :: 0 <= i < n ==> r[i] == BitScalar(f, Bit(v, i))
    decreases n
  {
    if n == 0 then [] else [BitScalar(f, v % 2 == 1)] + BitsOf(f, v / 2, n - 1)
  }

  function Minus1<F>(f: Field<F>, a: seq<F>): (r: seq<F>)
    ensures |r| == |a|
  {
    AddV(Self(f), a, Repeat(f.Neg(f.one), |a|))
  }

  method BitCommit<F(!new)>(f: Field<F>, v: nat, n: nat) returns (aL: seq<F>, aR: seq<F>)
    requires IsField(f)
    ensures aL == BitsOf(f, v % Pow2(n), n)
    ensures aR == Minus1(f, aL)
  {
    SelfIsModule(f);
    AddZero(f, Self(f), f.Neg(f.one));
    AddNeg(f, Self(f), f.one);
    var num := v % Pow2(n);
    ghost var low := num;
    aL, aR := [], [];
    for i := 0 to n
      invariant |aL| == |aR| == i
      invariant num == Shr(low, i)
      invariant forall j :: 0 <= j < i ==> aL[j] == BitScalar(f, Bit(low, j)) && aR[j] == f.Add(aL[j], f.Neg(f.one))
    {
      ShrNext(low, i);
      if num % 2 == 0 {
        aL, aR := aL + [f.zero], aR + [f.Neg(f.one)];
      } else {
        aL, aR := aL + [f.one], aR + [f.zero];
      }
      num := num / 2;
    }
    assert aR == Minus1(f, aL);
  }

  lemma {:induction false} ShrNext(x: nat, i: nat)
    ensures Shr(x, i + 1) == Shr(x, i) / 2
    ensures Bit(x, i) <==> Shr(x, i) % 2 == 1
    decreases i
  {
    if i != 0 {
      ShrNext(x / 2, i - 1);
    }
  }

  lemma {:induction false} FromNatAdd<F(!new)>(f: Field<F>, j: nat, k: nat)
    requires IsField(f)
    ensures FromNat(f, j + k) == f.Add(FromNat(f, j), FromNat(f, k))
  {
    SelfIsModule(f);
    if k == 0 {
      AddZero(f, Self(f), FromNat(f, j));
    } else {
      FromNatAdd(f, j, k - 1);
      AddAssoc(f, Self(f), FromNat(f, j), FromNat(f, k - 1), f.one);
    }
  }

  lemma Doubled<F(!new)>(f: Field<F>, k: nat)
    requires IsField(f)
    ensures FromNat(f, 2 * k) == f.Mul(Two(f), FromNat(f, k))
  {
    var x := FromNat(f, k);
    FromNatAdd(f, k, k);
    SelfIsModule(f);
    ScaleSum(f, Self(f), f.one, f.one, x);
    MulOne(f, x);
  }

  // Powers of x from the second on are x times the powers of x.
  lemma {:induction false} PowersTail<F(!new)>(f: Field<F>, x: F, n: nat)
    requires IsField(f) && n > 0
    ensures Powers(f, x, n)[1..] == ScaleV(Self(f), x, Powers(f, x, n - 1))
  {
    forall i | 0 <= i < n - 1 ensures Pow(f, x, i + 1) == f.Mul(x, Pow(f, x, i)) {
      MulComm(f, Pow(f, x, i), x);
    }
    var p, q := Powers(f, x, n), Powers(f, x, n - 1);
    forall i | 0 <= i < n - 1 ensures p[1..][i] == ScaleV(Self(f), x, q)[i] {
      assert p[1..][i] == Pow(f, x, i + 1) == f.Mul(x, q[i]);
    }
  }

  // The bits against the powers of two give the value back.
  lemma {:induction false} BitsValue<F(!new)>(f: Field<F>, v: nat, n: nat)
    requires IsField(f) && v < Pow2(n)
    ensures Dot(f, Self(f), BitsOf(f, v, n), Powers(f, Two(f), n)) == FromNat(f, v)
    decreases n
  {
    if n != 0 {
      SelfIsModule(f);
      var b, p := BitsOf(f, v, n), Powers(f, Two(f), n);
      BitsValue(f, v / 2, n - 1);
      PowersTail(f, Two(f), n);
      DotHead(f, Self(f), b, p);
      assert b[1..] == BitsOf(f, v / 2, n - 1);
      DotScaleRight(f, Self(f), Two(f), BitsOf(f, v / 2, n - 1), Powers(f, Two(f), n - 1));
      MulOne(f, b[0]);
      LowBit(f, v);
    }
  }

  lemma LowBit<F(!new)>(f: Field<F>, v: nat)
    requires IsField(f)
    ensures FromNat(f, v) == f.Add(BitScalar(f, v % 2 == 1), f.Mul(Two(f), FromNat(f, v / 2)))
  {
    SelfIsModule(f);
    Doubled(f, v / 2);
    AddZero(f, Self(f), f.one);
    FromNatAdd(f, v % 2, 2 * (v / 2));
    assert FromNat(f, 1) == f.Add(FromNat(f, 0), f.one) == f.one;
  }

  // The bits of all values, one block of n per value.
  function AllBits<F>(f: Field<F>, vs: seq<nat>, n: nat): (r: seq<F>)
    ensures |r| == |vs| * n
  {
    if |vs| == 0 then []
    else AllBits(f, vs[..|vs| - 1], n) + BitsOf(f, vs[|vs| - 1] % Pow2(n), n)
  }

  // The values as scalars, each cut down to n bits.
  function Truncated<F>(f: Field<F>, vs: seq<nat>, n: nat): (r: seq<F>)
    ensures |r| == |vs|
  {
    if |vs| == 0 then []
    else Truncated(f, vs[..|vs| - 1], n) + [FromNat(f, vs[|vs| - 1] % Pow2(n))]
  }

  // ---------- The weights z^(j+2) * 2^k ----------

  function Weights<F>(f: Field<F>, z: F, k: nat): (r: seq<F>)
    ensures |r| == k && forall j :: 0 <= j < k ==> r[j] == Pow(f, z, j + 2)
  {
    if k == 0 then [] else Weights(f, z, k - 1) + [Pow(f, z, k + 1)]
  }

  function WeightedTwos<F>(f: Field<F>, z: F, n: nat, k: nat): (r: seq<F>)
    ensures |r| == k * n
  {
    if k == 0 then []
    else WeightedTwos(f, z, n, k - 1) + Block(f, Pow(f, z, k + 1), n)
  }

  // c times the powers of two
  function Block<F>(f: Field<F>, c: F, n: nat): (r: seq<F>)
    ensures |r| == n
  {
    ScaleV(Self(f), c, Powers(f, Two(f), n))
  }

  // The bits of all values against the weights give the weighted sum of the values.
  lemma {:induction false} WeightedValues<F(!new)>(f: Field<F>, z: F, n: nat, vs: seq<nat>)
    requires IsField(f)
    ensures Dot(f, Self(f), AllBits(f, vs, n), WeightedTwos(f, z, n, |vs|))
         == Dot(f, Self(f), Weights(f, z, |vs|), Truncated(f, vs, n))
    decreases |vs|
  {
    var k := |vs|;
    if k != 0 {
      SelfIsModule(f);
      WeightedValues(f, z, n, vs[..k - 1]);
      var v, c, p := vs[k - 1] % Pow2(n), Pow(f, z, k + 1), Powers(f, Two(f), n);
      DotConcat(f, Self(f), AllBits(f, vs[..k - 1], n), BitsOf(f, v, n), WeightedTwos(f, z, n, k - 1),
                ScaleV(Self(f), c, p));
      DotScaleRight(f, Self(f), c, BitsOf(f, v, n), p);
      BitsValue(f, v, n);
      DotConcat(f, Self(f), Weights(f, z, k - 1), [c], Truncated(f, vs[..k - 1], n), [FromNat(f, v)]);
      DotOne(f, Self(f), c, FromNat(f, v));
    }
  }

  // The sum of the entries of a vector.
  function Total<F>(f: Field<F>, a: seq<F>): F {
    Dot(f, Self(f), Repeat(f.one, |a|), a)
  }

  lemma TotalConcat<F(!new)>(f: Field<F>, a: seq<F>, b: seq<F>)
    requires IsField(f)
    ensures Total(f, a + b) == f.Add(Total(f, a), Total(f, b))
  {
    SelfIsModule(f);
    DotConcat(f, Self(f), Repeat(f.one, |a|), Repeat(f.one, |b|), a, b);
    assert Repeat(f.one, |a + b|) == Repeat(f.one, |a|) + Repeat(f.one, |b|);
  }

  lemma {:induction false} TotalPowers<F(!new)>(f: Field<F>, x: F, n: nat)
    requires IsField(f)
    ensures Total(f, Powers(f, x, n)) == PowerSum(f, x, n)
  {
    if n != 0 {
      SelfIsModule(f);
      TotalPowers(f, x, n - 1);
      TotalConcat(f, Powers(f, x, n - 1), [Pow(f, x, n - 1)]);
      DotOne(f, Self(f), f.one, Pow(f, x, n - 1));
      assert Repeat(f.one, 1) == [f.one];
      MulOne(f, Pow(f, x, n - 1));
    }
  }

  // The weights add up to z^2 (1 + z + ...) (1 + 2 + ...).
  lemma {:induction false} TotalWeightedTwos<F(!new)>(f: Field<F>, z: F, n: nat, k: nat)
    requires IsField(f)
    ensures Total(f, WeightedTwos(f, z, n, k))
         == f.Mul(f.Square(z), f.Mul(PowerSum(f, Two(f), n), PowerSum(f, z, k)))
    decreases k
  {
    var s := PowerSum(f, Two(f), n);
    if k == 0 {
      SelfIsModule(f);
      ScaleZero(f, Self(f), s, f.zero);
      ScaleZero(f, Self(f), f.Square(z), f.zero);
    } else {
      TotalWeightedTwos(f, z, n, k - 1);
      var ws, c := WeightedTwos(f, z, n, k - 1), Pow(f, z, k + 1);
      assert Total(f, WeightedTwos(f, z, n, k)) == f.Add(Total(f, ws), f.Mul(c, s)) by {
        TotalConcat(f, ws, Block(f, c, n));
        TotalBlock(f, c, n);
      }
      PowShift(f, z, k - 1);
      OneMoreWeight(f, f.Square(z), s, PowerSum(f, z, k - 1), Pow(f, z, k - 1));
    }
  }

  lemma TotalBlock<F(!new)>(f: Field<F>, c: F, n: nat)
    requires IsField(f)
    ensures Total(f, Block(f, c, n)) == f.Mul(c, PowerSum(f, Two(f), n))
  {
    SelfIsModule(f);
    DotScaleRight(f, Self(f), c, Repeat(f.one, n), Powers(f, Two(f), n));
    TotalPowers(f, Two(f), n);
  }

  // q s x + (q y) s == q s (x + y)
  lemma OneMoreWeight<F(!new)>(f: Field<F>, q: F, s: F, x: F, y: F)
    requires IsField(f)
    ensures f.Add(f.Mul(q, f.Mul(s, x)), f.Mul(f.Mul(q, y), s)) == f.Mul(q, f.Mul(s, f.Add(x, y)))
  {
    SelfIsModule(f);
    MulAssoc(f, q, y, s);
    MulComm(f, y, s);
    ScaleAdd(f, Self(f), s, x, y);
    ScaleAdd(f, Self(f), q, f.Mul(s, x), f.Mul(s, y));
  }

  // z^(j+2) == z^2 z^j
  lemma PowShift<F(!new)>(f: Field<F>, z: F, j: nat)
    requires IsField(f)
    ensures Pow(f, z, j + 2) == f.Mul(f.Square(z), Pow(f, z, j))
  {
    assert Pow(f, z, j + 2) == f.Mul(f.Mul(Pow(f, z, j), z), z);
    MulAssoc(f, Pow(f, z, j), z, z);
    MulComm(f, Pow(f, z, j), f.Square(z));
  }

  // ---------- l(x), r(x) and their inner product ----------

  datatype Poly<F> = Poly(l0: seq<F>, l1: seq<F>, r0: seq<F>, r1: seq<F>, t0: F, t1: F, t2: F)

  // l0 = aL - z, l1 = sL, r0 = y^i (aR + z) + z^(j+2) 2^k, r1 = y^i sR, and the coefficients
  // of <l0 + l1 x, r0 + r1 x>.
  function PolyOf<F>(f: Field<F>, y: F, z: F, n: nat, k: nat, aL: seq<F>, aR: seq<F>, sL: seq<F>, sR: seq<F>): Poly<F>
    requires |aL| == |aR| == |sL| == |sR| == k * n
  {
    var l0 := AddV(Self(f), aL, Repeat(f.Neg(z), |aL|));
    var r0 := AddV(Self(f), MulV(Self(f), AddV(Self(f), aR, Repeat(z, |aR|)), Powers(f, y, |aR|)),
                   WeightedTwos(f, z, n, k));
    var r1 := MulV(Self(f), Powers(f, y, |sR|), sR);
    Poly(l0, sL, r0, r1, Dot(f, Self(f), l0, r0), f.Add(Dot(f, Self(f), sL, r0), Dot(f, Self(f), l0, r1)),
         Dot(f, Self(f), sL, r1))
  }

  // t0 + t1 x + t2 x^2, as eval adds it up
  function Eval<F>(f: Field<F>, p: Poly<F>, x: F): F {
    f.Add(f.Add(f.Mul(x, p.t1), f.Mul(f.Square(x), p.t2)), p.t0)
  }

  function At0And1<F>(f: Field<F>, c0: seq<F>, c1: seq<F>, x: F): (r: seq<F>)
    requires |c0| == |c1|
    ensures |r| == |c0|
  {
    AddV(Self(f), c0, ScaleV(Self(f), x, c1))
  }

  // The polynomial t is the inner product of the polynomials l and r, at every x.
  lemma PolyIdentity<F(!new)>(f: Field<F>, y: F, z: F, n: nat, k: nat, aL: seq<F>, aR: seq<F>, sL: seq<F>, sR: seq<F>,
                              x: F, p: Poly<F>)
    requires IsField(f) && |aL| == |aR| == |sL| == |sR| == k * n
    requires p == PolyOf(f, y, z, n, k, aL, aR, sL, sR)
    ensures Dot(f, Self(f), At0And1(f, p.l0, p.l1, x), At0And1(f, p.r0, p.r1, x)) == Eval(f, p, x)
  {
    var m := Self(f);
    SelfIsModule(f);
    FourDots(f, m, p.l0, ScaleV(m, x, p.l1), p.r0, ScaleV(m, x, p.r1));
    ScaleBoth(f, m, x, x, p.l1, p.r1);
    DotScale(f, m, x, p.l1, p.r0);
    DotScaleRight(f, m, x, p.l0, p.r1);
    var t01, t10 := Dot(f, m, p.l0, p.r1), Dot(f, m, p.l1, p.r0);
    AddComm(f, m, t01, t10);
    ScaleAdd(f, m, x, t01, t10);
    EvalOrder(f, p.t0, f.Mul(x, p.t1), f.Mul(f.Square(x), p.t2));
  }

  // (a + c) + b == (b + c) + a
  lemma EvalOrder<F(!new)>(f: Field<F>, a: F, b: F, c: F)
    requires IsField(f)
    ensures f.Add(f.Add(a, c), b) == f.Add(f.Add(b, c), a)
  {
    SelfIsModule(f);
    AddComm(f, Self(f), f.Add(a, c), b);
    AddComm(f, Self(f), a, c);
    AddAssoc(f, Self(f), b, c, a);
  }

  // ---------- The constant term ----------

  // delta(y, z) = (z - z^2) <1, y^nm> - z^3 <1, 2^n> <1, z^m>
  function Delta<F>(f: Field<F>, y: F, z: F, n: nat, k: nat): F {
    f.Sub(f.Mul(f.Sub(z, f.Square(z)), PowerSum(f, y, k * n)),
          f.Mul(f.Mul(PowerSum(f, Two(f), n), PowerSum(f, z, k)), f.Mul(z, f.Square(z))))
  }

  // What one entry adds to t0 when it is a bit b and b - 1: (z - z^2) y + b w - z w.
  function EntryTerm<F>(f: Field<F>, z: F, y: F, b: F, w: F): F {
    f.Add(f.Add(f.Mul(f.Sub(z, f.Square(z)), y), f.Mul(b, w)), f.Neg(f.Mul(z, w)))
  }

  lemma ZTimesY<F(!new)>(f: Field<F>, z: F, y: F)
    requires IsField(f)
    ensures f.Mul(f.Sub(z, f.Square(z)), y) == f.Add(f.Mul(z, y), f.Neg(f.Mul(z, f.Mul(z, y))))
  {
    SelfIsModule(f);
    ScaleSum(f, Self(f), z, f.Neg(f.Square(z)), y);
    ScaleNeg(f, Self(f), f.Square(z), y);
    MulAssoc(f, z, z, y);
  }

  lemma EntryOfOne<F(!new)>(f: Field<F>, z: F, y: F, w: F)
    requires IsField(f)
    ensures f.Mul(f.Add(f.one, f.Neg(z)), f.Add(f.Mul(f.Add(f.Add(f.one, f.Neg(f.one)), z), y), w))
         == EntryTerm(f, z, y, f.one, w)
  {
    var m := Self(f);
    SelfIsModule(f);
    AddNeg(f, m, f.one);
    AddZero(f, m, z);
    var p := f.Mul(z, y);
    ScaleSum(f, m, f.one, f.Neg(z), f.Add(p, w));
    MulOne(f, f.Add(p, w));
    ScaleNeg(f, m, z, f.Add(p, w));
    ScaleAdd(f, m, z, p, w);
    NegAdd(f, m, f.Mul(z, p), f.Mul(z, w));
    Interchange(f, m, p, w, f.Neg(f.Mul(z, p)), f.Neg(f.Mul(z, w)));
    ZTimesY(f, z, y);
    MulOne(f, w);
    AddAssoc(f, m, f.Add(p, f.Neg(f.Mul(z, p))), w, f.Neg(f.Mul(z, w)));
  }

  lemma EntryOfZero<F(!new)>(f: Field<F>, z: F, y: F, w: F)
    requires IsField(f)
    ensures f.Mul(f.Add(f.zero, f.Neg(z)), f.Add(f.Mul(f.Add(f.Add(f.zero, f.Neg(f.one)), z), y), w))
         == EntryTerm(f, z, y, f.zero, w)
  {
    var m := Self(f);
    SelfIsModule(f);
    AddZero(f, m, f.Neg(z));
    AddZero(f, m, f.Neg(f.one));
    var p := f.Mul(z, y);
    ScaleSum(f, m, f.Neg(f.one), z, y);
    ScaleNeg(f, m, f.one, y);
    MulOne(f, y);
    var q := f.Add(f.Neg(y), p);
    ScaleNeg(f, m, z, f.Add(q, w));
    ScaleAdd(f, m, z, q, w);
    ScaleAdd(f, m, z, f.Neg(y), p);
    ScaleNeg(f, m, z, y);
    NegAdd(f, m, f.Mul(z, q), f.Mul(z, w));
    NegAdd(f, m, f.Neg(p), f.Mul(z, p));
    NegNeg(f, m, p);
    ZTimesY(f, z, y);
    ScaleZero(f, m, f.zero, w);
    AddZero(f, m, f.Mul(f.Sub(z, f.Square(z)), y));
  }

  lemma NegNeg<F(!new), P(!new)>(f: Field<F>, m: Points<F, P>, x: P)
    requires IsModule(f, m)
    ensures m.Neg(m.Neg(x)) == x
  {
    AddNeg(f, m, x);
    AddNeg(f, m, m.Neg(x));
    Cancel(f, m, m.Neg(m.Neg(x)), x, m.Neg(x));
  }

  // ((A + B) - C) + ((a + b) - c) == ((A + a) + (B + b)) - (C + c)
  lemma ThreeTerms<F(!new)>(f: Field<F>, A: F, B: F, C: F, a: F, b: F, c: F)
    requires IsField(f)
    ensures f.Add(f.Add(f.Add(A, B), f.Neg(C)), f.Add(f.Add(a, b), f.Neg(c)))
         == f.Add(f.Add(f.Add(A, a), f.Add(B, b)), f.Neg(f.Add(C, c)))
  {
    var m := Self(f);
    SelfIsModule(f);
    Interchange(f, m, f.Add(A, B), f.Neg(C), f.Add(a, b), f.Neg(c));
    Interchange(f, m, A, B, a, b);
    NegAdd(f, m, C, c);
  }

  ghost predicate IsBits<F(!new)>(f: Field<F>, a: seq<F>) {
    forall i :: 0 <= i < |a| ==> a[i] == f.zero || a[i] == f.one
  }

  // The products of the entries of l0 and r0.
  ghost predicate EntryWise<F(!new)>(f: Field<F>, z: F, aL: seq<F>, ys: seq<F>, ws: seq<F>, l0: seq<F>, r0: seq<F>) {
    && |aL| == |ys| == |ws| == |l0| == |r0|
    && forall j {:trigger l0[j]} :: 0 <= j < |aL| ==> f.Mul(l0[j], r0[j]) == EntryTerm(f, z, ys[j], aL[j], ws[j])
  }

  // t0 entry by entry.
  lemma {:induction false} ConstantTermTo<F(!new)>(f: Field<F>, z: F, aL: seq<F>, ys: seq<F>, ws: seq<F>, l0: seq<F>,
                                                   r0: seq<F>, i: nat)
    requires IsField(f) && EntryWise(f, z, aL, ys, ws, l0, r0) && i <= |aL|
    ensures DotTo(f, Self(f), l0, r0, i)
         == f.Add(f.Add(f.Mul(f.Sub(z, f.Square(z)), DotTo(f, Self(f), Repeat(f.one, |ys|), ys, i)),
                        DotTo(f, Self(f), aL, ws, i)),
                  f.Neg(f.Mul(z, DotTo(f, Self(f), Repeat(f.one, |ws|), ws, i))))
    decreases i
  {
    var m, d := Self(f), f.Sub(z, f.Square(z));
    SelfIsModule(f);
    if i == 0 {
      ScaleZero(f, m, d, f.zero);
      ScaleZero(f, m, z, f.zero);
      AddZero(f, m, f.zero);
      AddNeg(f, m, f.zero);
    } else {
      var j := i - 1;
      ConstantTermTo(f, z, aL, ys, ws, l0, r0, j);
      var y, w := ys[j], ws[j];
      var Y, W := DotTo(f, m, Repeat(f.one, |ys|), ys, j), DotTo(f, m, Repeat(f.one, |ws|), ws, j);
      MulOne(f, y);
      MulOne(f, w);
      assert DotTo(f, m, Repeat(f.one, |ys|), ys, i) == f.Add(Y, y)
          && DotTo(f, m, Repeat(f.one, |ws|), ws, i) == f.Add(W, w);
      assert DotTo(f, m, aL, ws, i) == f.Add(DotTo(f, m, aL, ws, j), f.Mul(aL[j], w));
      OneMoreEntry(f, z, d, Y, y, DotTo(f, m, aL, ws, j), f.Mul(aL[j], w), W, w);
    }
  }

  lemma OneMoreEntry<F(!new)>(f: Field<F>, z: F, d: F, Y: F, y: F, B: F, b: F, W: F, w: F)
    requires IsField(f)
    ensures f.Add(f.Add(f.Add(f.Mul(d, Y), B), f.Neg(f.Mul(z, W))), f.Add(f.Add(f.Mul(d, y), b), f.Neg(f.Mul(z, w))))
         == f.Add(f.Add(f.Mul(d, f.Add(Y, y)), f.Add(B, b)), f.Neg(f.Mul(z, f.Add(W, w))))
  {
    SelfIsModule(f);
    ThreeTerms(f, f.Mul(d, Y), B, f.Mul(z, W), f.Mul(d, y), b, f.Mul(z, w));
    ScaleAdd(f, Self(f), d, Y, y);
    ScaleAdd(f, Self(f), z, W, w);
  }

  lemma Entry<F(!new)>(f: Field<F>, z: F, aL: seq<F>, ys: seq<F>, ws: seq<F>, l0: seq<F>, r0: seq<F>, j: nat)
    requires IsField(f) && j < |aL| == |ys| == |ws| == |l0| == |r0| && IsBits(f, aL)
    requires l0 == AddV(Self(f), aL, Repeat(f.Neg(z), |aL|))
    requires r0 == AddV(Self(f), MulV(Self(f), AddV(Self(f), Minus1(f, aL), Repeat(z, |aL|)), ys), ws)
    ensures f.Mul(l0[j], r0[j]) == EntryTerm(f, z, ys[j], aL[j], ws[j])
  {
    assert l0[j] == f.Add(aL[j], f.Neg(z));
    assert Minus1(f, aL)[j] == f.Add(aL[j], f.Neg(f.one));
    assert r0[j] == f.Add(f.Mul(f.Add(f.Add(aL[j], f.Neg(f.one)), z), ys[j]), ws[j]);
    if aL[j] == f.one {
      EntryOfOne(f, z, ys[j], ws[j]);
    } else {
      EntryOfZero(f, z, ys[j], ws[j]);
    }
  }

  // t0 = sum of z^(j+2) v_j + delta(y, z), for the values cut down to n bits.
  lemma ConstantTerm<F(!new)>(f: Field<F>, y: F, z: F, n: nat, vs: seq<nat>, aL: seq<F>, sL: seq<F>, sR: seq<F>)
    requires IsField(f) && aL == AllBits(f, vs, n) && |sL| == |sR| == |vs| * n
    ensures PolyOf(f, y, z, n, |vs|, aL, Minus1(f, aL), sL, sR).t0
         == f.Add(Dot(f, Self(f), Weights(f, z, |vs|), Truncated(f, vs, n)), Delta(f, y, z, n, |vs|))
  {
    var m := Self(f);
    SelfIsModule(f);
    var k := |vs|;
    var p := PolyOf(f, y, z, n, k, aL, Minus1(f, aL), sL, sR);
    var ys, ws := Powers(f, y, |aL|), WeightedTwos(f, z, n, k);
    AllBitsAreBits(f, vs, n);
    forall j | 0 <= j < |aL| ensures f.Mul(p.l0[j], p.r0[j]) == EntryTerm(f, z, ys[j], aL[j], ws[j]) {
      Entry(f, z, aL, ys, ws, p.l0, p.r0, j);
    }
    ConstantTermTo(f, z, aL, ys, ws, p.l0, p.r0, |aL|);
    TotalPowers(f, y, |aL|);
    WeightedValues(f, z, n, vs);
    TotalWeightedTwos(f, z, n, k);
    var s := f.Mul(PowerSum(f, Two(f), n), PowerSum(f, z, k));
    MulAssoc(f, z, f.Square(z), s);
    MulComm(f, f.Mul(z, f.Square(z)), s);
    var A := f.Mul(f.Sub(z, f.Square(z)), PowerSum(f, y, k * n));
    var B, C := Dot(f, m, Weights(f, z, k), Truncated(f, vs, n)), f.Mul(s, f.Mul(z, f.Square(z)));
    AddComm(f, m, A, B);
    AddAssoc(f, m, B, A, f.Neg(C));
  }

  lemma {:induction false} AllBitsAreBits<F(!new)>(f: Field<F>, vs: seq<nat>, n: nat)
    ensures IsBits(f, AllBits(f, vs, n))
    decreases |vs|
  {
    if |vs| != 0 {
      AllBitsAreBits(f, vs[..|vs| - 1], n);
    }
  }

  // ---------- The code ----------

  lemma InBlock(i: nat, n: nat, j: int, q: nat, r: nat)
    requires i == q * n + r && r < n
    ensures (j - 1) * n <= i < j * n <==> j == q + 1
  {
    if j < q + 1 {
      assert j * n <= q * n;
    } else if j > q + 1 {
      assert (j - 1) * n >= (q + 1) * n;
    }
  }

  // Entry r of block q.
  lemma {:induction false} WeightedTwosAt<F>(f: Field<F>, z: F, n: nat, k: nat, q: nat, r: nat, i: nat)
    requires q < k && r < n && i == q * n + r
    ensures i < |WeightedTwos(f, z, n, k)|
    ensures WeightedTwos(f, z, n, k)[i] == f.Mul(Pow(f, z, q + 2), Pow(f, Two(f), r))
    decreases k
  {
    var front, block := WeightedTwos(f, z, n, k - 1), Block(f, Pow(f, z, k + 1), n);
    assert WeightedTwos(f, z, n, k) == front + block;
    if q < k - 1 {
      WeightedTwosAt(f, z, n, k - 1, q, r, i);
    } else {
      assert i == |front| + r;
      assert block[r] == f.Mul(Pow(f, z, k + 1), Powers(f, Two(f), n)[r]);
    }
  }

  lemma PowOfZero<F(!new)>(f: Field<F>, n: nat)
    requires IsField(f) && n > 0
    ensures Pow(f, f.zero, n) == f.zero
  {
    SelfIsModule(f);
    ScaleZero(f, Self(f), Pow(f, f.zero, n - 1), f.zero);
  }

  // Entry r of block q is looked for in every block in turn.
  method FindBlock<F(!new)>(f: Field<F>, zM: seq<F>, twoN: seq<F>, n: nat, k: nat, i: nat, ghost q: nat, ghost r: nat)
    returns (acc: F)
    requires IsField(f) && q < k && r < n && i == q * n + r && |zM| == k + 3 && |twoN| == n
    ensures acc == f.Mul(zM[q + 2], twoN[r])
  {
    acc := f.zero;
    for j := 1 to k + 1
      invariant acc == if q + 1 < j then f.Mul(zM[q + 2], twoN[r]) else f.zero
    {
      InBlock(i, n, j, q, r);
      if (j - 1) * n <= i && i < j * n {
        SelfIsModule(f);
        AddZero(f, Self(f), f.Mul(zM[q + 2], twoN[r]));
        acc := f.Add(f.Mul(zM[j + 1], twoN[i - (j - 1) * n]), acc);
      }
    }
  }

  method SumZMTwoN<F(==, !new)>(f: Field<F>, z: F, n: nat, k: nat) returns (res: seq<F>)
    requires IsField(f) && Two(f) != f.zero && n > 0
    ensures res == WeightedTwos(f, z, n, k)
  {
    var zM := ScalarPowers(f, z, k + 3);
    var twoN := ScalarPowers(f, Two(f), n);
    ghost var spec := WeightedTwos(f, z, n, k);
    ghost var q: nat, r: nat := 0, 0;
    var len := k * n;
    res := [];
    for i := 0 to len
      invariant |spec| == len && res == spec[..i] && i == q * n + r && r < n
    {
      BlockBelow(i, n, k, q, r);
      var entry := FindBlock(f, zM, twoN, n, k, i, q, r);
      assert entry == spec[i] by {
        BlockEntry(f, z, n, k, q, r, i, zM, twoN);
      }
      res := res + [entry];
      NextInBlock(i, n, q, r);
      q, r := if r + 1 < n then q else q + 1, if r + 1 < n then r + 1 else 0;
    }
  }

  lemma BlockEntry<F(!new)>(f: Field<F>, z: F, n: nat, k: nat, q: nat, r: nat, i: nat, zM: seq<F>, twoN: seq<F>)
    requires IsField(f) && q < k && r < n && i == q * n + r
    requires zM == PowersOf(f, z, k + 3) && twoN == Powers(f, Two(f), n)
    ensures i < |WeightedTwos(f, z, n, k)|
    ensures WeightedTwos(f, z, n, k)[i] == f.Mul(zM[q + 2], twoN[r])
  {
    WeightedTwosAt(f, z, n, k, q, r, i);
    if z == f.zero {
      PowOfZero(f, q + 2);
    }
  }

  lemma NextInBlock(i: nat, n: nat, q: nat, r: nat)
    requires i == q * n + r && r < n
    ensures i + 1 == if r + 1 < n then q * n + (r + 1) else (q + 1) * n
  {
  }

  lemma BlockBelow(i: nat, n: nat, k: nat, q: nat, r: nat)
    requires i == q * n + r && i < k * n
    ensures q < k
  {
    if k <= q {
      MulMonotone(k, q, n);
      assert false;
    }
  }

  lemma MulMonotone(a: nat, b: nat, n: nat)
    requires a <= b
    ensures a * n <= b * n
  {
  }

  method ComputeDelta<F(!new)>(f: Field<F>, y: F, z: F, n: nat, k: nat) returns (delta: F)
    requires IsField(f)
    ensures delta == Delta(f, y, z, n, k)
  {
    var sumY := ScalarPowersSum(f, y, k * n);
    var sumZ := ScalarPowersSum(f, z, k);
    var sum2 := ScalarPowersSum(f, Two(f), n);
    var zsq := f.Square(z);
    var zcu := f.Mul(z, zsq);
    var resA := f.Mul(f.Sub(z, zsq), sumY);
    var resB := f.Mul(f.Mul(sum2, sumZ), zcu);
    delta := f.Sub(resA, resB);
  }

  method ComputePoly<F(==, !new)>(f: Field<F>, y: F, z: F, n: nat, k: nat, aL: seq<F>, aR: seq<F>, sL: seq<F>,
                                  sR: seq<F>)
    returns (p: Poly<F>)
    requires IsField(f) && Two(f) != f.zero && n > 0 && y != f.zero
    requires |aL| == |aR| == |sL| == |sR| == k * n
    ensures p == PolyOf(f, y, z, n, k, aL, aR, sL, sR)
  {
    var l0 := SubScalar(f, aL, z);
    var yNM := ScalarPowers(f, y, k * n);
    var zMTwoN := SumZMTwoN(f, z, n, k);
    var aRz := AddScalar(f, aR, z);
    var had := Hadamard(f, aRz, yNM);
    var r0 := Add(f, had.value, zMTwoN);
    var r1 := Hadamard(f, yNM, sR);
    var t0 := InnerProduct(f, l0, r0.value);
    var t1Left := InnerProduct(f, sL, r0.value);
    var t1Right := InnerProduct(f, l0, r1.value);
    var t2 := InnerProduct(f, sL, r1.value);
    p := Poly(l0, sL, r0.value, r1.value, t0.value, f.Add(t1Left.value, t1Right.value), t2.value);
  }

  // The scaled powers are the weights. At z = 0 all powers come out as zero, and so they should.
  lemma WeightsScaled<F(!new)>(f: Field<F>, z: F, k: nat, zM: seq<F>)
    requires IsField(f)
    requires zM == ScaleV(Self(f), f.Square(z), PowersOf(f, z, k))
    ensures zM == Weights(f, z, k)
  {
    forall i | 0 <= i < k ensures zM[i] == Weights(f, z, k)[i] {
      PowShift(f, z, i);
      if z == f.zero {
        PowOfZero(f, i + 2);
        SelfIsModule(f);
        ScaleZero(f, Self(f), f.Square(z), f.zero);
      }
    }
  }

  method ComputeT0<F(==, !new)>(f: Field<F>, y: F, z: F, v: seq<F>, n: nat, k: nat) returns (t0: F)
    requires IsField(f)
    ensures t0 == f.Add(Dot(f, Self(f), Weights(f, z, |v|), v), Delta(f, y, z, n, k))
  {
    SelfIsModule(f);
    var delta := ComputeDelta(f, y, z, n, k);
    var zM := ScalarPowers(f, z, |v|);
    zM := MulScalar(f, zM, f.Square(z));
    WeightsScaled(f, z, |v|, zM);
    var sum := f.zero;
    for i := 0 to |v|
      invariant sum == DotTo(f, Self(f), zM, v, i)
    {
      AddComm(f, Self(f), f.Mul(zM[i], v[i]), sum);
      sum := f.Add(f.Mul(zM[i], v[i]), sum);
    }
    AddComm(f, Self(f), delta, sum);
    t0 := f.Add(delta, sum);
  }

  // computeL and computeR
  method ComputeAt<F(!new)>(f: Field<F>, c0: seq<F>, c1: seq<F>, x: F) returns (r: Result<seq<F>>)
    requires IsField(f)
    ensures r == if |c0| == |c1| then Ok(At0And1(f, c0, c1, x)) else Err
  {
    var right := MulScalar(f, c1, x);
    r := Add(f, c0, right);
  }
}
