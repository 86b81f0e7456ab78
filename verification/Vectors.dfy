/**
Vectors of scalars and points: what the loops of the vector package compute, and the
bilinearity of the multi-exponentiation that the proofs of the other packages rest on.
*/
module Vectors {
  import opened Algebra
  import opened Outcome
  import opened Sequences

  // <a, g>: the multi-exponentiation of g by a. Over Self(f) it is the inner product.
  function Dot<F, P>(f: Field<F>, m: Points<F, P>, a: seq<F>, g: seq<P>): P
    requires |a| == |g|
  {
    DotTo(f, m, a, g, |a|)
  }

  function DotTo<F, P>(f: Field<F>, m: Points<F, P>, a: seq<F>, g: seq<P>, n: nat): P
    requires n <= |a| == |g|
  {
    if n == 0 then m.zero
    else m.Add(DotTo(f, m, a, g, n - 1), m.Scale(a[n - 1], g[n - 1]))
  }

  function AddV<F, P>(m: Points<F, P>, a: seq<P>, b: seq<P>): (r: seq<P>)
    requires |a| == |b|
    ensures |r| == |a| && forall i {:trigger r[i]} :: 0 <= i < |a| ==> r[i] == m.Add(a[i], b[i])
  {
    AddTo(m, a, b, |a|)
  }

  function AddTo<F, P>(m: Points<F, P>, a: seq<P>, b: seq<P>, n: nat): (r: seq<P>)
    requires n <= |a| == |b|
    ensures |r| == n && forall i {:trigger r[i]} :: 0 <= i < n ==> r[i] == m.Add(a[i], b[i])
  {
    if n == 0 then [] else AddTo(m, a, b, n - 1) + [m.Add(a[n - 1], b[n - 1])]
  }

  // The pointwise multiples k[i] * g[i]. Over Self(f) it is the Hadamard product.
  function MulV<F, P>(m: Points<F, P>, k: seq<F>, g: seq<P>): (r: seq<P>)
    requires |k| == |g|
    ensures |r| == |g| && forall i {:trigger r[i]} :: 0 <= i < |g| ==> r[i] == m.Scale(k[i], g[i])
  {
    MulTo(m, k, g, |g|)
  }

  function MulTo<F, P>(m: Points<F, P>, k: seq<F>, g: seq<P>, n: nat): (r: seq<P>)
    requires n <= |k| == |g|
    ensures |r| == n && forall i {:trigger r[i]} :: 0 <= i < n ==> r[i] == m.Scale(k[i], g[i])
  {
    if n == 0 then [] else MulTo(m, k, g, n - 1) + [m.Scale(k[n - 1], g[n - 1])]
  }

  function ScaleV<F, P>(m: Points<F, P>, k: F, g: seq<P>): (r: seq<P>)
    ensures |r| == |g| && forall i {:trigger r[i]} :: 0 <= i < |g| ==> r[i] == m.Scale(k, g[i])
  {
    MulV(m, Repeat(k, |g|), g)
  }

  function NegV<F, P>(m: Points<F, P>, a: seq<P>): (r: seq<P>)
    ensures |r| == |a| && forall i {:trigger r[i]} :: 0 <= i < |a| ==> r[i] == m.Neg(a[i])
  {
    NegTo(m, a, |a|)
  }

  function NegTo<F, P>(m: Points<F, P>, a: seq<P>, n: nat): (r: seq<P>)
    requires n <= |a|
    ensures |r| == n && forall i {:trigger r[i]} :: 0 <= i < n ==> r[i] == m.Neg(a[i])
  {
    if n == 0 then [] else NegTo(m, a, n - 1) + [m.Neg(a[n - 1])]
  }

  function Pow<F>(f: Field<F>, x: F, n: nat): F {
    if n == 0 then f.one else f.Mul(Pow(f, x, n - 1), x)
  }

  function Powers<F>(f: Field<F>, x: F, n: nat): (r: seq<F>)
    ensures |r| == n && forall i :: 0 <= i < n ==> r[i] == Pow(f, x, i)
  {
    if n == 0 then [] else Powers(f, x, n - 1) + [Pow(f, x, n - 1)]
  }

  // What ScalarPowers computes: the zero scalar has no power 1 there, all of its powers come
  // out as zero.
  ghost function PowersOf<F>(f: Field<F>, x: F, n: nat): (r: seq<F>)
    ensures |r| == n
  {
    if x == f.zero then Repeat(f.zero, n) else Powers(f, x, n)
  }

  function PowerSum<F>(f: Field<F>, x: F, n: nat): F {
    if n == 0 then f.zero else f.Add(PowerSum(f, x, n - 1), Pow(f, x, n - 1))
  }

  // The loops of the package.

  method Add<F>(f: Field<F>, a: seq<F>, b: seq<F>) returns (r: Result<seq<F>>)
    ensures r == if |a| == |b| then Ok(AddV(Self(f), a, b)) else Err
  {
    if |a| != |b| {
      return Err;
    }
    var res: seq<F> := [];
    for i := 0 to |a|
      invariant res == AddV(Self(f), a[..i], b[..i])
    {
      res := res + [f.Add(a[i], b[i])];
    }
    assert a[..|a|] == a && b[..|a|] == b;
    r := Ok(res);
  }

  method Subtract<F>(f: Field<F>, a: seq<F>, b: seq<F>) returns (r: Result<seq<F>>)
    ensures r == if |a| == |b| then Ok(AddV(Self(f), a, NegV(Self(f), b))) else Err
  {
    if |a| != |b| {
      return Err;
    }
    var res: seq<F> := [];
    for i := 0 to |a|
      invariant res == AddV(Self(f), a[..i], NegV(Self(f), b[..i]))
    {
      res := res + [f.Sub(a[i], b[i])];
    }
    assert a[..|a|] == a && b[..|a|] == b;
    r := Ok(res);
  }

  method AddScalar<F>(f: Field<F>, a: seq<F>, b: F) returns (r: seq<F>)
    ensures r == AddV(Self(f), a, Repeat(b, |a|))
  {
    r := [];
    for i := 0 to |a|
      invariant r == AddV(Self(f), a[..i], Repeat(b, i))
    {
      r := r + [f.Add(a[i], b)];
    }
    assert a[..|a|] == a;
  }

  method SubScalar<F(==, !new)>(f: Field<F>, a: seq<F>, b: F) returns (r: seq<F>)
    requires IsField(f)
    ensures r == AddV(Self(f), a, Repeat(f.Neg(b), |a|))
  {
    if b == f.zero {
      SelfIsModule(f);
      AddZero(f, Self(f), f.Neg(b));
      AddNeg(f, Self(f), b);
      forall i | 0 <= i < |a| ensures f.Add(a[i], f.Neg(b)) == a[i] {
        AddZero(f, Self(f), a[i]);
      }
      return a;
    }
    r := [];
    for i := 0 to |a|
      invariant r == AddV(Self(f), a[..i], Repeat(f.Neg(b), i))
    {
      r := r + [f.Sub(a[i], b)];
    }
    assert a[..|a|] == a;
  }

  method Negate<F>(f: Field<F>, a: seq<F>) returns (r: seq<F>)
    ensures r == NegV(Self(f), a)
  {
    r := [];
    for i := 0 to |a|
      invariant r == NegV(Self(f), a[..i])
    {
      r := r + [f.Neg(a[i])];
    }
    assert a[..|a|] == a;
  }

  method MulScalar<F(!new)>(f: Field<F>, a: seq<F>, b: F) returns (r: seq<F>)
    requires IsField(f)
    ensures r == ScaleV(Self(f), b, a)
  {
    r := [];
    for i := 0 to |a|
      invariant r == ScaleV(Self(f), b, a[..i])
    {
      MulComm(f, a[i], b);
      r := r + [f.Mul(a[i], b)];
    }
    assert a[..|a|] == a;
  }

  method Hadamard<F>(f: Field<F>, a: seq<F>, b: seq<F>) returns (r: Result<seq<F>>)
    ensures r == if |a| == |b| then Ok(MulV(Self(f), a, b)) else Err
  {
    if |a| != |b| {
      return Err;
    }
    var res: seq<F> := [];
    for i := 0 to |a|
      invariant res == MulV(Self(f), a[..i], b[..i])
    {
      res := res + [f.Mul(a[i], b[i])];
    }
    assert a[..|a|] == a && b[..|a|] == b;
    r := Ok(res);
  }

  method InnerProduct<F(!new)>(f: Field<F>, a: seq<F>, b: seq<F>) returns (r: Result<F>)
    requires IsField(f)
    ensures r == if |a| == |b| then Ok(Dot(f, Self(f), a, b)) else Err
  {
    if |a| != |b| {
      return Err;
    }
    SelfIsModule(f);
    var res := f.zero;
    for i := 0 to |a|
      invariant res == DotTo(f, Self(f), a, b, i)
    {
      AddComm(f, Self(f), f.Mul(a[i], b[i]), res);
      res := f.Add(f.Mul(a[i], b[i]), res);
    }
    r := Ok(res);
  }

  method Exp<F, P>(f: Field<F>, m: Points<F, P>, a: seq<F>, b: seq<P>, minimum: int) returns (r: Result<P>)
    ensures r == if |a| == |b| && minimum <= |a| then Ok(Dot(f, m, a, b)) else Err
  {
    if |a| != |b| || |a| < minimum {
      return Err;
    }
    var result := m.zero;
    for i := 0 to |b|
      invariant result == DotTo(f, m, a, b, i)
    {
      result := m.Add(result, m.Scale(a[i], b[i]));
    }
    r := Ok(result);
  }

  method ScalarPowers<F(==, !new)>(f: Field<F>, x: F, n: nat) returns (r: seq<F>)
    requires IsField(f)
    ensures r == PowersOf(f, x, n)
  {
    r := Repeat(f.zero, n);
    if n == 0 || x == f.zero {
      return;
    }
    r := r[0 := f.one];
    if n == 1 {
      return;
    }
    r := r[1 := x];
    MulOne(f, x);
    assert Pow(f, x, 1) == f.Mul(Pow(f, x, 0), x);
    for i := 2 to n
      invariant |r| == n
      invariant forall j :: 0 <= j < i ==> r[j] == Pow(f, x, j)
    {
      r := r[i := f.Mul(r[i - 1], x)];
    }
  }

  method ScalarPowersSum<F(!new)>(f: Field<F>, x: F, n: nat) returns (r: F)
    requires IsField(f)
    ensures r == PowerSum(f, x, n)
  {
    if n == 0 {
      return f.zero;
    }
    SelfIsModule(f);
    AddZero(f, Self(f), f.one);
    assert PowerSum(f, x, 1) == f.one;
    r := f.one;
    if n == 1 {
      return;
    }
    MulOne(f, x);
    var prev := x;
    for i := 1 to n
      invariant r == PowerSum(f, x, i)
      invariant prev == Pow(f, x, if i == 1 then 1 else i - 1)
    {
      if i > 1 {
        prev := f.Mul(prev, x);
      }
      r := f.Add(r, prev);
    }
  }

  // Bilinearity of Dot.

  lemma {:induction false} DotToLocal<F(!new), P(!new)>(f: Field<F>, m: Points<F, P>,
                                                        a: seq<F>, g: seq<P>, a': seq<F>, g': seq<P>, n: nat)
    requires n <= |a| == |g| && n <= |a'| == |g'|
    requires forall i :: 0 <= i < n ==> a[i] == a'[i] && g[i] == g'[i]
    ensures DotTo(f, m, a, g, n) == DotTo(f, m, a', g', n)
    decreases n
  {
    if n != 0 {
      DotToLocal(f, m, a, g, a', g', n - 1);
    }
  }

  lemma {:induction false} DotToAdd<F(!new), P(!new)>(f: Field<F>, m: Points<F, P>, a: seq<F>, b: seq<F>, g: seq<P>,
                                                      n: nat)
    requires IsModule(f, m) && n <= |a| == |b| == |g|
    ensures DotTo(f, m, AddV(Self(f), a, b), g, n) == m.Add(DotTo(f, m, a, g, n), DotTo(f, m, b, g, n))
    decreases n
  {
    if n == 0 {
      AddZero(f, m, m.zero);
    } else {
      DotToAdd(f, m, a, b, g, n - 1);
      assert AddV(Self(f), a, b)[n - 1] == f.Add(a[n - 1], b[n - 1]);
      ScaleSum(f, m, a[n - 1], b[n - 1], g[n - 1]);
      Interchange(f, m, DotTo(f, m, a, g, n - 1), DotTo(f, m, b, g, n - 1), m.Scale(a[n - 1], g[n - 1]),
                  m.Scale(b[n - 1], g[n - 1]));
    }
  }

  lemma DotAdd<F(!new), P(!new)>(f: Field<F>, m: Points<F, P>, a: seq<F>, b: seq<F>, g: seq<P>)
    requires IsModule(f, m) && |a| == |b| == |g|
    ensures Dot(f, m, AddV(Self(f), a, b), g) == m.Add(Dot(f, m, a, g), Dot(f, m, b, g))
  {
    DotToAdd(f, m, a, b, g, |a|);
  }

  lemma {:induction false} DotToAddRight<F(!new), P(!new)>(
      f: Field<F>, m: Points<F, P>, a: seq<F>, g: seq<P>, h: seq<P>, n: nat)
    requires IsModule(f, m) && n <= |a| == |g| == |h|
    ensures DotTo(f, m, a, AddV(m, g, h), n) == m.Add(DotTo(f, m, a, g, n), DotTo(f, m, a, h, n))
    decreases n
  {
    if n == 0 {
      AddZero(f, m, m.zero);
    } else {
      DotToAddRight(f, m, a, g, h, n - 1);
      assert AddV(m, g, h)[n - 1] == m.Add(g[n - 1], h[n - 1]);
      ScaleAdd(f, m, a[n - 1], g[n - 1], h[n - 1]);
      Interchange(f, m, DotTo(f, m, a, g, n - 1), DotTo(f, m, a, h, n - 1), m.Scale(a[n - 1], g[n - 1]),
                  m.Scale(a[n - 1], h[n - 1]));
    }
  }

  lemma DotAddRight<F(!new), P(!new)>(f: Field<F>, m: Points<F, P>, a: seq<F>, g: seq<P>, h: seq<P>)
    requires IsModule(f, m) && |a| == |g| == |h|
    ensures Dot(f, m, a, AddV(m, g, h)) == m.Add(Dot(f, m, a, g), Dot(f, m, a, h))
  {
    DotToAddRight(f, m, a, g, h, |a|);
  }

  lemma {:induction false} DotToMove<F(!new), P(!new)>(f: Field<F>, m: Points<F, P>, a: seq<F>, k: seq<F>, g: seq<P>,
                                                       n: nat)
    requires IsModule(f, m) && n <= |a| == |k| == |g|
    ensures DotTo(f, m, MulV(Self(f), a, k), g, n) == DotTo(f, m, a, MulV(m, k, g), n)
    decreases n
  {
    if n != 0 {
      DotToMove(f, m, a, k, g, n - 1);
      assert MulV(Self(f), a, k)[n - 1] == f.Mul(a[n - 1], k[n - 1]);
      assert MulV(m, k, g)[n - 1] == m.Scale(k[n - 1], g[n - 1]);
      ScaleMul(f, m, a[n - 1], k[n - 1], g[n - 1]);
    }
  }

  // A factor can be moved from the scalars to the points.
  lemma DotMove<F(!new), P(!new)>(f: Field<F>, m: Points<F, P>, a: seq<F>, k: seq<F>, g: seq<P>)
    requires IsModule(f, m) && |a| == |k| == |g|
    ensures Dot(f, m, MulV(Self(f), a, k), g) == Dot(f, m, a, MulV(m, k, g))
  {
    DotToMove(f, m, a, k, g, |a|);
  }

  lemma {:induction false} DotToScale<F(!new), P(!new)>(f: Field<F>, m: Points<F, P>, k: F, a: seq<F>, g: seq<P>,
                                                        n: nat)
    requires IsModule(f, m) && n <= |a| == |g|
    ensures DotTo(f, m, ScaleV(Self(f), k, a), g, n) == m.Scale(k, DotTo(f, m, a, g, n))
    decreases n
  {
    if n == 0 {
      ScaleZero(f, m, k, m.zero);
    } else {
      DotToScale(f, m, k, a, g, n - 1);
      assert ScaleV(Self(f), k, a)[n - 1] == f.Mul(k, a[n - 1]);
      ScaleMul(f, m, k, a[n - 1], g[n - 1]);
      ScaleAdd(f, m, k, DotTo(f, m, a, g, n - 1), m.Scale(a[n - 1], g[n - 1]));
    }
  }

  lemma DotScale<F(!new), P(!new)>(f: Field<F>, m: Points<F, P>, k: F, a: seq<F>, g: seq<P>)
    requires IsModule(f, m) && |a| == |g|
    ensures Dot(f, m, ScaleV(Self(f), k, a), g) == m.Scale(k, Dot(f, m, a, g))
  {
    DotToScale(f, m, k, a, g, |a|);
  }

  lemma DotScaleRight<F(!new), P(!new)>(f: Field<F>, m: Points<F, P>, k: F, a: seq<F>, g: seq<P>)
    requires IsModule(f, m) && |a| == |g|
    ensures Dot(f, m, a, ScaleV(m, k, g)) == m.Scale(k, Dot(f, m, a, g))
  {
    DotMove(f, m, a, Repeat(k, |a|), g);
    MulVComm(f, a, Repeat(k, |a|));
    DotScale(f, m, k, a, g);
  }

  lemma {:induction false} DotToConcat<F(!new), P(!new)>(f: Field<F>, m: Points<F, P>,
                                                         a: seq<F>, b: seq<F>, g: seq<P>, h: seq<P>, n: nat)
    requires IsModule(f, m) && |a| == |g| && n <= |b| == |h|
    ensures DotTo(f, m, a + b, g + h, |a| + n) == m.Add(Dot(f, m, a, g), DotTo(f, m, b, h, n))
    decreases n
  {
    if n == 0 {
      AddZero(f, m, Dot(f, m, a, g));
      DotToLocal(f, m, a + b, g + h, a, g, |a|);
    } else {
      DotToConcat(f, m, a, b, g, h, n - 1);
      assert (a + b)[|a| + n - 1] == b[n - 1] && (g + h)[|a| + n - 1] == h[n - 1];
      AddAssoc(f, m, Dot(f, m, a, g), DotTo(f, m, b, h, n - 1), m.Scale(b[n - 1], h[n - 1]));
    }
  }

  lemma DotConcat<F(!new), P(!new)>(f: Field<F>, m: Points<F, P>, a: seq<F>, b: seq<F>, g: seq<P>, h: seq<P>)
    requires IsModule(f, m) && |a| == |g| && |b| == |h|
    ensures Dot(f, m, a + b, g + h) == m.Add(Dot(f, m, a, g), Dot(f, m, b, h))
  {
    DotToConcat(f, m, a, b, g, h, |b|);
  }

  lemma DotOne<F(!new), P(!new)>(f: Field<F>, m: Points<F, P>, k: F, x: P)
    requires IsModule(f, m)
    ensures Dot(f, m, [k], [x]) == m.Scale(k, x)
  {
    AddZero(f, m, m.Scale(k, x));
    assert DotTo(f, m, [k], [x], 0) == m.zero;
  }

  lemma FourDots<F(!new), P(!new)>(f: Field<F>, m: Points<F, P>, a: seq<F>, b: seq<F>, g: seq<P>, h: seq<P>)
    requires IsModule(f, m) && |a| == |b| == |g| == |h|
    ensures Dot(f, m, AddV(Self(f), a, b), AddV(m, g, h))
         == m.Add(m.Add(Dot(f, m, a, g), Dot(f, m, b, h)), m.Add(Dot(f, m, a, h), Dot(f, m, b, g)))
  {
    DotAdd(f, m, a, b, AddV(m, g, h));
    DotAddRight(f, m, a, g, h);
    DotAddRight(f, m, b, g, h);
    AddComm(f, m, Dot(f, m, b, g), Dot(f, m, b, h));
    Interchange(f, m, Dot(f, m, a, g), Dot(f, m, a, h), Dot(f, m, b, h), Dot(f, m, b, g));
  }

  lemma ScaleBoth<F(!new), P(!new)>(f: Field<F>, m: Points<F, P>, k: F, l: F, a: seq<F>, g: seq<P>)
    requires IsModule(f, m) && |a| == |g|
    ensures Dot(f, m, ScaleV(Self(f), k, a), ScaleV(m, l, g)) == m.Scale(f.Mul(k, l), Dot(f, m, a, g))
  {
    DotScale(f, m, k, a, ScaleV(m, l, g));
    DotScaleRight(f, m, l, a, g);
    ScaleMul(f, m, k, l, Dot(f, m, a, g));
  }

  lemma Halves<F(!new), P(!new)>(f: Field<F>, m: Points<F, P>, n: nat, a: seq<F>, g: seq<P>)
    requires IsModule(f, m) && n <= |a| == |g|
    ensures Dot(f, m, a, g) == m.Add(Dot(f, m, a[..n], g[..n]), Dot(f, m, a[n..], g[n..]))
  {
    DotConcat(f, m, a[..n], a[n..], g[..n], g[n..]);
    assert a == a[..n] + a[n..] && g == g[..n] + g[n..];
  }

  lemma DotHead<F(!new), P(!new)>(f: Field<F>, m: Points<F, P>, a: seq<F>, g: seq<P>)
    requires IsModule(f, m) && |a| == |g| > 0
    ensures Dot(f, m, a, g) == m.Add(m.Scale(a[0], g[0]), Dot(f, m, a[1..], g[1..]))
  {
    Halves(f, m, 1, a, g);
    DotOne(f, m, a[0], g[0]);
    assert a[..1] == [a[0]] && g[..1] == [g[0]];
  }

  lemma {:induction false} DotToNeg<F(!new), P(!new)>(f: Field<F>, m: Points<F, P>, a: seq<F>, g: seq<P>, n: nat)
    requires IsModule(f, m) && n <= |a| == |g|
    ensures DotTo(f, m, NegV(Self(f), a), g, n) == m.Neg(DotTo(f, m, a, g, n))
    decreases n
  {
    if n == 0 {
      AddNeg(f, m, m.zero);
      AddZero(f, m, m.Neg(m.zero));
    } else {
      DotToNeg(f, m, a, g, n - 1);
      assert NegV(Self(f), a)[n - 1] == f.Neg(a[n - 1]);
      ScaleNeg(f, m, a[n - 1], g[n - 1]);
      NegAdd(f, m, DotTo(f, m, a, g, n - 1), m.Scale(a[n - 1], g[n - 1]));
    }
  }

  lemma DotNeg<F(!new), P(!new)>(f: Field<F>, m: Points<F, P>, a: seq<F>, g: seq<P>)
    requires IsModule(f, m) && |a| == |g|
    ensures Dot(f, m, NegV(Self(f), a), g) == m.Neg(Dot(f, m, a, g))
  {
    DotToNeg(f, m, a, g, |a|);
  }

  lemma {:induction false} DotToComm<F(!new)>(f: Field<F>, a: seq<F>, b: seq<F>, n: nat)
    requires IsField(f) && n <= |a| == |b|
    ensures DotTo(f, Self(f), a, b, n) == DotTo(f, Self(f), b, a, n)
    decreases n
  {
    if n != 0 {
      DotToComm(f, a, b, n - 1);
      MulComm(f, a[n - 1], b[n - 1]);
    }
  }

  lemma MulVComm<F(!new)>(f: Field<F>, a: seq<F>, b: seq<F>)
    requires IsField(f) && |a| == |b|
    ensures MulV(Self(f), a, b) == MulV(Self(f), b, a)
  {
    forall i | 0 <= i < |a| ensures MulV(Self(f), a, b)[i] == MulV(Self(f), b, a)[i] {
      MulComm(f, a[i], b[i]);
    }
  }

  lemma AddVComm<F(!new), P(!new)>(f: Field<F>, m: Points<F, P>, a: seq<P>, b: seq<P>)
    requires IsModule(f, m) && |a| == |b|
    ensures AddV(m, a, b) == AddV(m, b, a)
  {
    forall i | 0 <= i < |a| ensures AddV(m, a, b)[i] == AddV(m, b, a)[i] {
      AddComm(f, m, a[i], b[i]);
    }
  }
}
