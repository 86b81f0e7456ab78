/**
The inner product argument. Generate folds four vectors in place, halving them each round;
the verifier never folds and does one multi-exponentiation instead, with scalars picked by
the bits of the index.
*/
module InnerProduct {
  import opened Algebra
  import opened Bits
  import opened FiatShamir
  import opened Outcome
  import opened Sequences
  import opened Vectors

  datatype Proof<F, P> = Proof(L: seq<P>, R: seq<P>, a: F, b: F)

  // ---------- The argument as a recursion over halves ----------

  // The four vectors of the argument.
  datatype Vecs<F, P> = Vecs(a: seq<F>, b: seq<F>, G: seq<P>, H: seq<P>) {
    predicate OfLength(n: nat) {
      |a| == |b| == |G| == |H| == n
    }
  }

  // The two cross terms of a round that splits the vectors at n.
  function CrossL<F, P>(f: Field<F>, m: Points<F, P>, Q: P, n: nat, w: Vecs<F, P>): P
    requires w.OfLength(2 * n)
  {
    m.Add(m.Add(Dot(f, m, w.a[..n], w.G[n..]), Dot(f, m, w.b[n..], w.H[..n])),
          m.Scale(Dot(f, Self(f), w.a[..n], w.b[n..]), Q))
  }

  function CrossR<F, P>(f: Field<F>, m: Points<F, P>, Q: P, n: nat, w: Vecs<F, P>): P
    requires w.OfLength(2 * n)
  {
    m.Add(m.Add(Dot(f, m, w.a[n..], w.G[..n]), Dot(f, m, w.b[..n], w.H[n..])),
          m.Scale(Dot(f, Self(f), w.a[n..], w.b[..n]), Q))
  }

  // k * left half + l * right half
  function Fold<F, P>(m: Points<F, P>, n: nat, k: F, l: F, x: seq<P>): (r: seq<P>)
    requires |x| == 2 * n
    ensures |r| == n
  {
    AddV(m, ScaleV(m, k, x[..n]), ScaleV(m, l, x[n..]))
  }

  function Folded<F, P>(f: Field<F>, m: Points<F, P>, n: nat, u: F, w: Vecs<F, P>): (r: Vecs<F, P>)
    requires w.OfLength(2 * n)
    ensures r.OfLength(n)
  {
    var v := f.Inv(u);
    Vecs(Fold(Self(f), n, u, v, w.a), Fold(Self(f), n, v, u, w.b), Fold(m, n, v, u, w.G), Fold(m, n, u, v, w.H))
  }

  function Transcript<F, P>(o: Oracle<F, P>, cache: Bytes, L: P, R: P): Bytes {
    cache + o.PointBytes(L) + o.PointBytes(R)
  }

  // One round: the cross terms, the transcript with them, and the folded vectors.
  datatype Stage<F, P> = Stage(L: P, R: P, cache: Bytes, rest: Vecs<F, P>)

  function RoundOf<F, P>(f: Field<F>, m: Points<F, P>, o: Oracle<F, P>, Q: P, cache: Bytes, n: nat,
                         w: Vecs<F, P>): Stage<F, P>
    requires w.OfLength(2 * n)
  {
    var L, R := CrossL(f, m, Q, n, w), CrossR(f, m, Q, n, w);
    var cache' := Transcript(o, cache, L, R);
    Stage(L, R, cache', Folded(f, m, n, o.derive(cache'), w))
  }

  // The transcript so far, the half length and the vectors that a round starts from.
  datatype State<F, P> = State(cache: Bytes, n: nat, w: Vecs<F, P>)

  type Step<!F, !P> = State<F, P> -> Stage<F, P>

  // step does the rounds of the argument.
  ghost predicate Steps<F(!new), P(!new)>(f: Field<F>, m: Points<F, P>, o: Oracle<F, P>, Q: P, step: Step<F, P>) {
    forall s: State<F, P> {:trigger At(s)} ::
      s.w.OfLength(2 * s.n) ==> step(s) == RoundOf(f, m, o, Q, s.cache, s.n, s.w)
  }

  // All rounds: the cross terms and the vectors that are left.
  function Run<F, P>(step: Step<F, P>, cache: Bytes, lg: nat, w: Vecs<F, P>): (seq<P>, seq<P>, Vecs<F, P>)
    decreases lg
  {
    if lg == 0 then ([], [], w)
    else
      var t := step(State(cache, Pow2(lg - 1), w));
      var (L, R, last) := Run(step, t.cache, lg - 1, t.rest);
      ([t.L] + L, [t.R] + R, last)
  }

  // The challenges that the transcript of L and R yields.
  function Challenges<F, P>(o: Oracle<F, P>, cache: Bytes, L: seq<P>, R: seq<P>): (us: seq<F>)
    requires |L| == |R|
    ensures |us| == |L|
    decreases |L|
  {
    if |L| == 0 then []
    else
      var cache' := Transcript(o, cache, L[0], R[0]);
      [o.derive(cache')] + Challenges(o, cache', L[1..], R[1..])
  }

  // What the argument commits to: <a, G> + <b, H> + <a, b> Q.
  function Commit<F, P>(f: Field<F>, m: Points<F, P>, Q: P, w: Vecs<F, P>): P
    requires w.OfLength(|w.a|)
  {
    m.Add(m.Add(Dot(f, m, w.a, w.G), Dot(f, m, w.b, w.H)), m.Scale(Dot(f, Self(f), w.a, w.b), Q))
  }

  // ---------- The verifier's scalars ----------

  // What a challenge contributes: its inverse, times its square if its bit is set. That is the
  // challenge itself, unless it is zero.
  function Factor<F>(f: Field<F>, u: F, up: bool): F {
    if up then f.Mul(f.Inv(u), f.Square(u)) else f.Inv(u)
  }

  lemma FactorUp<F(!new)>(f: Field<F>, u: F)
    requires IsField(f) && u != f.zero
    ensures Factor(f, u, true) == u
  {
    MulAssoc(f, f.Inv(u), u, u);
    MulInv(f, u);
    MulOne(f, u);
  }

  // The product of what all challenges contribute at index i, by halves of the range of i. The
  // first challenge goes with the highest bit.
  function Chosen<F>(f: Field<F>, us: seq<F>, i: nat): F
    requires i < Pow2(|us|)
  {
    if |us| == 0 then f.one
    else
      var half := Pow2(|us| - 1);
      if i < half then f.Mul(Factor(f, us[0], false), Chosen(f, us[1..], i))
      else f.Mul(Factor(f, us[0], true), Chosen(f, us[1..], i - half))
  }

  function Scalars<F>(f: Field<F>, us: seq<F>): (s: seq<F>)
    ensures |s| == Pow2(|us|) && forall i :: 0 <= i < |s| ==> s[i] == Chosen(f, us, i)
  {
    ScalarsTo(f, us, Pow2(|us|))
  }

  function ScalarsTo<F>(f: Field<F>, us: seq<F>, n: nat): (s: seq<F>)
    requires n <= Pow2(|us|)
    ensures |s| == n && forall i :: 0 <= i < n ==> s[i] == Chosen(f, us, i)
  {
    if n == 0 then [] else ScalarsTo(f, us, n - 1) + [Chosen(f, us, n - 1)]
  }

  function Reversed<T>(s: seq<T>): (r: seq<T>)
    ensures |r| == |s| && forall i :: 0 <= i < |s| ==> r[i] == s[|s| - 1 - i]
  {
    ReversedTo(s, |s|)
  }

  function ReversedTo<T>(s: seq<T>, n: nat): (r: seq<T>)
    requires n <= |s|
    ensures |r| == n && forall i :: 0 <= i < n ==> r[i] == s[|s| - 1 - i]
  {
    if n == 0 then [] else ReversedTo(s, n - 1) + [s[|s| - n]]
  }

  function Squares<F>(f: Field<F>, us: seq<F>): (r: seq<F>)
    ensures |r| == |us| && forall i {:trigger r[i]} :: 0 <= i < |us| ==> r[i] == f.Square(us[i])
  {
    MulV(Self(f), us, us)
  }

  function InvSquares<F>(f: Field<F>, us: seq<F>): (r: seq<F>)
    ensures |r| == |us| && forall i {:trigger r[i]} :: 0 <= i < |us| ==> r[i] == f.Square(f.Inv(us[i]))
  {
    if |us| == 0 then [] else InvSquares(f, us[..|us| - 1]) + [f.Square(f.Inv(us[|us| - 1]))]
  }

  ghost predicate NonZero<F>(f: Field<F>, us: seq<F>) {
    forall i :: 0 <= i < |us| ==> us[i] != f.zero
  }

  // The choices of both halves, from those of the other challenges.
  lemma ChosenHalves<F>(f: Field<F>, us: seq<F>, half: nat, i: nat)
    requires |us| > 0 && |us[1..]| == |us| - 1 && half == Pow2(|us| - 1) && i < half
    ensures half + half == Pow2(|us|)
    ensures Chosen(f, us, i) == f.Mul(Factor(f, us[0], false), Chosen(f, us[1..], i))
    ensures Chosen(f, us, half + i) == f.Mul(Factor(f, us[0], true), Chosen(f, us[1..], i))
  {
  }

  // Both orders of the scalars split into a scaled lower and upper half, like a folded vector.
  lemma ScalarsSplit<F(!new)>(f: Field<F>, us: seq<F>)
    requires IsField(f) && |us| > 0 && us[0] != f.zero
    ensures Scalars(f, us)
         == ScaleV(Self(f), f.Inv(us[0]), Scalars(f, us[1..])) + ScaleV(Self(f), us[0], Scalars(f, us[1..]))
    ensures Reversed(Scalars(f, us)) == ScaleV(Self(f), us[0], Reversed(Scalars(f, us[1..])))
                                      + ScaleV(Self(f), f.Inv(us[0]), Reversed(Scalars(f, us[1..])))
  {
    FactorUp(f, us[0]);
    var s, t, half := Scalars(f, us), Scalars(f, us[1..]), Pow2(|us| - 1);
    var lo, hi := ScaleV(Self(f), f.Inv(us[0]), t), ScaleV(Self(f), us[0], t);
    forall i | 0 <= i < half ensures s[i] == lo[i] {
      ChosenHalves(f, us, half, i);
      ScalarsAre(f, us, s, i);
      ScalarsAre(f, us[1..], t, i);
    }
    forall i | half <= i < half + half ensures s[i] == hi[i - half] {
      ChosenHalves(f, us, half, i - half);
      ScalarsAre(f, us, s, i);
      ScalarsAre(f, us[1..], t, i - half);
    }
    assert s == lo + hi;
    ReversedHalves(f, us[0], f.Inv(us[0]), t, s);
  }

  lemma ReversedHalves<F>(f: Field<F>, u: F, v: F, t: seq<F>, s: seq<F>)
    requires s == ScaleV(Self(f), v, t) + ScaleV(Self(f), u, t)
    ensures Reversed(s) == ScaleV(Self(f), u, Reversed(t)) + ScaleV(Self(f), v, Reversed(t))
  {
    ReversedConcat(ScaleV(Self(f), v, t), ScaleV(Self(f), u, t));
    ReversedScale(f, u, t);
    ReversedScale(f, v, t);
  }

  lemma ReversedConcat<T>(a: seq<T>, b: seq<T>)
    ensures Reversed(a + b) == Reversed(b) + Reversed(a)
  {
    var l, r := Reversed(a + b), Reversed(b) + Reversed(a);
    forall i | 0 <= i < |l| ensures l[i] == r[i] {
      assert l[i] == (a + b)[|a| + |b| - 1 - i];
    }
  }

  lemma ReversedScale<F>(f: Field<F>, u: F, t: seq<F>)
    ensures Reversed(ScaleV(Self(f), u, t)) == ScaleV(Self(f), u, Reversed(t))
  {
    var l, r := Reversed(ScaleV(Self(f), u, t)), ScaleV(Self(f), u, Reversed(t));
    forall i | 0 <= i < |l| ensures l[i] == r[i] {
      assert l[i] == f.Mul(u, t[|t| - 1 - i]);
    }
  }

  // Opposite choices are inverse to each other.
  lemma {:induction false} OppositeChoice<F(!new)>(f: Field<F>, us: seq<F>, i: nat, j: nat)
    requires IsField(f) && NonZero(f, us) && i + j == Pow2(|us|) - 1
    ensures f.Mul(Chosen(f, us, i), Chosen(f, us, j)) == f.one
    decreases |us|
  {
    MulOne(f, f.one);
    if |us| > 0 {
      var u, half := us[0], Pow2(|us| - 1);
      var i1, j1 := if i < half then i else i - half, if j < half then j else j - half;
      OppositeChoice(f, us[1..], i1, j1);
      FactorUp(f, u);
      MulInv(f, u);
      var x, y := Chosen(f, us[1..], i1), Chosen(f, us[1..], j1);
      MulInterchange(f, u, x, f.Inv(u), y);
      MulInterchange(f, f.Inv(u), x, u, y);
      MulComm(f, f.Inv(u), u);
    }
  }

  // Reversing the scalars inverts each of them.
  lemma ReversalInverts<F(!new)>(f: Field<F>, us: seq<F>, s: seq<F>, i: nat)
    requires IsField(f) && NonZero(f, us) && s == Scalars(f, us) && i < |s|
    ensures f.Mul(s[i], Reversed(s)[i]) == f.one
  {
    OppositeScalars(f, us, s, i, |s| - 1 - i);
  }

  lemma OppositeScalars<F(!new)>(f: Field<F>, us: seq<F>, s: seq<F>, i: nat, j: nat)
    requires IsField(f) && NonZero(f, us) && s == Scalars(f, us) && i + j == |s| - 1
    ensures f.Mul(s[i], s[j]) == f.one
  {
    ScalarsAre(f, us, s, i);
    ScalarsAre(f, us, s, j);
    OppositeChoice(f, us, i, j);
  }

  lemma ScalarsAre<F>(f: Field<F>, us: seq<F>, s: seq<F>, i: nat)
    requires s == Scalars(f, us) && i < |s|
    ensures |s| == Pow2(|us|) && s[i] == Chosen(f, us, i)
  {
  }

  // The recurrence: at an index whose highest bit is t, the scalar is the one without that
  // bit times the square of the challenge of that bit.
  lemma {:induction false} ChosenTopBit<F(!new)>(f: Field<F>, us: seq<F>, i: nat, t: nat)
    requires IsField(f) && t < |us| && Pow2(t) <= i < Pow2(t + 1) <= Pow2(|us|)
    ensures Chosen(f, us, i) == f.Mul(Chosen(f, us, i - Pow2(t)), f.Square(us[|us| - 1 - t]))
  {
    if t == |us| - 1 {
      var u, x := us[0], Chosen(f, us[1..], i - Pow2(t));
      MulAssoc(f, f.Inv(u), f.Square(u), x);
      MulComm(f, f.Square(u), x);
      MulAssoc(f, f.Inv(u), x, f.Square(u));
    } else {
      Grows(t + 1, |us| - 1);
      ChosenTopBit(f, us[1..], i, t);
      assert us[1..][|us| - 2 - t] == us[|us| - 1 - t];
      MulAssoc(f, f.Inv(us[0]), Chosen(f, us[1..], i - Pow2(t)), f.Square(us[|us| - 1 - t]));
    }
  }

  // ---------- The scalars and the bits of the index ----------

  // The product over the challenges from position j on: a challenge if its bit of i is set, and
  // its inverse if not.
  function ByBits<F>(f: Field<F>, us: seq<F>, i: nat, j: nat): F
    requires j <= |us|
    decreases |us| - j
  {
    if j == |us| then f.one
    else f.Mul(if Bit(i, |us| - 1 - j) then us[j] else f.Inv(us[j]), ByBits(f, us, i, j + 1))
  }

  // Below 2^(k+1), bit k tells the upper half, and taking it off leaves the bits below it.
  lemma {:induction false} SplitBits(i: nat, k: nat, b: nat)
    requires i < Pow2(k + 1) && b <= k
    ensures Bit(i, k) <==> i >= Pow2(k)
    ensures i >= Pow2(k) && b < k ==> (Bit(i - Pow2(k), b) <==> Bit(i, b))
    decreases k
  {
    if k > 0 {
      SplitBits(i / 2, k - 1, if b == 0 then 0 else b - 1);
      if i >= Pow2(k) {
        assert (i - Pow2(k)) / 2 == i / 2 - Pow2(k - 1);
      }
    }
  }

  // The scalar at an index, by the bits of the index.
  lemma {:induction false} ChosenBits<F(!new)>(f: Field<F>, us: seq<F>, i: nat, j: nat, low: nat)
    requires IsField(f) && NonZero(f, us) && j <= |us| && low < Pow2(|us| - j)
    requires forall b: nat :: b < |us| - j ==> (Bit(low, b) <==> Bit(i, b))
    ensures Chosen(f, us[j..], low) == ByBits(f, us, i, j)
    decreases |us| - j
  {
    if j < |us| {
      var k, rest := |us| - 1 - j, us[j..];
      SplitBits(low, k, k);
      var next := if low < Pow2(k) then low else low - Pow2(k);
      forall b: nat | b < k ensures Bit(next, b) <==> Bit(i, b) {
        SplitBits(low, k, b);
      }
      ChosenBits(f, us, i, j + 1, next);
      assert rest[1..] == us[j + 1..] && rest[0] == us[j];
      FactorUp(f, us[j]);
    }
  }

  lemma ScalarsByBits<F(!new)>(f: Field<F>, us: seq<F>, i: nat)
    requires IsField(f) && NonZero(f, us) && i < Pow2(|us|)
    ensures Scalars(f, us)[i] == ByBits(f, us, i, 0)
  {
    ChosenBits(f, us, i, 0, i);
    assert us[0..] == us;
  }

  // ---------- Completeness ----------

  lemma ScaleInverse<F(!new), P(!new)>(f: Field<F>, m: Points<F, P>, k: F, l: F, a: seq<F>, g: seq<P>)
    requires IsModule(f, m) && |a| == |g| && f.Mul(k, l) == f.one
    ensures Dot(f, m, ScaleV(Self(f), k, a), ScaleV(m, l, g)) == Dot(f, m, a, g)
  {
    ScaleBoth(f, m, k, l, a, g);
    ScaleOne(f, m, Dot(f, m, a, g));
  }

  // <u aL + v aR, v gL + u gR> with u v = 1
  lemma FoldDot<F(!new), P(!new)>(f: Field<F>, m: Points<F, P>, u: F, v: F,
                                  aL: seq<F>, aR: seq<F>, gL: seq<P>, gR: seq<P>)
    requires IsModule(f, m) && |aL| == |aR| == |gL| == |gR|
    requires f.Mul(u, v) == f.one
    ensures Dot(f, m, AddV(Self(f), ScaleV(Self(f), u, aL), ScaleV(Self(f), v, aR)),
                AddV(m, ScaleV(m, v, gL), ScaleV(m, u, gR)))
         == m.Add(m.Add(Dot(f, m, aL, gL), Dot(f, m, aR, gR)),
                  m.Add(m.Scale(f.Square(u), Dot(f, m, aL, gR)), m.Scale(f.Square(v), Dot(f, m, aR, gL))))
  {
    FourDots(f, m, ScaleV(Self(f), u, aL), ScaleV(Self(f), v, aR), ScaleV(m, v, gL), ScaleV(m, u, gR));
    MulComm(f, u, v);
    ScaleInverse(f, m, u, v, aL, gL);
    ScaleInverse(f, m, v, u, aR, gR);
    ScaleBoth(f, m, u, u, aL, gR);
    ScaleBoth(f, m, v, v, aR, gL);
  }

  // Three sums of the FoldDot form regrouped by their coefficients.
  lemma Regroup<F(!new), P(!new)>(f: Field<F>, m: Points<F, P>, s: F, t: F,
                                  x: P, x1: P, x2: P, y: P, y1: P, y2: P, z: P, z1: P, z2: P)
    requires IsModule(f, m)
    ensures m.Add(m.Add(m.Add(x, m.Add(m.Scale(s, x1), m.Scale(t, x2))),
                        m.Add(y, m.Add(m.Scale(s, y1), m.Scale(t, y2)))),
                  m.Add(z, m.Add(m.Scale(s, z1), m.Scale(t, z2))))
         == m.Add(m.Add(m.Add(x, y), z),
                  m.Add(m.Scale(s, m.Add(m.Add(x1, y1), z1)), m.Scale(t, m.Add(m.Add(x2, y2), z2))))
  {
    var sx, tx := m.Scale(s, x1), m.Scale(t, x2);
    var sy, ty := m.Scale(s, y1), m.Scale(t, y2);
    var sz, tz := m.Scale(s, z1), m.Scale(t, z2);
    Interchange(f, m, x, m.Add(sx, tx), y, m.Add(sy, ty));
    Interchange(f, m, m.Add(x, y), m.Add(m.Add(sx, tx), m.Add(sy, ty)), z, m.Add(sz, tz));
    Interchange(f, m, sx, tx, sy, ty);
    Interchange(f, m, m.Add(sx, sy), m.Add(tx, ty), sz, tz);
    ScaleAdd(f, m, s, x1, y1);
    ScaleAdd(f, m, s, m.Add(x1, y1), z1);
    ScaleAdd(f, m, t, x2, y2);
    ScaleAdd(f, m, t, m.Add(x2, y2), z2);
  }

  // One round changes the commitment by u^2 L + u^-2 R.
  lemma RoundCommit<F(!new), P(!new)>(f: Field<F>, m: Points<F, P>, Q: P, n: nat, u: F, w: Vecs<F, P>)
    requires IsModule(f, m) && u != f.zero && w.OfLength(2 * n)
    ensures Commit(f, m, Q, Folded(f, m, n, u, w))
         == m.Add(Commit(f, m, Q, w),
                  m.Add(m.Scale(f.Square(u), CrossL(f, m, Q, n, w)),
                        m.Scale(f.Square(f.Inv(u)), CrossR(f, m, Q, n, w))))
  {
    var v, s, t := f.Inv(u), f.Square(u), f.Square(f.Inv(u));
    var a, b, G, H := w.a, w.b, w.G, w.H;
    MulInv(f, u);
    SelfIsModule(f);
    FoldDot(f, m, u, v, a[..n], a[n..], G[..n], G[n..]);
    FoldDot(f, m, u, v, b[n..], b[..n], H[n..], H[..n]);
    FoldDot(f, Self(f), u, v, a[..n], a[n..], b[..n], b[n..]);
    AddVComm(f, Self(f), ScaleV(Self(f), v, b[..n]), ScaleV(Self(f), u, b[n..]));
    AddVComm(f, m, ScaleV(m, u, H[..n]), ScaleV(m, v, H[n..]));
    AddComm(f, m, Dot(f, m, b[n..], H[n..]), Dot(f, m, b[..n], H[..n]));
    Halves(f, m, n, a, G);
    Halves(f, m, n, b, H);
    Halves(f, Self(f), n, a, b);
    var c1, c2 := Dot(f, Self(f), a[..n], b[n..]), Dot(f, Self(f), a[n..], b[..n]);
    var c := Dot(f, Self(f), a, b);
    ScaleSum(f, m, c, f.Add(f.Mul(s, c1), f.Mul(t, c2)), Q);
    ScaleSum(f, m, f.Mul(s, c1), f.Mul(t, c2), Q);
    ScaleMul(f, m, s, c1, Q);
    ScaleMul(f, m, t, c2, Q);
    Regroup(f, m, s, t,
            Dot(f, m, a, G), Dot(f, m, a[..n], G[n..]), Dot(f, m, a[n..], G[..n]),
            Dot(f, m, b, H), Dot(f, m, b[n..], H[..n]), Dot(f, m, b[..n], H[n..]),
            m.Scale(c, Q), m.Scale(c1, Q), m.Scale(c2, Q));
  }

  // A vector of scalars that splits like the folding gives the folded point.
  lemma FoldPoints<F(!new), P(!new)>(f: Field<F>, m: Points<F, P>, n: nat, k: F, l: F, s: seq<F>, G: seq<P>)
    requires IsModule(f, m) && |G| == 2 * n && |s| == n
    ensures Dot(f, m, ScaleV(Self(f), k, s) + ScaleV(Self(f), l, s), G) == Dot(f, m, s, Fold(m, n, k, l, G))
  {
    assert G == G[..n] + G[n..];
    DotConcat(f, m, ScaleV(Self(f), k, s), ScaleV(Self(f), l, s), G[..n], G[n..]);
    DotAddRight(f, m, s, ScaleV(m, k, G[..n]), ScaleV(m, l, G[n..]));
    DotScale(f, m, k, s, G[..n]);
    DotScale(f, m, l, s, G[n..]);
    DotScaleRight(f, m, k, s, G[..n]);
    DotScaleRight(f, m, l, s, G[n..]);
  }

  // What the final scalars a and b open to, without folding any point.
  function Opening<F, P>(f: Field<F>, m: Points<F, P>, Q: P, us: seq<F>, a: F, b: F, G: seq<P>, H: seq<P>): P
    requires |G| == |H| == Pow2(|us|)
  {
    m.Add(m.Add(m.Scale(a, Dot(f, m, Scalars(f, us), G)), m.Scale(b, Dot(f, m, Reversed(Scalars(f, us)), H))),
          m.Scale(f.Mul(a, b), Q))
  }

  // The opening of vectors is the opening of their folded halves.
  lemma OpeningFolds<F(!new), P(!new)>(f: Field<F>, m: Points<F, P>, Q: P, us: seq<F>, a: F, b: F, n: nat,
                                       w: Vecs<F, P>, w1: Vecs<F, P>)
    requires IsModule(f, m) && |us| > 0 && us[0] != f.zero && |us[1..]| == |us| - 1 && n == Pow2(|us| - 1)
    requires w.OfLength(2 * n) && w1.OfLength(n) && w1 == Folded(f, m, n, us[0], w)
    ensures Opening(f, m, Q, us, a, b, w.G, w.H) == Opening(f, m, Q, us[1..], a, b, w1.G, w1.H)
  {
    ScalarsSplit(f, us);
    FoldPoints(f, m, n, f.Inv(us[0]), us[0], Scalars(f, us[1..]), w.G);
    FoldPoints(f, m, n, us[0], f.Inv(us[0]), Reversed(Scalars(f, us[1..])), w.H);
  }

  // The sum of the cross terms, each with the square of its challenge or of its inverse.
  function CrossSum<F, P>(f: Field<F>, m: Points<F, P>, us: seq<F>, L: seq<P>, R: seq<P>): P
    requires |us| == |L| == |R|
  {
    m.Add(Dot(f, m, Squares(f, us), L), Dot(f, m, InvSquares(f, us), R))
  }

  lemma CrossSumHead<F(!new), P(!new)>(f: Field<F>, m: Points<F, P>, us: seq<F>, L: seq<P>, R: seq<P>)
    requires IsModule(f, m) && |us| == |L| == |R| > 0
    ensures CrossSum(f, m, us, L, R)
         == m.Add(m.Add(m.Scale(f.Square(us[0]), L[0]), m.Scale(f.Square(f.Inv(us[0])), R[0])),
                  CrossSum(f, m, us[1..], L[1..], R[1..]))
  {
    DotHead(f, m, Squares(f, us), L);
    DotHead(f, m, InvSquares(f, us), R);
    assert Squares(f, us)[1..] == Squares(f, us[1..]);
    assert InvSquares(f, us)[1..] == InvSquares(f, us[1..]);
    Interchange(f, m, m.Scale(f.Square(us[0]), L[0]), m.Scale(f.Square(f.Inv(us[0])), R[0]),
                Dot(f, m, Squares(f, us[1..]), L[1..]), Dot(f, m, InvSquares(f, us[1..]), R[1..]));
  }

  // The final scalars open the commitment, up to the cross terms.
  ghost predicate Opens<F, P>(f: Field<F>, m: Points<F, P>, Q: P, us: seq<F>, p: Proof<F, P>, w: Vecs<F, P>) {
    && |us| == |p.L| == |p.R| && w.OfLength(Pow2(|us|))
    && Opening(f, m, Q, us, p.a, p.b, w.G, w.H) == m.Add(Commit(f, m, Q, w), CrossSum(f, m, us, p.L, p.R))
  }

  // The proof p and the challenges us come from a run that ends with the vectors in last.
  ghost predicate Runs<F, P>(o: Oracle<F, P>, step: Step<F, P>, cache: Bytes, lg: nat, w: Vecs<F, P>,
                             p: Proof<F, P>, us: seq<F>, last: Vecs<F, P>)
  {
    && (p.L, p.R, last) == Run(step, cache, lg, w)
    && |p.L| == |p.R| && us == Challenges(o, cache, p.L, p.R)
    && (last.OfLength(1) ==> p.a == last.a[0] && p.b == last.b[0])
  }

  // A proof without its first cross terms.
  function Shorter<F, P>(p: Proof<F, P>): Proof<F, P>
    requires |p.L| > 0 && |p.R| > 0
  {
    Proof(p.L[1..], p.R[1..], p.a, p.b)
  }

  // The prover's folding and the verifier's single opening differ by the cross terms only.
  lemma {:induction false} RunOpens<F(!new), P(!new)>(
      f: Field<F>, m: Points<F, P>, o: Oracle<F, P>, Q: P, step: Step<F, P>, cache: Bytes, lg: nat, w: Vecs<F, P>,
      p: Proof<F, P>, us: seq<F>, last: Vecs<F, P>)
    requires IsModule(f, m) && Steps(f, m, o, Q, step) && w.OfLength(Pow2(lg))
    requires Runs(o, step, cache, lg, w, p, us, last) && NonZero(f, us)
    ensures |us| == lg && last.OfLength(1) && Opens(f, m, Q, us, p, w)
    decreases lg
  {
    if lg == 0 {
      RunOpensOne(f, m, o, Q, step, cache, w, p, us, last);
    } else {
      var cache1, w1, p1, us1 := RunBack(f, m, o, Q, step, cache, lg, w, p, us, last);
      RunOpens(f, m, o, Q, step, cache1, lg - 1, w1, p1, us1, last);
    }
  }

  // What is left of a run after its first round, which opens the whole if it is opened itself.
  lemma RunBack<F(!new), P(!new)>(
      f: Field<F>, m: Points<F, P>, o: Oracle<F, P>, Q: P, step: Step<F, P>, cache: Bytes, lg: nat, w: Vecs<F, P>,
      p: Proof<F, P>, us: seq<F>, last: Vecs<F, P>)
    returns (cache1: Bytes, w1: Vecs<F, P>, p1: Proof<F, P>, us1: seq<F>)
    requires IsModule(f, m) && Steps(f, m, o, Q, step) && lg > 0 && w.OfLength(Pow2(lg))
    requires Runs(o, step, cache, lg, w, p, us, last) && NonZero(f, us)
    ensures Runs(o, step, cache1, lg - 1, w1, p1, us1, last) && NonZero(f, us1) && w1.OfLength(Pow2(lg - 1))
    ensures |us| == |us1| + 1 && (|us1| == lg - 1 && Opens(f, m, Q, us1, p1, w1) ==> Opens(f, m, Q, us, p, w))
  {
    var n := Pow2(lg - 1);
    cache1, w1, p1, us1 := RunFirst(f, m, o, Q, step, cache, lg, w, n, p, us, last);
    if |us1| == lg - 1 && Opens(f, m, Q, us1, p1, w1) {
      RoundOpens(f, m, Q, us, p, n, w, us1, p1, w1);
    }
  }

  lemma RunOpensOne<F(!new), P(!new)>(f: Field<F>, m: Points<F, P>, o: Oracle<F, P>, Q: P, step: Step<F, P>,
                                      cache: Bytes, w: Vecs<F, P>, p: Proof<F, P>, us: seq<F>, last: Vecs<F, P>)
    requires IsModule(f, m) && w.OfLength(1) && Runs(o, step, cache, 0, w, p, us, last)
    ensures us == [] && last == w && Opens(f, m, Q, us, p, w)
  {
    OpensOne(f, m, Q, us, p, w);
  }

  // The first round of a run and what is left of it.
  lemma RunFirst<F(!new), P(!new)>(f: Field<F>, m: Points<F, P>, o: Oracle<F, P>, Q: P, step: Step<F, P>, cache: Bytes,
                                   lg: nat, w: Vecs<F, P>, n: nat, p: Proof<F, P>, us: seq<F>, last: Vecs<F, P>)
    returns (cache1: Bytes, w1: Vecs<F, P>, p1: Proof<F, P>, us1: seq<F>)
    requires Steps(f, m, o, Q, step) && lg > 0 && n == Pow2(lg - 1) && w.OfLength(2 * n)
    requires Runs(o, step, cache, lg, w, p, us, last)
    ensures Runs(o, step, cache1, lg - 1, w1, p1, us1, last)
    ensures |us| == |p.L| == |p.R| > 0 && us1 == us[1..] && p1 == Shorter(p)
    ensures p.L[0] == CrossL(f, m, Q, n, w) && p.R[0] == CrossR(f, m, Q, n, w)
    ensures w1 == Folded(f, m, n, us[0], w) && w1.OfLength(n)
    ensures NonZero(f, us) ==> us[0] != f.zero && NonZero(f, us1)
  {
    assert At(State(cache, n, w));
    var t := step(State(cache, n, w));
    cache1, w1, p1, us1 := t.cache, t.rest, Shorter(p), us[1..];
  }

  // If the folded vectors are opened, so are the whole ones.
  lemma RoundOpens<F(!new), P(!new)>(f: Field<F>, m: Points<F, P>, Q: P, us: seq<F>, p: Proof<F, P>, n: nat,
                                     w: Vecs<F, P>, us1: seq<F>, p1: Proof<F, P>, w1: Vecs<F, P>)
    requires IsModule(f, m) && |us| == |p.L| == |p.R| > 0 && us[0] != f.zero && us1 == us[1..] && p1 == Shorter(p)
    requires n == Pow2(|us| - 1) && w.OfLength(2 * n) && w1 == Folded(f, m, n, us[0], w)
    requires p.L[0] == CrossL(f, m, Q, n, w) && p.R[0] == CrossR(f, m, Q, n, w)
    requires Opens(f, m, Q, us1, p1, w1)
    ensures Opens(f, m, Q, us, p, w)
  {
    RoundCommit(f, m, Q, n, us[0], w);
    OpeningFolds(f, m, Q, us, p.a, p.b, n, w, w1);
    CrossSumHead(f, m, us, p.L, p.R);
    AddAssoc(f, m, Commit(f, m, Q, w), m.Add(m.Scale(f.Square(us[0]), p.L[0]), m.Scale(f.Square(f.Inv(us[0])), p.R[0])),
             CrossSum(f, m, us1, p1.L, p1.R));
  }

  lemma OpensOne<F(!new), P(!new)>(f: Field<F>, m: Points<F, P>, Q: P, us: seq<F>, p: Proof<F, P>, w: Vecs<F, P>)
    requires IsModule(f, m) && w.OfLength(1) && us == [] && p == Proof([], [], w.a[0], w.b[0])
    ensures Opens(f, m, Q, us, p, w)
  {
    OpeningOfOne(f, m, Q, us, w);
  }

  lemma OpeningOfOne<F(!new), P(!new)>(f: Field<F>, m: Points<F, P>, Q: P, us: seq<F>, w: Vecs<F, P>)
    requires IsModule(f, m) && w.OfLength(1) && us == []
    ensures Opening(f, m, Q, us, w.a[0], w.b[0], w.G, w.H) == m.Add(Commit(f, m, Q, w), m.Add(m.zero, m.zero))
  {
    SelfIsModule(f);
    var a, b, G, H := w.a, w.b, w.G, w.H;
    DotOne(f, m, f.one, G[0]);
    DotOne(f, m, f.one, H[0]);
    DotOne(f, m, a[0], G[0]);
    DotOne(f, m, b[0], H[0]);
    DotOne(f, Self(f), a[0], b[0]);
    assert Scalars(f, us) == [f.one] && Reversed(Scalars(f, us)) == [f.one];
    assert a == [a[0]] && b == [b[0]] && G == [G[0]] && H == [H[0]];
    ScaleOne(f, m, G[0]);
    ScaleOne(f, m, H[0]);
    AddZero(f, m, m.zero);
    AddZero(f, m, Commit(f, m, Q, w));
  }

  // ---------- The verifier's code ----------

  // The highest bit of i.
  function Log2(i: nat): (t: nat)
    requires i > 0
    ensures Pow2(t) <= i < Pow2(t + 1)
  {
    if i == 1 then 0 else Log2(i / 2) + 1
  }

  // 1. compute x's
  method DeriveChallenges<F, P>(o: Oracle<F, P>, L: seq<P>, R: seq<P>) returns (us: seq<F>)
    requires |L| == |R|
    ensures us == Challenges(o, [], L, R)
  {
    var cache: Bytes := [];
    us := [];
    for k := 0 to |L|
      invariant Challenges(o, [], L, R) == us + Challenges(o, cache, L[k..], R[k..])
    {
      NextChallenge(o, cache, L, R, k, us);
      cache := Transcript(o, cache, L[k], R[k]);
      us := us + [o.derive(cache)];
    }
  }

  lemma NextChallenge<F, P>(o: Oracle<F, P>, cache: Bytes, L: seq<P>, R: seq<P>, k: nat, us: seq<F>)
    requires k < |L| == |R|
    ensures var next := Transcript(o, cache, L[k], R[k]);
      us + Challenges(o, cache, L[k..], R[k..]) == us + [o.derive(next)] + Challenges(o, next, L[k + 1..], R[k + 1..])
  {
    assert L[k..][1..] == L[k + 1..] && R[k..][1..] == R[k + 1..];
  }

  // 2. compute inverse of x's
  method InvertChallenges<F(!new)>(f: Field<F>, us: seq<F>) returns (invs: seq<F>, invProd: F)
    requires IsField(f)
    ensures |invs| == |us| && forall j :: 0 <= j < |us| ==> invs[j] == f.Inv(us[j])
    ensures invProd == Chosen(f, us, 0)
  {
    invs := [];
    invProd := f.one;
    MulOne(f, Chosen(f, us, 0));
    assert us[0..] == us;
    for k := 0 to |us|
      invariant |invs| == k && forall j :: 0 <= j < k ==> invs[j] == f.Inv(us[j])
      invariant f.Mul(invProd, Chosen(f, us[k..], 0)) == Chosen(f, us, 0)
    {
      var inv := f.Inv(us[k]);
      assert us[k..][1..] == us[k + 1..];
      MulAssoc(f, invProd, inv, Chosen(f, us[k + 1..], 0));
      invProd := f.Mul(invProd, inv);
      invs := invs + [inv];
    }
    MulOne(f, invProd);
  }

  lemma ScalarsRecurrence<F(!new)>(f: Field<F>, us: seq<F>, i: nat)
    requires IsField(f) && 0 < i < Pow2(|us|)
    ensures Log2(i) < |us|
    ensures Scalars(f, us)[i] == f.Mul(Scalars(f, us)[i - Pow2(Log2(i))], Squares(f, us)[|us| - 1 - Log2(i)])
  {
    Log2Below(i, |us|);
    Grows(Log2(i) + 1, |us|);
    ChosenTopBit(f, us, i, Log2(i));
  }

  // The recurrence that BuildScalars runs, at index i of a vector with its values.
  ghost predicate Recurs<F(!new)>(f: Field<F>, uSq: seq<F>, S: seq<F>, i: nat) {
    0 < i < |S| ==>
      Log2(i) < |uSq| && S[i] == f.Mul(S[i - Pow2(Log2(i))], uSq[|uSq| - 1 - Log2(i)])
  }

  // 4. compute s
  method BuildScalars<F(!new)>(f: Field<F>, first: F, uSq: seq<F>, ghost S: seq<F>) returns (s: seq<F>)
    requires |S| == Pow2(|uSq|)
    ensures |s| == |S|
    ensures S[0] == first && (forall i: nat :: Recurs(f, uSq, S, i)) ==> s == S
  {
    var lgN := |uSq|;
    s := [first];
    for i := 1 to Pow2(lgN)
      invariant |s| == i
      invariant S[0] == first && (forall k: nat :: Recurs(f, uSq, S, k)) ==> s == S[..i]
    {
      var lgI := Log2(i);
      Log2Below(i, lgN);
      assert (forall k: nat :: Recurs(f, uSq, S, k)) ==> Recurs(f, uSq, S, i);
      s := s + [f.Mul(s[i - Pow2(lgI)], uSq[lgN - 1 - lgI])];
    }
  }

  // 3. compute x^2 and inv(x)^2
  method SquareChallenges<F>(f: Field<F>, us: seq<F>, invs: seq<F>) returns (uSq: seq<F>, uInvSq: seq<F>)
    requires |invs| == |us| && forall j :: 0 <= j < |us| ==> invs[j] == f.Inv(us[j])
    ensures uSq == Squares(f, us) && uInvSq == InvSquares(f, us)
  {
    uSq, uInvSq := [], [];
    for k := 0 to |us|
      invariant |uSq| == |uInvSq| == k
      invariant forall j :: 0 <= j < k ==> uSq[j] == f.Square(us[j]) && uInvSq[j] == f.Square(f.Inv(us[j]))
    {
      uSq := uSq + [f.Square(us[k])];
      uInvSq := uInvSq + [f.Square(invs[k])];
    }
  }

  lemma ScalarsRecur<F(!new)>(f: Field<F>, us: seq<F>)
    requires IsField(f)
    ensures forall i: nat :: Recurs(f, Squares(f, us), Scalars(f, us), i)
  {
    forall i: nat ensures Recurs(f, Squares(f, us), Scalars(f, us), i) {
      if 0 < i < Pow2(|us|) {
        ScalarsRecurrence(f, us, i);
      }
    }
  }

  method VerifScalars<F(!new), P>(f: Field<F>, o: Oracle<F, P>, p: Proof<F, P>, ghost us: seq<F>)
    returns (uSq: seq<F>, uInvSq: seq<F>, s: seq<F>)
    requires IsField(f)
    requires |p.L| == |p.R| ==> us == Challenges(o, [], p.L, p.R)
    ensures |p.L| != |p.R| ==> uSq == uInvSq == s == []
    ensures |p.L| == |p.R| ==> uSq == Squares(f, us) && uInvSq == InvSquares(f, us) && s == Scalars(f, us)
  {
    if |p.L| != |p.R| {
      return [], [], [];
    }
    var chals := DeriveChallenges(o, p.L, p.R);
    var invs, invProd := InvertChallenges(f, chals);
    uSq, uInvSq := SquareChallenges(f, chals, invs);
    s := BuildScalars(f, invProd, uSq, Scalars(f, us));
    ScalarsRecur(f, us);
    ScalarsAre(f, us, Scalars(f, us), 0);
  }

  lemma Log2Below(i: nat, lg: nat)
    requires 0 < i < Pow2(lg)
    ensures Log2(i) < lg
  {
    if lg <= Log2(i) {
      Grows(lg, Log2(i));
    }
  }

  method Reverse<T>(s: seq<T>) returns (r: seq<T>)
    ensures r == Reversed(s)
  {
    r := s;
    var i, j := 0, |r| - 1;
    while i < j
      invariant 0 <= i <= j + 2 && j == |s| - 1 - i && |r| == |s|
      invariant forall k :: i <= k <= j ==> r[k] == s[k]
      invariant forall k :: 0 <= k < i || j < k < |s| ==> r[k] == Reversed(s)[k]
    {
      r := r[i := r[j]][j := r[i]];
      i, j := i + 1, j - 1;
    }
  }

  // The verifier's sum: the opening minus the cross terms.
  lemma VerifierSum<F(!new), P(!new)>(f: Field<F>, m: Points<F, P>, us: seq<F>, p: Proof<F, P>,
                                      Hpf: seq<F>, G: seq<P>, H: seq<P>, Q: P, s: seq<F>, r: seq<F>)
    requires IsModule(f, m) && |us| == |p.L| == |p.R|
    requires |Hpf| == |G| == |H| == Pow2(|us|)
    requires s == ScaleV(Self(f), p.a, Scalars(f, us)) && r == ScaleV(Self(f), p.b, Reversed(Scalars(f, us)))
    ensures m.Add(Dot(f, m,
                      [f.Mul(p.a, p.b)] + (s + MulV(Self(f), r, Hpf)) + NegV(Self(f), Squares(f, us))
                        + NegV(Self(f), InvSquares(f, us)),
                      [Q] + (G + H) + p.L + p.R),
                  CrossSum(f, m, us, p.L, p.R))
         == Opening(f, m, Q, us, p.a, p.b, G, MulV(m, Hpf, H))
  {
    var q, g, h := m.Scale(f.Mul(p.a, p.b), Q), Dot(f, m, s, G), Dot(f, m, r, MulV(m, Hpf, H));
    FiveDots(f, m, f.Mul(p.a, p.b), s, MulV(Self(f), r, Hpf), Squares(f, us), InvSquares(f, us), Q, G, H, p.L, p.R);
    DotMove(f, m, r, Hpf, H);
    SubtractAdd(f, m, m.Add(q, m.Add(g, h)), Dot(f, m, Squares(f, us), p.L), Dot(f, m, InvSquares(f, us), p.R));
    AddComm(f, m, q, m.Add(g, h));
    DotScale(f, m, p.a, Scalars(f, us), G);
    DotScale(f, m, p.b, Reversed(Scalars(f, us)), MulV(m, Hpf, H));
  }

  lemma FiveDots<F(!new), P(!new)>(f: Field<F>, m: Points<F, P>, k: F, a: seq<F>, b: seq<F>, c: seq<F>, d: seq<F>,
                                   Q: P, G: seq<P>, H: seq<P>, L: seq<P>, R: seq<P>)
    requires IsModule(f, m) && |a| == |G| && |b| == |H| && |c| == |L| && |d| == |R|
    ensures Dot(f, m, [k] + (a + b) + NegV(Self(f), c) + NegV(Self(f), d), [Q] + (G + H) + L + R)
         == m.Add(m.Add(m.Add(m.Scale(k, Q), m.Add(Dot(f, m, a, G), Dot(f, m, b, H))), m.Neg(Dot(f, m, c, L))),
                  m.Neg(Dot(f, m, d, R)))
  {
    DotOne(f, m, k, Q);
    DotConcat(f, m, a, b, G, H);
    DotConcat(f, m, [k], a + b, [Q], G + H);
    DotConcat(f, m, [k] + (a + b), NegV(Self(f), c), [Q] + (G + H), L);
    DotConcat(f, m, [k] + (a + b) + NegV(Self(f), c), NegV(Self(f), d), [Q] + (G + H) + L, R);
    DotNeg(f, m, c, L);
    DotNeg(f, m, d, R);
  }

  // ((z - x) - y) + (x + y) == z
  lemma SubtractAdd<F(!new), P(!new)>(f: Field<F>, m: Points<F, P>, z: P, x: P, y: P)
    requires IsModule(f, m)
    ensures m.Add(m.Add(m.Add(z, m.Neg(x)), m.Neg(y)), m.Add(x, y)) == z
  {
    AddAssoc(f, m, z, m.Neg(x), m.Neg(y));
    AddAssoc(f, m, z, m.Add(m.Neg(x), m.Neg(y)), m.Add(x, y));
    NegAdd(f, m, x, y);
    AddNeg(f, m, m.Add(x, y));
    AddZero(f, m, z);
  }

  // The scalars of the verifier's sum.
  method SumScalars<F(!new), P>(f: Field<F>, p: Proof<F, P>, s: seq<F>, uSq: seq<F>, uInvSq: seq<F>, Hpf: seq<F>)
    returns (scalars: seq<F>)
    requires IsField(f) && |Hpf| == |s|
    ensures scalars
         == [f.Mul(p.a, p.b)] + (ScaleV(Self(f), p.a, s) + MulV(Self(f), ScaleV(Self(f), p.b, Reversed(s)), Hpf))
                     + NegV(Self(f), uSq) + NegV(Self(f), uInvSq)
  {
    var sInv := Reverse(s);
    var aTimesS := MulScalar(f, s, p.a);
    var bDivS := MulScalar(f, sInv, p.b);
    var scaled := Hadamard(f, bDivS, Hpf);
    var negUSq := Negate(f, uSq);
    var negUInvSq := Negate(f, uInvSq);
    scalars := [f.Mul(p.a, p.b)] + (aTimesS + scaled.value) + negUSq + negUInvSq;
  }

  // A proof with as many L as R is judged by the opening of the first half of G + H and the
  // second half of it, which are G and H when these have the same length.
  method Verify<F(!new), P(==, !new)>(f: Field<F>, m: Points<F, P>, o: Oracle<F, P>, p: Proof<F, P>,
                                      G: seq<P>, H: seq<P>, Hpf: seq<F>, Q: P, expected: P, n: int, ghost us: seq<F>)
    returns (ok: bool)
    requires IsModule(f, m)
    requires |p.L| == |p.R| ==> us == Challenges(o, [], p.L, p.R) && Pow2(|us|) <= |Hpf|
    ensures ok ==> |p.L| == |p.R| && |G| + |H| == 2 * Pow2(|us|)
    ensures |p.L| == |p.R| && |G| + |H| == 2 * Pow2(|us|) ==>
      var half := Pow2(|us|);
      (ok <==> n <= 1 + 2 * half + 2 * |us| &&
               m.Add(expected, CrossSum(f, m, us, p.L, p.R))
               == Opening(f, m, Q, us, p.a, p.b, (G + H)[..half], MulV(m, Hpf[..half], (G + H)[half..])))
  {
    var uSq, uInvSq, s := VerifScalars(f, o, p, us);
    var scalars := SumScalars(f, p, s, uSq, uInvSq, Hpf[..|s|]);
    var bases := G + H;
    var points := [Q] + bases + p.L + p.R;
    var have := Exp(f, m, scalars, points, n);
    if have.Ok? && |p.L| == |p.R| {
      ghost var G1, H1 := bases[..|s|], bases[|s|..];
      Rejoin(bases, |s|, G1, H1);
      SumDecides(f, m, us, p, Hpf[..|s|], G1, H1, bases, Q, scalars, points, expected, have.value);
    }
    ok := have.Ok? && have.value == expected;
  }

  // The scalars of the verifier's sum.
  ghost predicate AreSumScalars<F>(f: Field<F>, a: F, b: F, us: seq<F>, Hpf: seq<F>, scalars: seq<F>)
    requires |Hpf| == Pow2(|us|)
  {
    scalars
    == [f.Mul(a, b)]
       + (ScaleV(Self(f), a, Scalars(f, us)) + MulV(Self(f), ScaleV(Self(f), b, Reversed(Scalars(f, us))), Hpf))
       + NegV(Self(f), Squares(f, us)) + NegV(Self(f), InvSquares(f, us))
  }

  lemma Rejoin<P>(bases: seq<P>, half: nat, G: seq<P>, H: seq<P>)
    requires half <= |bases| && G == bases[..half] && H == bases[half..]
    ensures bases == G + H && |G| == half && |H| == |bases| - half
  {
  }

  lemma SumDecides<F(!new), P(!new)>(f: Field<F>, m: Points<F, P>, us: seq<F>, p: Proof<F, P>, Hpf: seq<F>, G: seq<P>,
                                     H: seq<P>, bases: seq<P>, Q: P, scalars: seq<F>, points: seq<P>, expected: P,
                                     have: P)
    requires IsModule(f, m) && |us| == |p.L| == |p.R|
    requires |Hpf| == |G| == |H| == Pow2(|us|) && AreSumScalars(f, p.a, p.b, us, Hpf, scalars)
    requires bases == G + H && points == [Q] + bases + p.L + p.R
    requires |scalars| == |points| && have == Dot(f, m, scalars, points)
    ensures have == expected <==>
      m.Add(expected, CrossSum(f, m, us, p.L, p.R)) == Opening(f, m, Q, us, p.a, p.b, G, MulV(m, Hpf, H))
  {
    VerifierSum(f, m, us, p, Hpf, G, H, Q, ScaleV(Self(f), p.a, Scalars(f, us)),
                ScaleV(Self(f), p.b, Reversed(Scalars(f, us))));
    Decides(f, m, have, expected, CrossSum(f, m, us, p.L, p.R), Opening(f, m, Q, us, p.a, p.b, G, MulV(m, Hpf, H)));
  }

  lemma Decides<F(!new), P(!new)>(f: Field<F>, m: Points<F, P>, have: P, expected: P, cross: P, opening: P)
    requires IsModule(f, m) && m.Add(have, cross) == opening
    ensures have == expected <==> m.Add(expected, cross) == opening
  {
    if m.Add(expected, cross) == opening {
      Cancel(f, m, expected, have, cross);
    }
  }

  // ---------- The prover's code ----------

  // n & (n - 1) == 0
  predicate IsPower2(n: nat) {
    n == 0 || And(n, n - 1) == 0
  }

  lemma {:induction false} IsPower2Means(n: nat)
    requires n > 0
    ensures IsPower2(n) <==> n == Pow2(Log2(n))
  {
    if n % 2 == 1 {
      AndSelf(n / 2);
      assert (n - 1) / 2 == n / 2;
      if n > 1 {
        assert Pow2(Log2(n)) == 2 * Pow2(Log2(n / 2));
      }
    } else {
      IsPower2Means(n / 2);
      assert (n - 1) / 2 == n / 2 - 1;
    }
  }

  lemma {:induction false} AndSelf(n: nat)
    ensures And(n, n) == n
  {
    if n != 0 {
      AndSelf(n / 2);
    }
  }

  lemma {:induction false} Log2OfPow2(lg: nat)
    ensures Log2(Pow2(lg)) == lg
  {
    if lg != 0 {
      Log2OfPow2(lg - 1);
      assert Pow2(lg) / 2 == Pow2(lg - 1);
    }
  }

  // L and R of a round. The entries of b that meet points of H come with the factors of H
  // applied: bRY with those of the left half, bLY with those of the right half.
  method CrossTerms<F(!new), P(!new)>(f: Field<F>, m: Points<F, P>, Q: P, n: nat, w: Vecs<F, P>, bRY: seq<F>,
                                      bLY: seq<F>)
    returns (L: P, R: P)
    requires IsModule(f, m) && w.OfLength(2 * n) && |bRY| == |bLY| == n
    ensures L == m.Add(m.Add(Dot(f, m, w.a[..n], w.G[n..]), Dot(f, m, bRY, w.H[..n])),
                       m.Scale(Dot(f, Self(f), w.a[..n], w.b[n..]), Q))
    ensures R == m.Add(m.Add(Dot(f, m, w.a[n..], w.G[..n]), Dot(f, m, bLY, w.H[n..])),
                       m.Scale(Dot(f, Self(f), w.a[n..], w.b[..n]), Q))
  {
    var cL := InnerProduct(f, w.a[..n], w.b[n..]);
    var cR := InnerProduct(f, w.a[n..], w.b[..n]);
    var e1 := Exp(f, m, w.a[..n], w.G[n..], n);
    var e2 := Exp(f, m, bRY, w.H[..n], n);
    L := m.Add(m.Add(e1.value, e2.value), m.Scale(cL.value, Q));
    var e4 := Exp(f, m, w.a[n..], w.G[..n], n);
    var e5 := Exp(f, m, bLY, w.H[n..], n);
    R := m.Add(m.Add(e4.value, e5.value), m.Scale(cR.value, Q));
  }

  // The loop that overwrites the left half of one of the four vectors, with a coefficient
  // per entry. The vectors do not meet in it, so each can have its own loop.
  method FoldInPlace<F(!new), P(!new)>(m: Points<F, P>, n: nat, k: seq<F>, l: seq<F>, x: array<P>, ghost x0: seq<P>)
    requires 2 * n <= x.Length && |k| == |l| == n && x[..2 * n] == x0
    modifies x
    ensures x[..n] == AddV(m, MulV(m, k, x0[..n]), MulV(m, l, x0[n..]))
  {
    for i := 0 to n
      invariant forall j :: i <= j < 2 * n ==> x[j] == x0[j]
      invariant forall j :: 0 <= j < i ==> x[j] == m.Add(m.Scale(k[j], x0[j]), m.Scale(l[j], x0[j + n]))
    {
      x[i] := m.Add(m.Scale(k[i], x[i]), m.Scale(l[i], x[i + n]));
    }
  }

  ghost predicate Holds<F, P>(n: nat, a: array<F>, b: array<F>, G: array<P>, H: array<P>, w: Vecs<F, P>)
    reads a, b, G, H
  {
    && n <= a.Length && a.Length == b.Length == G.Length == H.Length
    && a != b && G != H && a as object != G && a as object != H && b as object != G && b as object != H
    && w == Vecs(a[..n], b[..n], G[..n], H[..n])
  }

  // The four folds of a round. The coefficients of H are given per entry.
  method FoldAll<F(!new), P(!new)>(f: Field<F>, m: Points<F, P>, n: nat, u: F, v: F, hu: seq<F>, hv: seq<F>,
                                   a: array<F>, b: array<F>, G: array<P>, H: array<P>, ghost w: Vecs<F, P>)
    requires Holds(2 * n, a, b, G, H, w) && |hu| == |hv| == n
    modifies a, b, G, H
    ensures Holds(n, a, b, G, H, Vecs(Fold(Self(f), n, u, v, w.a), Fold(Self(f), n, v, u, w.b), Fold(m, n, v, u, w.G),
                                      AddV(m, MulV(m, hu, w.H[..n]), MulV(m, hv, w.H[n..]))))
  {
    var us, vs := Repeat(u, n), Repeat(v, n);
    FoldTwo(Self(f), n, us, vs, vs, us, a, b, w.a, w.b);
    FoldTwo(m, n, vs, us, hu, hv, G, H, w.G, w.H);
    FoldIs(Self(f), n, u, v, w.a);
    FoldIs(Self(f), n, v, u, w.b);
    FoldIs(m, n, v, u, w.G);
  }

  lemma FoldIs<F(!new), P(!new)>(m: Points<F, P>, n: nat, k: F, l: F, x: seq<P>)
    requires |x| == 2 * n
    ensures Fold(m, n, k, l, x) == AddV(m, MulV(m, Repeat(k, n), x[..n]), MulV(m, Repeat(l, n), x[n..]))
  {
  }

  method FoldTwo<F(!new), P(!new)>(m: Points<F, P>, n: nat, k: seq<F>, l: seq<F>, k1: seq<F>, l1: seq<F>,
                                   x: array<P>, y: array<P>, ghost x0: seq<P>, ghost y0: seq<P>)
    requires |k| == |l| == |k1| == |l1| == n && x != y
    requires 2 * n <= x.Length && x[..2 * n] == x0 && 2 * n <= y.Length && y[..2 * n] == y0
    modifies x, y
    ensures x[..n] == AddV(m, MulV(m, k, x0[..n]), MulV(m, l, x0[n..]))
    ensures y[..n] == AddV(m, MulV(m, k1, y0[..n]), MulV(m, l1, y0[n..]))
  {
    FoldInPlace(m, n, k, l, x, x0);
    FoldInPlace(m, n, k1, l1, y, y0);
  }

  // The first round applies the factors Hpf to H as it goes.
  method FirstCrossTerms<F(!new), P(!new)>(f: Field<F>, m: Points<F, P>, Q: P, n: nat, Hpf: seq<F>, w: Vecs<F, P>)
    returns (L: P, R: P)
    requires IsModule(f, m) && w.OfLength(2 * n) && |Hpf| == 2 * n
    ensures L == CrossL(f, m, Q, n, w.(H := MulV(m, Hpf, w.H)))
    ensures R == CrossR(f, m, Q, n, w.(H := MulV(m, Hpf, w.H)))
  {
    var bRY := Hadamard(f, w.b[n..], Hpf[..n]);
    var bLY := Hadamard(f, w.b[..n], Hpf[n..]);
    FactorsMove(f, m, n, w.b, Hpf, w.H);
    L, R := CrossTerms(f, m, Q, n, w, bRY.value, bLY.value);
  }

  method FirstFold<F(!new), P(!new)>(f: Field<F>, m: Points<F, P>, n: nat, u: F, Hpf: seq<F>,
                                     a: array<F>, b: array<F>, G: array<P>, H: array<P>, ghost w: Vecs<F, P>)
    requires IsModule(f, m) && Holds(2 * n, a, b, G, H, w) && |Hpf| == 2 * n
    modifies a, b, G, H
    ensures Holds(n, a, b, G, H, Folded(f, m, n, u, w.(H := MulV(m, Hpf, w.H))))
  {
    var v := f.Inv(u);
    var hu := MulScalar(f, Hpf[..n], u);
    var hv := MulScalar(f, Hpf[n..], v);
    FactorsFold(f, m, n, u, v, Hpf, w.H);
    FoldAll(f, m, n, u, v, hu, hv, a, b, G, H, w);
  }

  lemma FactorsMove<F(!new), P(!new)>(f: Field<F>, m: Points<F, P>, n: nat, b: seq<F>, Hpf: seq<F>, H: seq<P>)
    requires IsModule(f, m) && |b| == |Hpf| == |H| == 2 * n
    ensures Dot(f, m, MulV(Self(f), b[n..], Hpf[..n]), H[..n]) == Dot(f, m, b[n..], MulV(m, Hpf, H)[..n])
    ensures Dot(f, m, MulV(Self(f), b[..n], Hpf[n..]), H[n..]) == Dot(f, m, b[..n], MulV(m, Hpf, H)[n..])
  {
    DotMove(f, m, b[n..], Hpf[..n], H[..n]);
    DotMove(f, m, b[..n], Hpf[n..], H[n..]);
    assert MulV(m, Hpf, H)[..n] == MulV(m, Hpf[..n], H[..n]);
    assert MulV(m, Hpf, H)[n..] == MulV(m, Hpf[n..], H[n..]);
  }

  lemma FactorsFold<F(!new), P(!new)>(f: Field<F>, m: Points<F, P>, n: nat, u: F, v: F, Hpf: seq<F>, H: seq<P>)
    requires IsModule(f, m) && |Hpf| == |H| == 2 * n
    ensures AddV(m, MulV(m, ScaleV(Self(f), u, Hpf[..n]), H[..n]), MulV(m, ScaleV(Self(f), v, Hpf[n..]), H[n..]))
         == Fold(m, n, u, v, MulV(m, Hpf, H))
  {
    var x := AddV(m, MulV(m, ScaleV(Self(f), u, Hpf[..n]), H[..n]), MulV(m, ScaleV(Self(f), v, Hpf[n..]), H[n..]));
    forall i | 0 <= i < n ensures x[i] == Fold(m, n, u, v, MulV(m, Hpf, H))[i] {
      ScaleMul(f, m, u, Hpf[i], H[i]);
      ScaleMul(f, m, v, Hpf[i + n], H[i + n]);
    }
  }

  // What a round does, given its cross terms.
  lemma StepIs<F(!new), P(!new)>(f: Field<F>, m: Points<F, P>, o: Oracle<F, P>, Q: P, step: Step<F, P>, cache: Bytes,
                                 n: nat, w: Vecs<F, P>, L: P, R: P, cache1: Bytes)
    requires Steps(f, m, o, Q, step) && w.OfLength(2 * n)
    requires L == CrossL(f, m, Q, n, w) && R == CrossR(f, m, Q, n, w) && cache1 == Transcript(o, cache, L, R)
    ensures step(State(cache, n, w)) == Stage(L, R, cache1, Folded(f, m, n, o.derive(cache1), w))
  {
    assert At(State(cache, n, w));
  }

  // One of the later rounds, on the first 2n entries.
  method Round<F(!new), P(!new)>(f: Field<F>, m: Points<F, P>, o: Oracle<F, P>, Q: P, cache: Bytes, n: nat,
                                 a: array<F>, b: array<F>, G: array<P>, H: array<P>,
                                 ghost w: Vecs<F, P>, ghost step: Step<F, P>)
    returns (L: P, R: P, cache': Bytes, ghost t: Stage<F, P>)
    requires IsModule(f, m) && Holds(2 * n, a, b, G, H, w) && Steps(f, m, o, Q, step)
    modifies a, b, G, H
    ensures t == step(State(cache, n, w))
    ensures L == t.L && R == t.R && cache' == t.cache && Holds(n, a, b, G, H, t.rest)
  {
    var now := Vecs(a[..2 * n], b[..2 * n], G[..2 * n], H[..2 * n]);
    L, R := CrossTerms(f, m, Q, n, now, now.b[n..], now.b[..n]);
    cache' := Transcript(o, cache, L, R);
    t := step(State(cache, n, w));
    StepIs(f, m, o, Q, step, cache, n, w, L, R, cache');
    var u := o.derive(cache');
    FoldAll(f, m, n, u, f.Inv(u), Repeat(u, n), Repeat(f.Inv(u), n), a, b, G, H, w);
  }

  // After the rounds with cross terms L and R, the run goes on from cache, k and now.
  ghost predicate Continues<F, P>(step: Step<F, P>, start: Bytes, lg: nat, w: Vecs<F, P>, L: seq<P>, R: seq<P>,
                                  cache: Bytes, k: nat, now: Vecs<F, P>) {
    var (l, r, last) := Run(step, start, lg, w);
    var (l', r', last') := Run(step, cache, k, now);
    l == L + l' && r == R + r' && last == last'
  }

  lemma ContinuesNext<F, P>(step: Step<F, P>, start: Bytes, lg: nat, w: Vecs<F, P>, L: seq<P>, R: seq<P>,
                            cache: Bytes, k: nat, now: Vecs<F, P>, t: Stage<F, P>)
    requires k > 0 && t == step(State(cache, Pow2(k - 1), now))
    requires Continues(step, start, lg, w, L, R, cache, k, now)
    ensures Continues(step, start, lg, w, L + [t.L], R + [t.R], t.cache, k - 1, t.rest)
  {
    var (l, r, last) := Run(step, t.cache, k - 1, t.rest);
    assert L + ([t.L] + l) == L + [t.L] + l && R + ([t.R] + r) == R + [t.R] + r;
  }

  // The loop over the later rounds.
  method LaterRounds<F(!new), P(!new)>(f: Field<F>, m: Points<F, P>, o: Oracle<F, P>, Q: P, start: Bytes, len: nat,
                                       a: array<F>, b: array<F>, G: array<P>, H: array<P>,
                                       ghost lg: nat, ghost w: Vecs<F, P>, ghost step: Step<F, P>)
    returns (L: seq<P>, R: seq<P>)
    requires IsModule(f, m) && len == Pow2(lg) && Holds(len, a, b, G, H, w) && Steps(f, m, o, Q, step)
    modifies a, b, G, H
    ensures var (l, r, last) := Run(step, start, lg, w);
      L == l && R == r && Holds(1, a, b, G, H, last)
  {
    var n, cache := len, start;
    ghost var k, now := lg, w;
    L, R := [], [];
    while n > 1
      invariant n == Pow2(k) && Holds(n, a, b, G, H, now)
      invariant Continues(step, start, lg, w, L, R, cache, k, now)
    {
      HalfPow(n, k);
      n := n / 2;
      var l, r, c;
      ghost var t;
      l, r, c, t := Round(f, m, o, Q, cache, n, a, b, G, H, now, step);
      ContinuesNext(step, start, lg, w, L, R, cache, k, now, t);
      L, R, cache := L + [l], R + [r], c;
      k, now := k - 1, t.rest;
    }
    HalfPow(n, k);
    ContinuesEnd(step, start, lg, w, L, R, cache, now);
  }

  lemma HalfPow(n: nat, k: nat)
    requires n == Pow2(k)
    ensures if n > 1 then k > 0 && n == 2 * (n / 2) && n / 2 == Pow2(k - 1) else k == 0
  {
  }

  lemma ContinuesEnd<F, P>(step: Step<F, P>, start: Bytes, lg: nat, w: Vecs<F, P>, L: seq<P>, R: seq<P>,
                           cache: Bytes, now: Vecs<F, P>)
    requires Continues(step, start, lg, w, L, R, cache, 0, now)
    ensures Run(step, start, lg, w) == (L, R, now)
  {
    assert L + [] == L && R + [] == R;
  }

  // The first round.
  method FirstRound<F(!new), P(!new)>(f: Field<F>, m: Points<F, P>, o: Oracle<F, P>, Q: P, n: nat, Hpf: seq<F>,
                                      a: array<F>, b: array<F>, G: array<P>, H: array<P>, w: Vecs<F, P>,
                                      ghost step: Step<F, P>)
    returns (L: P, R: P, cache: Bytes)
    requires IsModule(f, m) && Holds(2 * n, a, b, G, H, w) && |Hpf| == 2 * n && Steps(f, m, o, Q, step)
    modifies a, b, G, H
    ensures var t := step(State([], n, w.(H := MulV(m, Hpf, w.H))));
      L == t.L && R == t.R && cache == t.cache && Holds(n, a, b, G, H, t.rest)
  {
    L, R := FirstCrossTerms(f, m, Q, n, Hpf, w);
    cache := Transcript(o, [], L, R);
    StepIs(f, m, o, Q, step, [], n, w.(H := MulV(m, Hpf, w.H)), L, R, cache);
    FirstFold(f, m, n, o.derive(cache), Hpf, a, b, G, H, w);
  }

  method Copy<T>(s: seq<T>) returns (x: array<T>)
    ensures fresh(x) && x[..x.Length] == s
  {
    x := new T[|s|](i requires 0 <= i < |s| => s[i]);
  }

  method CopyAll<F, P>(w: Vecs<F, P>) returns (a: array<F>, b: array<F>, G: array<P>, H: array<P>)
    requires w.OfLength(|w.G|)
    ensures fresh(a) && fresh(b) && fresh(G) && fresh(H) && Holds(|w.G|, a, b, G, H, w)
  {
    a := Copy(w.a);
    b := Copy(w.b);
    G := Copy(w.G);
    H := Copy(w.H);
  }

  method AllRounds<F(!new), P(!new)>(f: Field<F>, m: Points<F, P>, o: Oracle<F, P>, Q: P, w: Vecs<F, P>, Hpf: seq<F>,
                                     ghost step: Step<F, P>, ghost lg: nat)
    returns (p: Proof<F, P>)
    requires IsModule(f, m) && Steps(f, m, o, Q, step)
    requires lg > 0 && w.OfLength(Pow2(lg)) && |Hpf| == Pow2(lg)
    ensures var (l, r, last) := Run(step, [], lg, w.(H := MulV(m, Hpf, w.H)));
      p.L == l && p.R == r && last.OfLength(1) && p.a == last.a[0] && p.b == last.b[0]
  {
    var n := |w.G|;
    var a, b, G, H := CopyAll(w);
    ghost var w1 := w.(H := MulV(m, Hpf, w.H));
    n := n / 2;
    var L, R, cache := FirstRound(f, m, o, Q, n, Hpf, a, b, G, H, w, step);
    ghost var rest := step(State([], n, w1)).rest;
    var Ls, Rs := LaterRounds(f, m, o, Q, cache, n, a, b, G, H, lg - 1, rest, step);
    p := Proof([L] + Ls, [R] + Rs, a[0], b[0]);
  }

  lemma SomeStep<F(!new), P(!new)>(f: Field<F>, m: Points<F, P>, o: Oracle<F, P>, Q: P) returns (step: Step<F, P>)
    ensures Steps(f, m, o, Q, step)
  {
    step := (s: State<F, P>) =>
      if s.w.OfLength(2 * s.n) then RoundOf(f, m, o, Q, s.cache, s.n, s.w) else Stage(Q, Q, s.cache, s.w);
  }

  // The two parts of x at n, or nothing.
  function Split<T>(x: seq<T>, n: nat): (seq<T>, seq<T>) {
    if |x| <= n then ([], []) else (x[..n], x[n..])
  }

  // The length checks that the first round meets on its way: all four vectors have the length
  // of G, or one of them fails.
  method LengthsAgree<F, P>(w: Vecs<F, P>, n: nat) returns (ok: bool)
    requires |w.G| == 2 * n && n > 0
    ensures ok <==> w.OfLength(2 * n)
  {
    var (aL, aR) := Split(w.a, n);
    var (bL, bR) := Split(w.b, n);
    var (GL, GR) := Split(w.G, n);
    var (HL, HR) := Split(w.H, n);
    ok := |aR| == |bL| && |aL| == |GR| && |bR| == |HL| && |aR| == |GL| && |bL| == |HR|;
  }

  method Generate<F(!new), P(!new)>(f: Field<F>, m: Points<F, P>, o: Oracle<F, P>, Q: P, w: Vecs<F, P>, Hpf: seq<F>)
    returns (r: Result<Proof<F, P>>)
    requires IsModule(f, m) && |w.G| > 0
    requires |w.G| == 1 ==> |w.a| > 0 && |w.b| > 0
    requires |w.G| > 1 ==> |w.G| <= |Hpf| && |w.b| - |w.G| / 2 <= |Hpf|
    ensures r.Ok? <==> |w.G| == Pow2(Log2(|w.G|)) && (|w.G| == 1 || w.OfLength(|w.G|))
    ensures r.Ok? ==> |r.value.L| == |r.value.R| == Log2(|w.G|)
    ensures r.Ok? && w.OfLength(|w.G|) && |w.G| <= |Hpf| ==>
      var us := Challenges(o, [], r.value.L, r.value.R);
      NonZero(f, us) ==> Opens(f, m, Q, us, r.value, w.(H := MulV(m, Hpf[..|w.G|], w.H)))
  {
    var n := |w.G|;
    IsPower2Means(n);
    if !IsPower2(n) {
      return Err;
    }
    if n == 1 {
      r := Ok(Proof([], [], w.a[|w.a| - 1], w.b[|w.b| - 1]));
      if w.OfLength(1) && 1 <= |Hpf| {
        OpensOne(f, m, Q, [], r.value, w.(H := MulV(m, Hpf[..1], w.H)));
      }
      return;
    }
    EvenPow2(n);
    var ok := LengthsAgree(w, n / 2);
    if !ok {
      return Err;
    }
    var p := GenerateRounds(f, m, o, Q, w, Hpf[..n], Log2(n));
    r := Ok(p);
  }

  lemma EvenPow2(n: nat)
    requires n > 1 && n == Pow2(Log2(n))
    ensures n == 2 * (n / 2)
  {
  }

  method GenerateRounds<F(!new), P(!new)>(f: Field<F>, m: Points<F, P>, o: Oracle<F, P>, Q: P, w: Vecs<F, P>,
                                          Hpf: seq<F>, ghost lg: nat)
    returns (p: Proof<F, P>)
    requires IsModule(f, m) && lg > 0 && w.OfLength(Pow2(lg)) && |Hpf| == Pow2(lg)
    ensures |p.L| == |p.R| == lg
    ensures var us := Challenges(o, [], p.L, p.R);
            NonZero(f, us) ==> Opens(f, m, Q, us, p, w.(H := MulV(m, Hpf, w.H)))
  {
    ghost var step := SomeStep(f, m, o, Q);
    p := AllRounds(f, m, o, Q, w, Hpf, step, lg);
    ghost var w1 := w.(H := MulV(m, Hpf, w.H));
    ghost var last := Run(step, [], lg, w1).2;
    RunLength(step, [], lg, w1);
    ghost var us := Challenges(o, [], p.L, p.R);
    if NonZero(f, us) {
      RunOpens(f, m, o, Q, step, [], lg, w1, p, us, last);
    }
  }

  lemma {:induction false} RunLength<F, P>(step: Step<F, P>, cache: Bytes, lg: nat, w: Vecs<F, P>)
    ensures |Run(step, cache, lg, w).0| == |Run(step, cache, lg, w).1| == lg
    decreases lg
  {
    if lg != 0 {
      var t := step(State(cache, Pow2(lg - 1), w));
      RunLength(step, t.cache, lg - 1, t.rest);
    }
  }

  // Completeness of the code: what Generate makes is accepted by Verify exactly when Verify is
  // asked about the commitment <a, G> + <b * Hpf, H> + <a, b> Q.
  method GenerateThenVerify<F(!new), P(==, !new)>(f: Field<F>, m: Points<F, P>, o: Oracle<F, P>, Q: P, w: Vecs<F, P>,
                                                  Hpf: seq<F>, expected: P, ghost lg: nat)
    returns (ok: bool, p: Proof<F, P>)
    requires IsModule(f, m)
    requires w.OfLength(Pow2(lg)) && |Hpf| == Pow2(lg)
    ensures |p.L| == |p.R| == lg
    ensures NonZero(f, Challenges(o, [], p.L, p.R)) ==>
      (ok <==> expected == m.Add(m.Add(Dot(f, m, w.a, w.G), Dot(f, m, MulV(Self(f), w.b, Hpf), w.H)),
                                 m.Scale(Dot(f, Self(f), w.a, w.b), Q)))
  {
    Log2OfPow2(lg);
    var r := Generate(f, m, o, Q, w, Hpf);
    p := r.value;
    ghost var us := Challenges(o, [], p.L, p.R);
    ok := Verify(f, m, o, p, w.G, w.H, Hpf, Q, expected, |w.G|, us);
    assert (w.G + w.H)[..|w.G|] == w.G && (w.G + w.H)[|w.G|..] == w.H && Hpf[..|w.G|] == Hpf;
    DotMove(f, m, w.b, Hpf, w.H);
    if ok && NonZero(f, us) {
      Cancel(f, m, expected, Commit(f, m, Q, w.(H := MulV(m, Hpf, w.H))), CrossSum(f, m, us, p.L, p.R));
    }
  }

  // ---------- Padding to a power of two ----------

  // The code works on words of this many bits.
  const WIDTH: nat := 32

  function Smear(x: nat, k: nat): nat {
    Or(x, Shr(x, k))
  }

  // One less than the next power of two: n - 1 with every bit below its highest one set.
  function NextPow2(n: nat): nat
    requires n > 0
  {
    Smear(Smear(Smear(Smear(Smear(n - 1, 1), 2), 4), 8), 16)
  }

  function DiffNextPow2(n: nat): int
    requires n > 0
  {
    NextPow2(n) - n + 1
  }

  // Some bit of x at i .. i + w - 1 is set.
  ghost predicate AnyBit(x: nat, i: nat, w: nat) {
    exists j: nat :: i <= j < i + w && Bit(x, j)
  }

  lemma SmearBits(x: nat, y: nat, w: nat, i: nat)
    requires forall i: nat :: Bit(y, i) <==> AnyBit(x, i, w)
    ensures Bit(Smear(y, w), i) <==> AnyBit(x, i, 2 * w)
  {
    BitOr(y, Shr(y, w), i);
    BitShr(y, w, i);
  }

  lemma SmearAll(x: nat, y: nat, w: nat)
    requires forall i: nat :: Bit(y, i) <==> AnyBit(x, i, w)
    ensures forall i: nat :: Bit(Smear(y, w), i) <==> AnyBit(x, i, 2 * w)
  {
    forall i: nat ensures Bit(Smear(y, w), i) <==> AnyBit(x, i, 2 * w) {
      SmearBits(x, y, w, i);
    }
  }

  lemma NextPow2Bits(n: nat)
    requires n > 0
    ensures forall i: nat :: Bit(NextPow2(n), i) <==> AnyBit(n - 1, i, WIDTH)
  {
    var x := n - 1;
    forall i: nat ensures Bit(x, i) <==> AnyBit(x, i, 1) {
      if AnyBit(x, i, 1) {
        var j: nat :| i <= j < i + 1 && Bit(x, j);
        assert j == i;
      }
    }
    SmearAll(x, x, 1);
    SmearAll(x, Smear(x, 1), 2);
    SmearAll(x, Smear(Smear(x, 1), 2), 4);
    SmearAll(x, Smear(Smear(Smear(x, 1), 2), 4), 8);
    SmearAll(x, Smear(Smear(Smear(Smear(x, 1), 2), 4), 8), 16);
  }

  // The padding reaches the smallest power of two that is not below n.
  lemma PadsToPow2(n: nat) returns (k: nat)
    requires 0 < n <= Pow2(WIDTH)
    ensures DiffNextPow2(n) >= 0 && n + DiffNextPow2(n) == Pow2(k)
    ensures k > 0 ==> Pow2(k - 1) < n
  {
    NextPow2Bits(n);
    k := PadTo(n, NextPow2(n), DiffNextPow2(n), WIDTH);
  }

  lemma PadTo(n: nat, y: nat, diff: int, w: nat) returns (k: nat)
    requires 0 < n <= Pow2(w) && diff == y - n + 1 && forall i: nat :: Bit(y, i) <==> AnyBit(n - 1, i, w)
    ensures diff >= 0 && n + diff == Pow2(k) && (k > 0 ==> Pow2(k - 1) < n)
  {
    var x := n - 1;
    k := if x == 0 then 0 else Log2(x) + 1;
    OnesBelow(x, y, k, w);
  }

  lemma OnesBelow(x: nat, y: nat, k: nat, w: nat)
    requires x < Pow2(w) && k == if x == 0 then 0 else Log2(x) + 1
    requires forall i: nat :: Bit(y, i) <==> AnyBit(x, i, w)
    ensures y == Pow2(k) - 1
  {
    forall i: nat ensures Bit(y, i) <==> Bit(Pow2(k) - 1, i) {
      BitAllOnes(k, i);
      HighBits(x, k, i, w);
    }
    SameBits(y, Pow2(k) - 1);
  }

  // A window of w bits from i has a set bit of x exactly when i is not above its highest bit.
  lemma HighBits(x: nat, k: nat, i: nat, w: nat)
    requires x < Pow2(w) && k == if x == 0 then 0 else Log2(x) + 1
    ensures AnyBit(x, i, w) <==> i < k
  {
    if x == 0 {
      forall j: nat ensures !Bit(x, j) {
        BitZero(j);
      }
    } else {
      TopBit(x);
      Log2Below(x, w);
      assert Bit(x, k - 1);
      forall j: nat | k <= j ensures !Bit(x, j) {
        BelowPow2(x, k, j);
      }
    }
  }

  lemma {:induction false} TopBit(x: nat)
    requires x > 0
    ensures Bit(x, Log2(x))
  {
    if x != 1 {
      TopBit(x / 2);
    }
  }
}
