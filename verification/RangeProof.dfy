/**
The aggregated range proof: Prove commits to the values, their bits and the polynomial t, and
Verify checks one sum of eleven points. n stands for the package constant N; the package
variable M, which Prove sets and Verify reads, is passed between them.
*/
module RangeProof {
  import opened Algebra
  import opened Bits
  import opened FiatShamir
  import opened Sequences
  import opened Vectors
  import opened Polynomial
  import IP = InnerProduct

  // ---------- Rearrangements in the group of points ----------

  // ((p + x) + y) + (-y + -x) == p
  lemma Undo<F(!new), P(!new)>(f: Field<F>, m: Points<F, P>, p: P, x: P, y: P)
    requires IsModule(f, m)
    ensures m.Add(m.Add(m.Add(p, x), y), m.Add(m.Neg(y), m.Neg(x))) == p
  {
    AddAssoc(f, m, p, x, y);
    NegAdd(f, m, y, x);
    AddComm(f, m, y, x);
    AddAssoc(f, m, p, m.Add(x, y), m.Neg(m.Add(x, y)));
    AddNeg(f, m, m.Add(x, y));
    AddZero(f, m, p);
  }

  // (p + x) + -x == p
  lemma UndoOne<F(!new), P(!new)>(f: Field<F>, m: Points<F, P>, p: P, x: P)
    requires IsModule(f, m)
    ensures m.Add(m.Add(p, x), m.Neg(x)) == p
  {
    AddAssoc(f, m, p, x, m.Neg(x));
    AddNeg(f, m, x);
    AddZero(f, m, p);
  }

  // The part of the final sum that the random c multiplies, from the opening of the inner
  // product argument and the shapes of <l, G> and <r, H'>.
  lemma OpenedPart<F(!new), P(!new)>(f: Field<F>, m: Points<F, P>, a1: P, b1: P, q: P, zg: P, w: P, zh: P, dl: P, dr: P,
                                     tq: P, x: P, ag: P, sg: P, rh: P, sh: P, mu: P)
    requires IsModule(f, m)
    requires m.Add(m.Add(a1, b1), q) == m.Add(m.Add(m.Add(dl, dr), tq), x)
    requires m.Add(dl, zg) == m.Add(ag, sg)
    requires dr == m.Add(m.Add(m.Add(rh, zh), w), sh)
    ensures m.Add(m.Add(m.Add(m.Add(a1, zg), m.Add(m.Add(b1, m.Neg(w)), m.Neg(zh))), m.Add(q, m.Neg(tq))), mu)
         == m.Add(m.Add(m.Add(m.Add(ag, sg), m.Add(rh, sh)), mu), x)
  {
    var n := m.Add(m.Neg(w), m.Neg(zh));
    var y := m.Add(m.Add(ag, sg), m.Add(rh, sh));
    AddAssoc(f, m, b1, m.Neg(w), m.Neg(zh));
    Interchange(f, m, a1, zg, b1, n);
    SwapLast(f, m, m.Add(a1, b1), m.Add(zg, n), q);
    AddAssoc(f, m, m.Add(dl, dr), tq, x);
    SwapLast(f, m, m.Add(dl, dr), m.Add(tq, x), m.Add(zg, n));
    Interchange(f, m, dl, dr, zg, n);
    SwapLast(f, m, m.Add(m.Add(rh, zh), w), sh, n);
    Undo(f, m, rh, zh, w);
    Subtracted(f, m, m.Add(m.Add(a1, zg), m.Add(b1, n)), q, y, tq, x);
    SwapLast(f, m, y, x, mu);
  }

  // From p + q == y + (t + x): p + (q - t) == y + x
  lemma Subtracted<F(!new), P(!new)>(f: Field<F>, m: Points<F, P>, p: P, q: P, y: P, t: P, x: P)
    requires IsModule(f, m) && m.Add(p, q) == m.Add(y, m.Add(t, x))
    ensures m.Add(p, m.Add(q, m.Neg(t))) == m.Add(y, x)
  {
    AddAssoc(f, m, p, q, m.Neg(t));
    AddComm(f, m, t, x);
    AddAssoc(f, m, y, x, t);
    UndoOne(f, m, m.Add(y, x), t);
  }

  // ---------- Commitments ----------

  // blind * Bl + <v, G> + <u, H>
  function VectorCommit<F, P>(f: Field<F>, m: Points<F, P>, Bl: P, blind: F, v: seq<F>, G: seq<P>, u: seq<F>,
                              H: seq<P>): P
    requires |v| == |G| && |u| == |H|
  {
    m.Add(m.Add(m.Scale(blind, Bl), Dot(f, m, v, G)), Dot(f, m, u, H))
  }

  // A + x S opens with mu = alpha + rho x and the combined vectors.
  lemma CommitsAdd<F(!new), P(!new)>(f: Field<F>, m: Points<F, P>, Bl: P, alpha: F, rho: F, x: F,
                                     ag: P, rh: P, sg: P, sh: P)
    requires IsModule(f, m)
    ensures m.Add(m.Add(m.Add(m.Scale(alpha, Bl), ag), rh), m.Scale(x, m.Add(m.Add(m.Scale(rho, Bl), sg), sh)))
         == m.Add(m.Add(m.Add(ag, m.Scale(x, sg)), m.Add(rh, m.Scale(x, sh))), m.Scale(f.Add(f.Mul(rho, x), alpha), Bl))
  {
    var bl, xsg, xsh := m.Scale(rho, Bl), m.Scale(x, sg), m.Scale(x, sh);
    ScaleAdd(f, m, x, m.Add(bl, sg), sh);
    ScaleAdd(f, m, x, bl, sg);
    ScaleMul(f, m, x, rho, Bl);
    MulComm(f, rho, x);
    ScaleSum(f, m, f.Mul(rho, x), alpha, Bl);
    var ab, rb := m.Scale(alpha, Bl), m.Scale(f.Mul(rho, x), Bl);
    Interchange(f, m, m.Add(ab, ag), rh, m.Add(rb, xsg), xsh);
    Interchange(f, m, ab, ag, rb, xsg);
    AddComm(f, m, ab, rb);
    AddComm(f, m, m.Add(rb, ab), m.Add(ag, xsg));
    SwapLast(f, m, m.Add(ag, xsg), m.Add(rb, ab), m.Add(rh, xsh));
  }

  // ---------- <l, G> and <r, H'> ----------

  // <l, G> + z <1, G> == <aL, G> + x <sL, G>
  lemma LeftPart<F(!new), P(!new)>(f: Field<F>, m: Points<F, P>, z: F, x: F, aL: seq<F>, sL: seq<F>, G: seq<P>)
    requires IsModule(f, m) && |aL| == |sL| == |G|
    ensures m.Add(Dot(f, m, At0And1(f, AddV(Self(f), aL, Repeat(f.Neg(z), |aL|)), sL, x), G),
                  Dot(f, m, Repeat(z, |G|), G))
         == m.Add(Dot(f, m, aL, G), m.Scale(x, Dot(f, m, sL, G)))
  {
    var minus := Repeat(f.Neg(z), |aL|);
    DotAdd(f, m, AddV(Self(f), aL, minus), ScaleV(Self(f), x, sL), G);
    DotAdd(f, m, aL, minus, G);
    DotScale(f, m, x, sL, G);
    DotConstNeg(f, m, z, G);
    var a, s, c := Dot(f, m, aL, G), m.Scale(x, Dot(f, m, sL, G)), Dot(f, m, Repeat(z, |G|), G);
    SwapLast(f, m, a, m.Neg(c), s);
    AddAssoc(f, m, m.Add(a, s), m.Neg(c), c);
    AddNeg(f, m, c);
    AddZero(f, m, m.Add(a, s));
  }

  lemma DotConstNeg<F(!new), P(!new)>(f: Field<F>, m: Points<F, P>, z: F, G: seq<P>)
    requires IsModule(f, m)
    ensures Dot(f, m, Repeat(f.Neg(z), |G|), G) == m.Neg(Dot(f, m, Repeat(z, |G|), G))
  {
    DotNeg(f, m, Repeat(z, |G|), G);
    assert NegV(Self(f), Repeat(z, |G|)) == Repeat(f.Neg(z), |G|);
  }

  // The powers of y undo the powers of its inverse.
  lemma {:induction false} PowInverse<F(!new)>(f: Field<F>, y: F, i: nat)
    requires IsField(f) && y != f.zero
    ensures f.Mul(Pow(f, y, i), Pow(f, f.Inv(y), i)) == f.one
  {
    MulOne(f, f.one);
    if i != 0 {
      PowInverse(f, y, i - 1);
      MulInv(f, y);
      MulInterchange(f, Pow(f, y, i - 1), y, Pow(f, f.Inv(y), i - 1), f.Inv(y));
    }
  }

  lemma PowersCancel<F(!new), P(!new)>(f: Field<F>, m: Points<F, P>, y: F, H: seq<P>)
    requires IsModule(f, m) && y != f.zero
    ensures MulV(m, Powers(f, y, |H|), MulV(m, Powers(f, f.Inv(y), |H|), H)) == H
  {
    var r := MulV(m, Powers(f, y, |H|), MulV(m, Powers(f, f.Inv(y), |H|), H));
    forall i | 0 <= i < |H| ensures r[i] == H[i] {
      PowInverse(f, y, i);
      ScaleMul(f, m, Pow(f, y, i), Pow(f, f.Inv(y), i), H[i]);
      ScaleOne(f, m, H[i]);
      assert MulV(m, Powers(f, f.Inv(y), |H|), H)[i] == m.Scale(Pow(f, f.Inv(y), i), H[i]);
    }
  }

  // <v * y^i, y^-i H> == <v, H>
  lemma PowersMove<F(!new), P(!new)>(f: Field<F>, m: Points<F, P>, y: F, v: seq<F>, H: seq<P>)
    requires IsModule(f, m) && y != f.zero && |v| == |H|
    ensures Dot(f, m, MulV(Self(f), v, Powers(f, y, |v|)), MulV(m, Powers(f, f.Inv(y), |H|), H)) == Dot(f, m, v, H)
  {
    DotMove(f, m, v, Powers(f, y, |v|), MulV(m, Powers(f, f.Inv(y), |H|), H));
    PowersCancel(f, m, y, H);
  }

  // <r, H'> == <aR, H> + z <1, H> + <z^(j+2) 2^k, H'> + x <sR, H>
  lemma RightPart<F(!new), P(!new)>(f: Field<F>, m: Points<F, P>, y: F, z: F, x: F, aR: seq<F>, sR: seq<F>, ws: seq<F>,
                                    H: seq<P>, H1: seq<P>)
    requires IsModule(f, m) && y != f.zero && |aR| == |sR| == |ws| == |H| && H1 == MulV(m, Powers(f, f.Inv(y), |H|), H)
    ensures Dot(f, m,
                At0And1(f, AddV(Self(f), MulV(Self(f), AddV(Self(f), aR, Repeat(z, |aR|)), Powers(f, y, |aR|)), ws),
                              MulV(Self(f), Powers(f, y, |sR|), sR), x), H1)
         == m.Add(m.Add(m.Add(Dot(f, m, aR, H), Dot(f, m, Repeat(z, |H|), H)), Dot(f, m, ws, H1)),
                  m.Scale(x, Dot(f, m, sR, H)))
  {
    var u, s := AddV(Self(f), aR, Repeat(z, |aR|)), MulV(Self(f), Powers(f, y, |sR|), sR);
    var uy := MulV(Self(f), u, Powers(f, y, |aR|));
    DotAdd(f, m, AddV(Self(f), uy, ws), ScaleV(Self(f), x, s), H1);
    DotAdd(f, m, uy, ws, H1);
    PowersMove(f, m, y, u, H);
    DotAdd(f, m, aR, Repeat(z, |aR|), H);
    DotScale(f, m, x, s, H1);
    MulVComm(f, Powers(f, y, |sR|), sR);
    PowersMove(f, m, y, sR, H);
  }

  // ---------- The final sum ----------

  datatype Setup<P> = Setup(G: seq<P>, H: seq<P>, base: P, blind: P)

  datatype Proof<F, P> = Proof(V: seq<P>, A: P, S: P, T1: P, T2: P, taux: F, mu: F, t: F, ip: IP.Proof<F, P>)

  datatype Chals<F> = Chals(y: F, z: F, x: F, w: F)

  // c (a s + z)
  function GScalars<F>(f: Field<F>, us: seq<F>, a: F, z: F, c: F): (r: seq<F>)
    ensures |r| == Pow2(|us|)
  {
    ScaleV(Self(f), c, AddV(Self(f), ScaleV(Self(f), a, IP.Scalars(f, us)), Repeat(z, Pow2(|us|))))
  }

  // c ((b / s - z^(j+2) 2^k) y^-i - z)
  function HScalars<F>(f: Field<F>, us: seq<F>, b: F, ws: seq<F>, Hpf: seq<F>, z: F, c: F): (r: seq<F>)
    requires |ws| == |Hpf| == Pow2(|us|)
    ensures |r| == Pow2(|us|)
  {
    ScaleV(Self(f), c, AddV(Self(f),
      MulV(Self(f), AddV(Self(f), ScaleV(Self(f), b, IP.Reversed(IP.Scalars(f, us))), NegV(Self(f), ws)), Hpf),
      Repeat(f.Neg(z), Pow2(|us|))))
  }

  // The points that are added and the points that are taken away.
  ghost function Added<F, P>(f: Field<F>, m: Points<F, P>, n: nat, k: nat, c: F, st: Setup<P>, p: Proof<F, P>,
                             us: seq<F>, ch: Chals<F>): P
    requires |st.G| == |st.H| == k * n == Pow2(|us|)
  {
    var c1 := Dot(f, m, GScalars(f, us, p.ip.a, ch.z, c), st.G);
    var c2 := Dot(f, m, HScalars(f, us, p.ip.b, WeightedTwos(f, ch.z, n, k), PowersOf(f, f.Inv(ch.y), k * n), ch.z, c),
                  st.H);
    var gBP := f.Add(f.Mul(f.Mul(c, ch.w), f.Sub(f.Mul(p.ip.a, p.ip.b), p.t)), f.Sub(p.t, Delta(f, ch.y, ch.z, n, k)));
    var hBP := f.Add(f.Mul(p.mu, c), p.taux);
    m.Add(m.Add(m.Add(c1, c2), m.Scale(gBP, st.base)), m.Scale(hBP, st.blind))
  }

  function Removed<F, P>(f: Field<F>, m: Points<F, P>, c: F, p: Proof<F, P>, V: seq<P>, us: seq<F>,
                         ch: Chals<F>): seq<P>
    requires |us| == |p.ip.L| == |p.ip.R|
  {
    [m.Scale(c, p.A), m.Scale(f.Mul(c, ch.x), p.S),
     m.Scale(c, Dot(f, m, IP.Squares(f, us), p.ip.L)), m.Scale(c, Dot(f, m, IP.InvSquares(f, us), p.ip.R)),
     Dot(f, m, Weights(f, ch.z, |V|), V), m.Scale(ch.x, p.T1), m.Scale(f.Square(ch.x), p.T2)]
  }

  // c1 and c2, with c taken out.
  lemma GSum<F(!new), P(!new)>(f: Field<F>, m: Points<F, P>, us: seq<F>, a: F, z: F, c: F, G: seq<P>)
    requires IsModule(f, m) && |G| == Pow2(|us|)
    ensures Dot(f, m, GScalars(f, us, a, z, c), G)
         == m.Scale(c, m.Add(m.Scale(a, Dot(f, m, IP.Scalars(f, us), G)), Dot(f, m, Repeat(z, |G|), G)))
  {
    var s := ScaleV(Self(f), a, IP.Scalars(f, us));
    DotScale(f, m, c, AddV(Self(f), s, Repeat(z, |G|)), G);
    DotAdd(f, m, s, Repeat(z, |G|), G);
    DotScale(f, m, a, IP.Scalars(f, us), G);
  }

  lemma HSum<F(!new), P(!new)>(f: Field<F>, m: Points<F, P>, us: seq<F>, b: F, ws: seq<F>, Hpf: seq<F>, z: F, c: F,
                               H: seq<P>)
    requires IsModule(f, m) && |H| == |ws| == |Hpf| == Pow2(|us|)
    ensures Dot(f, m, HScalars(f, us, b, ws, Hpf, z, c), H)
         == m.Scale(c,
                    m.Add(m.Add(m.Scale(b, Dot(f, m, IP.Reversed(IP.Scalars(f, us)), MulV(m, Hpf, H))),
                                m.Neg(Dot(f, m, ws, MulV(m, Hpf, H)))),
                             m.Neg(Dot(f, m, Repeat(z, |H|), H))))
  {
    var rs := IP.Reversed(IP.Scalars(f, us));
    var s := ScaleV(Self(f), b, rs);
    var d := AddV(Self(f), s, NegV(Self(f), ws));
    DotScale(f, m, c, AddV(Self(f), MulV(Self(f), d, Hpf), Repeat(f.Neg(z), |H|)), H);
    DotAdd(f, m, MulV(Self(f), d, Hpf), Repeat(f.Neg(z), |H|), H);
    DotConstNeg(f, m, z, H);
    DotMove(f, m, d, Hpf, H);
    DotAdd(f, m, s, NegV(Self(f), ws), MulV(m, Hpf, H));
    DotNeg(f, m, ws, MulV(m, Hpf, H));
    DotScale(f, m, b, rs, MulV(m, Hpf, H));
  }

  // (c w (ab - t)) B and (mu c) Bl, with c taken out and over Q = w B.
  lemma BaseSum<F(!new), P(!new)>(f: Field<F>, m: Points<F, P>, c: F, w: F, ab: F, t: F, mu: F, B: P, Bl: P)
    requires IsModule(f, m)
    ensures m.Scale(f.Mul(f.Mul(c, w), f.Sub(ab, t)), B)
         == m.Scale(c, m.Add(m.Scale(ab, m.Scale(w, B)), m.Neg(m.Scale(t, m.Scale(w, B)))))
    ensures m.Scale(f.Mul(mu, c), Bl) == m.Scale(c, m.Scale(mu, Bl))
  {
    var d := f.Sub(ab, t);
    MulAssoc(f, c, w, d);
    MulComm(f, w, d);
    ScaleMul(f, m, c, f.Mul(d, w), B);
    ScaleMul(f, m, d, w, B);
    ScaleSum(f, m, ab, f.Neg(t), m.Scale(w, B));
    ScaleNeg(f, m, t, m.Scale(w, B));
    MulComm(f, mu, c);
    ScaleMul(f, m, c, mu, Bl);
  }

  // ---------- Completeness ----------

  // What the prover knows and draws at random.
  datatype Secrets<F> = Secrets(aL: seq<F>, sL: seq<F>, sR: seq<F>, gammas: seq<F>, alpha: F, rho: F, tau1: F, tau2: F)

  // The points that are multiplied by c add up to c (A + x S + cross terms).
  lemma ChallengedPart<F(!new), P(!new)>(f: Field<F>, m: Points<F, P>, n: nat, k: nat, c: F, st: Setup<P>,
                                         ip: IP.Proof<F, P>, us: seq<F>, ch: Chals<F>, se: Secrets<F>, pl: Poly<F>,
                                         H1: seq<P>, w: IP.Vecs<F, P>, t: F, mu: F)
    requires IsModule(f, m) && ch.y != f.zero
    requires |st.G| == |st.H| == |se.aL| == |se.sL| == |se.sR| == k * n == Pow2(|us|)
    requires pl == PolyOf(f, ch.y, ch.z, n, k, se.aL, Minus1(f, se.aL), se.sL, se.sR)
    requires H1 == MulV(m, Powers(f, f.Inv(ch.y), k * n), st.H)
    requires w == IP.Vecs(At0And1(f, pl.l0, pl.l1, ch.x), At0And1(f, pl.r0, pl.r1, ch.x), st.G, H1)
    requires t == Dot(f, Self(f), w.a, w.b) && mu == f.Add(f.Mul(se.rho, ch.x), se.alpha)
    requires IP.Opens(f, m, m.Scale(ch.w, st.base), us, ip, w)
    ensures m.Add(m.Add(m.Add(Dot(f, m, GScalars(f, us, ip.a, ch.z, c), st.G),
                              Dot(f, m,
                                  HScalars(f, us, ip.b, WeightedTwos(f, ch.z, n, k), Powers(f, f.Inv(ch.y), k * n),
                                           ch.z, c),
                                  st.H)),
                        m.Scale(f.Mul(f.Mul(c, ch.w), f.Sub(f.Mul(ip.a, ip.b), t)), st.base)),
                  m.Scale(f.Mul(mu, c), st.blind))
         == m.Scale(c, m.Add(m.Add(VectorCommit(f, m, st.blind, se.alpha, se.aL, st.G, Minus1(f, se.aL), st.H),
                                   m.Scale(ch.x, VectorCommit(f, m, st.blind, se.rho, se.sL, st.G, se.sR, st.H))),
                             IP.CrossSum(f, m, us, ip.L, ip.R)))
  {
    var ws, Q := WeightedTwos(f, ch.z, n, k), m.Scale(ch.w, st.base);
    var zG, zH := Dot(f, m, Repeat(ch.z, |st.G|), st.G), Dot(f, m, Repeat(ch.z, |st.H|), st.H);
    var a1 := m.Scale(ip.a, Dot(f, m, IP.Scalars(f, us), st.G));
    var b1 := m.Scale(ip.b, Dot(f, m, IP.Reversed(IP.Scalars(f, us)), H1));
    var q, tq := m.Scale(f.Mul(ip.a, ip.b), Q), m.Scale(t, Q);
    var aG, sG := Dot(f, m, se.aL, st.G), m.Scale(ch.x, Dot(f, m, se.sL, st.G));
    var aH, sH := Dot(f, m, Minus1(f, se.aL), st.H), m.Scale(ch.x, Dot(f, m, se.sR, st.H));
    GSum(f, m, us, ip.a, ch.z, c, st.G);
    HSum(f, m, us, ip.b, ws, Powers(f, f.Inv(ch.y), k * n), ch.z, c, st.H);
    BaseSum(f, m, c, ch.w, f.Mul(ip.a, ip.b), t, mu, st.base, st.blind);
    LeftPart(f, m, ch.z, ch.x, se.aL, se.sL, st.G);
    RightPart(f, m, ch.y, ch.z, ch.x, Minus1(f, se.aL), se.sR, ws, st.H, H1);
    OpenedPart(f, m, a1, b1, q, zG, Dot(f, m, ws, H1), zH, Dot(f, m, w.a, st.G), Dot(f, m, w.b, H1), tq,
               IP.CrossSum(f, m, us, ip.L, ip.R), aG, sG, aH, sH, m.Scale(mu, st.blind));
    CommitsAdd(f, m, st.blind, se.alpha, se.rho, ch.x, aG, aH, Dot(f, m, se.sL, st.G), Dot(f, m, se.sR, st.H));
    FourScaled(f, m, c, m.Add(a1, zG), m.Add(m.Add(b1, m.Neg(Dot(f, m, ws, H1))), m.Neg(zH)), m.Add(q, m.Neg(tq)),
               m.Scale(mu, st.blind));
  }

  lemma FourScaled<F(!new), P(!new)>(f: Field<F>, m: Points<F, P>, c: F, x: P, y: P, z: P, u: P)
    requires IsModule(f, m)
    ensures m.Add(m.Add(m.Add(m.Scale(c, x), m.Scale(c, y)), m.Scale(c, z)), m.Scale(c, u))
         == m.Scale(c, m.Add(m.Add(m.Add(x, y), z), u))
  {
    ScaleAdd(f, m, c, x, y);
    ScaleAdd(f, m, c, m.Add(x, y), z);
    ScaleAdd(f, m, c, m.Add(m.Add(x, y), z), u);
  }

  // The commitments to the values.
  function ValueCommits<F, P>(f: Field<F>, m: Points<F, P>, vs: seq<nat>, gammas: seq<F>, st: Setup<P>): (r: seq<P>)
    requires |vs| == |gammas|
    ensures |r| == |vs|
    decreases |vs|
  {
    if |vs| == 0 then []
    else
      var j := |vs| - 1;
      ValueCommits(f, m, vs[..j], gammas[..j], st)
        + [m.Add(m.Scale(FromNat(f, vs[j]), st.base), m.Scale(gammas[j], st.blind))]
  }

  function Values<F>(f: Field<F>, vs: seq<nat>): (r: seq<F>)
    ensures |r| == |vs|
  {
    if |vs| == 0 then [] else Values(f, vs[..|vs| - 1]) + [FromNat(f, vs[|vs| - 1])]
  }

  // <c, V> == <c, v> B + <c, gamma> Bl
  lemma {:induction false} WeightedCommits<F(!new), P(!new)>(
      f: Field<F>, m: Points<F, P>, cs: seq<F>, vs: seq<nat>, gammas: seq<F>, st: Setup<P>)
    requires IsModule(f, m) && |vs| == |gammas| == |cs|
    ensures Dot(f, m, cs, ValueCommits(f, m, vs, gammas, st))
         == m.Add(m.Scale(Dot(f, Self(f), cs, Values(f, vs)), st.base), m.Scale(Dot(f, Self(f), cs, gammas), st.blind))
    decreases |vs|
  {
    SelfIsModule(f);
    if |vs| == 0 {
      ScaleZero(f, m, f.zero, st.base);
      ScaleZero(f, m, f.zero, st.blind);
      AddZero(f, m, m.zero);
    } else {
      var j := |vs| - 1;
      var c, v, g := cs[j], FromNat(f, vs[j]), gammas[j];
      WeightedCommits(f, m, cs[..j], vs[..j], gammas[..j], st);
      assert cs == cs[..j] + [c] && gammas == gammas[..j] + [g];
      DotConcat(f, m, cs[..j], [c], ValueCommits(f, m, vs[..j], gammas[..j], st),
                [m.Add(m.Scale(v, st.base), m.Scale(g, st.blind))]);
      DotOne(f, m, c, m.Add(m.Scale(v, st.base), m.Scale(g, st.blind)));
      DotConcat(f, Self(f), cs[..j], [c], Values(f, vs[..j]), [v]);
      DotOne(f, Self(f), c, v);
      DotConcat(f, Self(f), cs[..j], [c], gammas[..j], [g]);
      DotOne(f, Self(f), c, g);
      OneMoreCommit(f, m, c, v, g, Dot(f, Self(f), cs[..j], Values(f, vs[..j])),
                    Dot(f, Self(f), cs[..j], gammas[..j]), st);
    }
  }

  lemma OneMoreCommit<F(!new), P(!new)>(f: Field<F>, m: Points<F, P>, c: F, v: F, g: F, x: F, y: F, st: Setup<P>)
    requires IsModule(f, m)
    ensures m.Add(m.Add(m.Scale(x, st.base), m.Scale(y, st.blind)),
                  m.Scale(c, m.Add(m.Scale(v, st.base), m.Scale(g, st.blind))))
         == m.Add(m.Scale(f.Add(x, f.Mul(c, v)), st.base), m.Scale(f.Add(y, f.Mul(c, g)), st.blind))
  {
    ScaleAdd(f, m, c, m.Scale(v, st.base), m.Scale(g, st.blind));
    ScaleMul(f, m, c, v, st.base);
    ScaleMul(f, m, c, g, st.blind);
    Interchange(f, m, m.Scale(x, st.base), m.Scale(y, st.blind), m.Scale(f.Mul(c, v), st.base),
                m.Scale(f.Mul(c, g), st.blind));
    ScaleSum(f, m, x, f.Mul(c, v), st.base);
    ScaleSum(f, m, y, f.Mul(c, g), st.blind);
  }

  // The rest: t - delta and taux against the commitments to the values and to t1 and t2. E
  // weighs the committed values, D the values that the bits stand for.
  lemma ValuePart<F(!new), P(!new)>(f: Field<F>, m: Points<F, P>, x: F, t1: F, t2: F, D: F, E: F, delta: F, t: F,
                                    tau1: F, tau2: F, g: F, taux: F, st: Setup<P>)
    requires IsModule(f, m)
    requires t == f.Add(f.Add(f.Mul(x, t1), f.Mul(f.Square(x), t2)), f.Add(D, delta))
    requires taux == f.Add(f.Add(f.Mul(x, tau1), f.Mul(f.Square(x), tau2)), g)
    ensures m.Add(m.Add(m.Scale(f.Sub(t, delta), st.base), m.Scale(taux, st.blind)), m.Scale(E, st.base))
         == m.Add(m.Add(m.Add(m.Add(m.Scale(E, st.base), m.Scale(g, st.blind)),
                              m.Scale(x, m.Add(m.Scale(t1, st.base), m.Scale(tau1, st.blind)))),
                        m.Scale(f.Square(x), m.Add(m.Scale(t2, st.base), m.Scale(tau2, st.blind)))),
                  m.Scale(D, st.base))
  {
    SelfIsModule(f);
    var B, Bl, xx := st.base, st.blind, f.Square(x);
    var s := f.Add(f.Mul(x, t1), f.Mul(xx, t2));
    AddAssoc(f, Self(f), s, D, delta);
    AddAssoc(f, Self(f), f.Add(s, D), delta, f.Neg(delta));
    AddNeg(f, Self(f), delta);
    AddZero(f, Self(f), f.Add(s, D));
    ThreeMultiples(f, m, x, xx, t1, t2, D, B);
    ThreeMultiples(f, m, x, xx, tau1, tau2, g, Bl);
    ScaleAdd(f, m, x, m.Scale(t1, B), m.Scale(tau1, Bl));
    ScaleAdd(f, m, xx, m.Scale(t2, B), m.Scale(tau2, Bl));
    SixTerms(f, m, m.Scale(x, m.Scale(t1, B)), m.Scale(xx, m.Scale(t2, B)), m.Scale(D, B),
             m.Scale(x, m.Scale(tau1, Bl)), m.Scale(xx, m.Scale(tau2, Bl)), m.Scale(g, Bl), m.Scale(E, B));
  }

  lemma ThreeMultiples<F(!new), P(!new)>(f: Field<F>, m: Points<F, P>, x: F, xx: F, a: F, b: F, c: F, B: P)
    requires IsModule(f, m)
    ensures m.Scale(f.Add(f.Add(f.Mul(x, a), f.Mul(xx, b)), c), B)
         == m.Add(m.Add(m.Scale(x, m.Scale(a, B)), m.Scale(xx, m.Scale(b, B))), m.Scale(c, B))
  {
    ScaleSum(f, m, f.Add(f.Mul(x, a), f.Mul(xx, b)), c, B);
    ScaleSum(f, m, f.Mul(x, a), f.Mul(xx, b), B);
    ScaleMul(f, m, x, a, B);
    ScaleMul(f, m, xx, b, B);
  }

  lemma SixTerms<F(!new), P(!new)>(f: Field<F>, m: Points<F, P>, x1: P, x2: P, d: P, y1: P, y2: P, g: P, e: P)
    requires IsModule(f, m)
    ensures m.Add(m.Add(m.Add(m.Add(x1, x2), d), m.Add(m.Add(y1, y2), g)), e)
         == m.Add(m.Add(m.Add(m.Add(e, g), m.Add(x1, y1)), m.Add(x2, y2)), d)
  {
    var u := m.Add(m.Add(x1, y1), m.Add(x2, y2));
    Interchange(f, m, m.Add(x1, x2), d, m.Add(y1, y2), g);
    Interchange(f, m, x1, x2, y1, y2);
    AddAssoc(f, m, m.Add(e, g), m.Add(x1, y1), m.Add(x2, y2));
    AddAssoc(f, m, u, m.Add(d, g), e);
    SwapLast(f, m, d, g, e);
    AddAssoc(f, m, d, e, g);
    AddComm(f, m, d, m.Add(e, g));
    AddAssoc(f, m, u, m.Add(e, g), d);
    AddComm(f, m, u, m.Add(e, g));
  }

  // The eleven-term sum, in the order the code adds it up.
  ghost function MegaSum<F, P>(f: Field<F>, m: Points<F, P>, n: nat, k: nat, c: F, st: Setup<P>, p: Proof<F, P>,
                               us: seq<F>, ch: Chals<F>): P
    requires |st.G| == |st.H| == k * n == Pow2(|us|) && |us| == |p.ip.L| == |p.ip.R| && k <= |p.V|
  {
    var r := Removed(f, m, c, p, p.V[..k], us, ch);
    var x := Added(f, m, n, k, c, st, p, us, ch);
    m.Sub(m.Sub(m.Sub(m.Sub(m.Sub(m.Sub(m.Sub(x, r[0]), r[1]), r[2]), r[3]), r[4]), r[5]), r[6])
  }

  // x - c == s + r gives x == s + (c + r)
  lemma Absorb<F(!new), P(!new)>(f: Field<F>, m: Points<F, P>, x: P, c: P, s: P, r: P)
    requires IsModule(f, m) && m.Sub(x, c) == m.Add(s, r)
    ensures x == m.Add(s, m.Add(c, r))
  {
    AddAssoc(f, m, x, m.Neg(c), c);
    AddNeg(f, m, c);
    AddZero(f, m, x);
    AddAssoc(f, m, s, r, c);
    AddComm(f, m, r, c);
  }

  lemma SevenSubtractions<F(!new), P(!new)>(f: Field<F>, m: Points<F, P>, x: P, c5: P, c6: P, c7: P, c8: P, c9: P,
                                            c10: P, c11: P, s: P)
    requires IsModule(f, m)
    requires s == m.Sub(m.Sub(m.Sub(m.Sub(m.Sub(m.Sub(m.Sub(x, c5), c6), c7), c8), c9), c10), c11)
    ensures x == m.Add(s, m.Add(m.Add(m.Add(c5, c6), m.Add(c7, c8)), m.Add(m.Add(c9, c10), c11)))
  {
    var x5 := m.Sub(x, c5);
    var x6 := m.Sub(x5, c6);
    var x7 := m.Sub(x6, c7);
    var x8 := m.Sub(x7, c8);
    var x9 := m.Sub(x8, c9);
    var x10 := m.Sub(x9, c10);
    AddZero(f, m, s);
    Absorb(f, m, x10, c11, s, m.zero);
    AddZero(f, m, c11);
    Absorb(f, m, x9, c10, s, c11);
    Absorb(f, m, x8, c9, s, m.Add(c10, c11));
    AddAssoc(f, m, c9, c10, c11);
    var r := m.Add(m.Add(c9, c10), c11);
    Absorb(f, m, x7, c8, s, r);
    Absorb(f, m, x6, c7, s, m.Add(c8, r));
    AddAssoc(f, m, c7, c8, r);
    Absorb(f, m, x5, c6, s, m.Add(m.Add(c7, c8), r));
    Absorb(f, m, x, c5, s, m.Add(c6, m.Add(m.Add(c7, c8), r)));
    AddAssoc(f, m, c6, m.Add(c7, c8), r);
    AddAssoc(f, m, c5, c6, m.Add(c7, c8));
    AddAssoc(f, m, c5, m.Add(c6, m.Add(c7, c8)), r);
  }

  // The proof and the secrets belong together.
  ghost predicate Honest<F, P>(f: Field<F>, m: Points<F, P>, n: nat, vs: seq<nat>, st: Setup<P>, p: Proof<F, P>,
                               us: seq<F>, ch: Chals<F>, se: Secrets<F>)
  {
    var k := |vs|;
    && |st.G| == |st.H| == |se.aL| == |se.sL| == |se.sR| == k * n == Pow2(|us|)
    && se.aL == AllBits(f, vs, n) && |se.gammas| == k
    && p.V == ValueCommits(f, m, vs, se.gammas, st)
    && var pl := PolyOf(f, ch.y, ch.z, n, k, se.aL, Minus1(f, se.aL), se.sL, se.sR);
       var w := IP.Vecs(At0And1(f, pl.l0, pl.l1, ch.x), At0And1(f, pl.r0, pl.r1, ch.x), st.G,
                        MulV(m, Powers(f, f.Inv(ch.y), k * n), st.H));
    && p.A == VectorCommit(f, m, st.blind, se.alpha, se.aL, st.G, Minus1(f, se.aL), st.H)
    && p.S == VectorCommit(f, m, st.blind, se.rho, se.sL, st.G, se.sR, st.H)
    && p.T1 == m.Add(m.Scale(pl.t1, st.base), m.Scale(se.tau1, st.blind))
    && p.T2 == m.Add(m.Scale(pl.t2, st.base), m.Scale(se.tau2, st.blind))
    && p.t == Dot(f, Self(f), w.a, w.b)
    && p.mu == f.Add(f.Mul(se.rho, ch.x), se.alpha)
    && p.taux == f.Add(f.Add(f.Mul(ch.x, se.tau1), f.Mul(f.Square(ch.x), se.tau2)),
                       Dot(f, Self(f), Weights(f, ch.z, k), se.gammas))
    && IP.Opens(f, m, m.Scale(ch.w, st.base), us, p.ip, w)
  }

  // The weighted sums of the values that the bits stand for and of the committed values.
  function BitWeight<F>(f: Field<F>, n: nat, vs: seq<nat>, z: F): F {
    Dot(f, Self(f), Weights(f, z, |vs|), Truncated(f, vs, n))
  }

  function ValueWeight<F>(f: Field<F>, vs: seq<nat>, z: F): F {
    Dot(f, Self(f), Weights(f, z, |vs|), Values(f, vs))
  }

  // Split the added points into the part with c and the part without.
  lemma AddedSplits<F(!new), P(!new)>(f: Field<F>, m: Points<F, P>, p: P, u: F, v: F, B: P, s: F, t: F, Bl: P)
    requires IsModule(f, m)
    ensures m.Add(m.Add(p, m.Scale(f.Add(u, v), B)), m.Scale(f.Add(s, t), Bl))
         == m.Add(m.Add(m.Add(p, m.Scale(u, B)), m.Scale(s, Bl)), m.Add(m.Scale(v, B), m.Scale(t, Bl)))
  {
    ScaleSum(f, m, u, v, B);
    ScaleSum(f, m, s, t, Bl);
    AddAssoc(f, m, p, m.Scale(u, B), m.Scale(v, B));
    Interchange(f, m, m.Add(p, m.Scale(u, B)), m.Scale(v, B), m.Scale(s, Bl), m.Scale(t, Bl));
  }

  // c (A + x S + cross terms), as the points that the code takes away.
  lemma RemovedChallenged<F(!new), P(!new)>(f: Field<F>, m: Points<F, P>, c: F, x: F, A: P, S: P, L: P, R: P)
    requires IsModule(f, m)
    ensures m.Scale(c, m.Add(m.Add(A, m.Scale(x, S)), m.Add(L, R)))
         == m.Add(m.Add(m.Scale(c, A), m.Scale(f.Mul(c, x), S)), m.Add(m.Scale(c, L), m.Scale(c, R)))
  {
    ScaleAdd(f, m, c, m.Add(A, m.Scale(x, S)), m.Add(L, R));
    ScaleAdd(f, m, c, A, m.Scale(x, S));
    ScaleMul(f, m, c, x, S);
    ScaleAdd(f, m, c, L, R);
  }

  // What an honest proof adds: the challenged part that it takes away, and t - delta and taux.
  lemma HonestAdded<F(!new), P(!new)>(f: Field<F>, m: Points<F, P>, n: nat, vs: seq<nat>, c: F, st: Setup<P>,
                                      p: Proof<F, P>, us: seq<F>, ch: Chals<F>, se: Secrets<F>, pl: Poly<F>, H1: seq<P>,
                                      w: IP.Vecs<F, P>)
    requires IsModule(f, m) && ch.y != f.zero
    requires Honest(f, m, n, vs, st, p, us, ch, se)
    requires pl == PolyOf(f, ch.y, ch.z, n, |vs|, se.aL, Minus1(f, se.aL), se.sL, se.sR)
    requires H1 == MulV(m, Powers(f, f.Inv(ch.y), |vs| * n), st.H)
    requires w == IP.Vecs(At0And1(f, pl.l0, pl.l1, ch.x), At0And1(f, pl.r0, pl.r1, ch.x), st.G, H1)
    ensures Added(f, m, n, |vs|, c, st, p, us, ch)
         == m.Add(m.Scale(c, m.Add(m.Add(p.A, m.Scale(ch.x, p.S)), IP.CrossSum(f, m, us, p.ip.L, p.ip.R))),
                  m.Add(m.Scale(f.Sub(p.t, Delta(f, ch.y, ch.z, n, |vs|)), st.base), m.Scale(p.taux, st.blind)))
  {
    var k := |vs|;
    var u := f.Mul(f.Mul(c, ch.w), f.Sub(f.Mul(p.ip.a, p.ip.b), p.t));
    var c12 := m.Add(Dot(f, m, GScalars(f, us, p.ip.a, ch.z, c), st.G),
                     Dot(f, m,
                         HScalars(f, us, p.ip.b, WeightedTwos(f, ch.z, n, k), Powers(f, f.Inv(ch.y), k * n),
                                  ch.z, c),
                         st.H));
    InverseNonZero(f, ch.y);
    AddedSplits(f, m, c12, u, f.Sub(p.t, Delta(f, ch.y, ch.z, n, k)), st.base, f.Mul(p.mu, c), p.taux, st.blind);
    ChallengedPart(f, m, n, k, c, st, p.ip, us, ch, se, pl, H1, w, p.t, p.mu);
  }

  // What an honest proof adds, with the weighted values, is what it takes away, with the
  // weighted bits.
  lemma HonestBalance<F(!new), P(!new)>(f: Field<F>, m: Points<F, P>, n: nat, vs: seq<nat>, c: F, st: Setup<P>,
                                        p: Proof<F, P>, us: seq<F>, ch: Chals<F>, se: Secrets<F>, r: seq<P>)
    requires IsModule(f, m) && ch.y != f.zero
    requires Honest(f, m, n, vs, st, p, us, ch, se) && r == Removed(f, m, c, p, p.V, us, ch)
    ensures m.Add(Added(f, m, n, |vs|, c, st, p, us, ch), m.Scale(ValueWeight(f, vs, ch.z), st.base))
         == m.Add(m.Add(m.Add(m.Add(r[0], r[1]), m.Add(r[2], r[3])), m.Add(m.Add(r[4], r[5]), r[6])),
                  m.Scale(BitWeight(f, n, vs, ch.z), st.base))
  {
    var k := |vs|;
    var pl := PolyOf(f, ch.y, ch.z, n, k, se.aL, Minus1(f, se.aL), se.sL, se.sR);
    var H1 := MulV(m, Powers(f, f.Inv(ch.y), k * n), st.H);
    var w := IP.Vecs(At0And1(f, pl.l0, pl.l1, ch.x), At0And1(f, pl.r0, pl.r1, ch.x), st.G, H1);
    HonestAdded(f, m, n, vs, c, st, p, us, ch, se, pl, H1, w);
    RemovedChallenged(f, m, c, ch.x, p.A, p.S, Dot(f, m, IP.Squares(f, us), p.ip.L),
                      Dot(f, m, IP.InvSquares(f, us), p.ip.R));
    HonestValuePart(f, m, n, vs, st, p, ch, se, pl, w);
    var left := m.Add(m.Add(r[0], r[1]), m.Add(r[2], r[3]));
    var right := m.Add(m.Scale(f.Sub(p.t, Delta(f, ch.y, ch.z, n, k)), st.base), m.Scale(p.taux, st.blind));
    AddAssoc(f, m, left, right, m.Scale(ValueWeight(f, vs, ch.z), st.base));
    AddAssoc(f, m, left, m.Add(m.Add(r[4], r[5]), r[6]), m.Scale(BitWeight(f, n, vs, ch.z), st.base));
  }

  lemma HonestValuePart<F(!new), P(!new)>(f: Field<F>, m: Points<F, P>, n: nat, vs: seq<nat>, st: Setup<P>,
                                          p: Proof<F, P>, ch: Chals<F>, se: Secrets<F>, pl: Poly<F>, w: IP.Vecs<F, P>)
    requires IsModule(f, m) && se.aL == AllBits(f, vs, n) && |se.sL| == |se.sR| == |vs| * n && |se.gammas| == |vs|
    requires pl == PolyOf(f, ch.y, ch.z, n, |vs|, se.aL, Minus1(f, se.aL), se.sL, se.sR)
    requires w.a == At0And1(f, pl.l0, pl.l1, ch.x) && w.b == At0And1(f, pl.r0, pl.r1, ch.x)
    requires p.V == ValueCommits(f, m, vs, se.gammas, st) && p.t == Dot(f, Self(f), w.a, w.b)
    requires p.T1 == m.Add(m.Scale(pl.t1, st.base), m.Scale(se.tau1, st.blind))
    requires p.T2 == m.Add(m.Scale(pl.t2, st.base), m.Scale(se.tau2, st.blind))
    requires p.taux == f.Add(f.Add(f.Mul(ch.x, se.tau1), f.Mul(f.Square(ch.x), se.tau2)),
                             Dot(f, Self(f), Weights(f, ch.z, |vs|), se.gammas))
    ensures m.Add(m.Add(m.Scale(f.Sub(p.t, Delta(f, ch.y, ch.z, n, |vs|)), st.base), m.Scale(p.taux, st.blind)),
                  m.Scale(ValueWeight(f, vs, ch.z), st.base))
         == m.Add(m.Add(m.Add(Dot(f, m, Weights(f, ch.z, |vs|), p.V), m.Scale(ch.x, p.T1)),
                        m.Scale(f.Square(ch.x), p.T2)),
                  m.Scale(BitWeight(f, n, vs, ch.z), st.base))
  {
    var k := |vs|;
    PolyIdentity(f, ch.y, ch.z, n, k, se.aL, Minus1(f, se.aL), se.sL, se.sR, ch.x, pl);
    ConstantTerm(f, ch.y, ch.z, n, vs, se.aL, se.sL, se.sR);
    WeightedCommits(f, m, Weights(f, ch.z, k), vs, se.gammas, st);
    ValuePart(f, m, ch.x, pl.t1, pl.t2, BitWeight(f, n, vs, ch.z), ValueWeight(f, vs, ch.z),
              Delta(f, ch.y, ch.z, n, k), p.t,
              se.tau1, se.tau2, Dot(f, Self(f), Weights(f, ch.z, k), se.gammas), p.taux, st);
  }

  // An honest proof passes the check, for every c, exactly when the weighted values and the
  // weighted bits give the same point.
  lemma HonestPasses<F(!new), P(!new)>(f: Field<F>, m: Points<F, P>, n: nat, vs: seq<nat>, c: F, st: Setup<P>,
                                       p: Proof<F, P>, us: seq<F>, ch: Chals<F>, se: Secrets<F>)
    requires IsModule(f, m) && ch.y != f.zero && Honest(f, m, n, vs, st, p, us, ch, se)
    ensures MegaSum(f, m, n, |vs|, c, st, p, us, ch) == m.zero
       <==> m.Scale(BitWeight(f, n, vs, ch.z), st.base) == m.Scale(ValueWeight(f, vs, ch.z), st.base)
  {
    var s, r := MegaSum(f, m, n, |vs|, c, st, p, us, ch), Removed(f, m, c, p, p.V, us, ch);
    assert p.V[..|vs|] == p.V;
    var x := Added(f, m, n, |vs|, c, st, p, us, ch);
    var all := m.Add(m.Add(m.Add(r[0], r[1]), m.Add(r[2], r[3])), m.Add(m.Add(r[4], r[5]), r[6]));
    var d, e := m.Scale(BitWeight(f, n, vs, ch.z), st.base), m.Scale(ValueWeight(f, vs, ch.z), st.base);
    HonestBalance(f, m, n, vs, c, st, p, us, ch, se, r);
    SevenSubtractions(f, m, x, r[0], r[1], r[2], r[3], r[4], r[5], r[6], s);
    // s + all + e == all + d
    SwapLast(f, m, s, all, e);
    AddComm(f, m, all, d);
    Cancel(f, m, m.Add(s, e), d, all);
    AddZero(f, m, e);
    if d == e {
      Cancel(f, m, s, m.zero, e);
    }
  }

  // Values of at most n bits are what their bits stand for.
  lemma {:induction false} InRange<F>(f: Field<F>, n: nat, vs: seq<nat>)
    requires forall j :: 0 <= j < |vs| ==> vs[j] < Pow2(n)
    ensures Truncated(f, vs, n) == Values(f, vs)
  {
    if |vs| != 0 {
      var v := vs[|vs| - 1];
      InRange(f, n, vs[..|vs| - 1]);
      SmallMod(v, Pow2(n));
    }
  }

  lemma SmallMod(v: nat, p: nat)
    requires v < p
    ensures v % p == v
  {
  }

  // ---------- The code ----------

  // The chain of generators: each point is derived from the bytes of the one before it.
  function Chain<F, P>(o: Oracle<F, P>, data: Bytes, k: nat): (r: seq<P>)
    ensures |r| == k
  {
    if k == 0 then []
    else
      var r := Chain(o, data, k - 1);
      r + [o.derivePoint(if k == 1 then data else o.PointBytes(r[k - 2]))]
  }

  method Compute<F, P>(o: Oracle<F, P>, data: Bytes, bases: seq<P>, num: nat) returns (r: seq<P>)
    requires bases == Chain(o, data, |bases|)
    ensures r == Chain(o, data, |bases| + num)
  {
    r := bases;
    for i := 0 to num
      invariant r == Chain(o, data, |bases| + i)
    {
      var p := if |r| == 0 then o.derivePoint(data) else o.derivePoint(o.PointBytes(r[|r| - 1]));
      r := r + [p];
    }
  }

  // blind * Bl + <v, bases>, with the bases extended when there are not enough of them
  method CommitToScalars<F, P>(f: Field<F>, m: Points<F, P>, o: Oracle<F, P>, start: P, data: Bytes, bases: seq<P>,
                               v: seq<F>)
    returns (sum: P)
    requires bases == Chain(o, data, |bases|)
    ensures sum == CommitFrom(m, start, v, Chain(o, data, if |bases| < |v| then |v| else |bases|), |v|)
  {
    var G := bases;
    if |G| < |v| {
      G := Compute(o, data, G, |v| - |G|);
    }
    sum := start;
    for i := 0 to |v|
      invariant sum == CommitFrom(m, start, v, G, i)
    {
      sum := m.Add(sum, m.Scale(v[i], G[i]));
    }
  }

  function CommitFrom<F, P>(m: Points<F, P>, start: P, v: seq<F>, G: seq<P>, i: nat): P
    requires i <= |v| <= |G|
    decreases i
  {
    if i == 0 then start else m.Add(CommitFrom(m, start, v, G, i - 1), m.Scale(v[i - 1], G[i - 1]))
  }

  lemma {:induction false} CommitFromDot<F(!new), P(!new)>(
      f: Field<F>, m: Points<F, P>, start: P, v: seq<F>, G: seq<P>, i: nat)
    requires IsModule(f, m) && i <= |v| == |G|
    ensures CommitFrom(m, start, v, G, i) == m.Add(start, DotTo(f, m, v, G, i))
    decreases i
  {
    if i == 0 {
      AddZero(f, m, start);
    } else {
      CommitFromDot(f, m, start, v, G, i - 1);
      AddAssoc(f, m, start, DotTo(f, m, v, G, i - 1), m.Scale(v[i - 1], G[i - 1]));
    }
  }

  // The commitment to two vectors: the second one has generators of its own, from the data
  // with one more byte.
  method CommitToVectors<F(!new), P(!new)>(f: Field<F>, m: Points<F, P>, o: Oracle<F, P>, data: Bytes, st: Setup<P>,
                                           blind: F, v: seq<F>, u: seq<F>)
    returns (sum: P)
    requires IsModule(f, m) && |v| == |u| == |st.G| == |st.H|
    requires st.G == Chain(o, data, |v|) && st.H == Chain(o, data + [1], |v|)
    ensures sum == VectorCommit(f, m, st.blind, blind, v, st.G, u, st.H)
  {
    AddZero(f, m, m.Scale(blind, st.blind));
    var first := CommitToScalars(f, m, o, m.Add(m.zero, m.Scale(blind, st.blind)), data, st.G, v);
    CommitFromDot(f, m, m.Scale(blind, st.blind), v, st.G, |v|);
    AddZero(f, m, first);
    sum := m.Add(m.zero, first);
    var second := CommitToScalars(f, m, o, m.zero, data + [1], [], u);
    CommitFromDot(f, m, m.zero, u, st.H, |u|);
    AddZero(f, m, Dot(f, m, u, st.H));
    sum := m.Add(sum, second);
  }

  method ComputeTaux<F(!new)>(f: Field<F>, x: F, z: F, tau1: F, tau2: F, gammas: seq<F>) returns (taux: F)
    requires IsField(f)
    ensures taux == f.Add(f.Add(f.Mul(x, tau1), f.Mul(f.Square(x), tau2)),
                          Dot(f, Self(f), Weights(f, z, |gammas|), gammas))
  {
    SelfIsModule(f);
    var zN, sum := f.Square(z), f.zero;
    MulOne(f, z);
    assert Pow(f, z, 1) == f.Mul(Pow(f, z, 0), z) == z;
    for i := 0 to |gammas|
      invariant zN == Pow(f, z, i + 2)
      invariant sum == DotTo(f, Self(f), Weights(f, z, |gammas|), gammas, i)
    {
      AddComm(f, Self(f), f.Mul(zN, gammas[i]), sum);
      sum := f.Add(f.Mul(zN, gammas[i]), sum);
      zN := f.Mul(zN, z);
    }
    taux := f.Add(f.Add(f.Mul(x, tau1), f.Mul(f.Square(x), tau2)), sum);
  }

  // The check with the random scalar c.
  method MegaCheckWithC<F(==, !new), P(==, !new)>(f: Field<F>, m: Points<F, P>, o: Oracle<F, P>, n: nat, k: nat, c: F,
                                                  st: Setup<P>, p: Proof<F, P>, ch: Chals<F>, ghost us: seq<F>)
    returns (ok: bool)
    requires IsModule(f, m) && Two(f) != f.zero && n > 0 && k > 0
    requires |st.G| == |st.H| == k * n && k <= |p.V|
    requires |p.ip.L| == |p.ip.R| ==> us == IP.Challenges(o, [], p.ip.L, p.ip.R)
    ensures |p.ip.L| != |p.ip.R| || k * n != Pow2(|p.ip.L|) ==> !ok
    ensures |p.ip.L| == |p.ip.R| && k * n == Pow2(|p.ip.L|) ==>
      (ok <==> MegaSum(f, m, n, k, c, st, p, us, ch) == m.zero)
  {
    var uSq, uInvSq, s := IP.VerifScalars(f, o, p.ip, us);
    if |s| != |st.G| {
      return false;
    }
    var c1 := SumOverG(f, m, c, st, p.ip.a, s, ch.z);
    var c2 := SumOverH(f, m, n, k, c, st, p.ip.b, s, ch);
    var delta := ComputeDelta(f, ch.y, ch.z, n, k);
    var tMinusDelta := f.Sub(p.t, delta);
    var abMinusT := f.Sub(f.Mul(p.ip.a, p.ip.b), p.t);
    var gBP := f.Add(f.Mul(f.Mul(c, ch.w), abMinusT), tMinusDelta);
    var hBP := f.Add(f.Mul(p.mu, c), p.taux);
    var sum := m.Add(m.Add(m.Add(c1, c2), m.Scale(gBP, st.base)), m.Scale(hBP, st.blind));
    var c7 := Exp(f, m, uSq, p.ip.L, |p.ip.L|);
    var c8 := Exp(f, m, uInvSq, p.ip.R, |p.ip.R|);
    var c9 := SumOverV(f, m, k, p.V, ch.z);
    sum := m.Sub(m.Sub(sum, m.Scale(c, p.A)), m.Scale(f.Mul(c, ch.x), p.S));
    sum := m.Sub(m.Sub(sum, m.Scale(c, c7.value)), m.Scale(c, c8.value));
    sum := m.Sub(m.Sub(m.Sub(sum, c9), m.Scale(ch.x, p.T1)), m.Scale(f.Square(ch.x), p.T2));
    ok := sum == m.zero;
  }

  method SumOverG<F(!new), P>(f: Field<F>, m: Points<F, P>, c: F, st: Setup<P>, a: F, s: seq<F>, z: F) returns (c1: P)
    requires IsField(f) && |s| == |st.G|
    ensures c1 == Dot(f, m, ScaleV(Self(f), c, AddV(Self(f), ScaleV(Self(f), a, s), Repeat(z, |s|))), st.G)
  {
    var aS := MulScalar(f, s, a);
    var g := AddScalar(f, aS, z);
    g := MulScalar(f, g, c);
    var r := Exp(f, m, g, st.G, |st.G|);
    c1 := r.value;
  }

  method SumOverH<F(==, !new), P>(f: Field<F>, m: Points<F, P>, n: nat, k: nat, c: F, st: Setup<P>, b: F, s: seq<F>,
                                  ch: Chals<F>)
    returns (c2: P)
    requires IsField(f) && Two(f) != f.zero && n > 0 && |s| == |st.H| == k * n
    ensures c2 == Dot(f, m, ScaleV(Self(f), c, AddV(Self(f),
                        MulV(Self(f),
                             AddV(Self(f), ScaleV(Self(f), b, IP.Reversed(s)),
                                  NegV(Self(f), WeightedTwos(f, ch.z, n, k))),
                             PowersOf(f, f.Inv(ch.y), k * n)),
                        Repeat(f.Neg(ch.z), |s|))), st.H)
  {
    var sInv := IP.Reverse(s);
    var bs := MulScalar(f, sInv, b);
    var zAnd2 := SumZMTwoN(f, ch.z, n, k);
    var h := Subtract(f, bs, zAnd2);
    var Hpf := ScalarPowers(f, f.Inv(ch.y), k * n);
    h := Hadamard(f, h.value, Hpf);
    var hz := SubScalar(f, h.value, ch.z);
    hz := MulScalar(f, hz, c);
    var r := Exp(f, m, hz, st.H, |st.H|);
    c2 := r.value;
  }

  lemma InverseNonZero<F(!new)>(f: Field<F>, y: F)
    requires IsField(f) && y != f.zero
    ensures f.Inv(y) != f.zero
  {
    SelfIsModule(f);
    MulInv(f, y);
    ScaleZero(f, Self(f), y, y);
  }

  method SumOverV<F(==, !new), P(!new)>(f: Field<F>, m: Points<F, P>, k: nat, V: seq<P>, z: F) returns (c9: P)
    requires IsField(f) && k <= |V|
    ensures c9 == Dot(f, m, Weights(f, z, k), V[..k])
  {
    var zM := ScalarPowers(f, z, k);
    zM := MulScalar(f, zM, f.Square(z));
    WeightsScaled(f, z, k, zM);
    c9 := m.zero;
    for i := 0 to k
      invariant c9 == DotTo(f, m, zM, V[..k], i)
    {
      c9 := m.Add(c9, m.Scale(zM[i], V[i]));
    }
  }

  // ---------- The transcript ----------

  // The bytes of the commitments, one after the other.
  function CommitBytes<F, P>(o: Oracle<F, P>, V: seq<P>): Bytes {
    if |V| == 0 then [] else CommitBytes(o, V[..|V| - 1]) + o.PointBytes(V[|V| - 1])
  }

  function BitTranscript<F, P>(o: Oracle<F, P>, V: seq<P>, A: P, S: P): Bytes {
    CommitBytes(o, V) + o.PointBytes(A) + o.PointBytes(S)
  }

  function PolyTranscript<F, P>(o: Oracle<F, P>, hs: Bytes, z: F, T1: P, T2: P): Bytes {
    hs + o.ScalarBytes(z) + o.PointBytes(T1) + o.PointBytes(T2)
  }

  function LastTranscript<F, P>(o: Oracle<F, P>, hs: Bytes, x: F, taux: F, mu: F, t: F): Bytes {
    hs + o.ScalarBytes(x) + o.ScalarBytes(taux) + o.ScalarBytes(mu) + o.ScalarBytes(t)
  }

  // The challenges as anyone derives them from a proof.
  function ChalsOf<F, P>(o: Oracle<F, P>, p: Proof<F, P>): Chals<F> {
    var hs := BitTranscript(o, p.V, p.A, p.S);
    var y := o.derive(hs);
    var z := o.derive(o.ScalarBytes(y));
    var hs1 := PolyTranscript(o, hs, z, p.T1, p.T2);
    var x := o.derive(hs1);
    Chals(y, z, x, o.derive(LastTranscript(o, hs1, x, p.taux, p.mu, p.t)))
  }

  // ---------- Verify ----------

  function SetupOf<F, P>(o: Oracle<F, P>, data: Bytes, base: P, blind: P, len: nat): (st: Setup<P>)
    ensures |st.G| == |st.H| == len
  {
    Setup(Chain(o, data, len), Chain(o, data + [1], len), base, blind)
  }

  method Generators<F, P>(o: Oracle<F, P>, data: Bytes, base: P, blind: P, len: nat) returns (st: Setup<P>)
    ensures st == SetupOf(o, data, base, blind, len)
  {
    var G := Compute(o, data, [], len);
    var H := Compute(o, data + [1], [], len);
    st := Setup(G, H, base, blind);
  }

  method AppendCommits<F, P>(o: Oracle<F, P>, V: seq<P>) returns (hs: Bytes)
    ensures hs == CommitBytes(o, V)
  {
    hs := [];
    for i := 0 to |V|
      invariant hs == CommitBytes(o, V[..i])
    {
      hs := hs + o.PointBytes(V[i]);
      assert V[..i + 1][..i] == V[..i];
    }
    assert V[..|V|] == V;
  }

  // The challenges, out of what the prover has sent.
  method Replay<F, P>(o: Oracle<F, P>, p: Proof<F, P>) returns (ch: Chals<F>)
    ensures ch == ChalsOf(o, p)
  {
    var hs := AppendCommits(o, p.V);
    hs := hs + o.PointBytes(p.A) + o.PointBytes(p.S);
    var y := o.derive(hs);
    var z := o.derive(o.ScalarBytes(y));
    hs := hs + o.ScalarBytes(z) + o.PointBytes(p.T1) + o.PointBytes(p.T2);
    var x := o.derive(hs);
    hs := hs + o.ScalarBytes(x) + o.ScalarBytes(p.taux) + o.ScalarBytes(p.mu) + o.ScalarBytes(p.t);
    var w := o.derive(hs);
    ch := Chals(y, z, x, w);
  }

  // Verify, where k is the package variable M and c the random scalar.
  method Verify<F(==, !new), P(==, !new)>(f: Field<F>, m: Points<F, P>, o: Oracle<F, P>, n: nat, k: nat, data: Bytes,
                                          base: P, blind: P, p: Proof<F, P>, c: F)
    returns (ok: bool)
    requires IsModule(f, m) && Two(f) != f.zero && n > 0 && k > 0 && k <= |p.V|
    ensures |p.ip.L| != |p.ip.R| || k * n != Pow2(|p.ip.L|) ==> !ok
    ensures |p.ip.L| == |p.ip.R| && k * n == Pow2(|p.ip.L|) ==>
      var us, ch := IP.Challenges(o, [], p.ip.L, p.ip.R), ChalsOf(o, p);
      ok <==> MegaSum(f, m, n, k, c, SetupOf(o, data, base, blind, k * n), p, us, ch) == m.zero
  {
    var st := Generators(o, data, base, blind, k * n);
    var ch := Replay(o, p);
    ghost var us := if |p.ip.L| == |p.ip.R| then IP.Challenges(o, [], p.ip.L, p.ip.R) else [];
    ok := MegaCheckWithC(f, m, o, n, k, c, st, p, ch, us);
  }
}
