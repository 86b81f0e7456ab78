/** The prover of the aggregated range proof, and its completeness: what Prove makes, Verify accepts. */
module RangeProver {
  import opened Algebra
  import opened Bits
  import opened FiatShamir
  import opened Outcome
  import opened Vectors
  import opened Polynomial
  import opened RangeProof
  import IP = InnerProduct

  // The largest number of values in one proof.
  const MAX_M: nat := 16

  // The values followed by zeros.
  function Padded(vs: seq<nat>, pad: nat): (r: seq<nat>)
    ensures |r| == |vs| + pad
    ensures forall j :: 0 <= j < |r| ==> r[j] == if j < |vs| then vs[j] else 0
  {
    if pad == 0 then vs else Padded(vs, pad - 1) + [0]
  }

  // Pad with zero values up to a power of two.
  method Pad(v: seq<nat>) returns (r: seq<nat>, ghost lg: nat)
    requires 0 < |v| <= MAX_M
    ensures |v| <= |r| == Pow2(lg) && r == Padded(v, |r| - |v|)
    ensures lg > 0 ==> Pow2(lg - 1) < |v|
  {
    SmallEnough(|v|);
    lg := IP.PadsToPow2(|v|);
    var pad := IP.DiffNextPow2(|v|);
    r := v;
    for i := 0 to pad
      invariant r == Padded(v, i)
    {
      r := r + [0];
    }
  }

  lemma SmallEnough(n: nat)
    requires n <= MAX_M
    ensures n <= Pow2(IP.WIDTH)
  {
    assert Pow2(4) == 16;
    Grows(4, IP.WIDTH);
  }

  method CommitToScalar<F, P>(m: Points<F, P>, st: Setup<P>, v: F, blind: F) returns (r: P)
    ensures r == m.Add(m.Scale(v, st.base), m.Scale(blind, st.blind))
  {
    var vBase := m.Scale(v, st.base);
    var blindPoint := m.Scale(blind, st.blind);
    r := m.Add(vBase, blindPoint);
  }

  // The commitments to the values, and their bytes for the transcript.
  method CommitValues<F, P>(f: Field<F>, m: Points<F, P>, o: Oracle<F, P>, st: Setup<P>, vs: seq<nat>, gammas: seq<F>)
    returns (V: seq<P>, hs: Bytes)
    requires |vs| == |gammas|
    ensures V == ValueCommits(f, m, vs, gammas, st) && hs == CommitBytes(o, V)
  {
    V, hs := [], [];
    for i := 0 to |vs|
      invariant V == ValueCommits(f, m, vs[..i], gammas[..i], st)
      invariant hs == CommitBytes(o, V)
    {
      var c := CommitToScalar(m, st, FromNat(f, vs[i]), gammas[i]);
      assert vs[..i + 1][..i] == vs[..i] && gammas[..i + 1][..i] == gammas[..i];
      assert (V + [c])[..i] == V;
      V := V + [c];
      hs := hs + o.PointBytes(c);
    }
    assert vs[..|vs|] == vs && gammas[..|vs|] == gammas;
  }

  lemma Minus1Concat<F>(f: Field<F>, a: seq<F>, b: seq<F>)
    ensures Minus1(f, a + b) == Minus1(f, a) + Minus1(f, b)
  {
    var l, r := Minus1(f, a + b), Minus1(f, a) + Minus1(f, b);
    forall i | 0 <= i < |l| ensures l[i] == r[i] {
      assert (a + b)[i] == if i < |a| then a[i] else b[i - |a|];
    }
  }

  // The bits of all the values, and the bits less one.
  method BitCommits<F(!new)>(f: Field<F>, n: nat, vs: seq<nat>) returns (aLs: seq<F>, aRs: seq<F>)
    requires IsField(f)
    ensures aLs == AllBits(f, vs, n) && aRs == Minus1(f, aLs)
  {
    aLs, aRs := [], [];
    for i := 0 to |vs|
      invariant aLs == AllBits(f, vs[..i], n) && aRs == Minus1(f, aLs)
    {
      var aL, aR := BitCommit(f, vs[i], n);
      assert vs[..i + 1][..i] == vs[..i];
      Minus1Concat(f, aLs, aL);
      aLs, aRs := aLs + aL, aRs + aR;
    }
    assert vs[..|vs|] == vs;
  }

  // Everything the prover draws at random.
  datatype Randoms<F> = Randoms(sL: seq<F>, sR: seq<F>, gammas: seq<F>, alpha: F, rho: F, tau1: F, tau2: F)

  function SecretsOf<F>(f: Field<F>, n: nat, vs: seq<nat>, rs: Randoms<F>): Secrets<F> {
    Secrets(AllBits(f, vs, n), rs.sL, rs.sR, rs.gammas, rs.alpha, rs.rho, rs.tau1, rs.tau2)
  }

  // The first challenges of the prover, as a function of the padded values and of the randomness.
  function FirstChals<F, P>(f: Field<F>, m: Points<F, P>, o: Oracle<F, P>, n: nat, vs: seq<nat>, st: Setup<P>,
                            rs: Randoms<F>): (F, F, F)
    requires |st.G| == |st.H| == |rs.sL| == |rs.sR| == |vs| * n && |rs.gammas| == |vs|
  {
    var aL := AllBits(f, vs, n);
    var aR := Minus1(f, aL);
    var hs := BitTranscript(o, ValueCommits(f, m, vs, rs.gammas, st),
                            VectorCommit(f, m, st.blind, rs.alpha, aL, st.G, aR, st.H),
                            VectorCommit(f, m, st.blind, rs.rho, rs.sL, st.G, rs.sR, st.H));
    var y := o.derive(hs);
    var z := o.derive(o.ScalarBytes(y));
    var pl := PolyOf(f, y, z, n, |vs|, aL, aR, rs.sL, rs.sR);
    (y, z, o.derive(PolyTranscript(o, hs, z, m.Add(m.Scale(pl.t1, st.base), m.Scale(rs.tau1, st.blind)),
                                   m.Add(m.Scale(pl.t2, st.base), m.Scale(rs.tau2, st.blind)))))
  }

  datatype Commits<P> = Commits(V: seq<P>, A: P, S: P, T1: P, T2: P)

  // The second half of Prove: answer the challenges.
  method Answer<F(==, !new), P(!new)>(f: Field<F>, m: Points<F, P>, o: Oracle<F, P>, n: nat, ghost lg: nat,
                                      st: Setup<P>, rs: Randoms<F>, hs: Bytes, y: F, z: F, x: F, pl: Poly<F>,
                                      cs: Commits<P>)
    returns (p: Proof<F, P>, w: F)
    requires IsModule(f, m) && |st.G| == |st.H| == Pow2(lg) && y != f.zero
    requires |pl.l0| == |pl.l1| == |pl.r0| == |pl.r1| == |st.G|
    ensures |p.ip.L| == |p.ip.R| == lg
    ensures Commits(p.V, p.A, p.S, p.T1, p.T2) == cs
    ensures p.taux == f.Add(f.Add(f.Mul(x, rs.tau1), f.Mul(f.Square(x), rs.tau2)),
                            Dot(f, Self(f), Weights(f, z, |rs.gammas|), rs.gammas))
    ensures p.mu == f.Add(f.Mul(rs.rho, x), rs.alpha)
    ensures p.t == Dot(f, Self(f), At0And1(f, pl.l0, pl.l1, x), At0And1(f, pl.r0, pl.r1, x))
    ensures w == o.derive(LastTranscript(o, hs, x, p.taux, p.mu, p.t))
    ensures var us := IP.Challenges(o, [], p.ip.L, p.ip.R);
            IP.NonZero(f, us) ==>
              IP.Opens(f, m, m.Scale(w, st.base), us, p.ip,
                       IP.Vecs(At0And1(f, pl.l0, pl.l1, x), At0And1(f, pl.r0, pl.r1, x), st.G,
                               MulV(m, Powers(f, f.Inv(y), |st.H|), st.H)))
  {
    var taux := ComputeTaux(f, x, z, rs.tau1, rs.tau2, rs.gammas);
    var mu := f.Add(f.Mul(rs.rho, x), rs.alpha);
    var l := ComputeAt(f, pl.l0, pl.l1, x);
    var r := ComputeAt(f, pl.r0, pl.r1, x);
    var t := InnerProduct(f, l.value, r.value);
    var last := hs + o.ScalarBytes(x) + o.ScalarBytes(taux) + o.ScalarBytes(mu) + o.ScalarBytes(t.value);
    w := o.derive(last);
    InverseNonZero(f, y);
    var Hpf := ScalarPowers(f, f.Inv(y), |st.H|);
    IP.Log2OfPow2(lg);
    assert Hpf[..|st.G|] == Hpf;
    var ip := IP.Generate(f, m, o, m.Scale(w, st.base), IP.Vecs(l.value, r.value, st.G, st.H), Hpf);
    p := Proof(cs.V, cs.A, cs.S, cs.T1, cs.T2, taux, mu, t.value, ip.value);
  }

  lemma {:induction false} Pow2Product(i: nat, j: nat)
    ensures Pow2(i) * Pow2(j) == Pow2(i + j)
    decreases j
  {
    if j > 0 {
      Pow2Product(i, j - 1);
    }
  }

  // The randomness, drawn once the number of values is known.
  ghost predicate Draws<F>(draw: nat -> Randoms<F>, n: nat) {
    forall k: nat :: |draw(k).sL| == |draw(k).sR| == k * n && |draw(k).gammas| == k
  }

  // What Prove returns for the padded values vs: a proof whose parts belong together.
  ghost predicate Complete<F, P>(f: Field<F>, m: Points<F, P>, o: Oracle<F, P>, n: nat, vs: seq<nat>, st: Setup<P>,
                                 rs: Randoms<F>, p: Proof<F, P>)
  {
    && |p.ip.L| == |p.ip.R| && |p.V| == |vs|
    && var us, ch := IP.Challenges(o, [], p.ip.L, p.ip.R), ChalsOf(o, p);
    && |vs| * n == Pow2(|p.ip.L|)
    && ch.y != f.zero && ch.z != f.zero && ch.x != f.zero
    && (IP.NonZero(f, us) ==> Honest(f, m, n, vs, st, p, us, ch, SecretsOf(f, n, vs, rs)))
  }

  // The outcome of Prove: a failure exactly when a challenge is zero.
  ghost predicate Proved<F, P>(f: Field<F>, m: Points<F, P>, o: Oracle<F, P>, n: nat, vs: seq<nat>, st: Setup<P>,
                               rs: Randoms<F>, r: Result<Proof<F, P>>)
  {
    && |st.G| == |st.H| == |rs.sL| == |rs.sR| == |vs| * n && |rs.gammas| == |vs|
    && (r.Ok? <==> var (y, z, x) := FirstChals(f, m, o, n, vs, st, rs); y != f.zero && z != f.zero && x != f.zero)
    && (r.Ok? ==> Complete(f, m, o, n, vs, st, rs, r.value))
  }

  // k is the least power of two that is not below j.
  ghost predicate IsNextPow2(j: nat, k: nat) {
    exists lg: nat :: j <= k == Pow2(lg) && (lg > 0 ==> Pow2(lg - 1) < j)
  }

  // Prove from the padded values on. It fails exactly when a challenge is zero; y and z are
  // looked at before they are used rather than after.
  method ProvePadded<F(==, !new), P(!new)>(f: Field<F>, m: Points<F, P>, o: Oracle<F, P>, n: nat, ghost lg: nat,
                                           data: Bytes, st: Setup<P>, vs: seq<nat>, rs: Randoms<F>)
    returns (r: Result<Proof<F, P>>)
    requires IsModule(f, m) && Two(f) != f.zero && n > 0
    requires |rs.sL| == |rs.sR| == |vs| * n == Pow2(lg) && |rs.gammas| == |vs|
    requires st == SetupOf(o, data, st.base, st.blind, |vs| * n)
    ensures Proved(f, m, o, n, vs, st, rs, r)
  {
    var V, hs := CommitValues(f, m, o, st, vs, rs.gammas);
    var aL, aR := BitCommits(f, n, vs);
    var A := CommitToVectors(f, m, o, data, st, rs.alpha, aL, aR);
    var S := CommitToVectors(f, m, o, data, st, rs.rho, rs.sL, rs.sR);
    hs := hs + o.PointBytes(A) + o.PointBytes(S);
    var y := o.derive(hs);
    var z := o.derive(o.ScalarBytes(y));
    if y == f.zero || z == f.zero {
      return Err;
    }
    var pl := ComputePoly(f, y, z, n, |vs|, aL, aR, rs.sL, rs.sR);
    var T1 := CommitToScalar(m, st, pl.t1, rs.tau1);
    var T2 := CommitToScalar(m, st, pl.t2, rs.tau2);
    hs := hs + o.ScalarBytes(z) + o.PointBytes(T1) + o.PointBytes(T2);
    var x := o.derive(hs);
    if x == f.zero {
      return Err;
    }
    var p, w := Answer(f, m, o, n, lg, st, rs, hs, y, z, x, pl, Commits(V, A, S, T1, T2));
    assert ChalsOf(o, p) == Chals(y, z, x, w);
    r := Ok(p);
  }

  method ProveWith<F(==, !new), P(!new)>(f: Field<F>, m: Points<F, P>, o: Oracle<F, P>, n: nat, ghost lgn: nat,
                                         ghost lg: nat, data: Bytes, base: P, blind: P, vs: seq<nat>, rs: Randoms<F>)
    returns (r: Result<Proof<F, P>>, ghost st: Setup<P>)
    requires IsModule(f, m) && Two(f) != f.zero && n == Pow2(lgn) && |vs| == Pow2(lg)
    requires |rs.sL| == |rs.sR| == |vs| * n && |rs.gammas| == |vs|
    ensures st == SetupOf(o, data, base, blind, |vs| * n) && Proved(f, m, o, n, vs, st, rs, r)
  {
    Pow2Product(lg, lgn);
    var setup := Generators(o, data, base, blind, |vs| * n);
    r := ProvePadded(f, m, o, n, lg + lgn, data, setup, vs, rs);
    st := setup;
  }

  method Prove<F(==, !new), P(!new)>(f: Field<F>, m: Points<F, P>, o: Oracle<F, P>, n: nat, ghost lgn: nat, data: Bytes,
                                     base: P, blind: P, v: seq<nat>, draw: nat -> Randoms<F>)
    returns (r: Result<Proof<F, P>>, k: nat, ghost vs: seq<nat>, ghost st: Setup<P>)
    requires IsModule(f, m) && Two(f) != f.zero && n == Pow2(lgn)
    requires Draws(draw, n)
    ensures !(0 < |v| <= MAX_M) ==> r.Err?
    ensures 0 < |v| <= MAX_M ==> IsNextPow2(|v|, k)
    ensures 0 < |v| <= MAX_M
        ==> |v| <= k == |vs| && vs == Padded(v, k - |v|) && st == SetupOf(o, data, base, blind, k * n)
    ensures 0 < |v| <= MAX_M ==> Proved(f, m, o, n, vs, st, draw(k), r)
  {
    k, vs, st := |v|, v, Setup([], [], base, blind);
    if k < 1 || k > MAX_M {
      return Err, k, vs, st;
    }
    var padded; ghost var lg;
    padded, lg := Pad(v);
    k, vs := |padded|, padded;
    assert IsNextPow2(|v|, k);
    r, st := ProveWith(f, m, o, n, lgn, lg, data, base, blind, padded, draw(k));
  }

  // Completeness: for every random c, Verify accepts what Prove made of values below 2^n. In
  // general it accepts exactly when the values and their n low bits have the same weighted sum.
  method ProveThenVerify<F(==, !new), P(==, !new)>(f: Field<F>, m: Points<F, P>, o: Oracle<F, P>, n: nat,
                                                   ghost lgn: nat, data: Bytes, base: P, blind: P, v: seq<nat>,
                                                   draw: nat -> Randoms<F>, c: F)
    returns (r: Result<Proof<F, P>>, ok: bool, k: nat)
    requires IsModule(f, m) && Two(f) != f.zero && n == Pow2(lgn)
    requires Draws(draw, n)
    ensures r.Ok? ==> |v| <= k && |r.value.ip.L| == |r.value.ip.R|
    ensures r.Ok? && IP.NonZero(f, IP.Challenges(o, [], r.value.ip.L, r.value.ip.R))
        ==> Accepts(f, m, o, n, v, k, base, r.value, ok)
    ensures r.Err? ==> !ok
  {
    ghost var vs, st;
    r, k, vs, st := Prove(f, m, o, n, lgn, data, base, blind, v, draw);
    ok := false;
    if r.Ok? {
      ok := Verify(f, m, o, n, k, data, base, blind, r.value, c);
      ghost var us, ch := IP.Challenges(o, [], r.value.ip.L, r.value.ip.R), ChalsOf(o, r.value);
      if IP.NonZero(f, us) {
        HonestPasses(f, m, n, vs, c, st, r.value, us, ch, SecretsOf(f, n, vs, draw(k)));
        WithinRange(f, n, v, k, ch.z);
      }
    }
  }

  ghost predicate Accepts<F, P>(f: Field<F>, m: Points<F, P>, o: Oracle<F, P>, n: nat, v: seq<nat>, k: nat, base: P,
                                p: Proof<F, P>, ok: bool)
    requires |v| <= k
  {
    var vs, z := Padded(v, k - |v|), ChalsOf(o, p).z;
    && ((forall j :: 0 <= j < |v| ==> v[j] < Pow2(n)) ==> ok)
    && (ok <==> m.Scale(BitWeight(f, n, vs, z), base) == m.Scale(ValueWeight(f, vs, z), base))
  }

  lemma WithinRange<F>(f: Field<F>, n: nat, v: seq<nat>, k: nat, z: F)
    requires |v| <= k
    ensures (forall j :: 0 <= j < |v| ==> v[j] < Pow2(n)) ==>
              BitWeight(f, n, Padded(v, k - |v|), z) == ValueWeight(f, Padded(v, k - |v|), z)
  {
    if forall j :: 0 <= j < |v| ==> v[j] < Pow2(n) {
      InRange(f, n, Padded(v, k - |v|));
    }
  }
}
