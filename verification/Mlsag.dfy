/**
The ring signature over a matrix of public keys. The signer starts the chain of challenges
behind its own row and walks round the ring; the verifier walks the same ring from row 0.
*/
module Mlsag {
  import opened Algebra
  import opened FiatShamir
  import opened Outcome
  import opened Sequences

  // The group, the hash functions and the base point.
  datatype Env<!F, !P> = Env(f: Field<F>, m: Points<F, P>, o: Oracle<F, P>, base: P) {
    function HashToPoint(k: P): P {
      o.derivePoint(o.PointBytes(k))
    }
  }

  datatype Row<P> = Row(decoy: bool, keys: seq<P>)

  datatype Signature<F, P> = Signature(c: F, r: seq<seq<F>>, pubKeys: seq<Row<P>>, msg: Bytes)

  // ---------- One challenge ----------

  // r * B + c * K
  function Committed<F, P>(e: Env<F, P>, B: P, K: P, r: F, c: F): P {
    e.m.Add(e.m.Scale(r, B), e.m.Scale(c, K))
  }

  // What is written to the buffer after start: the commitments of the first i keys.
  function KeyBytes<F, P>(e: Env<F, P>, start: Bytes, r: seq<F>, keys: seq<P>, c: F, i: nat): Bytes
    requires i <= |keys| <= |r|
  {
    if i == 0 then start
    else KeyBytes(e, start, r, keys, c, i - 1) + e.o.PointBytes(Committed(e, e.base, keys[i - 1], r[i - 1], c))
  }

  function ImageBytes<F, P>(e: Env<F, P>, start: Bytes, r: seq<F>, keys: seq<P>, images: seq<P>, c: F, i: nat): Bytes
    requires i <= |images| && |images| <= |keys| <= |r|
  {
    if i == 0 then start
    else ImageBytes(e, start, r, keys, images, c, i - 1)
         + e.o.PointBytes(Committed(e, e.HashToPoint(keys[i - 1]), images[i - 1], r[i - 1], c))
  }

  // The challenge that follows c, from a row of keys and its responses.
  function Challenge<F, P>(e: Env<F, P>, msg: Bytes, r: seq<F>, images: seq<P>, keys: seq<P>, c: F): F
    requires |images| <= |keys| <= |r|
  {
    e.o.derive(ImageBytes(e, KeyBytes(e, msg, r, keys, c, |keys|), r, keys, images, c, |images|))
  }

  method GenerateChallenge<F, P>(e: Env<F, P>, msg: Bytes, responses: seq<F>, images: seq<P>, keys: seq<P>, prev: F)
    returns (c: F)
    requires |images| <= |keys| <= |responses|
    ensures c == Challenge(e, msg, responses, images, keys, prev)
  {
    var buf := msg;
    for i := 0 to |keys|
      invariant buf == KeyBytes(e, msg, responses, keys, prev, i)
    {
      var p := e.m.Scale(responses[i], e.base);
      var cK := e.m.Scale(prev, keys[i]);
      buf := buf + e.o.PointBytes(e.m.Add(p, cK));
    }
    ghost var written := buf;
    for i := 0 to |images|
      invariant buf == ImageBytes(e, written, responses, keys, images, prev, i)
    {
      var hK := e.HashToPoint(keys[i]);
      var p := e.m.Scale(responses[i], hK);
      var cK := e.m.Scale(prev, images[i]);
      buf := buf + e.o.PointBytes(e.m.Add(p, cK));
    }
    c := e.o.derive(buf);
  }

  // ---------- The ring ----------

  // The rows of the ring: responses and keys at each position.
  datatype Ring<F, P> = Ring(msg: Bytes, r: seq<seq<F>>, rows: seq<Row<P>>, images: seq<P>)

  // From the challenge at position i to the one at the next position.
  function Link<F, P>(e: Env<F, P>, g: Ring<F, P>, i: nat, c: F): F {
    if i < |g.r| && i < |g.rows| && |g.images| <= |g.rows[i].keys| <= |g.r[i]|
    then Challenge(e, g.msg, g.r[i], g.images, g.rows[i].keys, c) else c
  }

  function Next(i: nat, n: nat): nat {
    if i + 1 < n then i + 1 else 0
  }

  // The position d steps after start.
  function Position(start: nat, d: nat, n: nat): nat
    decreases d
  {
    if d == 0 then start else Position(Next(start, n), d - 1, n)
  }

  function Around(start: nat, d: nat, n: nat): int {
    if start + d < n then start + d else start + d - n
  }

  // The number of steps from start to i.
  function Since(start: nat, i: nat, n: nat): int {
    if start <= i then i - start else i - start + n
  }

  lemma {:induction false} PositionIs(start: nat, d: nat, n: nat)
    requires start < n && d <= n
    ensures Position(start, d, n) == Around(start, d, n)
    decreases d
  {
    if d > 0 {
      PositionIs(Next(start, n), d - 1, n);
    }
  }

  // The challenge after d steps from position start.
  function Walk<F, P>(e: Env<F, P>, g: Ring<F, P>, start: nat, c: F, d: nat): F
    decreases d
  {
    if d == 0 then c else Walk(e, g, Next(start, |g.r|), Link(e, g, start, c), d - 1)
  }

  lemma {:induction false} WalkOn<F, P>(e: Env<F, P>, g: Ring<F, P>, start: nat, c: F, d1: nat, d2: nat)
    ensures Walk(e, g, start, c, d1 + d2) == Walk(e, g, Position(start, d1, |g.r|), Walk(e, g, start, c, d1), d2)
    decreases d1
  {
    if d1 > 0 {
      WalkOn(e, g, Next(start, |g.r|), Link(e, g, start, c), d1 - 1, d2);
    }
  }

  // One more step at the end of a walk.
  lemma WalkStep<F, P>(e: Env<F, P>, g: Ring<F, P>, start: nat, c: F, d: nat, p: nat)
    requires start < |g.r| && d <= |g.r| && p == Around(start, d, |g.r|)
    ensures Walk(e, g, start, c, d + 1) == Link(e, g, p, Walk(e, g, start, c, d))
  {
    PositionIs(start, d, |g.r|);
    WalkOn(e, g, start, c, d, 1);
  }

  // All challenges of the ring at once.
  ghost predicate Closed<F, P>(e: Env<F, P>, g: Ring<F, P>, cs: seq<F>) {
    |cs| == |g.r| && forall i :: 0 <= i < |cs| ==> cs[Next(i, |cs|)] == Link(e, g, i, cs[i])
  }

  // A walk of one lap closes exactly when the ring has a consistent assignment of challenges.
  lemma WalkCloses<F(!new), P>(e: Env<F, P>, g: Ring<F, P>, c: F)
    requires |g.r| > 0
    ensures Walk(e, g, 0, c, |g.r|) == c <==> exists cs :: Closed(e, g, cs) && cs[0] == c
  {
    var n := |g.r|;
    if Walk(e, g, 0, c, n) == c {
      var cs := WalkSeq(e, g, c, n);
      forall i | 0 <= i < n ensures cs[Next(i, n)] == Link(e, g, i, cs[i]) {
        WalkStep(e, g, 0, c, i, i);
      }
      assert Closed(e, g, cs);
    }
    forall cs | Closed(e, g, cs) && cs[0] == c ensures Walk(e, g, 0, c, n) == c {
      ClosedWalk(e, g, cs, n - 1);
      WalkStep(e, g, 0, c, n - 1, n - 1);
    }
  }

  function WalkSeq<F, P>(e: Env<F, P>, g: Ring<F, P>, c: F, n: nat): (cs: seq<F>)
    requires 0 < n
    ensures |cs| == n && forall i :: 0 <= i < n ==> cs[i] == Walk(e, g, 0, c, i)
  {
    if n == 1 then [c] else WalkSeq(e, g, c, n - 1) + [Walk(e, g, 0, c, n - 1)]
  }

  lemma {:induction false} ClosedWalk<F, P>(e: Env<F, P>, g: Ring<F, P>, cs: seq<F>, i: nat)
    requires Closed(e, g, cs) && i < |cs|
    ensures cs[i] == Walk(e, g, 0, cs[0], i)
  {
    if i > 0 {
      ClosedWalk(e, g, cs, i - 1);
      assert cs[Next(i - 1, |cs|)] == Link(e, g, i - 1, cs[i - 1]);
      WalkStep(e, g, 0, cs[0], i - 1, i - 1);
    }
  }

  // ---------- Verify ----------

  // (i - 1) % n, where the remainder has the sign of i - 1, made non-negative.
  function Before(i: nat, n: nat): (p: nat)
    requires i < n
    ensures p < n && Next(p, n) == i
  {
    var r := if i == 0 then (if n == 1 then 0 else -1) else i - 1;
    if r < 0 then r + n else r
  }

  method Mod(x: nat, n: nat) returns (r: nat)
    requires 0 < n && x <= 2 * n
    ensures r == if x < n then x else if x < 2 * n then x - n else 0
  {
    r := x % n;
    SmallQuotient(x, n, x / n, r);
  }

  lemma SmallQuotient(x: nat, n: nat, q: nat, r: nat)
    requires x == n * q + r && r < n && x <= 2 * n
    ensures r == if x < n then x else if x < 2 * n then x - n else 0
  {
    if q > 2 {
      assert n * q == 3 * n + n * (q - 3);
    }
  }

  // The challenge at position i, from the row before it.
  method ChallengeAt<F, P>(e: Env<F, P>, g: Ring<F, P>, i: nat, prev: F) returns (c: F)
    requires i < |g.r| <= |g.rows|
    requires var p := Before(i, |g.r|); |g.images| <= |g.rows[p].keys| <= |g.r[p]|
    ensures c == Link(e, g, Before(i, |g.r|), prev)
  {
    var prevIndex := Before(i, |g.r|);
    c := GenerateChallenge(e, g.msg, g.r[prevIndex], g.images, g.rows[prevIndex].keys, prev);
  }

  // A ring of one row is walked twice.
  function Laps(n: nat): nat {
    if n == 1 then 2 else n
  }

  function RingOf<F, P>(sig: Signature<F, P>, images: seq<P>): Ring<F, P> {
    Ring(sig.msg, sig.r, sig.pubKeys, images)
  }

  // The counter of the verifier's loop after d steps.
  function LapCounter(d: nat, n: nat): nat {
    if d + 1 == Laps(n) then 0 else d + 1
  }

  method VerifyOneStep<F, P>(e: Env<F, P>, g: Ring<F, P>, ghost c: F, prev: F, k: nat, ghost d: nat)
    returns (prev1: F, k1: nat)
    requires 0 < |g.r| <= |g.rows| && forall i :: 0 <= i < |g.r| ==> |g.images| <= |g.rows[i].keys| <= |g.r[i]|
    requires d < Laps(|g.r|) && k == LapCounter(d, |g.r|) != 0 && prev == Walk(e, g, 0, c, d)
    ensures d + 1 < Laps(|g.r|) && k1 == LapCounter(d + 1, |g.r|) && prev1 == Walk(e, g, 0, c, d + 1)
  {
    var i := Mod(k, |g.r|);
    WalkStep(e, g, 0, c, d, Before(i, |g.r|));
    prev1 := ChallengeAt(e, g, i, prev);
    k1 := Mod(k + 1, |g.r|);
  }

  method Verify<F(==), P>(e: Env<F, P>, sig: Signature<F, P>, images: seq<P>) returns (ok: bool)
    requires |sig.r| <= |sig.pubKeys|
    requires forall i :: 0 <= i < |sig.r| ==> |images| <= |sig.pubKeys[i].keys| <= |sig.r[i]|
    ensures ok <==> |sig.r| > 0 && |images| > 0 && Walk(e, RingOf(sig, images), 0, sig.c, Laps(|sig.r|)) == sig.c
  {
    if |sig.pubKeys| == 0 || |sig.r| == 0 || |images| == 0 {
      return false;
    }
    var g := RingOf(sig, images);
    var numUsers, index := |sig.r|, 0;
    var prev, k := sig.c, index + 1;
    ghost var d := 0;
    var last := Mod(index, numUsers);
    while k != last
      invariant d < Laps(numUsers) && k == LapCounter(d, numUsers) && prev == Walk(e, g, 0, sig.c, d)
      decreases Laps(numUsers) - d
    {
      prev, k := VerifyOneStep(e, g, sig.c, prev, k, d);
      d := d + 1;
    }
    WalkStep(e, g, 0, sig.c, d, Before(index, numUsers));
    var challenge := ChallengeAt(e, g, index, prev);
    ok := challenge == sig.c;
  }

  // ---------- The signer ----------

  function PublicKey<F, P>(e: Env<F, P>, priv: F): P {
    e.m.Scale(priv, e.base)
  }

  function KeyImage<F, P>(e: Env<F, P>, priv: F): P {
    e.m.Scale(priv, e.HashToPoint(PublicKey(e, priv)))
  }

  function PublicKeys<F, P>(e: Env<F, P>, priv: seq<F>): (r: seq<P>)
    ensures |r| == |priv| && forall i :: 0 <= i < |priv| ==> r[i] == PublicKey(e, priv[i])
  {
    if |priv| == 0 then [] else PublicKeys(e, priv[..|priv| - 1]) + [PublicKey(e, priv[|priv| - 1])]
  }

  function KeyImages<F, P>(e: Env<F, P>, priv: seq<F>): (r: seq<P>)
    ensures |r| == |priv| && forall i :: 0 <= i < |priv| ==> r[i] == KeyImage(e, priv[i])
  {
    if |priv| == 0 then [] else KeyImages(e, priv[..|priv| - 1]) + [KeyImage(e, priv[|priv| - 1])]
  }

  // nonce - c x is a response for the key x B: it gives back nonce B.
  lemma ResponseOpens<F(!new), P(!new)>(e: Env<F, P>, B: P, x: F, nonce: F, c: F)
    requires IsModule(e.f, e.m)
    ensures Committed(e, B, e.m.Scale(x, B), e.f.Add(e.f.Neg(e.f.Mul(c, x)), nonce), c) == e.m.Scale(nonce, B)
  {
    var f, m := e.f, e.m;
    var cx := m.Scale(f.Mul(c, x), B);
    ScaleSum(f, m, f.Neg(f.Mul(c, x)), nonce, B);
    ScaleNeg(f, m, f.Mul(c, x), B);
    ScaleMul(f, m, c, x, B);
    AddComm(f, m, m.Neg(cx), m.Scale(nonce, B));
    AddAssoc(f, m, m.Scale(nonce, B), m.Neg(cx), cx);
    AddComm(f, m, m.Neg(cx), cx);
    AddNeg(f, m, cx);
    AddZero(f, m, m.Scale(nonce, B));
  }

  function RealResponse<F, P>(e: Env<F, P>, priv: seq<F>, nonces: seq<F>, c: F): (r: seq<F>)
    requires |priv| == |nonces|
    ensures |r| == |priv| && forall i :: 0 <= i < |r| ==> r[i] == e.f.Add(e.f.Neg(e.f.Mul(c, priv[i])), nonces[i])
  {
    if |priv| == 0 then []
    else
      var j := |priv| - 1;
      RealResponse(e, priv[..j], nonces[..j], c) + [e.f.Add(e.f.Neg(e.f.Mul(c, priv[j])), nonces[j])]
  }

  // The bytes of nonce * G for every key, and of nonce * H(K) for every key image.
  function NonceKeyBytes<F, P>(e: Env<F, P>, start: Bytes, nonces: seq<F>, i: nat): Bytes
    requires i <= |nonces|
  {
    if i == 0 then start else NonceKeyBytes(e, start, nonces, i - 1) + e.o.PointBytes(e.m.Scale(nonces[i - 1], e.base))
  }

  function NonceImageBytes<F, P>(e: Env<F, P>, start: Bytes, nonces: seq<F>, keys: seq<P>, i: nat): Bytes
    requires i <= |nonces| && i <= |keys|
  {
    if i == 0 then start
    else
      NonceImageBytes(e, start, nonces, keys, i - 1)
      + e.o.PointBytes(e.m.Scale(nonces[i - 1], e.HashToPoint(keys[i - 1])))
  }

  lemma {:induction false} KeyBytesOpen<F(!new), P(!new)>(e: Env<F, P>, start: Bytes, priv: seq<F>, nonces: seq<F>,
                                                          c: F, i: nat)
    requires IsModule(e.f, e.m) && i <= |priv| == |nonces|
    ensures KeyBytes(e, start, RealResponse(e, priv, nonces, c), PublicKeys(e, priv), c, i)
         == NonceKeyBytes(e, start, nonces, i)
  {
    if i > 0 {
      KeyBytesOpen(e, start, priv, nonces, c, i - 1);
      ResponseOpens(e, e.base, priv[i - 1], nonces[i - 1], c);
    }
  }

  lemma {:induction false} ImageBytesOpen<F(!new), P(!new)>(
      e: Env<F, P>, start: Bytes, priv: seq<F>, nonces: seq<F>, images: seq<P>, c: F, i: nat)
    requires IsModule(e.f, e.m) && i <= |images| && |images| <= |priv| == |nonces|
    requires images == KeyImages(e, priv)[..|images|]
    ensures ImageBytes(e, start, RealResponse(e, priv, nonces, c), PublicKeys(e, priv), images, c, i)
         == NonceImageBytes(e, start, nonces, PublicKeys(e, priv), i)
  {
    if i > 0 {
      ImageBytesOpen(e, start, priv, nonces, images, c, i - 1);
      assert images[i - 1] == KeyImage(e, priv[i - 1]);
      ResponseOpens(e, e.HashToPoint(PublicKey(e, priv[i - 1])), priv[i - 1], nonces[i - 1], c);
    }
  }

  function FirstChallenge<F, P>(e: Env<F, P>, msg: Bytes, nonces: seq<F>, keys: seq<P>, i: nat): F
    requires i <= |nonces| && i <= |keys|
  {
    e.o.derive(NonceImageBytes(e, NonceKeyBytes(e, msg, nonces, |nonces|), nonces, keys, i))
  }

  // Whatever the challenge c at the signer's row, the real responses lead to the first challenge.
  lemma RealResponseCloses<F(!new), P(!new)>(e: Env<F, P>, msg: Bytes, priv: seq<F>, nonces: seq<F>, images: seq<P>,
                                             c: F)
    requires IsModule(e.f, e.m) && |images| <= |priv| == |nonces| && images == KeyImages(e, priv)[..|images|]
    ensures Challenge(e, msg, RealResponse(e, priv, nonces, c), images, PublicKeys(e, priv), c)
         == FirstChallenge(e, msg, nonces, PublicKeys(e, priv), |images|)
  {
    KeyBytesOpen(e, msg, priv, nonces, c, |priv|);
    ImageBytesOpen(e, NonceKeyBytes(e, msg, nonces, |nonces|), priv, nonces, images, c, |images|);
  }

  method GenerateFirstChallenge<F, P>(e: Env<F, P>, msg: Bytes, nonces: seq<F>, keys: seq<P>, images: seq<P>)
    returns (c: F)
    requires |images| <= |nonces| && |images| <= |keys|
    ensures c == FirstChallenge(e, msg, nonces, keys, |images|)
  {
    var buf := msg;
    for i := 0 to |nonces|
      invariant buf == NonceKeyBytes(e, msg, nonces, i)
    {
      var p := e.m.Scale(nonces[i], e.base);
      buf := buf + e.o.PointBytes(p);
    }
    ghost var written := buf;
    for i := 0 to |images|
      invariant buf == NonceImageBytes(e, written, nonces, keys, i)
    {
      var hK := e.HashToPoint(keys[i]);
      var p := e.m.Scale(nonces[i], hK);
      buf := buf + e.o.PointBytes(p);
    }
    c := e.o.derive(buf);
  }

  method GenerateResponses<F>(m: nat, n: nat, skip: nat, rand: seq<seq<F>>) returns (r: seq<seq<F>>)
    requires |rand| == m && forall i :: 0 <= i < m ==> |rand[i]| == n
    ensures |r| == m && forall i :: 0 <= i < m ==> r[i] == if i == skip then [] else rand[i]
  {
    r := [];
    for i := 0 to m
      invariant |r| == i && forall j :: 0 <= j < i ==> r[j] == if j == skip then [] else rand[j]
    {
      if i == skip {
        r := r + [[]];
      } else {
        var resp: seq<F> := [];
        for j := 0 to n
          invariant resp == rand[i][..j]
        {
          resp := resp + [rand[i][j]];
        }
        r := r + [resp];
      }
    }
  }

  // The first d links from start on hold.
  ghost predicate Chained<F, P>(e: Env<F, P>, g: Ring<F, P>, start: nat, d: nat, cs: seq<F>) {
    && |cs| == |g.r|
    && forall i :: 0 <= i < |cs| && Since(start, i, |cs|) < d ==> cs[Next(i, |cs|)] == Link(e, g, i, cs[i])
  }

  lemma ChainOn<F, P>(e: Env<F, P>, g: Ring<F, P>, start: nat, d: nat, cs: seq<F>, p: nat)
    requires Chained(e, g, start, d, cs) && start < |cs| && d + 1 < |cs| && p == Around(start, d, |cs|)
    ensures Chained(e, g, start, d + 1, cs[Next(p, |cs|) := Link(e, g, p, cs[p])])
  {
    var i := Next(p, |cs|);
    var cs1 := cs[i := Link(e, g, p, cs[p])];
    forall j | 0 <= j < |cs| && Since(start, j, |cs|) < d + 1 ensures cs1[Next(j, |cs|)] == Link(e, g, j, cs1[j]) {
      if j != p {
        assert Since(start, j, |cs|) < d && Next(j, |cs|) != i;
      }
    }
  }

  // The counter k of the signer's loop, d steps behind the row after its own, at position p.
  ghost predicate Counts(secret: nat, n: nat, k: nat, d: nat, p: nat) {
    && secret < n && 2 <= n && d < n
    && p == Around(Next(secret, n), d, n)
    && (p == secret <==> d + 1 == n)
    && k == if d == 0 then secret + 2 else Next(p, n)
  }

  method StepIndex(ghost secret: nat, n: nat, k: nat, ghost d: nat, ghost p: nat) returns (i: nat, k1: nat)
    requires Counts(secret, n, k, d, p) && k != Next(secret, n)
    ensures p != secret && d + 1 < n && i == Next(p, n) && Before(i, n) == p
    ensures Counts(secret, n, k1, d + 1, i)
  {
    i := Mod(k, n);
    k1 := Mod(k + 1, n);
  }

  // The walk of the signer, from behind its own row round to it. challenges[j] is the
  // challenge at position j.
  method WalkRing<F, P>(e: Env<F, P>, g: Ring<F, P>, secret: nat, first: F) returns (challenges: seq<F>)
    requires secret < |g.r| == |g.rows| && |g.r| >= 2
    requires forall i :: 0 <= i < |g.r| && i != secret ==> |g.images| <= |g.rows[i].keys| <= |g.r[i]|
    ensures |challenges| == |g.r|
    ensures challenges[Next(secret, |g.r|)] == first
    ensures Chained(e, g, Next(secret, |g.r|), |g.r| - 1, challenges)
  {
    var numUsers := |g.r|;
    challenges := Repeat(e.f.zero, numUsers);
    var start := Mod(secret + 1, numUsers);
    challenges := challenges[start := first];
    var prev, k: nat := first, secret + 2;
    ghost var d: nat, p: nat := 0, start;
    WalkStart(e, g, secret, first, challenges);
    while k != start
      invariant Walking(e, g, secret, first, challenges, prev, k, d, p)
      decreases numUsers - d
    {
      challenges, prev, k := WalkOneStep(e, g, secret, first, challenges, prev, k, d, p);
      d, p := d + 1, Next(p, numUsers);
    }
  }

  // The challenges from behind the signer's row up to position p, d steps on, are in place.
  ghost predicate Walking<F, P>(e: Env<F, P>, g: Ring<F, P>, secret: nat, first: F, challenges: seq<F>, prev: F, k: nat,
                                d: nat, p: nat)
  {
    var n := |g.r|;
    && Counts(secret, n, k, d, p) && |challenges| == n
    && challenges[Next(secret, n)] == first && challenges[p] == prev
    && Chained(e, g, Next(secret, n), d, challenges)
  }

  lemma WalkStart<F, P>(e: Env<F, P>, g: Ring<F, P>, secret: nat, first: F, challenges: seq<F>)
    requires secret < |g.r| == |challenges| && |g.r| >= 2 && challenges[Next(secret, |g.r|)] == first
    ensures Walking(e, g, secret, first, challenges, first, secret + 2, 0, Next(secret, |g.r|))
  {
  }

  method WalkOneStep<F, P>(e: Env<F, P>, g: Ring<F, P>, ghost secret: nat, ghost first: F, challenges: seq<F>, prev: F,
                           k: nat, ghost d: nat, ghost p: nat)
    returns (challenges1: seq<F>, prev1: F, k1: nat)
    requires Walking(e, g, secret, first, challenges, prev, k, d, p) && |g.r| == |g.rows| && k != Next(secret, |g.r|)
    requires forall i :: 0 <= i < |g.r| && i != secret ==> |g.images| <= |g.rows[i].keys| <= |g.r[i]|
    ensures d + 1 < |g.r| && Walking(e, g, secret, first, challenges1, prev1, k1, d + 1, Next(p, |g.r|))
  {
    var i;
    i, k1 := StepIndex(secret, |g.r|, k, d, p);
    prev1 := ChallengeAt(e, g, i, prev);
    challenges1 := challenges[i := prev1];
    ChainOn(e, g, Next(secret, |g.r|), d, challenges, p);
  }

  // With the real responses in place, the chain closes.
  lemma ChainCloses<F(!new), P(!new)>(e: Env<F, P>, g: Ring<F, P>, secret: nat, cs: seq<F>, priv: seq<F>,
                                      nonces: seq<F>)
    requires IsModule(e.f, e.m)
    requires secret < |g.r| == |g.rows| && |g.images| <= |priv| == |nonces|
    requires g.images == KeyImages(e, priv)[..|g.images|]
    requires g.rows[secret].keys == PublicKeys(e, priv)
    requires Chained(e, g, Next(secret, |g.r|), |g.r| - 1, cs)
    requires cs[Next(secret, |g.r|)] == FirstChallenge(e, g.msg, nonces, PublicKeys(e, priv), |g.images|)
    ensures Closed(e, g.(r := g.r[secret := RealResponse(e, priv, nonces, cs[secret])]), cs)
  {
    var g1 := g.(r := g.r[secret := RealResponse(e, priv, nonces, cs[secret])]);
    RealResponseCloses(e, g.msg, priv, nonces, g.images, cs[secret]);
    forall i | 0 <= i < |cs| ensures cs[Next(i, |cs|)] == Link(e, g1, i, cs[i]) {
      if i != secret {
        assert Since(Next(secret, |cs|), i, |cs|) < |cs| - 1;
        assert Link(e, g1, i, cs[i]) == Link(e, g, i, cs[i]);
      }
    }
  }

  method CalculateKeyImages<F, P>(e: Env<F, P>, priv: seq<F>, keys: seq<P>, skipLast: bool) returns (images: seq<P>)
    requires keys == PublicKeys(e, priv)
    requires skipLast ==> |priv| > 0
    ensures images == KeyImages(e, priv)[..if skipLast then |priv| - 1 else |priv|]
  {
    images := [];
    for i := 0 to |priv|
      invariant images == KeyImages(e, priv)[..i]
    {
      images := images + [e.m.Scale(priv[i], e.HashToPoint(keys[i]))];
    }
    if skipLast {
      images := images[..|images| - 1];
    }
  }

  method RealResponses<F, P>(e: Env<F, P>, priv: seq<F>, nonces: seq<F>, challenge: F) returns (r: seq<F>)
    requires |priv| == |nonces|
    ensures r == RealResponse(e, priv, nonces, challenge)
  {
    r := [];
    for i := 0 to |priv|
      invariant r == RealResponse(e, priv, nonces, challenge)[..i]
    {
      r := r + [e.f.Add(e.f.Neg(e.f.Mul(challenge, priv[i])), nonces[i])];
    }
  }

  // The chain of challenges and the responses, once the rows are in place.
  method Sign<F(!new), P(!new)>(e: Env<F, P>, msg: Bytes, rows: seq<Row<P>>, index: nat, priv: seq<F>, images: seq<P>,
                                nonces: seq<F>, rand: seq<seq<F>>) returns (sig: Signature<F, P>, ghost cs: seq<F>)
    requires IsModule(e.f, e.m) && |rows| >= 2 && index < |rows| && rows[index].keys == PublicKeys(e, priv)
    requires forall i :: 0 <= i < |rows| ==> |rows[i].keys| == |priv|
    requires |images| <= |priv| && images == KeyImages(e, priv)[..|images|]
    requires |nonces| == |priv| && |rand| == |rows| && forall i :: 0 <= i < |rows| ==> |rand[i]| == |priv|
    ensures sig.pubKeys == rows && sig.msg == msg && |sig.r| == |rows|
    ensures forall i :: 0 <= i < |rows| ==> |sig.r[i]| == |priv|
    ensures Closed(e, RingOf(sig, images), cs) && cs[0] == sig.c
  {
    var responses := GenerateResponses(|rows|, |priv|, index, rand);
    var first := GenerateFirstChallenge(e, msg, nonces, rows[index].keys, images);
    var g := Ring(msg, responses, rows, images);
    var challenges := WalkRing(e, g, index, first);
    ChainCloses(e, g, index, challenges, priv, nonces);
    var realResponse := RealResponses(e, priv, nonces, challenges[index]);
    responses := responses[index := realResponse];
    sig := Signature(challenges[0], responses, rows, msg);
    cs := challenges;
  }

  // What Verify looks for, short of there being a key image at all.
  ghost predicate Accepted<F, P>(e: Env<F, P>, sig: Signature<F, P>, images: seq<P>) {
    && 2 <= |sig.r| <= |sig.pubKeys|
    && (forall i :: 0 <= i < |sig.r| ==> |images| <= |sig.pubKeys[i].keys| <= |sig.r[i]|)
    && Walk(e, RingOf(sig, images), 0, sig.c, |sig.r|) == sig.c
  }

  method SignRows<F(!new), P(!new)>(e: Env<F, P>, msg: Bytes, rows: seq<Row<P>>, index: nat, priv: seq<F>,
                                    images: seq<P>, nonces: seq<F>, rand: seq<seq<F>>)
    returns (sig: Signature<F, P>)
    requires IsModule(e.f, e.m) && |rows| >= 2 && index < |rows| && rows[index].keys == PublicKeys(e, priv)
    requires forall row :: row in rows ==> |row.keys| == |priv|
    requires |images| <= |priv| && images == KeyImages(e, priv)[..|images|]
    requires |nonces| == |priv| && |rand| == |rows| && forall i :: 0 <= i < |rows| ==> |rand[i]| == |priv|
    ensures sig.pubKeys == rows && sig.msg == msg && Accepted(e, sig, images)
  {
    ghost var cs;
    sig, cs := Sign(e, msg, rows, index, priv, images, nonces, rand);
    WalkCloses(e, RingOf(sig, images), sig.c);
  }

  // ---------- The state of the signer ----------

  class Proof<F(==, !new), P(==, !new)> {
    var index: nat
    var privKeys: seq<F>
    var signerKeys: seq<P>
    var matrix: seq<Row<P>>
    var msg: Bytes

    constructor (msg: Bytes)
      ensures this.msg == msg && privKeys == [] && signerKeys == [] && matrix == []
    {
      this.msg := msg;
      index, privKeys, signerKeys, matrix := 0, [], [], [];
    }

    ghost predicate Valid(e: Env<F, P>)
      reads this
    {
      signerKeys == PublicKeys(e, privKeys)
    }

    method AddDecoy(keys: seq<P>)
      modifies this`matrix
      ensures matrix == old(matrix) + [Row(true, keys)]
    {
      matrix := matrix + [Row(true, keys)];
    }

    method AddSecret(e: Env<F, P>, priv: F)
      requires Valid(e)
      modifies this`privKeys, this`signerKeys
      ensures Valid(e) && privKeys == old(privKeys) + [priv]
    {
      signerKeys := signerKeys + [e.m.Scale(priv, e.base)];
      privKeys := privKeys + [priv];
    }

    // Shuffle with the choices that the random numbers make, and look for the signer's row.
    method ShuffleSet(choices: seq<nat>) returns (ok: bool)
      requires |choices| == |matrix| && forall i :: 0 <= i < |choices| ==> choices[i] <= i
      modifies this`matrix, this`index
      ensures |matrix| == old(|matrix|) && multiset(matrix) == multiset(old(matrix))
      ensures ok <==> exists i :: 0 <= i < |matrix| && !matrix[i].decoy
      ensures ok ==> index < |matrix| && !matrix[index].decoy
    {
      var i := |matrix| - 1;
      while i > 0
        invariant |matrix| == old(|matrix|) && i < |matrix| && multiset(matrix) == multiset(old(matrix))
      {
        var j := choices[i];
        matrix := matrix[i := matrix[j]][j := matrix[i]];
        i := i - 1;
      }
      for k := 0 to |matrix|
        invariant forall j :: 0 <= j < k ==> matrix[j].decoy
      {
        if !matrix[k].decoy {
          index := k;
          return true;
        }
      }
      return false;
    }

    // The signer's row is put among the decoys.
    method PlaceSigner(choices: seq<nat>)
      requires |choices| == |matrix| + 1 && forall i :: 0 <= i < |choices| ==> choices[i] <= i
      requires forall row :: row in matrix ==> row.decoy
      modifies this`matrix, this`index
      ensures multiset(matrix) == multiset(old(matrix)) + multiset{Row(false, signerKeys)}
      ensures |matrix| == |old(matrix)| + 1
      ensures index < |matrix| && matrix[index] == Row(false, signerKeys)
      ensures forall row :: row in matrix <==> row in old(matrix) || row == Row(false, signerKeys)
    {
      ghost var decoys := matrix;
      matrix := matrix + [Row(false, signerKeys)];
      var found := ShuffleSet(choices);
      TheSigner(decoys, Row(false, signerKeys), matrix);
    }

    // The randomness: the choices of the shuffle, the nonces and the made-up responses.
    method Prove(e: Env<F, P>, skipLast: bool, choices: seq<nat>, nonces: seq<F>, rand: seq<seq<F>>)
      returns (r: Result<(Signature<F, P>, seq<P>)>)
      requires IsModule(e.f, e.m) && Valid(e)
      requires |matrix| > 0 && (forall row :: row in matrix ==> row.decoy) && (skipLast ==> |privKeys| > 0)
      requires |choices| == |matrix| + 1 && forall i :: 0 <= i < |choices| ==> choices[i] <= i
      requires |nonces| == |privKeys| && |rand| == |matrix| + 1
      requires forall i :: 0 <= i < |rand| ==> |rand[i]| == |privKeys|
      modifies this`matrix, this`index
      ensures multiset(matrix) == multiset(old(matrix)) + multiset{Row(false, signerKeys)}
      ensures r.Ok? <==> forall row :: row in old(matrix) ==> |row.keys| == |privKeys|
      ensures r.Ok? ==> var (sig, images) := r.value;
        && sig.pubKeys == matrix && sig.msg == msg
        && images == KeyImages(e, privKeys)[..if skipLast then |privKeys| - 1 else |privKeys|]
        && Accepted(e, sig, images)
    {
      PlaceSigner(choices);
      var same := SameLengths(matrix, |privKeys|);
      if !same {
        return Err;
      }
      var images := CalculateKeyImages(e, privKeys, signerKeys, skipLast);
      var sig := SignRows(e, msg, matrix, index, privKeys, images, nonces, rand);
      r := Ok((sig, images));
    }
  }

  // In a shuffled matrix the row that is no decoy is the signer's.
  lemma TheSigner<P>(decoys: seq<Row<P>>, signer: Row<P>, rows: seq<Row<P>>)
    requires multiset(rows) == multiset(decoys + [signer]) && !signer.decoy && forall row :: row in decoys ==> row.decoy
    ensures exists i :: 0 <= i < |rows| && !rows[i].decoy
    ensures forall i :: 0 <= i < |rows| && !rows[i].decoy ==> rows[i] == signer
    ensures forall row :: row in rows <==> row in decoys || row == signer
  {
    forall row ensures row in rows <==> row in decoys || row == signer {
      assert row in multiset(rows) <==> row in multiset(decoys + [signer]);
    }
    assert signer in rows;
    forall i | 0 <= i < |rows| && !rows[i].decoy ensures rows[i] == signer {
      assert rows[i] in rows;
    }
  }

  method SameLengths<P>(rows: seq<Row<P>>, len: nat) returns (ok: bool)
    ensures ok <==> forall row :: row in rows ==> |row.keys| == len
  {
    for i := 0 to |rows|
      invariant forall j :: 0 <= j < i ==> |rows[j].keys| == len
    {
      if |rows[i].keys| != len {
        return false;
      }
    }
    return true;
  }

  // Completeness: Verify accepts every signature that Prove makes, unless there is no key image.
  method ProveThenVerify<F(==, !new), P(==, !new)>(e: Env<F, P>, proof: Proof<F, P>, skipLast: bool, choices: seq<nat>,
                                                   nonces: seq<F>, rand: seq<seq<F>>)
    returns (made: bool, ok: bool)
    requires IsModule(e.f, e.m) && proof.Valid(e)
    requires |proof.matrix| > 0 && (skipLast ==> |proof.privKeys| > 0)
    requires forall row :: row in proof.matrix ==> row.decoy
    requires |choices| == |proof.matrix| + 1 && forall i :: 0 <= i < |choices| ==> choices[i] <= i
    requires |nonces| == |proof.privKeys| && |rand| == |proof.matrix| + 1
    requires forall i :: 0 <= i < |rand| ==> |rand[i]| == |proof.privKeys|
    modifies proof`matrix, proof`index
    ensures made <==> forall row :: row in old(proof.matrix) ==> |row.keys| == |proof.privKeys|
    ensures made ==> (ok <==> |proof.privKeys| > if skipLast then 1 else 0)
  {
    var r := proof.Prove(e, skipLast, choices, nonces, rand);
    made, ok := r.Ok?, false;
    if r.Ok? {
      ok := Verify(e, r.value.0, r.value.1);
    }
  }

  // The instance with two keys, the second a commitment to zero: only the first has a key image.
  method DualKeyProve<F(==, !new), P(==, !new)>(e: Env<F, P>, proof: Proof<F, P>, primary: F, commToZero: F,
                                                choices: seq<nat>, nonces: seq<F>, rand: seq<seq<F>>)
    returns (r: Result<(Signature<F, P>, P)>)
    requires IsModule(e.f, e.m) && proof.Valid(e) && proof.privKeys == []
    requires |proof.matrix| > 0 && forall row :: row in proof.matrix ==> row.decoy
    requires |choices| == |proof.matrix| + 1 && forall i :: 0 <= i < |choices| ==> choices[i] <= i
    requires |nonces| == 2 && |rand| == |proof.matrix| + 1 && forall i :: 0 <= i < |rand| ==> |rand[i]| == 2
    modifies proof
    ensures r.Ok? <==>
      && primary != e.f.zero && commToZero != e.f.zero
      && forall row :: row in old(proof.matrix) ==> |row.keys| == 2
    ensures r.Ok? ==> r.value.1 == KeyImage(e, primary) && Accepted(e, r.value.0, [r.value.1])
  {
    if primary == e.f.zero || commToZero == e.f.zero {
      return Err;
    }
    proof.AddSecret(e, primary);
    proof.AddSecret(e, commToZero);
    var sig := proof.Prove(e, true, choices, nonces, rand);
    if sig.Err? || |sig.value.1| != 1 {
      return Err;
    }
    assert sig.value.1 == [sig.value.1[0]];
    r := Ok((sig.value.0, sig.value.1[0]));
  }
}
