/**
BLS multi-signatures over an abstract bilinear group, written additively. Public keys and
signatures are weighted with a hash of the public key before they are added up.
*/
module Bls {
  import opened Algebra
  import opened Outcome
  import opened Sequences

  // What a vote signs.
  datatype Signable = Signable(round: nat, step: nat, hash: seq<int>)

  // Signatures are in A, public keys in B, and pairings in T. Keys are numbers, the values of
  // their bytes, and pkOf fails on bytes that are not a point.
  datatype Scheme<!F, !A, !B, !T> = Scheme(
    f: Field<F>, g1: Points<F, A>, g2: Points<F, B>, gt: Points<F, T>,
    pairing: ((A, B)) -> T,
    hashToG1: Signable -> A,
    hashToScalar: B -> F,
    pkOf: nat -> Result<B>,
    base: B)
  {
    function Pair(x: A, y: B): T {
      pairing((x, y))
    }

    // The public key with its weight.
    function Weighted(pk: B): B {
      g2.Scale(hashToScalar(pk), pk)
    }
  }

  ghost predicate IsScheme<F(!new), A(!new), B(!new), T(!new)>(e: Scheme<F, A, B, T>) {
    && IsModule(e.f, e.g1) && IsModule(e.f, e.g2) && IsModule(e.f, e.gt)
    && (forall x, y, z {:trigger At(x), At(y), At(z)} ::
          e.Pair(e.g1.Add(x, y), z) == e.gt.Add(e.Pair(x, z), e.Pair(y, z)))
    && (forall x, y, z {:trigger At(x), At(y), At(z)} ::
          e.Pair(x, e.g2.Add(y, z)) == e.gt.Add(e.Pair(x, y), e.Pair(x, z)))
    && (forall k, x, y {:trigger At(k), At(x), At(y)} :: e.Pair(e.g1.Scale(k, x), y) == e.Pair(x, e.g2.Scale(k, y)))
  }

  // One signature against one aggregated key.
  predicate Verifies<F, A, B, T(==)>(e: Scheme<F, A, B, T>, apk: B, msg: Signable, sig: A) {
    e.Pair(e.hashToG1(msg), apk) == e.Pair(sig, e.base)
  }

  // The signature of msg under the secret x, with the weight of its key.
  function Sign<F, A, B, T>(e: Scheme<F, A, B, T>, x: F, pk: B, msg: Signable): A {
    e.g1.Scale(e.hashToScalar(pk), e.g1.Scale(x, e.hashToG1(msg)))
  }

  lemma PairMoves<F(!new), A(!new), B(!new), T(!new)>(e: Scheme<F, A, B, T>, k: F, x: A, y: B)
    requires IsScheme(e)
    ensures e.Pair(e.g1.Scale(k, x), y) == e.Pair(x, e.g2.Scale(k, y))
  {
    assert At(k) && At(x) && At(y);
  }

  lemma PairLeft<F(!new), A(!new), B(!new), T(!new)>(e: Scheme<F, A, B, T>, x: A, y: A, z: B)
    requires IsScheme(e)
    ensures e.Pair(e.g1.Add(x, y), z) == e.gt.Add(e.Pair(x, z), e.Pair(y, z))
  {
    assert At(x) && At(y) && At(z);
  }

  lemma PairRight<F(!new), A(!new), B(!new), T(!new)>(e: Scheme<F, A, B, T>, x: A, y: B, z: B)
    requires IsScheme(e)
    ensures e.Pair(x, e.g2.Add(y, z)) == e.gt.Add(e.Pair(x, y), e.Pair(x, z))
  {
    assert At(x) && At(y) && At(z);
  }

  // A signature made with the secret key verifies against the weighted public key.
  lemma SignVerifies<F(!new), A(!new), B(!new), T(!new)>(e: Scheme<F, A, B, T>, x: F, msg: Signable)
    requires IsScheme(e)
    ensures var pk := e.g2.Scale(x, e.base); Verifies(e, e.Weighted(pk), msg, Sign(e, x, pk, msg))
  {
    var pk := e.g2.Scale(x, e.base);
    var t, h := e.hashToScalar(pk), e.hashToG1(msg);
    PairMoves(e, t, e.g1.Scale(x, h), e.base);
    PairMoves(e, x, h, e.g2.Scale(t, e.base));
    ScaleMul(e.f, e.g2, t, x, e.base);
    ScaleMul(e.f, e.g2, x, t, e.base);
    MulComm(e.f, t, x);
  }

  // ---------- Sums of keys ----------

  ghost predicate Decodes<F, A, B, T>(e: Scheme<F, A, B, T>, keys: seq<nat>) {
    forall i :: 0 <= i < |keys| ==> e.pkOf(keys[i]).Ok?
  }

  // The aggregated key of the first n keys.
  function ApkTo<F, A, B, T>(e: Scheme<F, A, B, T>, keys: seq<nat>, n: nat): B
    requires n <= |keys|
  {
    if n == 0 then e.g2.zero
    else if e.pkOf(keys[n - 1]).Err? then ApkTo(e, keys, n - 1)
    else e.g2.Add(ApkTo(e, keys, n - 1), e.Weighted(e.pkOf(keys[n - 1]).value))
  }

  function Apk<F, A, B, T>(e: Scheme<F, A, B, T>, keys: seq<nat>): B {
    ApkTo(e, keys, |keys|)
  }

  // ReconstructApk: the keys are added up in the order they come.
  method ReconstructApk<F(!new), A(!new), B(!new), T(!new)>(
      e: Scheme<F, A, B, T>, keys: seq<nat>)
    returns (r: Result<B>)
    requires IsScheme(e)
    ensures r == if |keys| == 0 || !Decodes(e, keys) then Err else Ok(Apk(e, keys))
  {
    if |keys| == 0 {
      return Err;
    }
    var apk := e.g2.zero;
    for i := 0 to |keys|
      invariant forall j :: 0 <= j < i ==> e.pkOf(keys[j]).Ok?
      invariant apk == ApkTo(e, keys, i)
    {
      var pk := e.pkOf(keys[i]);
      if pk.Err? {
        return Err;
      }
      if i == 0 {
        ZeroFirst(e.f, e.g2, e.Weighted(pk.value));
        apk := e.Weighted(pk.value);
      } else {
        apk := e.g2.Add(apk, e.Weighted(pk.value));
      }
    }
    r := Ok(apk);
  }

  lemma ZeroFirst<F(!new), P(!new)>(f: Field<F>, m: Points<F, P>, x: P)
    requires IsModule(f, m)
    ensures m.Add(m.zero, x) == x
  {
    AddComm(f, m, m.zero, x);
    AddZero(f, m, x);
  }

  // Taking one key out takes its weight out.
  lemma {:induction false} ApkWithout<F(!new), A(!new), B(!new), T(!new)>(
      e: Scheme<F, A, B, T>, keys: seq<nat>, j: nat, n: nat)
    requires IsScheme(e) && Decodes(e, keys) && j < n <= |keys|
    ensures ApkTo(e, keys, n)
         == e.g2.Add(ApkTo(e, keys[..j] + keys[j + 1..], n - 1), e.Weighted(e.pkOf(keys[j]).value))
    decreases n
  {
    var rest := keys[..j] + keys[j + 1..];
    if n == j + 1 {
      ApkLocal(e, keys, rest, j);
    } else {
      ApkWithout(e, keys, j, n - 1);
      var x, y := e.Weighted(e.pkOf(keys[j]).value), e.Weighted(e.pkOf(keys[n - 1]).value);
      assert rest[n - 2] == keys[n - 1];
      var s := ApkTo(e, rest, n - 2);
      assert ApkTo(e, rest, n - 1) == e.g2.Add(s, y);
      assert ApkTo(e, keys, n) == e.g2.Add(e.g2.Add(s, x), y);
      SwapLast(e.f, e.g2, s, x, y);
    }
  }

  lemma {:induction false} ApkLocal<F, A, B, T>(e: Scheme<F, A, B, T>, a: seq<nat>, b: seq<nat>, n: nat)
    requires n <= |a| && n <= |b| && forall i :: 0 <= i < n ==> a[i] == b[i]
    ensures ApkTo(e, a, n) == ApkTo(e, b, n)
    decreases n
  {
    if n > 0 {
      ApkLocal(e, a, b, n - 1);
    }
  }

  ghost predicate SameKeys(a: seq<nat>, b: seq<nat>) {
    forall k :: k in a <==> k in b
  }

  // The order of the keys does not matter.
  lemma {:induction false} ApkReordered<F(!new), A(!new), B(!new), T(!new)>(
      e: Scheme<F, A, B, T>, a: seq<nat>, b: seq<nat>)
    requires IsScheme(e) && Decodes(e, a) && Decodes(e, b) && Distinct(a) && Distinct(b) && SameKeys(a, b)
    ensures Apk(e, a) == Apk(e, b)
    decreases |a|
  {
    assert |b| > 0 ==> b[0] in b;
    if |a| > 0 {
      var n := |a| - 1;
      assert a[n] in a;
      var j :| 0 <= j < |b| && b[j] == a[n];
      var a1, b1 := a[..n], b[..j] + b[j + 1..];
      SameButOne(a, b, j, a1, b1);
      assert Decodes(e, b1);
      ApkReordered(e, a1, b1);
      ApkLocal(e, a, a1, n);
      ApkWithout(e, b, j, |b|);
      assert |b1| == |b| - 1;
    }
  }

  lemma SameButOne(a: seq<nat>, b: seq<nat>, j: nat, a1: seq<nat>, b1: seq<nat>)
    requires Distinct(a) && Distinct(b) && SameKeys(a, b) && |a| > 0 && j < |b| && b[j] == a[|a| - 1]
    requires a1 == a[..|a| - 1] && b1 == b[..j] + b[j + 1..]
    ensures Distinct(a1) && Distinct(b1) && SameKeys(a1, b1)
  {
    var n := |a| - 1;
    forall k ensures k in a1 <==> k in b1 {
      assert k in a1 <==> k in a && k != a[n];
      if k in b && k != b[j] {
        var i :| 0 <= i < |b| && b[i] == k;
        assert b1[if i < j then i else i - 1] == k;
      }
    }
  }
}
