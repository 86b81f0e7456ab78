/**
Sorted sets of keys, and their subsets as 64-bit words. Keys are natural numbers, the values
of the big-endian byte strings that the set is asked for.
*/
module SortedSet {
  import opened Bits

  const WORD_SIZE: nat := 64

  const ALL: nat := Pow2(WORD_SIZE) - 1

  ghost predicate Sorted(s: seq<nat>) {
    forall i, j :: 0 <= i < j < |s| ==> s[i] < s[j]
  }

  // ---------- Search ----------

  // The first position whose key is not below k. The flag is set by the probes on the way.
  method IndexOf(s: seq<nat>, k: nat) returns (i: nat, found: bool)
    requires Sorted(s)
    ensures i <= |s| && (forall j :: 0 <= j < i ==> s[j] < k) && (forall j :: i <= j < |s| ==> s[j] >= k)
    ensures found <==> k in s
    ensures found ==> i < |s| && s[i] == k
  {
    i, found := 0, false;
    var j := |s|;
    while i < j
      invariant i <= j <= |s|
      invariant forall p :: 0 <= p < i ==> s[p] < k
      invariant forall p :: j <= p < |s| ==> s[p] >= k
      invariant found <==> j < |s| && s[j] == k
    {
      var h := (i + j) / 2;
      if s[h] == k {
        found := true;
      }
      if s[h] >= k {
        j := h;
      } else {
        i := h + 1;
      }
    }
  }

  // ---------- Insert and remove ----------

  ghost predicate IsInserted(s: seq<nat>, k: nat, r: seq<nat>) {
    Sorted(r) && forall x :: x in r <==> x in s || x == k
  }

  ghost predicate IsRemoved(s: seq<nat>, k: nat, r: seq<nat>) {
    Sorted(r) && forall x :: x in r <==> x in s && x != k
  }

  // A sorted sequence is determined by its elements.
  lemma {:induction false} SortedUnique(a: seq<nat>, b: seq<nat>)
    requires Sorted(a) && Sorted(b) && forall x :: x in a <==> x in b
    ensures a == b
    decreases |a|
  {
    assert (|a| > 0 ==> a[0] in a) && (|b| > 0 ==> b[0] in b);
    if |a| > 0 {
      assert a[0] in b && b[0] in a;
      assert a[0] == b[0];
      forall x ensures x in a[1..] <==> x in b[1..] {
        assert x in a[1..] <==> x in a && x != a[0];
        assert x in b[1..] <==> x in b && x != b[0];
      }
      SortedUnique(a[1..], b[1..]);
      assert a == [a[0]] + a[1..] && b == [b[0]] + b[1..];
    }
  }

  // Insert and Remove splice the sequence at the position that the search finds.
  method InsertInto(s: seq<nat>, k: nat) returns (ok: bool, r: seq<nat>)
    requires Sorted(s)
    ensures ok <==> k !in s
    ensures IsInserted(s, k, r) && |r| == |s| + if ok then 1 else 0
  {
    var i, found := IndexOf(s, k);
    if found {
      return false, s;
    }
    r := s[..i] + ([k] + s[i..]);
    ok := true;
  }

  method RemoveFrom(s: seq<nat>, k: nat) returns (ok: bool, r: seq<nat>)
    requires Sorted(s)
    ensures ok <==> k in s
    ensures IsRemoved(s, k, r) && |r| == |s| - if ok then 1 else 0
  {
    var i, found := IndexOf(s, k);
    if found {
      RemoveAt(s, i);
      return true, s[..i] + s[i + 1..];
    }
    return false, s;
  }

  lemma RemoveAt(s: seq<nat>, i: nat)
    requires Sorted(s) && i < |s|
    ensures IsRemoved(s, s[i], s[..i] + s[i + 1..])
  {
    var r := s[..i] + s[i + 1..];
    forall x ensures x in r <==> x in s && x != s[i] {
      if x in s && x != s[i] {
        var j :| 0 <= j < |s| && s[j] == x;
        assert r[if j < i then j else j - 1] == x;
      }
    }
  }

  // ---------- Subsets as words ----------

  // 1 << i in 64 bits
  function Shifted(i: nat): (r: nat)
    ensures r <= ALL
  {
    if i < WORD_SIZE then Grows(i, WORD_SIZE - 1); Pow2(i) else 0
  }

  lemma BitShifted(i: nat, j: nat)
    ensures Bit(Shifted(i), j) <==> i == j < WORD_SIZE
  {
    BitPow2(i, j);
    BitZero(j);
  }

  // The word with a bit for every key.
  method Whole(v: seq<nat>) returns (ret: nat)
    ensures forall i: nat :: Bit(ret, i) <==> i < |v| && i < WORD_SIZE
  {
    ret := 0;
    forall i: nat ensures !Bit(ret, i) {
      BitZero(i);
    }
    for k := 0 to |v|
      invariant forall i: nat :: Bit(ret, i) <==> i < k && i < WORD_SIZE
    {
      forall i: nat ensures Bit(Or(ret, Shifted(k)), i) <==> i < k + 1 && i < WORD_SIZE {
        BitOr(ret, Shifted(k), i);
        BitShifted(k, i);
      }
      ret := Or(ret, Shifted(k));
    }
  }

  // How many keys of the subset are found, up to the first one that is missing.
  function Known(v: seq<nat>, subset: seq<nat>): (n: nat)
    ensures n <= |subset|
    ensures forall j :: 0 <= j < n ==> subset[j] in v
    ensures n < |subset| ==> subset[n] !in v
  {
    if |subset| == 0 || subset[0] !in v then 0 else 1 + Known(v, subset[1..])
  }

  lemma KnownIs(v: seq<nat>, subset: seq<nat>, n: nat)
    requires n <= |subset| && (forall j :: 0 <= j < n ==> subset[j] in v) && (n < |subset| ==> subset[n] !in v)
    ensures Known(v, subset) == n
  {
  }

  // The bits are those of the first n positions that hold a key of the subset.
  ghost predicate Marks(v: seq<nat>, subset: seq<nat>, n: nat, b: nat)
    requires n <= |v|
  {
    forall i: nat :: Bit(b, i) <==> i < n && i < WORD_SIZE && v[i] in subset
  }

  lemma MarkNext(v: seq<nat>, subset: seq<nat>, p: nat, n: nat, b: nat)
    requires n < |v| && p < |subset| && Marks(v, subset[..p], n, b) && v[n] == subset[p]
    requires forall j :: 0 <= j < n ==> v[j] != subset[p]
    ensures Marks(v, subset[..p + 1], n + 1, Or(b, Shifted(n)))
  {
    forall i: nat ensures Bit(Or(b, Shifted(n)), i) <==> i < n + 1 && i < WORD_SIZE && v[i] in subset[..p + 1] {
      BitOr(b, Shifted(n), i);
      BitShifted(n, i);
      assert subset[..p + 1] == subset[..p] + [subset[p]];
    }
  }

  lemma MarkNone(v: seq<nat>, subset: seq<nat>, n: nat, b: nat)
    requires n < |v| && Sorted(v) && Marks(v, subset, n, b) && forall j :: 0 <= j < |subset| ==> subset[j] in v[..n]
    ensures Marks(v, subset, n + 1, b)
  {
    assert v[n] !in v[..n];
  }

  // Once all keys of the subset are behind, no further bits are set.
  lemma MarksRest(v: seq<nat>, subset: seq<nat>, n: nat, b: nat)
    requires n <= |v| && Marks(v, subset, n, b) && forall i :: n <= i < |v| ==> v[i] !in subset
    ensures Marks(v, subset, |v|, b)
  {
  }

  // The first p keys of the subset have been found among the first i keys, and marked; the next
  // one has not come up yet.
  ghost predicate Walking(v: seq<nat>, subset: seq<nat>, p: nat, i: nat, b: nat) {
    && i <= |v| && p < |subset|
    && (forall j :: 0 <= j < p ==> subset[j] in v[..i])
    && (forall j :: 0 <= j < i ==> v[j] != subset[p])
    && Marks(v, subset[..p], i, b)
  }

  lemma WalkHit(v: seq<nat>, subset: seq<nat>, p: nat, i: nat, b: nat)
    requires Sorted(v) && Sorted(subset) && Walking(v, subset, p, i, b) && i < |v| && v[i] == subset[p]
    ensures Marks(v, subset[..p + 1], i + 1, Or(b, Shifted(i)))
    ensures p + 1 < |subset| ==> Walking(v, subset, p + 1, i + 1, Or(b, Shifted(i)))
    ensures forall j :: 0 <= j < p + 1 ==> subset[j] in v
  {
    MarkNext(v, subset, p, i, b);
    assert v[..i + 1] == v[..i] + [v[i]];
    forall j | 0 <= j < p + 1 ensures subset[j] in v[..i + 1] && subset[j] in v {
    }
    if p + 1 < |subset| {
      forall j | 0 <= j < i + 1 ensures v[j] != subset[p + 1] {
        assert v[j] <= v[i] < subset[p + 1];
      }
    }
  }

  lemma WalkMiss(v: seq<nat>, subset: seq<nat>, p: nat, i: nat, b: nat)
    requires Sorted(v) && Walking(v, subset, p, i, b) && i < |v| && v[i] != subset[p]
    ensures Walking(v, subset, p, i + 1, b)
  {
    MarkNone(v, subset[..p], i, b);
    assert v[..i + 1] == v[..i] + [v[i]];
  }

  // The last key of the subset has been found: nothing behind it is marked.
  lemma WalkDone(v: seq<nat>, subset: seq<nat>, n: nat, b: nat)
    requires Sorted(v) && 0 < n <= |v| && |subset| > 0 && Sorted(subset) && v[n - 1] == subset[|subset| - 1]
    requires Marks(v, subset, n, b) && forall j :: 0 <= j < |subset| ==> subset[j] in v
    ensures Marks(v, subset[..Known(v, subset)], |v|, b)
  {
    KnownIs(v, subset, |subset|);
    assert subset[..|subset|] == subset;
    forall i | n <= i < |v| ensures v[i] !in subset {
      assert forall j :: 0 <= j < |subset| ==> subset[j] <= v[n - 1] < v[i];
    }
    MarksRest(v, subset, n, b);
  }

  // The word of a subset. Both sequences are walked once, side by side.
  method BitsOf(v: seq<nat>, subset: seq<nat>) returns (ret: nat)
    requires Sorted(v) && Sorted(subset)
    ensures Marks(v, subset[..Known(v, subset)], |v|, ret)
  {
    ret := 0;
    forall i: nat ensures !Bit(0, i) {
      BitZero(i);
    }
    if |subset| == 0 {
      return;
    }
    var p := 0;
    for i := 0 to |v|
      invariant Walking(v, subset, p, i, ret)
    {
      if v[i] == subset[p] {
        WalkHit(v, subset, p, i, ret);
        ret := Or(ret, Shifted(i));
        if p + 1 == |subset| {
          assert subset[..p + 1] == subset;
          WalkDone(v, subset, i + 1, ret);
          return;
        }
        p := p + 1;
      } else {
        WalkMiss(v, subset, p, i, ret);
      }
    }
    KnownIs(v, subset, p);
  }

  // The keys of the first n positions whose bit is set.
  function Picked(v: seq<nat>, b: nat, n: nat): (r: seq<nat>)
    requires n <= |v|
    ensures forall x :: x in r ==> x in v[..n]
  {
    if n == 0 then []
    else if Bit(b, n - 1) then assert v[..n] == v[..n - 1] + [v[n - 1]]; Picked(v, b, n - 1) + [v[n - 1]]
    else assert v[..n] == v[..n - 1] + [v[n - 1]]; Picked(v, b, n - 1)
  }

  lemma {:induction false} PickedIs(v: seq<nat>, b: nat, n: nat)
    requires Sorted(v) && n <= |v|
    ensures Sorted(Picked(v, b, n))
    ensures forall i :: 0 <= i < n ==> (v[i] in Picked(v, b, n) <==> Bit(b, i))
  {
    if n > 0 {
      PickedIs(v, b, n - 1);
      var r := Picked(v, b, n - 1);
      forall i | 0 <= i < |r| ensures r[i] < v[n - 1] {
        assert r[i] in v[..n - 1];
      }
      assert v[n - 1] !in r;
    }
  }

  lemma PickedAll(v: seq<nat>, b: nat, n: nat)
    requires n <= |v| && forall i :: 0 <= i < n ==> Bit(b, i)
    ensures Picked(v, b, n) == v[..n]
  {
    if n > 0 {
      PickedAll(v, b, n - 1);
    }
  }

  lemma TestBit(b: nat, i: nat)
    ensures And(Shr(b, i), 1) != 0 <==> Bit(b, i)
  {
    var x := Shr(b, i);
    BitShr(b, i, 0);
    BitAnd(x, 1, 0);
    assert Bit(1, 0);
    if !Bit(b, i) {
      forall j: nat ensures Bit(And(x, 1), j) <==> Bit(0, j) {
        BitAnd(x, 1, j);
        BitZero(j);
        if j > 0 {
          BitZero(j - 1);
        }
      }
      SameBits(And(x, 1), 0);
    }
    BitZero(0);
  }

  lemma AllBits(i: nat)
    ensures Bit(ALL, i) <==> i < WORD_SIZE
  {
    BitAllOnes(WORD_SIZE, i);
  }

  // A word is the whole one, or all ones, exactly when it has all the bits.
  lemma IsAll(b: nat)
    requires forall i: nat :: Bit(b, i) <==> i < WORD_SIZE
    ensures b == ALL
  {
    forall i: nat ensures Bit(b, i) <==> Bit(ALL, i) {
      AllBits(i);
    }
    SameBits(b, ALL);
  }

  // What the shortcuts change: the word of all ones stands for every key, also those that have
  // no bit of their own.
  function Selected(v: seq<nat>, b: nat): seq<nat> {
    if b == ALL && |v| > WORD_SIZE then v else Picked(v, b, |v|)
  }

  method Intersect(v: seq<nat>, b: nat) returns (c: seq<nat>)
    requires b <= ALL
    ensures c == Selected(v, b)
  {
    var whole := Whole(v);
    if b == ALL || b == whole {
      ShortcutAgrees(v, b, whole);
      return v;
    }
    c := [];
    for i := 0 to |v|
      invariant c == Picked(v, b, i)
    {
      TestBit(b, i);
      if And(Shr(b, i), 1) != 0 {
        c := c + [v[i]];
      }
    }
  }

  lemma ShortcutAgrees(v: seq<nat>, b: nat, whole: nat)
    requires forall i: nat :: Bit(whole, i) <==> i < |v| && i < WORD_SIZE
    requires b == ALL || b == whole
    ensures Selected(v, b) == v
  {
    if |v| > WORD_SIZE {
      IsAll(whole);
    } else {
      forall i | 0 <= i < |v| ensures Bit(b, i) {
        AllBits(i);
      }
      PickedAll(v, b, |v|);
      assert v[..|v|] == v;
    }
  }

  // ---------- Round trips ----------

  // The keys from position 64 on are not in the subset.
  ghost predicate FitsWord(v: seq<nat>, subset: seq<nat>) {
    forall i :: WORD_SIZE <= i < |v| ==> v[i] !in subset
  }

  // The keys at the first 64 positions are all in the subset.
  ghost predicate FillsWord(v: seq<nat>, subset: seq<nat>) {
    forall i :: 0 <= i < WORD_SIZE && i < |v| ==> v[i] in subset
  }

  ghost predicate Subset(s: seq<nat>, v: seq<nat>) {
    forall x :: x in s ==> x in v
  }

  // Packing a subset and unpacking it gives the subset back, for every committee of at most 64
  // keys; a larger committee keeps it exactly when no key is behind the word and the word is
  // not full, or when the subset is everything.
  lemma PackUnpack(v: seq<nat>, subset: seq<nat>, b: nat)
    requires Sorted(v) && Sorted(subset) && Subset(subset, v) && Marks(v, subset, |v|, b)
    ensures |v| <= WORD_SIZE ==> Selected(v, b) == subset
    ensures Selected(v, b) == subset
       <==> subset == v || (FitsWord(v, subset) && (|v| > WORD_SIZE ==> !FillsWord(v, subset)))
  {
    PickedIs(v, b, |v|);
    var r := Picked(v, b, |v|);
    assert v[..|v|] == v;
    if FitsWord(v, subset) {
      forall x ensures x in r <==> x in subset {
        if x in v {
          var i :| 0 <= i < |v| && v[i] == x;
          assert x in r <==> Bit(b, i);
        }
      }
      SortedUnique(r, subset);
    }
    if |v| > WORD_SIZE {
      FullWord(v, subset, b);
    }
  }

  lemma FullWord(v: seq<nat>, subset: seq<nat>, b: nat)
    requires Marks(v, subset, |v|, b) && |v| > WORD_SIZE
    ensures b == ALL <==> FillsWord(v, subset)
  {
    if FillsWord(v, subset) {
      IsAll(b);
    }
    if b == ALL {
      forall i | 0 <= i < WORD_SIZE ensures v[i] in subset {
        AllBits(i);
      }
    }
  }

  // Unpacking a word and packing it again masks it with the whole word.
  lemma UnpackPack(v: seq<nat>, b: nat, whole: nat, ret: nat)
    requires Sorted(v) && b <= ALL && Marks(v, v, |v|, whole) && Marks(v, Selected(v, b), |v|, ret)
    ensures ret == And(b, whole)
  {
    PickedIs(v, b, |v|);
    forall i: nat ensures Bit(ret, i) <==> Bit(And(b, whole), i) {
      BitAnd(b, whole, i);
      AllBits(i);
    }
    SameBits(ret, And(b, whole));
  }

  method PackThenUnpack(v: seq<nat>, subset: seq<nat>) returns (r: seq<nat>)
    requires Sorted(v) && Sorted(subset) && Subset(subset, v)
    ensures |v| <= WORD_SIZE ==> r == subset
    ensures r == subset <==> subset == v || (FitsWord(v, subset) && (|v| > WORD_SIZE ==> !FillsWord(v, subset)))
  {
    var b := BitsOf(v, subset);
    KnownIs(v, subset, |subset|);
    assert subset[..|subset|] == subset;
    MarksBelow(v, subset, b);
    PackUnpack(v, subset, b);
    r := Intersect(v, b);
  }

  lemma MarksBelow(v: seq<nat>, subset: seq<nat>, b: nat)
    requires Marks(v, subset, |v|, b)
    ensures b <= ALL
  {
    NoHighBits(b, WORD_SIZE);
  }

  method UnpackThenPack(v: seq<nat>, b: nat) returns (ret: nat, whole: nat)
    requires Sorted(v) && b <= ALL
    ensures ret == And(b, whole) && forall i: nat :: Bit(whole, i) <==> i < |v| && i < WORD_SIZE
  {
    whole := Whole(v);
    var c := Intersect(v, b);
    PickedIs(v, b, |v|);
    assert v[..|v|] == v;
    KnownIs(v, c, |c|);
    assert c[..|c|] == c;
    ret := BitsOf(v, c);
    UnpackPack(v, b, whole, ret);
  }

  function UpTo(n: nat): (r: seq<nat>)
    ensures |r| == n && forall i :: 0 <= i < n ==> r[i] == i
  {
    if n == 0 then [] else UpTo(n - 1) + [n - 1]
  }

  // The last of 65 keys has no bit: packed and unpacked, it is lost.
  method KeyWithoutBit() returns (v: seq<nat>, subset: seq<nat>, r: seq<nat>)
    ensures Sorted(v) && |v| == WORD_SIZE + 1 && subset == [v[WORD_SIZE]] && r != subset
  {
    v := UpTo(WORD_SIZE + 1);
    subset := [v[WORD_SIZE]];
    assert v[WORD_SIZE] in subset;
    r := PackThenUnpack(v, subset);
  }
}
