/**
The pool of verified transactions, with its index of spent key images, over every run of
pending transactions and accepted blocks. Verification against the blockchain is a parameter.
*/
module Mempool {
  import opened Ledger
  import opened Outcome
  import M = Merkle

  const SIZE: nat := 32

  // Bytes copied into an array of 32.
  function Fit(b: Bytes): (r: Bytes)
    ensures |r| == SIZE && (|b| == SIZE ==> r == b)
    decreases SIZE - |b|
  {
    if |b| >= SIZE then b[..SIZE] else Fit(b + [0])
  }

  // Transaction hashes have 32 bytes.
  ghost predicate IsHasher(h: Hasher) {
    forall t: Tx :: h.calculate(t).Ok? ==> |h.calculate(t).value| == SIZE
  }

  // ---------- The pool ----------

  ghost predicate FullImages(t: Tx) {
    forall i :: 0 <= i < |t.KeyImages()| ==> |t.KeyImages()[i]| == SIZE
  }

  // The number of key images before the first one of a wrong length.
  function Good(images: seq<Bytes>): (n: nat)
    ensures n <= |images| && (forall i :: 0 <= i < n ==> |images[i]| == SIZE) && (n < |images| ==> |images[n]| != SIZE)
  {
    if |images| == 0 || |images[0]| != SIZE then 0 else 1 + Good(images[1..])
  }

  ghost function Images(data: map<Bytes, Tx>): set<Bytes> {
    set k, x | k in data && x in data[k].KeyImages() :: x
  }

  // Transactions are stored under their hashes, no two of them share a key image, and the index
  // is the union of their key images. Its entries are arrays of 32 bytes.
  ghost predicate IsPool(h: Hasher, data: map<Bytes, Tx>, spent: set<Bytes>) {
    && (forall k :: k in data ==> h.calculate(data[k]) == Ok(k) && !data[k].Coinbase?)
    && (forall k, l, x :: k in data && l in data && x in data[k].KeyImages() && x in data[l].KeyImages() ==> k == l)
    && spent == Images(data) && forall x :: x in spent ==> |x| == SIZE
  }

  lemma InIndex(data: map<Bytes, Tx>, k: Bytes, i: nat)
    requires k in data && i < |data[k].KeyImages()|
    ensures data[k].KeyImages()[i] in Images(data)
  {
    assert data[k].KeyImages()[i] in data[k].KeyImages();
  }

  lemma PoolIsFull(h: Hasher, data: map<Bytes, Tx>, spent: set<Bytes>, k: Bytes)
    requires IsPool(h, data, spent) && k in data
    ensures FullImages(data[k])
  {
    forall i | 0 <= i < |data[k].KeyImages()| ensures |data[k].KeyImages()[i]| == SIZE {
      InIndex(data, k, i);
    }
  }

  class HashMap {
    var data: map<Bytes, Tx>
    var spent: set<Bytes>

    constructor ()
      ensures data == map[] && spent == {}
    {
      data, spent := map[], {};
    }

    // Store a transaction and then its key images, up to the first one of a wrong length.
    method Put(h: Hasher, t: Tx) returns (ok: bool)
      requires IsHasher(h)
      modifies this
      ensures h.calculate(t).Err? ==> !ok && data == old(data) && spent == old(spent)
      ensures h.calculate(t).Ok? ==> data == old(data)[h.calculate(t).value := t]
      ensures h.calculate(t).Ok? ==> (ok <==> FullImages(t))
      ensures h.calculate(t).Ok? ==> spent == old(spent) + set x | x in t.KeyImages()[..Good(t.KeyImages())]
    {
      var id := h.calculate(t);
      if id.Err? {
        return false;
      }
      data := data[Fit(id.value) := t];
      for i := 0 to |t.KeyImages()|
        invariant forall j :: 0 <= j < i ==> |t.KeyImages()[j]| == SIZE
        invariant data == old(data)[id.value := t]
        invariant spent == old(spent) + set x | x in t.KeyImages()[..i]
      {
        if |t.KeyImages()[i]| != SIZE {
          assert Good(t.KeyImages()) == i;
          return false;
        }
        assert t.KeyImages()[..i + 1] == t.KeyImages()[..i] + [t.KeyImages()[i]];
        spent := spent + {Fit(t.KeyImages()[i])};
      }
      assert Good(t.KeyImages()) == |t.KeyImages()|;
      return true;
    }

    predicate Contains(id: Bytes)
      reads this
    {
      Fit(id) in data
    }

    predicate ContainsKeyImage(image: Bytes)
      reads this
    {
      Fit(image) in spent
    }
  }

  // A new transaction whose key images are not in the index keeps the pool in order exactly if
  // all of them have 32 bytes: the first one that has not is missing in the index.
  lemma PoolGrows(h: Hasher, data: map<Bytes, Tx>, spent: set<Bytes>, t: Tx, id: Bytes, spent1: set<Bytes>)
    requires IsPool(h, data, spent) && h.calculate(t) == Ok(id) && !t.Coinbase? && id !in data
    requires forall i :: 0 <= i < |t.KeyImages()| ==> Fit(t.KeyImages()[i]) !in spent
    requires spent1 == spent + set x | x in t.KeyImages()[..Good(t.KeyImages())]
    ensures IsPool(h, data[id := t], spent1) <==> FullImages(t)
    ensures spent1 == Images(data[id := t]) <==> FullImages(t)
  {
    if FullImages(t) {
      assert t.KeyImages()[..Good(t.KeyImages())] == t.KeyImages();
      FullGrows(h, data, spent, t, id);
    } else {
      IndexMisses(data[id := t], spent, t, id, spent1, Good(t.KeyImages()));
    }
  }

  lemma FullGrows(h: Hasher, data: map<Bytes, Tx>, spent: set<Bytes>, t: Tx, id: Bytes)
    requires IsPool(h, data, spent) && h.calculate(t) == Ok(id) && !t.Coinbase? && id !in data && FullImages(t)
    requires forall i :: 0 <= i < |t.KeyImages()| ==> Fit(t.KeyImages()[i]) !in spent
    ensures IsPool(h, data[id := t], spent + set x | x in t.KeyImages())
  {
    ImagesGrow(data, id, t);
    forall x | x in t.KeyImages() ensures |x| == SIZE && x !in spent {
    }
    forall k, i | k in data && 0 <= i < |data[k].KeyImages()| ensures data[k].KeyImages()[i] !in t.KeyImages() {
      InIndex(data, k, i);
    }
  }

  lemma IndexMisses(data: map<Bytes, Tx>, spent: set<Bytes>, t: Tx, id: Bytes, spent1: set<Bytes>, good: nat)
    requires id in data && data[id] == t && good < |t.KeyImages()| && |t.KeyImages()[good]| != SIZE
    requires forall x :: x in spent ==> |x| == SIZE
    requires forall i :: 0 <= i < good ==> |t.KeyImages()[i]| == SIZE
    requires spent1 == spent + set x | x in t.KeyImages()[..good]
    ensures spent1 != Images(data)
  {
    InIndex(data, id, good);
  }

  lemma ImagesGrow(data: map<Bytes, Tx>, id: Bytes, t: Tx)
    requires id !in data
    ensures Images(data[id := t]) == Images(data) + set x | x in t.KeyImages()
  {
    var data1 := data[id := t];
    forall x ensures x in Images(data1) <==> x in Images(data) || x in t.KeyImages() {
      if k :| k in data && x in data[k].KeyImages() {
        assert k in data1 && x in data1[k].KeyImages();
      }
      if x in t.KeyImages() {
        assert id in data1 && x in data1[id].KeyImages();
      }
    }
  }

  // ---------- The mempool ----------

  class Mempool {
    const hasher: Hasher
    var verified: HashMap

    ghost predicate Valid()
      reads this, verified
    {
      IsHasher(hasher) && IsPool(hasher, verified.data, verified.spent)
    }

    constructor (hasher: Hasher)
      requires IsHasher(hasher)
      ensures Valid() && this.hasher == hasher && fresh(verified) && verified.data == map[] && verified.spent == {}
    {
      this.hasher := hasher;
      verified := new HashMap();
    }

    predicate AlreadySpent(t: Tx)
      reads this, verified
    {
      exists i :: 0 <= i < |t.KeyImages()| && verified.ContainsKeyImage(t.KeyImages()[i])
    }

    // A transaction is taken if it hashes, is no coinbase, is new, spends nothing twice and passes.
    predicate Accepts(t: Tx, passes: bool)
      reads this, verified
    {
      var id := hasher.calculate(t);
      id.Ok? && !t.Coinbase? && !verified.Contains(id.value) && !AlreadySpent(t) && passes
    }

    // passes says whether the transaction passes the verification against the blockchain.
    method OnPendingTx(t: Tx, passes: bool)
      requires IsHasher(hasher)
      modifies verified
      ensures old(Valid()) ==> (Valid() <==> !old(Accepts(t, passes)) || FullImages(t))
      ensures old(Valid() && Accepts(t, passes)) ==> (verified.spent == Images(verified.data) <==> FullImages(t))
      ensures if old(Accepts(t, passes))
              then && verified.data == old(verified.data)[hasher.calculate(t).value := t]
                   && verified.spent == old(verified.spent) + set x | x in t.KeyImages()[..Good(t.KeyImages())]
              else verified.data == old(verified.data) && verified.spent == old(verified.spent)
    {
      var id := hasher.calculate(t);
      if id.Err? {
        return;
      }
      if t.Coinbase? {
        return;
      }
      if verified.Contains(id.value) {
        return;
      }
      if AlreadySpent(t) {
        return;
      }
      if !passes {
        return;
      }
      if Valid() {
        forall i | 0 <= i < |t.KeyImages()| ensures Fit(t.KeyImages()[i]) !in verified.spent {
          assert !verified.ContainsKeyImage(t.KeyImages()[i]);
        }
        PoolGrows(hasher, verified.data, verified.spent, t, id.value,
                  verified.spent + set x | x in t.KeyImages()[..Good(t.KeyImages())]);
      }
      var ok := verified.Put(hasher, t);
    }

    // Drop the transactions that are in an accepted block, if its root is right.
    method RemoveAccepted(b: Block)
      requires Valid()
      modifies this`verified
      ensures Valid()
      ensures verified.data
           == if RootMatches(hasher, b) then Without(hasher, old(verified.data), b.txs) else old(verified.data)
    {
      if |verified.data| == 0 {
        return;
      }
      var tree;
      ghost var all;
      tree, all := M.Create(hasher, b.txs);
      if tree.Err? {
        return;
      }
      if tree.value.merkleRoot != b.header.txRoot {
        return;
      }
      verified := KeepOthers(hasher, verified.data, verified.spent, b.txs, tree.value, all);
    }
  }

  // A new pool with the transactions that are not in the tree of a block.
  method KeepOthers(h: Hasher, data: map<Bytes, Tx>, ghost spent: set<Bytes>, ghost txs: seq<Tx>, tree: M.Tree<Tx>,
                    ghost all: set<M.Node<Tx>>)
    returns (s: HashMap)
    requires IsHasher(h) && IsPool(h, data, spent)
    requires |txs| > 0 && M.IsTree(h, tree, all) && M.LeavesOf(h, tree.leaves, M.Padded(txs))
    ensures fresh(s) && IsPool(h, s.data, s.spent) && s.data == Without(h, data, txs)
  {
    s := new HashMap();
    var todo := data.Keys;
    while todo != {}
      invariant todo <= data.Keys && fresh(s)
      invariant IsPool(h, s.data, s.spent) && s.data == Without(h, Except(data, todo), txs)
    {
      var k :| k in todo;
      var found := M.VerifyContent(h, tree, data[k], all);
      InTree(h, txs, tree, k);
      WithoutNext(h, data, todo, txs, k);
      if !found.value {
        KeepOne(h, data, spent, k, s);
      }
      todo := todo - {k};
    }
    assert Except(data, {}) == data;
  }

  method KeepOne(h: Hasher, data: map<Bytes, Tx>, ghost spent: set<Bytes>, k: Bytes, s: HashMap)
    requires IsHasher(h) && IsPool(h, data, spent) && IsPool(h, s.data, s.spent) && k in data && k !in s.data
    requires forall l :: l in s.data ==> l in data && data[l] == s.data[l]
    modifies s
    ensures IsPool(h, s.data, s.spent) && s.data == old(s.data)[k := data[k]]
  {
    var t := data[k];
    PoolIsFull(h, data, spent, k);
    KeptApart(h, data, spent, s.data, s.spent, k);
    PoolGrows(h, s.data, s.spent, t, k, s.spent + set x | x in t.KeyImages()[..Good(t.KeyImages())]);
    var ok := s.Put(h, t);
  }

  ghost predicate InBlock(h: Hasher, txs: seq<Tx>, id: Bytes) {
    exists i :: 0 <= i < |txs| && h.calculate(txs[i]) == Ok(id)
  }

  // The transactions whose hash is not in the block.
  ghost function Without(h: Hasher, data: map<Bytes, Tx>, txs: seq<Tx>): map<Bytes, Tx> {
    map k | k in data && !InBlock(h, txs, k) :: data[k]
  }

  ghost function Except(data: map<Bytes, Tx>, todo: set<Bytes>): map<Bytes, Tx> {
    map k | k in data && k !in todo :: data[k]
  }

  // A leaf of the tree of a block has the hash exactly if a transaction of the block has.
  lemma InTree(h: Hasher, txs: seq<Tx>, t: M.Tree<Tx>, id: Bytes)
    requires |txs| > 0 && M.LeavesOf(h, t.leaves, M.Padded(txs))
    ensures (exists i :: 0 <= i < |t.leaves| && t.leaves[i].hash == id) <==> InBlock(h, txs, id)
  {
    forall i | 0 <= i < |txs| ensures h.calculate(txs[i]) == Ok(t.leaves[i].hash) {
    }
    if i :| 0 <= i < |t.leaves| && t.leaves[i].hash == id {
      assert h.calculate(txs[if i < |txs| then i else |txs| - 1]) == Ok(id);
    }
  }

  lemma WithoutNext(h: Hasher, was: map<Bytes, Tx>, todo: set<Bytes>, txs: seq<Tx>, k: Bytes)
    requires k in todo && k in was
    ensures var kept := Without(h, Except(was, todo), txs);
            Without(h, Except(was, todo - {k}), txs) == if InBlock(h, txs, k) then kept else kept[k := was[k]]
  {
  }

  // A transaction shares no key image with others of the same pool.
  lemma KeptApart(h: Hasher, was: map<Bytes, Tx>, spent: set<Bytes>, kept: map<Bytes, Tx>, keptSpent: set<Bytes>,
                  k: Bytes)
    requires IsPool(h, was, spent) && IsPool(h, kept, keptSpent) && k in was && k !in kept
    requires forall l :: l in kept ==> l in was && was[l] == kept[l]
    ensures forall x :: x in was[k].KeyImages() ==> x !in keptSpent
  {
    forall x, l | x in was[k].KeyImages() && l in kept ensures x !in kept[l].KeyImages() {
      assert l != k;
    }
  }

  // A transaction whose first key image has a wrong length, and one that spends its second.
  function ShortFirst(image: Bytes, rest: Bytes): Tx {
    Transfer(0, 100, [Input([1], Ok([])), Input(image, Ok([]))], [], None, rest)
  }

  function Single(image: Bytes, rest: Bytes): Tx {
    Transfer(0, 100, [Input(image, Ok([]))], [], None, rest)
  }

  lemma ExampleImages(image: Bytes, rest: Bytes)
    ensures ShortFirst(image, rest).KeyImages() == [[1], image] && Single(image, rest).KeyImages() == [image]
    ensures Good(ShortFirst(image, rest).KeyImages()) == 0
  {
  }

  // Two transactions are pooled if the first one leaves nothing in the index.
  method PoolBoth(h: Hasher, t1: Tx, t2: Tx, id1: Bytes, id2: Bytes) returns (m: Mempool)
    requires IsHasher(h) && h.calculate(t1) == Ok(id1) && h.calculate(t2) == Ok(id2) && id1 != id2
    requires !t1.Coinbase? && !t2.Coinbase? && Good(t1.KeyImages()) == 0
    ensures m.verified.data == map[id1 := t1, id2 := t2]
  {
    m := new Mempool(h);
    m.OnPendingTx(t1, true);
    assert m.verified.data == map[id1 := t1] && m.verified.spent == {};
    m.OnPendingTx(t2, true);
  }

  // A hash function that gives the last field of a transaction.
  function RestHasher(): Hasher {
    M.Hasher(b => b, (t: Tx) => Ok(Fit(t.rest)))
  }

  lemma RestIsHash(t: Tx)
    ensures IsHasher(RestHasher()) && (|t.rest| == SIZE ==> RestHasher().calculate(t) == Ok(t.rest))
  {
  }

  // A key image of a wrong length hides the ones after it: both of these are pooled.
  method ShortImageHidesAnother(image: Bytes, id1: Bytes, id2: Bytes) returns (m: Mempool)
    requires |image| == |id1| == |id2| == SIZE && id1 != id2
    ensures Share(m.verified.data)
  {
    ExampleImages(image, id1);
    ExampleImages(image, id2);
    var t1, t2 := ShortFirst(image, id1), Single(image, id2);
    RestIsHash(t1);
    RestIsHash(t2);
    m := PoolBoth(RestHasher(), t1, t2, id1, id2);
    ghost var data := m.verified.data;
    assert data[id1] == t1 && data[id2] == t2 && image in t1.KeyImages() && image in t2.KeyImages();
  }

  ghost predicate Share(data: map<Bytes, Tx>) {
    exists k, l, x :: k in data && l in data && k != l && x in data[k].KeyImages() && x in data[l].KeyImages()
  }
}
