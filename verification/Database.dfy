/**
The block database over a byte-keyed store: every kind of entry has a prefix byte of its own. A
block is written as one batch, and lookups read the store as it was when they began. Values are
kept decoded; the encoding of heights is any injective one.
*/
module Database {
  import opened Counting
  import opened Ledger
  import opened Outcome
  import opened Sequences

  datatype Value = HeaderV(header: Header) | TxV(index: nat, tx: Tx) | BytesV(bytes: Bytes)

  type Storage = map<Bytes, Value>

  const HASH_SIZE: nat := 32

  datatype Env = Env(hasher: Hasher, heightBytes: nat -> Bytes)

  ghost predicate IsEnv(e: Env) {
    forall x, y :: e.heightBytes(x) == e.heightBytes(y) ==> x == y
  }

  // ---------- Keys ----------

  function HeaderKey(hash: Bytes): Bytes {
    [1] + hash
  }

  function TxKey(hash: Bytes, id: Bytes): Bytes {
    [2] + hash + id
  }

  function HeightKey(e: Env, height: nat): Bytes {
    [3] + e.heightBytes(height)
  }

  function TxIdKey(id: Bytes): Bytes {
    [4] + id
  }

  function ImageKey(image: Bytes): Bytes {
    [5] + image
  }

  const STATE_KEY: Bytes := [7]

  function OutputKey(destKey: Bytes): Bytes {
    [8] + destKey
  }

  predicate Prefixed(k: Bytes, p: int) {
    |k| > 0 && k[0] == p
  }

  // ---------- The batch of a block ----------

  // The identifier of a transaction that hashes.
  function Id(e: Env, tx: Tx): Bytes {
    var r := e.hasher.calculate(tx);
    if r.Ok? then r.value else []
  }

  ghost predicate HaveIds(e: Env, b: Block, n: nat)
    requires n <= |b.txs|
  {
    forall i :: 0 <= i < n ==> |Id(e, b.txs[i])| > 0
  }

  ghost predicate Storable(e: Env, b: Block) {
    |b.header.hash| == HASH_SIZE && HaveIds(e, b, |b.txs|)
  }

  ghost predicate DistinctIds(e: Env, b: Block) {
    forall i, j :: 0 <= i < j < |b.txs| ==> Id(e, b.txs[i]) != Id(e, b.txs[j])
  }

  // The last of the first n transactions that has the identifier of transaction i.
  ghost function LastLike(e: Env, b: Block, i: nat, n: nat): (l: nat)
    requires i < n <= |b.txs|
    ensures i <= l < n && Id(e, b.txs[l]) == Id(e, b.txs[i])
    ensures forall j :: l < j < n ==> Id(e, b.txs[j]) != Id(e, b.txs[i])
  {
    if Id(e, b.txs[n - 1]) == Id(e, b.txs[i]) then n - 1 else LastLike(e, b, i, n - 1)
  }

  // An entry with the last transaction of its identifier.
  ghost predicate HasLast(e: Env, b: Block, i: nat, n: nat, m: Storage)
    requires i < n <= |b.txs|
  {
    var k, l := TxKey(b.header.hash, Id(e, b.txs[i])), LastLike(e, b, i, n);
    k in m && m[k] == TxV(l, b.txs[l])
  }

  // The entries of the first n transactions under their block: all of them, and no others.
  ghost predicate TxPart(e: Env, b: Block, n: nat, m: Storage)
    requires n <= |b.txs|
  {
    && (forall k :: k in m && Prefixed(k, 2) ==> exists i :: 0 <= i < n && k == TxKey(b.header.hash, Id(e, b.txs[i])))
    && (forall i :: 0 <= i < n ==> HasLast(e, b, i, n, m))
  }

  ghost predicate ImagePart(b: Block, n: nat, m: Storage)
    requires n <= |b.txs|
  {
    forall x: Bytes :: ImageKey(x) in m <==> exists i :: 0 <= i < n && x in b.txs[i].KeyImages()
  }

  // The entries that are there once.
  ghost predicate HeaderPart(b: Block, m: Storage) {
    && (forall hash: Bytes :: HeaderKey(hash) in m <==> hash == b.header.hash)
    && (HeaderKey(b.header.hash) in m ==> m[HeaderKey(b.header.hash)] == HeaderV(b.header))
  }

  ghost predicate TipPart(e: Env, b: Block, m: Storage) {
    && (forall h: nat :: HeightKey(e, h) in m <==> h == b.header.height)
    && (HeightKey(e, b.header.height) in m ==> m[HeightKey(e, b.header.height)] == BytesV(b.header.hash))
    && STATE_KEY in m && m[STATE_KEY] == BytesV(b.header.hash)
  }

  ghost predicate IsBatch(e: Env, b: Block, m: Storage) {
    HeaderPart(b, m) && TxPart(e, b, |b.txs|, m) && ImagePart(b, |b.txs|, m) && TipPart(e, b, m)
  }

  // Only keys with other prefixes are changed.
  ghost predicate SameBut(m: Storage, m1: Storage, ps: set<int>) {
    forall k :: |k| > 0 && k[0] !in ps ==> (k in m <==> k in m1) && (k in m ==> m1[k] == m[k])
  }

  lemma ImageKeys(m: Storage, image: Bytes, v: Value)
    ensures forall x: Bytes :: ImageKey(x) in m[ImageKey(image) := v] <==> ImageKey(x) in m || x == image
  {
    forall x: Bytes ensures ImageKey(x) == ImageKey(image) <==> x == image {
      assert ImageKey(x)[1..] == x && ImageKey(image)[1..] == image;
    }
  }

  method PutImages(tx: Tx, id: Bytes, m: Storage) returns (m1: Storage)
    ensures SameBut(m, m1, {5})
    ensures forall x: Bytes :: ImageKey(x) in m1 <==> ImageKey(x) in m || x in tx.KeyImages()
  {
    m1 := m;
    var inputs := tx.Inputs();
    for i := 0 to |inputs|
      invariant SameBut(m, m1, {5})
      invariant forall x: Bytes :: ImageKey(x) in m1 <==> ImageKey(x) in m || x in tx.KeyImages()[..i]
    {
      assert tx.KeyImages()[..i + 1] == tx.KeyImages()[..i] + [inputs[i].keyImage];
      ImageKeys(m1, inputs[i].keyImage, BytesV(id));
      m1 := m1[ImageKey(inputs[i].keyImage) := BytesV(id)];
    }
    assert tx.KeyImages()[..|inputs|] == tx.KeyImages();
  }

  method PutOutputs(tx: Tx, m: Storage) returns (m1: Storage)
    ensures SameBut(m, m1, {8})
  {
    m1 := m;
    var outputs := tx.Outputs();
    for i := 0 to |outputs|
      invariant SameBut(m, m1, {8})
    {
      m1 := m1[OutputKey(outputs[i].destKey) := BytesV(outputs[i].destKey)];
    }
  }

  lemma TxKeys(hash: Bytes, id1: Bytes, id2: Bytes)
    ensures TxKey(hash, id1) == TxKey(hash, id2) <==> id1 == id2
  {
    assert TxKey(hash, id1)[1 + |hash|..] == id1 && TxKey(hash, id2)[1 + |hash|..] == id2;
  }

  // One more transaction under its block.
  lemma TxPartNext(e: Env, b: Block, i: nat, m: Storage, m1: Storage)
    requires i < |b.txs| && TxPart(e, b, i, m)
    requires SameBut(m[TxKey(b.header.hash, Id(e, b.txs[i])) := TxV(i, b.txs[i])], m1, {4, 5, 8})
    ensures TxPart(e, b, i + 1, m1)
  {
    var key := TxKey(b.header.hash, Id(e, b.txs[i]));
    forall k | k in m1 && Prefixed(k, 2)
      ensures exists j :: 0 <= j < i + 1 && k == TxKey(b.header.hash, Id(e, b.txs[j]))
    {
      if k != key {
        assert k in m && Prefixed(k, 2);
        var j :| 0 <= j < i && k == TxKey(b.header.hash, Id(e, b.txs[j]));
      }
    }
    var n := i + 1;
    forall j | 0 <= j < n ensures HasLast(e, b, j, n, m1) {
      TxKeys(b.header.hash, Id(e, b.txs[j]), Id(e, b.txs[i]));
      assert Prefixed(TxKey(b.header.hash, Id(e, b.txs[j])), 2);
      assert j < i ==> HasLast(e, b, j, i, m);
    }
  }

  lemma ImagePartNext(b: Block, i: nat, m: Storage, m1: Storage)
    requires i < |b.txs| && ImagePart(b, i, m)
    requires forall x: Bytes :: ImageKey(x) in m1 <==> ImageKey(x) in m || x in b.txs[i].KeyImages()
    ensures ImagePart(b, i + 1, m1)
  {
  }

  lemma SameButMore(m: Storage, m1: Storage, m2: Storage, ps: set<int>, qs: set<int>)
    requires SameBut(m, m1, ps) && SameBut(m1, m2, qs)
    ensures SameBut(m, m2, ps + qs)
  {
  }

  // The entries of one transaction.
  method PutEntries(hash: Bytes, i: nat, tx: Tx, id: Bytes, m: Storage) returns (m1: Storage)
    ensures SameBut(m[TxKey(hash, id) := TxV(i, tx)], m1, {4, 5, 8})
    ensures forall x: Bytes :: ImageKey(x) in m1 <==> ImageKey(x) in m || x in tx.KeyImages()
  {
    var placed := m[TxKey(hash, id) := TxV(i, tx)];
    var known := placed[TxIdKey(id) := BytesV(hash)];
    assert SameBut(placed, known, {4});
    var imaged := PutImages(tx, id, known);
    SameButMore(placed, known, imaged, {4}, {5});
    m1 := PutOutputs(tx, imaged);
    SameButMore(placed, imaged, m1, {4} + {5}, {8});
    assert {4} + {5} + {8} == {4, 5, 8};
    forall x: Bytes ensures ImageKey(x) in m1 <==> ImageKey(x) in m || x in tx.KeyImages() {
      assert ImageKey(x)[0] == 5;
    }
  }

  // What has been put after n transactions.
  ghost predicate Filled(e: Env, b: Block, n: nat, first: Storage, m: Storage)
    requires n <= |b.txs|
  {
    TxPart(e, b, n, m) && ImagePart(b, n, m) && SameBut(first, m, {2, 4, 5, 8})
  }

  method PutTx(e: Env, b: Block, i: nat, id: Bytes, ghost first: Storage, m: Storage) returns (m1: Storage)
    requires i < |b.txs| && id == Id(e, b.txs[i]) && Filled(e, b, i, first, m)
    ensures Filled(e, b, i + 1, first, m1)
  {
    m1 := PutEntries(b.header.hash, i, b.txs[i], id, m);
    TxPartNext(e, b, i, m, m1);
    ImagePartNext(b, i, m, m1);
    assert SameBut(m, m1, {2, 4, 5, 8});
    SameButMore(first, m, m1, {2, 4, 5, 8}, {2, 4, 5, 8});
  }

  lemma HeightKeys(e: Env, x: nat, y: nat)
    requires IsEnv(e)
    ensures HeightKey(e, x) == HeightKey(e, y) <==> x == y
  {
    assert HeightKey(e, x)[1..] == e.heightBytes(x) && HeightKey(e, y)[1..] == e.heightBytes(y);
  }

  lemma HeaderKeys(x: Bytes, y: Bytes)
    ensures HeaderKey(x) == HeaderKey(y) <==> x == y
  {
    assert HeaderKey(x)[1..] == x && HeaderKey(y)[1..] == y;
  }

  // The batch of a block, built entry by entry.
  method StoreBlock(e: Env, b: Block) returns (r: Result<Storage>)
    requires IsEnv(e)
    ensures r.Ok? <==> Storable(e, b)
    ensures r.Ok? ==> IsBatch(e, b, r.value)
  {
    if |b.header.hash| != HASH_SIZE {
      return Err;
    }
    var first: Storage := map[HeaderKey(b.header.hash) := HeaderV(b.header)];
    FirstEntry(e, b, first);
    var m := StoreTxs(e, b, first);
    if m.Err? {
      return Err;
    }
    var done := m.value[HeightKey(e, b.header.height) := BytesV(b.header.hash)][STATE_KEY := BytesV(b.header.hash)];
    PutTip(e, b, first, m.value, done);
    r := Ok(done);
  }

  lemma FirstEntry(e: Env, b: Block, first: Storage)
    requires first == map[HeaderKey(b.header.hash) := HeaderV(b.header)]
    ensures HeaderPart(b, first) && Filled(e, b, 0, first, first)
  {
    forall hash: Bytes ensures HeaderKey(hash) in first <==> hash == b.header.hash {
      HeaderKeys(hash, b.header.hash);
    }
    forall x: Bytes ensures ImageKey(x) !in first {
      assert ImageKey(x)[0] == 5;
    }
  }

  method StoreTx(e: Env, b: Block, i: nat, ghost first: Storage, m: Storage) returns (r: Result<Storage>)
    requires i < |b.txs| && Filled(e, b, i, first, m)
    ensures r.Ok? <==> |Id(e, b.txs[i])| > 0
    ensures r.Ok? ==> Filled(e, b, i + 1, first, r.value)
  {
    var id := e.hasher.calculate(b.txs[i]);
    if id.Err? || |id.value| == 0 {
      return Err;
    }
    var next := PutTx(e, b, i, id.value, first, m);
    r := Ok(next);
  }

  method StoreTxs(e: Env, b: Block, first: Storage) returns (r: Result<Storage>)
    requires Filled(e, b, 0, first, first)
    ensures r.Ok? <==> HaveIds(e, b, |b.txs|)
    ensures r.Ok? ==> Filled(e, b, |b.txs|, first, r.value)
  {
    var m := first;
    for i := 0 to |b.txs|
      invariant HaveIds(e, b, i)
      invariant Filled(e, b, i, first, m)
    {
      var next := StoreTx(e, b, i, first, m);
      if next.Err? {
        return Err;
      }
      m := next.value;
    }
    r := Ok(m);
  }

  lemma PutTip(e: Env, b: Block, first: Storage, m: Storage, done: Storage)
    requires IsEnv(e) && first == map[HeaderKey(b.header.hash) := HeaderV(b.header)] && SameBut(first, m, {2, 4, 5, 8})
    requires HeaderPart(b, first) && TxPart(e, b, |b.txs|, m) && ImagePart(b, |b.txs|, m)
    requires done == m[HeightKey(e, b.header.height) := BytesV(b.header.hash)][STATE_KEY := BytesV(b.header.hash)]
    ensures IsBatch(e, b, done)
  {
    assert SameBut(m, done, {3, 7});
    forall hash: Bytes ensures HeaderKey(hash) in done <==> HeaderKey(hash) in first {
      assert HeaderKey(hash)[0] == 1;
    }
    KeepParts(e, b, m, done);
    NewTip(e, b, m, done);
  }

  lemma NewTip(e: Env, b: Block, m: Storage, done: Storage)
    requires IsEnv(e) && forall k :: k in m ==> |k| > 0 ==> k[0] != 3
    requires done == m[HeightKey(e, b.header.height) := BytesV(b.header.hash)][STATE_KEY := BytesV(b.header.hash)]
    ensures TipPart(e, b, done)
  {
    forall h: nat ensures HeightKey(e, h) in done <==> h == b.header.height {
      HeightKeys(e, h, b.header.height);
      assert HeightKey(e, h)[0] == 3;
    }
  }

  lemma KeepParts(e: Env, b: Block, m: Storage, done: Storage)
    requires TxPart(e, b, |b.txs|, m) && ImagePart(b, |b.txs|, m) && SameBut(m, done, {3, 7})
    ensures TxPart(e, b, |b.txs|, done) && ImagePart(b, |b.txs|, done)
  {
    KeepTxs(e, b, m, done);
    forall x: Bytes ensures ImageKey(x) in done <==> ImageKey(x) in m {
      assert ImageKey(x)[0] == 5;
    }
  }

  lemma KeepTxs(e: Env, b: Block, m: Storage, done: Storage)
    requires TxPart(e, b, |b.txs|, m) && SameBut(m, done, {3, 7})
    ensures TxPart(e, b, |b.txs|, done)
  {
    forall i | 0 <= i < |b.txs| ensures HasLast(e, b, i, |b.txs|, done) {
      assert HasLast(e, b, i, |b.txs|, m) && Prefixed(TxKey(b.header.hash, Id(e, b.txs[i])), 2);
    }
  }

  // ---------- The store as a list of blocks ----------

  // No two blocks have the same hash, and heights count from 0.
  ghost predicate IsList(e: Env, bs: seq<Block>) {
    && (forall i :: 0 <= i < |bs| ==> Storable(e, bs[i]) && bs[i].header.height == i)
    && (forall i, j :: 0 <= i < j < |bs| ==> bs[i].header.hash != bs[j].header.hash)
  }

  ghost predicate HasHeaders(bs: seq<Block>, db: Storage) {
    && (forall hash: Bytes :: HeaderKey(hash) in db <==> exists i :: 0 <= i < |bs| && bs[i].header.hash == hash)
    && (forall i :: 0 <= i < |bs| ==>
          HeaderKey(bs[i].header.hash) in db && db[HeaderKey(bs[i].header.hash)] == HeaderV(bs[i].header))
  }

  ghost predicate HasHeights(e: Env, bs: seq<Block>, db: Storage) {
    && (forall h: nat :: HeightKey(e, h) in db <==> h < |bs|)
    && (forall h: nat :: h < |bs| ==> HeightKey(e, h) in db && db[HeightKey(e, h)] == BytesV(bs[h].header.hash))
  }

  ghost predicate HasTip(bs: seq<Block>, db: Storage) {
    && (STATE_KEY in db <==> |bs| > 0)
    && (|bs| > 0 ==> STATE_KEY in db && db[STATE_KEY] == BytesV(bs[|bs| - 1].header.hash))
  }

  ghost predicate HasTxs(e: Env, bs: seq<Block>, db: Storage) {
    && (forall k :: k in db && Prefixed(k, 2) ==> exists i :: 0 <= i < |bs| && UnderBlock(e, bs[i], k))
    && (forall i :: 0 <= i < |bs| ==> BlockTxs(e, bs[i], db))
  }

  ghost predicate UnderBlock(e: Env, b: Block, k: Bytes) {
    exists j :: 0 <= j < |b.txs| && k == TxKey(b.header.hash, Id(e, b.txs[j]))
  }

  ghost predicate BlockTxs(e: Env, b: Block, db: Storage) {
    forall j :: 0 <= j < |b.txs| ==> HasLast(e, b, j, |b.txs|, db)
  }

  ghost predicate HasImages(bs: seq<Block>, db: Storage) {
    forall x: Bytes :: ImageKey(x) in db <==> exists i :: 0 <= i < |bs| && Spends(bs[i], x)
  }

  ghost predicate Spends(b: Block, x: Bytes) {
    exists j :: 0 <= j < |b.txs| && x in b.txs[j].KeyImages()
  }

  // The store holds these blocks.
  ghost predicate Represents(e: Env, bs: seq<Block>, db: Storage) {
    && IsList(e, bs) && HasHeaders(bs, db) && HasHeights(e, bs, db) && HasTip(bs, db)
    && HasTxs(e, bs, db) && HasImages(bs, db)
  }

  lemma CommitHeaders(bs: seq<Block>, db: Storage, b: Block, m: Storage)
    requires HasHeaders(bs, db) && HeaderPart(b, m) && forall i :: 0 <= i < |bs| ==> bs[i].header.hash != b.header.hash
    ensures HasHeaders(bs + [b], db + m)
  {
    var cs := bs + [b];
    forall hash: Bytes ensures HeaderKey(hash) in db + m <==> exists i :: 0 <= i < |cs| && cs[i].header.hash == hash {
      if hash == b.header.hash {
        assert cs[|bs|].header.hash == hash;
      } else if i :| 0 <= i < |bs| && bs[i].header.hash == hash {
        assert cs[i].header.hash == hash;
      }
    }
  }

  lemma CommitHeights(e: Env, bs: seq<Block>, db: Storage, b: Block, m: Storage)
    requires HasHeights(e, bs, db) && TipPart(e, b, m) && b.header.height == |bs|
    ensures HasHeights(e, bs + [b], db + m)
  {
  }

  lemma CommitTxs(e: Env, bs: seq<Block>, db: Storage, b: Block, m: Storage)
    requires IsList(e, bs + [b]) && HasTxs(e, bs, db) && TxPart(e, b, |b.txs|, m)
    ensures HasTxs(e, bs + [b], db + m)
  {
    var cs, db1 := bs + [b], db + m;
    forall k | k in db1 && Prefixed(k, 2) ensures exists i :: 0 <= i < |cs| && UnderBlock(e, cs[i], k) {
      if k in m {
        assert UnderBlock(e, cs[|bs|], k);
      } else {
        var i :| 0 <= i < |bs| && UnderBlock(e, bs[i], k);
        assert UnderBlock(e, cs[i], k);
      }
    }
    forall i | 0 <= i < |cs| ensures BlockTxs(e, cs[i], db1) {
      if i < |bs| {
        assert cs[i] == bs[i] && cs[|bs|] == b && cs[i].header.hash != cs[|bs|].header.hash;
        assert BlockTxs(e, bs[i], db);
        forall j | 0 <= j < |bs[i].txs| ensures HasLast(e, bs[i], j, |bs[i].txs|, db1) {
          OtherBlock(e, bs[i], j, b, m);
          assert HasLast(e, bs[i], j, |bs[i].txs|, db);
        }
      } else {
        forall j | 0 <= j < |b.txs| ensures HasLast(e, b, j, |b.txs|, db1) {
          assert HasLast(e, b, j, |b.txs|, m);
        }
      }
    }
  }

  // The entries of another block have other keys.
  lemma OtherBlock(e: Env, a: Block, j: nat, b: Block, m: Storage)
    requires |a.header.hash| == |b.header.hash| == HASH_SIZE && a.header.hash != b.header.hash
    requires j < |a.txs| && TxPart(e, b, |b.txs|, m)
    ensures TxKey(a.header.hash, Id(e, a.txs[j])) !in m
  {
    var k := TxKey(a.header.hash, Id(e, a.txs[j]));
    assert Prefixed(k, 2) && k[1..1 + HASH_SIZE] == a.header.hash;
    forall i | 0 <= i < |b.txs| ensures k != TxKey(b.header.hash, Id(e, b.txs[i])) {
      assert TxKey(b.header.hash, Id(e, b.txs[i]))[1..1 + HASH_SIZE] == b.header.hash;
    }
  }

  lemma CommitImages(bs: seq<Block>, db: Storage, b: Block, m: Storage)
    requires HasImages(bs, db) && ImagePart(b, |b.txs|, m)
    ensures HasImages(bs + [b], db + m)
  {
    var cs := bs + [b];
    forall x: Bytes ensures ImageKey(x) in db + m <==> exists i :: 0 <= i < |cs| && Spends(cs[i], x) {
      assert ImageKey(x) in m <==> Spends(b, x);
      OneMoreSpends(bs, b, x);
    }
  }

  lemma OneMoreSpends(bs: seq<Block>, b: Block, x: Bytes)
    ensures var cs := bs + [b];
      (exists i :: 0 <= i < |cs| && Spends(cs[i], x)) <==> Spends(b, x) || exists i :: 0 <= i < |bs| && Spends(bs[i], x)
  {
    var cs := bs + [b];
    assert cs[|bs|] == b;
    if i :| 0 <= i < |bs| && Spends(bs[i], x) {
      assert Spends(cs[i], x);
    }
  }

  lemma CommitList(e: Env, bs: seq<Block>, b: Block)
    requires IsList(e, bs) && Storable(e, b) && b.header.height == |bs|
    requires forall i :: 0 <= i < |bs| ==> bs[i].header.hash != b.header.hash
    ensures IsList(e, bs + [b])
  {
  }

  lemma CommitTip(e: Env, bs: seq<Block>, db: Storage, b: Block, m: Storage)
    requires TipPart(e, b, m)
    ensures HasTip(bs + [b], db + m)
  {
  }

  // Writing the batch of a new block adds it to the list.
  lemma Commit(e: Env, bs: seq<Block>, db: Storage, b: Block, m: Storage)
    requires Represents(e, bs, db) && Storable(e, b) && IsBatch(e, b, m)
    requires b.header.height == |bs| && forall i :: 0 <= i < |bs| ==> bs[i].header.hash != b.header.hash
    ensures Represents(e, bs + [b], db + m)
  {
    CommitList(e, bs, b);
    CommitHeaders(bs, db, b, m);
    CommitHeights(e, bs, db, b, m);
    CommitTip(e, bs, db, b, m);
    CommitTxs(e, bs, db, b, m);
    CommitImages(bs, db, b, m);
  }

  class DB {
    var storage: Storage

    constructor ()
      ensures storage == map[]
    {
      storage := map[];
    }

    // Update with StoreBlock: the batch is written as a whole, or not at all.
    method UpdateBlock(e: Env, b: Block) returns (ok: bool, ghost m: Storage)
      requires IsEnv(e)
      modifies this
      ensures ok <==> Storable(e, b)
      ensures if ok then IsBatch(e, b, m) && storage == old(storage) + m else storage == old(storage)
    {
      var batch := StoreBlock(e, b);
      if batch.Err? {
        return false, map[];
      }
      storage := storage + batch.value;
      return true, batch.value;
    }
  }

  // ---------- Lookups ----------

  predicate FetchBlockExists(db: Storage, hash: Bytes) {
    HeaderKey(hash) in db
  }

  function FetchBlockHeader(db: Storage, hash: Bytes): Result<Header> {
    if HeaderKey(hash) in db && db[HeaderKey(hash)].HeaderV? then Ok(db[HeaderKey(hash)].header) else Err
  }

  function FetchBlockHashByHeight(e: Env, db: Storage, height: nat): Result<Bytes> {
    if HeightKey(e, height) in db && db[HeightKey(e, height)].BytesV? then Ok(db[HeightKey(e, height)].bytes) else Err
  }

  // The hash of the tip; an empty value counts as missing.
  function FetchState(db: Storage): Result<Bytes> {
    if STATE_KEY in db && db[STATE_KEY].BytesV? && |db[STATE_KEY].bytes| > 0 then Ok(db[STATE_KEY].bytes) else Err
  }

  predicate FetchKeyImageExists(db: Storage, image: Bytes) {
    ImageKey(image) in db
  }

  predicate FetchOutputExists(db: Storage, destKey: Bytes) {
    OutputKey(destKey) in db
  }

  // Lookups by hash, by height, of the tip and of key images agree with the list of blocks.
  lemma LookupsAgree(e: Env, bs: seq<Block>, db: Storage)
    requires Represents(e, bs, db)
    ensures forall i :: 0 <= i < |bs| ==> FetchBlockHeader(db, bs[i].header.hash) == Ok(bs[i].header)
    ensures forall hash: Bytes :: FetchBlockExists(db, hash) <==> exists i :: 0 <= i < |bs| && bs[i].header.hash == hash
    ensures forall hash: Bytes ::
              FetchBlockHeader(db, hash).Ok? <==> exists i :: 0 <= i < |bs| && bs[i].header.hash == hash
    ensures forall h: nat :: FetchBlockHashByHeight(e, db, h) == if h < |bs| then Ok(bs[h].header.hash) else Err
    ensures FetchState(db) == if |bs| > 0 then Ok(bs[|bs| - 1].header.hash) else Err
    ensures forall x: Bytes :: FetchKeyImageExists(db, x) <==> exists i :: 0 <= i < |bs| && Spends(bs[i], x)
  {
    forall hash: Bytes
      ensures FetchBlockHeader(db, hash).Ok? <==> exists i :: 0 <= i < |bs| && bs[i].header.hash == hash
    {
      if i :| 0 <= i < |bs| && bs[i].header.hash == hash {
        assert FetchBlockHeader(db, bs[i].header.hash).Ok?;
      }
    }
  }

  ghost predicate Scanned(db: Storage, hash: Bytes, k: Bytes) {
    k in db && [2] + hash <= k
  }

  // The keys under a block are those of its transactions.
  lemma ScanIs(e: Env, bs: seq<Block>, db: Storage, i: nat, k: Bytes)
    requires IsList(e, bs) && HasTxs(e, bs, db) && i < |bs|
    ensures Scanned(db, bs[i].header.hash, k) <==> UnderBlock(e, bs[i], k)
  {
    if Scanned(db, bs[i].header.hash, k) {
      assert Prefixed(k, 2);
      var l :| 0 <= l < |bs| && UnderBlock(e, bs[l], k);
      assert Storable(e, bs[l]) && Storable(e, bs[i]);
      SameHash(e, bs[l], bs[i].header.hash, k);
      assert l == i;
    }
    if UnderBlock(e, bs[i], k) {
      assert BlockTxs(e, bs[i], db);
      InScan(e, bs[i], db, k);
    }
  }

  lemma InScan(e: Env, b: Block, db: Storage, k: Bytes)
    requires UnderBlock(e, b, k) && BlockTxs(e, b, db)
    ensures Scanned(db, b.header.hash, k)
  {
    var j :| 0 <= j < |b.txs| && k == TxKey(b.header.hash, Id(e, b.txs[j]));
    assert HasLast(e, b, j, |b.txs|, db) && k == [2] + b.header.hash + Id(e, b.txs[j]);
  }

  lemma SameHash(e: Env, b: Block, hash: Bytes, k: Bytes)
    requires |hash| == |b.header.hash| == HASH_SIZE && [2] + hash <= k && UnderBlock(e, b, k)
    ensures hash == b.header.hash
  {
    var j :| 0 <= j < |b.txs| && k == TxKey(b.header.hash, Id(e, b.txs[j]));
    assert k[1..1 + HASH_SIZE] == hash && k[1..1 + HASH_SIZE] == b.header.hash;
  }

  // No later transaction has the same identifier.
  ghost predicate IsLast(e: Env, b: Block, j: nat) {
    j < |b.txs| && forall l :: j < l < |b.txs| ==> Id(e, b.txs[l]) != Id(e, b.txs[j])
  }

  // The positions that have been read: the last ones of their identifiers.
  ghost predicate Collected(e: Env, b: Block, todo: set<Bytes>, temp: map<nat, Tx>) {
    && (forall j :: j in temp ==> IsLast(e, b, j) && temp[j] == b.txs[j])
    && (forall j: nat :: IsLast(e, b, j) ==> (j in temp <==> TxKey(b.header.hash, Id(e, b.txs[j])) !in todo))
  }

  lemma CollectOne(e: Env, b: Block, todo: set<Bytes>, temp: map<nat, Tx>, j: nat)
    requires Collected(e, b, todo, temp) && IsLast(e, b, j) && TxKey(b.header.hash, Id(e, b.txs[j])) in todo
    ensures j !in temp
    ensures Collected(e, b, todo - {TxKey(b.header.hash, Id(e, b.txs[j]))}, temp[j := b.txs[j]])
  {
    forall i: nat | IsLast(e, b, i) && i != j
      ensures TxKey(b.header.hash, Id(e, b.txs[i])) != TxKey(b.header.hash, Id(e, b.txs[j]))
    {
      TxKeys(b.header.hash, Id(e, b.txs[i]), Id(e, b.txs[j]));
    }
  }

  // Read the entries under a block into a map from positions to transactions. No position comes
  // up twice.
  method CollectTxs(db: Storage, todo: set<Bytes>, ghost e: Env, ghost b: Block) returns (r: Result<map<nat, Tx>>)
    requires BlockTxs(e, b, db) && forall k :: k in todo <==> UnderBlock(e, b, k)
    ensures r.Ok? && Collected(e, b, {}, r.value)
  {
    var rest, temp: map<nat, Tx> := todo, map[];
    forall j: nat | IsLast(e, b, j) ensures TxKey(b.header.hash, Id(e, b.txs[j])) in rest {
      assert UnderBlock(e, b, TxKey(b.header.hash, Id(e, b.txs[j])));
    }
    while rest != {}
      invariant rest <= todo && Collected(e, b, rest, temp)
    {
      var k :| k in rest;
      ghost var l := EntryOf(e, b, db, k);
      var value := db[k];
      CollectOne(e, b, rest, temp, l);
      if value.index in temp {
        assert false;
      }
      temp := temp[value.index := value.tx];
      rest := rest - {k};
    }
    r := Ok(temp);
  }

  lemma EntryOf(e: Env, b: Block, db: Storage, k: Bytes) returns (l: nat)
    requires BlockTxs(e, b, db) && UnderBlock(e, b, k)
    ensures k in db && IsLast(e, b, l) && db[k] == TxV(l, b.txs[l]) && k == TxKey(b.header.hash, Id(e, b.txs[l]))
  {
    var j :| 0 <= j < |b.txs| && k == TxKey(b.header.hash, Id(e, b.txs[j]));
    assert HasLast(e, b, j, |b.txs|, db);
    l := LastLike(e, b, j, |b.txs|);
  }

  // ---------- Putting transactions back in order ----------

  // A list as long as the map, with every transaction at its position. A position behind the end
  // of the list is a panic.
  method Arrange(temp: map<nat, Tx>) returns (panics: bool, txs: seq<Tx>)
    ensures panics <==> exists k :: k in temp && k >= |temp|
    ensures !panics ==> |txs| == |temp| && forall k :: k in temp ==> txs[k] == temp[k]
  {
    if |temp| == 0 {
      return false, [];
    }
    var any :| any in temp;
    txs := Repeat(temp[any], |temp|);
    var todo := temp.Keys;
    while todo != {}
      invariant todo <= temp.Keys && |txs| == |temp|
      invariant forall k :: k in temp && k !in todo ==> k < |temp| && txs[k] == temp[k]
    {
      var k :| k in todo;
      if k >= |txs| {
        return true, txs;
      }
      txs := txs[k := temp[k]];
      todo := todo - {k};
    }
    return false, txs;
  }

  // Positions below n that leave one out are fewer than n.
  lemma {:induction false} FewerThan(ks: set<nat>, n: nat, i: nat)
    requires i < n && forall k :: k in ks ==> k < n && k != i
    ensures |ks| < n
    decreases n
  {
    if i == n - 1 {
      AtMost(ks, n - 1);
    } else {
      FewerThan(ks - {n - 1}, n - 1, i);
      assert ks <= ks - {n - 1} + {n - 1};
      SubsetCount(ks, ks - {n - 1} + {n - 1});
    }
  }

  lemma {:induction false} AtMost(ks: set<nat>, n: nat)
    requires forall k :: k in ks ==> k < n
    ensures |ks| <= n
    decreases n
  {
    if n > 0 {
      AtMost(ks - {n - 1}, n - 1);
      SubsetCount(ks, ks - {n - 1} + {n - 1});
    } else {
      assert ks == {};
    }
  }

  // All positions below n are n positions.
  lemma {:induction false} ExactlyAll(ks: set<nat>, n: nat)
    requires forall k: nat :: k in ks <==> k < n
    ensures |ks| == n
    decreases n
  {
    if n == 0 {
      assert ks == {};
    } else {
      ExactlyAll(ks - {n - 1}, n - 1);
      assert ks == ks - {n - 1} + {n - 1};
    }
  }

  // The positions that were read fit a list of their number exactly if the identifiers are
  // distinct: otherwise they are too few for the last of them.
  lemma FitsExactly(e: Env, b: Block, temp: map<nat, Tx>)
    requires Collected(e, b, {}, temp)
    ensures DistinctIds(e, b) ==> |temp| == |b.txs| && forall j :: 0 <= j < |b.txs| ==> j in temp && temp[j] == b.txs[j]
    ensures (exists k :: k in temp && k >= |temp|) <==> !DistinctIds(e, b)
  {
    if DistinctIds(e, b) {
      forall j: nat ensures j in temp <==> j < |b.txs| {
        assert j < |b.txs| ==> IsLast(e, b, j);
      }
      ExactlyAll(temp.Keys, |b.txs|);
    } else {
      var i, j :| 0 <= i < j < |b.txs| && Id(e, b.txs[i]) == Id(e, b.txs[j]);
      assert i !in temp;
      FewerThan(temp.Keys, |b.txs|, i);
      assert IsLast(e, b, |b.txs| - 1);
    }
  }

  // The transactions, put back in order.
  method OrderTxs(db: Storage, todo: set<Bytes>, ghost e: Env, ghost b: Block)
    returns (panics: bool, r: Result<seq<Tx>>)
    requires BlockTxs(e, b, db) && forall k :: k in todo <==> UnderBlock(e, b, k)
    ensures panics <==> !DistinctIds(e, b)
    ensures !panics ==> r == if |b.txs| > 0 && !b.txs[0].Coinbase? then Err else Ok(b.txs)
  {
    var temp := CollectTxs(db, todo, e, b);
    if temp.Err? {
      return false, Err;
    }
    FitsExactly(e, b, temp.value);
    var txs;
    panics, txs := Arrange(temp.value);
    if panics {
      return true, Err;
    }
    assert txs == b.txs;
    if |txs| > 0 && !txs[0].Coinbase? {
      return false, Err;
    }
    r := Ok(txs);
  }

  method FetchBlockTxs(db: Storage, hash: Bytes, ghost e: Env, ghost bs: seq<Block>, ghost i: nat)
    returns (panics: bool, r: Result<seq<Tx>>)
    requires Represents(e, bs, db) && i < |bs| && bs[i].header.hash == hash
    ensures panics <==> !DistinctIds(e, bs[i])
    ensures !panics ==> r == if |bs[i].txs| > 0 && !bs[i].txs[0].Coinbase? then Err else Ok(bs[i].txs)
  {
    var todo := Scan(db, hash);
    ScanAll(e, bs, db, i);
    panics, r := OrderTxs(db, todo, e, bs[i]);
  }

  // A first block is stored in an empty database.
  method StoreFirst(e: Env, b: Block) returns (db: DB, stored: bool)
    requires IsEnv(e) && b.header.height == 0
    ensures stored <==> Storable(e, b)
    ensures stored ==> Represents(e, [b], db.storage)
  {
    db := new DB();
    assert Represents(e, [], map[]);
    ghost var m;
    stored, m := db.UpdateBlock(e, b);
    if stored {
      Commit(e, [], map[], b, m);
      assert [] + [b] == [b] && map[] + m == m;
    }
  }

  // A block with the same transaction twice is stored, and cannot be read back.
  method RepeatedTx(e: Env, header: Header, coinbase: Tx, tx: Tx) returns (stored: bool, panics: bool)
    requires IsEnv(e) && |header.hash| == HASH_SIZE && header.height == 0 && |Id(e, coinbase)| > 0 && |Id(e, tx)| > 0
    ensures stored && panics
  {
    var b := Block(header, [coinbase, tx, tx]);
    var db;
    db, stored := StoreFirst(e, b);
    assert Id(e, b.txs[1]) == Id(e, b.txs[2]);
    var r;
    panics, r := FetchBlockTxs(db.storage, header.hash, e, [b], 0);
  }

  // The iterator over the keys with the prefix of a block.
  function Scan(db: Storage, hash: Bytes): set<Bytes> {
    set k | k in db && [2] + hash <= k
  }

  lemma ScanAll(e: Env, bs: seq<Block>, db: Storage, i: nat)
    requires Represents(e, bs, db) && i < |bs|
    ensures BlockTxs(e, bs[i], db) && forall k :: k in Scan(db, bs[i].header.hash) <==> UnderBlock(e, bs[i], k)
  {
    forall k ensures k in Scan(db, bs[i].header.hash) <==> UnderBlock(e, bs[i], k) {
      ScanIs(e, bs, db, i, k);
    }
  }
}
