/**
Acceptance of blocks. Every run of AcceptBlock from a genesis block keeps the chain linked and
the database in step with it. Whether the certificate of a block is valid is a parameter here.
*/
module Chain {
  import opened Database
  import opened Ledger
  import opened Outcome
  import M = Merkle

  const MIN_FEE: nat := 100

  const MAX_LOCK_TIME: nat := 250000

  const GENERATOR_REWARD: nat := 5_000_000_000

  // The checks for duplicates inside one transaction.
  datatype Checks = Checks(dupInputs: seq<Input> -> bool, dupOutputs: seq<Output> -> bool)

  // ---------- Transactions ----------

  predicate CheckDoubleSpent(db: Storage, inputs: seq<Input>) {
    && (forall i :: 0 <= i < |inputs| ==>
          && inputs[i].ring.Ok?
          && forall j :: 0 <= j < |inputs[i].ring.value| ==> FetchOutputExists(db, inputs[i].ring.value[j]))
    && (forall i :: 0 <= i < |inputs| ==> !FetchKeyImageExists(db, inputs[i].keyImage))
  }

  predicate CheckStandardTx(c: Checks, db: Storage, tx: Tx) {
    && tx.Transfer? && tx.version == 0 && tx.fee >= MIN_FEE
    && |tx.inputs| > 0 && !c.dupInputs(tx.inputs)
    && |tx.outputs| > 0 && !c.dupOutputs(tx.outputs)
    && CheckDoubleSpent(db, tx.inputs)
  }

  predicate CheckSpecialFields(index: nat, tx: Tx) {
    match tx
    case Coinbase(rewards, _) => index == 0 && |rewards| == 1 && rewards[0].amount == GENERATOR_REWARD
    case Transfer(_, _, _, _, lock, _) => lock.Some? ==> lock.value <= MAX_LOCK_TIME
  }

  // The standard checks do not hold for a coinbase, and are not asked of it.
  predicate CheckTx(c: Checks, db: Storage, index: nat, tx: Tx) {
    (CheckStandardTx(c, db, tx) || tx.Coinbase?) && CheckSpecialFields(index, tx)
  }

  // A transaction that passes spends no key image that is in the database.
  lemma PassesUnspent(c: Checks, db: Storage, index: nat, tx: Tx, x: Bytes)
    requires CheckTx(c, db, index, tx) && x in tx.KeyImages()
    ensures !FetchKeyImageExists(db, x)
  {
    var i :| 0 <= i < |tx.KeyImages()| && tx.KeyImages()[i] == x;
    assert tx.KeyImages()[i] == tx.Inputs()[i].keyImage;
  }

  // ---------- Blocks ----------

  function Coinbases(txs: seq<Tx>): nat {
    if |txs| == 0 then 0 else Coinbases(txs[..|txs| - 1]) + if txs[|txs| - 1].Coinbase? then 1 else 0
  }

  method CheckMultiCoinbases(txs: seq<Tx>) returns (ok: bool)
    ensures ok <==> Coinbases(txs) == 1
  {
    var seen := false;
    for i := 0 to |txs|
      invariant Coinbases(txs[..i]) == if seen then 1 else 0
    {
      assert txs[..i + 1][..i] == txs[..i];
      if !txs[i].Coinbase? {
        continue;
      }
      if seen {
        MoreCoinbases(txs, i + 1);
        return false;
      }
      seen := true;
    }
    assert txs[..|txs|] == txs;
    return seen;
  }

  lemma {:induction false} MoreCoinbases(txs: seq<Tx>, n: nat)
    requires n <= |txs|
    ensures Coinbases(txs[..n]) <= Coinbases(txs)
    decreases |txs|
  {
    if n < |txs| {
      var rest := txs[..|txs| - 1];
      MoreCoinbases(rest, n);
      assert rest[..n] == txs[..n];
    } else {
      assert txs[..n] == txs;
    }
  }

  // One coinbase, and at the first position.
  ghost predicate CoinbaseFirst(txs: seq<Tx>) {
    |txs| > 0 && forall i :: 0 <= i < |txs| ==> (txs[i].Coinbase? <==> i == 0)
  }

  lemma {:induction false} SomeCoinbase(txs: seq<Tx>) returns (i: nat)
    requires Coinbases(txs) >= 1
    ensures i < |txs| && txs[i].Coinbase?
    decreases |txs|
  {
    i := |txs| - 1;
    if !txs[i].Coinbase? {
      i := SomeCoinbase(txs[..i]);
    }
  }

  lemma OneCoinbase(c: Checks, db: Storage, txs: seq<Tx>)
    requires Coinbases(txs) == 1 && forall i :: 0 <= i < |txs| ==> CheckTx(c, db, i, txs[i])
    ensures CoinbaseFirst(txs)
  {
    var i := SomeCoinbase(txs);
    assert CheckSpecialFields(i, txs[i]);
  }

  ghost predicate HeaderFollows(h: Hasher, prev: Block, b: Block) {
    && b.header.version == 0 && b.header.prevHash == prev.header.hash && b.header.height == prev.header.height + 1
    && b.header.timestamp > prev.header.timestamp && RootMatches(h, b)
  }

  method CheckBlockHeader(h: Hasher, prev: Block, b: Block) returns (ok: bool)
    ensures ok <==> HeaderFollows(h, prev, b)
  {
    if b.header.version > 0 {
      return false;
    }
    if b.header.prevHash != prev.header.hash {
      return false;
    }
    if b.header.height != prev.header.height + 1 {
      return false;
    }
    if b.header.timestamp <= prev.header.timestamp {
      return false;
    }
    var tree;
    ghost var all;
    tree, all := M.Create(h, b.txs);
    ok := tree.Ok? && tree.value.merkleRoot == b.header.txRoot;
  }

  ghost predicate Passes(e: Env, c: Checks, db: Storage, prev: Block, b: Block) {
    && !FetchBlockExists(db, b.header.hash) && HeaderFollows(e.hasher, prev, b)
    && Coinbases(b.txs) == 1 && forall i :: 0 <= i < |b.txs| ==> CheckTx(c, db, i, b.txs[i])
  }

  method CheckBlock(e: Env, c: Checks, db: Storage, prev: Block, b: Block) returns (ok: bool)
    ensures ok <==> Passes(e, c, db, prev, b)
  {
    if FetchBlockExists(db, b.header.hash) {
      return false;
    }
    var header := CheckBlockHeader(e.hasher, prev, b);
    if !header {
      return false;
    }
    var coinbases := CheckMultiCoinbases(b.txs);
    if !coinbases {
      return false;
    }
    for i := 0 to |b.txs|
      invariant forall j :: 0 <= j < i ==> CheckTx(c, db, j, b.txs[j])
    {
      if !CheckTx(c, db, i, b.txs[i]) {
        return false;
      }
    }
    return true;
  }

  // ---------- The chain ----------

  // Each block follows the one before it, and no key image is spent in two of them.
  ghost predicate IsChain(h: Hasher, bs: seq<Block>) {
    && |bs| > 0
    && (forall i :: 0 < i < |bs| ==> HeaderFollows(h, bs[i - 1], bs[i]) && CoinbaseFirst(bs[i].txs))
    && (forall i, j, x: Bytes :: 0 <= i < j < |bs| && Spends(bs[i], x) ==> !Spends(bs[j], x))
  }

  // Timestamps grow along the whole chain.
  lemma {:induction false} TimeGrows(h: Hasher, bs: seq<Block>, i: nat, j: nat)
    requires IsChain(h, bs) && i < j < |bs|
    ensures bs[i].header.timestamp < bs[j].header.timestamp
    decreases j
  {
    assert HeaderFollows(h, bs[j - 1], bs[j]);
    if i < j - 1 {
      TimeGrows(h, bs, i, j - 1);
    }
  }

  // A block that passes the checks spends nothing that was spent before.
  lemma SpendsNew(e: Env, c: Checks, bs: seq<Block>, db: Storage, b: Block, i: nat, x: Bytes)
    requires HasImages(bs, db) && i < |bs| && Spends(bs[i], x)
    requires forall j :: 0 <= j < |b.txs| ==> CheckTx(c, db, j, b.txs[j])
    ensures !Spends(b, x)
  {
    assert FetchKeyImageExists(db, x);
    forall j | 0 <= j < |b.txs| ensures x !in b.txs[j].KeyImages() {
      if x in b.txs[j].KeyImages() {
        PassesUnspent(c, db, j, b.txs[j], x);
      }
    }
  }

  // A block that passes the checks extends the chain.
  lemma Extends(e: Env, c: Checks, bs: seq<Block>, db: Storage, b: Block)
    requires IsChain(e.hasher, bs) && HasImages(bs, db) && Passes(e, c, db, bs[|bs| - 1], b)
    ensures IsChain(e.hasher, bs + [b])
  {
    OneCoinbase(c, db, b.txs);
    var cs := bs + [b];
    forall i | 0 < i < |cs| ensures HeaderFollows(e.hasher, cs[i - 1], cs[i]) && CoinbaseFirst(cs[i].txs) {
      if i < |bs| {
        assert cs[i] == bs[i] && cs[i - 1] == bs[i - 1];
      }
    }
    forall i, j, x: Bytes | 0 <= i < j < |cs| && Spends(cs[i], x) ensures !Spends(cs[j], x) {
      if j == |bs| {
        SpendsNew(e, c, bs, db, b, i, x);
      }
    }
  }

  // Storing such a block keeps the chain and the database in step.
  lemma Accepted(e: Env, c: Checks, bs: seq<Block>, db: Storage, b: Block, m: Storage)
    requires IsChain(e.hasher, bs) && Represents(e, bs, db) && Passes(e, c, db, bs[|bs| - 1], b)
    requires Storable(e, b) && IsBatch(e, b, m)
    ensures IsChain(e.hasher, bs + [b]) && Represents(e, bs + [b], db + m)
  {
    Extends(e, c, bs, db, b);
    assert bs[|bs| - 1].header.height == |bs| - 1;
    forall i | 0 <= i < |bs| ensures bs[i].header.hash != b.header.hash {
      assert HeaderKey(bs[i].header.hash) in db;
    }
    Commit(e, bs, db, b, m);
  }

  class Chain {
    const e: Env
    const c: Checks
    const db: DB
    var prev: Block
    ghost var blocks: seq<Block>

    ghost predicate Valid()
      reads this, db
    {
      && IsEnv(e) && IsChain(e.hasher, blocks) && prev == blocks[|blocks| - 1]
      && Represents(e, blocks, db.storage)
    }

    // A chain that starts with its genesis block, which is stored without checks.
    constructor (e: Env, c: Checks, genesis: Block)
      requires IsEnv(e) && Storable(e, genesis) && genesis.header.height == 0
      ensures Valid() && fresh(db) && blocks == [genesis] && this.e == e && this.c == c
    {
      this.e, this.c := e, c;
      db := new DB();
      prev := genesis;
      blocks := [genesis];
      new;
      assert Represents(e, [], map[]);
      var ok;
      ghost var m;
      ok, m := db.UpdateBlock(e, genesis);
      Commit(e, [], map[], genesis, m);
      assert [] + [genesis] == [genesis];
    }

    // AcceptBlock: the block is stored exactly if it passes the checks and fits the database.
    method AcceptBlock(b: Block, certified: bool) returns (ok: bool)
      requires Valid()
      modifies this, db
      ensures Valid()
      ensures ok <==> Passes(e, c, old(db.storage), old(prev), b) && certified && Storable(e, b)
      ensures blocks == if ok then old(blocks) + [b] else old(blocks)
      ensures !ok ==> db.storage == old(db.storage)
    {
      var checked := CheckBlock(e, c, db.storage, prev, b);
      if !checked {
        return false;
      }
      if !certified {
        return false;
      }
      ok := Store(b);
    }

    method Store(b: Block) returns (ok: bool)
      requires Valid() && Passes(e, c, db.storage, prev, b)
      modifies this, db
      ensures Valid() && (ok <==> Storable(e, b))
      ensures blocks == if ok then old(blocks) + [b] else old(blocks)
      ensures !ok ==> db.storage == old(db.storage)
    {
      ghost var before := db.storage;
      ghost var m;
      ok, m := db.UpdateBlock(e, b);
      if ok {
        Accepted(e, c, blocks, before, b, m);
        prev := b;
        blocks := blocks + [b];
      }
    }

    // The tip as a node that starts again reads it from the database. Every block after genesis
    // has a coinbase at its head.
    method LoadTip() returns (panics: bool, r: Result<Block>)
      requires Valid()
      ensures panics <==> !DistinctIds(e, prev)
      ensures !panics ==> r == if |prev.txs| > 0 && !prev.txs[0].Coinbase? then Err else Ok(prev)
      ensures !panics && |blocks| > 1 ==> r == Ok(prev)
    {
      LookupsAgree(e, blocks, db.storage);
      var tip := FetchState(db.storage);
      if tip.Err? {
        return false, Err;
      }
      var header := FetchBlockHeader(db.storage, tip.value);
      if header.Err? {
        return false, Err;
      }
      var txs;
      panics, txs := FetchBlockTxs(db.storage, tip.value, e, blocks, |blocks| - 1);
      if panics || txs.Err? {
        return panics, Err;
      }
      r := Ok(Block(header.value, txs.value));
    }
  }
}
