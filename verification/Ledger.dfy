/** Transactions and blocks, as far as the pool, the checks and the database look at them. */
module Ledger {
  import opened Outcome
  import M = Merkle

  type Bytes = seq<int>

  // An input: its key image, and the output keys in its signature, unless that does not decode.
  datatype Input = Input(keyImage: Bytes, ring: Result<seq<Bytes>>)

  datatype Output = Output(destKey: Bytes, amount: nat)

  // Timelocks, bids and stakes are transfers with a lock.
  datatype Tx =
    | Coinbase(rewards: seq<Output>, rest: Bytes)
    | Transfer(version: nat, fee: nat, inputs: seq<Input>, outputs: seq<Output>, lock: Option<nat>, rest: Bytes)
  {
    // The inputs and outputs of the standard transaction inside; a coinbase has no inputs.
    function Inputs(): seq<Input> {
      if Coinbase? then [] else inputs
    }

    function Outputs(): seq<Output> {
      if Coinbase? then rewards else outputs
    }

    function KeyImages(): seq<Bytes> {
      ImagesOf(Inputs())
    }
  }

  function ImagesOf(inputs: seq<Input>): (r: seq<Bytes>)
    ensures |r| == |inputs| && forall i :: 0 <= i < |inputs| ==> r[i] == inputs[i].keyImage
  {
    if |inputs| == 0 then [] else ImagesOf(inputs[..|inputs| - 1]) + [inputs[|inputs| - 1].keyImage]
  }

  datatype Header = Header(version: nat, height: nat, timestamp: int, prevHash: Bytes, txRoot: Bytes, hash: Bytes)

  datatype Block = Block(header: Header, txs: seq<Tx>)

  type Hasher = M.Hasher<Tx>

  // The Merkle root of the transactions of a block, which must not be empty.
  ghost predicate RootMatches(h: Hasher, b: Block) {
    |b.txs| > 0 && M.AllHash(h, b.txs) && b.header.txRoot == M.RootOf(h, M.PayloadHashes(h, M.Padded(b.txs)))
  }
}
