/**
The Merkle tree over transaction payloads. Nodes are objects: only the parent of a node is set
after it has been made, when the level above it is built.
*/
module Merkle {
  import opened Outcome

  type Hash = seq<int>

  // The hash of bytes, and the hash of a payload, which can fail.
  datatype Hasher<!D> = Hasher(sha: Hash -> Hash, calculate: D -> Result<Hash>)

  class Node<D(!new)> {
    var parent: Node?<D>
    const left: Node?<D>
    const right: Node?<D>
    const hash: Hash
    const data: Option<D>
    const isDup: bool
    ghost const height: nat

    constructor Leaf(data: D, hash: Hash, isDup: bool)
      ensures parent == null && this.hash == hash && this.data == Some(data) && this.isDup == isDup && height == 0
    {
      parent, left, right := null, null, null;
      this.data, this.hash, this.isDup := Some(data), hash, isDup;
      height := 0;
    }

    constructor Inner(left: Node<D>, right: Node<D>, hash: Hash)
      requires left.height == right.height
      ensures parent == null && this.left == left && this.right == right && this.hash == hash
      ensures data == None && height == left.height + 1
    {
      parent, this.left, this.right := null, left, right;
      data, this.hash, isDup := None, hash, false;
      height := left.height + 1;
    }

    predicate IsLeaf() {
      data.Some?
    }
  }

  // The hashes of a node and of everything below it are right.
  ghost predicate Built<D(!new)>(h: Hasher<D>, n: Node<D>)
    decreases n.height
  {
    if n.IsLeaf() then h.calculate(n.data.value) == Ok(n.hash)
    else
      && n.left != null && n.right != null
      && n.left.height < n.height && n.right.height < n.height
      && n.hash == h.sha(n.left.hash + n.right.hash)
      && Built(h, n.left) && Built(h, n.right)
  }

  // ---------- The root as a function of the hashes ----------

  // The level above: the hashes of pairs, the last one paired with itself if need be.
  function Above<D>(h: Hasher<D>, hs: seq<Hash>): (r: seq<Hash>)
    ensures |r| == (|hs| + 1) / 2
  {
    if |hs| == 0 then []
    else if |hs| == 1 then [h.sha(hs[0] + hs[0])]
    else [h.sha(hs[0] + hs[1])] + Above(h, hs[2..])
  }

  function RootOf<D>(h: Hasher<D>, hs: seq<Hash>): Hash
    requires |hs| >= 2
    decreases |hs|
  {
    if |hs| == 2 then h.sha(hs[0] + hs[1]) else RootOf(h, Above(h, hs))
  }

  function Hashes<D(!new)>(nl: seq<Node<D>>): (r: seq<Hash>)
    ensures |r| == |nl| && forall i :: 0 <= i < |nl| ==> r[i] == nl[i].hash
  {
    if |nl| == 0 then [] else Hashes(nl[..|nl| - 1]) + [nl[|nl| - 1].hash]
  }

  // ---------- Building ----------

  // A set of nodes that is closed under parents, with parents above their children.
  ghost predicate Linked<D(!new)>(h: Hasher<D>, all: set<Node<D>>, top: nat)
    reads all
  {
    forall n :: n in all ==>
      && Built(h, n) && n.height <= top
      && (n.parent != null ==> n.parent in all && n.parent.height > n.height && !n.parent.IsLeaf())
  }

  // A level of nodes without parents.
  ghost predicate IsLevel<D(!new)>(h: Hasher<D>, nl: seq<Node<D>>, height: nat)
    reads nl
  {
    forall i :: 0 <= i < |nl| ==> Built(h, nl[i]) && nl[i].height == height && nl[i].parent == null
  }

  // One node above two, or above the same one twice.
  method Join<D(!new)>(h: Hasher<D>, left: Node<D>, right: Node<D>, ghost all: set<Node<D>>) returns (node: Node<D>)
    requires left in all && right in all && left.height == right.height && Linked(h, all, left.height + 1)
    modifies left`parent, right`parent
    ensures fresh(node) && node.parent == null && !node.IsLeaf() && node.height == left.height + 1
    ensures node.hash == h.sha(left.hash + right.hash)
    ensures Built(h, node) && Linked(h, all + {node}, left.height + 1)
  {
    node := new Node<D>.Inner(left, right, h.sha(left.hash + right.hash));
    left.parent := node;
    right.parent := node;
  }

  // The hash of pair j.
  function PairHash<D>(h: Hasher<D>, hs: seq<Hash>, j: nat): Hash
    requires 2 * j < |hs|
  {
    h.sha(hs[2 * j] + hs[if 2 * j + 1 < |hs| then 2 * j + 1 else 2 * j])
  }

  lemma {:induction false} AboveAt<D>(h: Hasher<D>, hs: seq<Hash>, j: nat)
    requires 2 * j < |hs|
    ensures Above(h, hs)[j] == PairHash(h, hs, j)
    decreases |hs|
  {
    if j > 0 {
      AboveAt(h, hs[2..], j - 1);
    }
  }

  lemma AboveIs<D>(h: Hasher<D>, hs: seq<Hash>, r: seq<Hash>)
    requires |hs| <= 2 * |r| <= |hs| + 1 && forall j :: 0 <= j < |r| ==> r[j] == PairHash(h, hs, j)
    ensures r == Above(h, hs)
  {
    forall j | 0 <= j < |r| ensures r[j] == Above(h, hs)[j] {
      AboveAt(h, hs, j);
    }
  }

  method JoinPair<D(!new)>(h: Hasher<D>, nl: seq<Node<D>>, i: nat, ghost all: set<Node<D>>, ghost j: nat,
                           ghost height: nat)
    returns (node: Node<D>)
    requires i < |nl| && i == 2 * j && Linked(h, all, height + 1)
    requires forall k :: 0 <= k < |nl| ==> nl[k] in all && nl[k].height == height
    modifies nl
    ensures fresh(node) && node.parent == null && !node.IsLeaf() && node.height == height + 1
    ensures Built(h, node) && Linked(h, all + {node}, height + 1) && node.hash == PairHash(h, Hashes(nl), j)
  {
    var left, right := i, i + 1;
    if i + 1 == |nl| {
      right := i;
    }
    node := Join(h, nl[left], nl[right], all);
  }

  // One level above nl. A level of two nodes has the root above it, and levels never shrink
  // to a single node before.
  method CreateLevel<D(!new)>(h: Hasher<D>, nl: seq<Node<D>>, ghost all: set<Node<D>>, ghost height: nat)
    returns (nodes: seq<Node<D>>, ghost all1: set<Node<D>>)
    requires |nl| >= 2 && IsLevel(h, nl, height) && Linked(h, all, height) && forall i :: 0 <= i < |nl| ==> nl[i] in all
    modifies nl
    ensures |nodes| == (|nl| + 1) / 2 && IsLevel(h, nodes, height + 1) && Hashes(nodes) == Above(h, Hashes(nl))
    ensures all <= all1 && fresh(all1 - all) && Linked(h, all1, height + 1)
    ensures forall i :: 0 <= i < |nodes| ==> nodes[i] in all1 && fresh(nodes[i])
  {
    nodes, all1 := [], all;
    ghost var hs := Hashes(nl);
    var i := 0;
    while i < |nl|
      invariant i == 2 * |nodes| <= |nl| + 1
      invariant all <= all1 && fresh(all1 - all) && LevelSoFar(h, hs, nodes, all1, height)
      invariant forall j :: 0 <= j < |nodes| ==> fresh(nodes[j])
    {
      nodes, all1 := AddNode(h, nl, nodes, i, hs, all1, height);
      i := i + 2;
    }
    AboveIs(h, hs, Hashes(nodes));
  }

  // The first nodes of the level above.
  ghost predicate LevelSoFar<D(!new)>(h: Hasher<D>, hs: seq<Hash>, nodes: seq<Node<D>>, all: set<Node<D>>, height: nat)
    reads all, nodes
  {
    && 2 * |nodes| <= |hs| + 1 && IsLevel(h, nodes, height + 1) && Linked(h, all, height + 1)
    && forall j :: 0 <= j < |nodes| ==> nodes[j] in all && nodes[j].hash == PairHash(h, hs, j)
  }

  method AddNode<D(!new)>(h: Hasher<D>, nl: seq<Node<D>>, nodes: seq<Node<D>>, i: nat, ghost hs: seq<Hash>,
                          ghost all: set<Node<D>>, ghost height: nat)
    returns (nodes1: seq<Node<D>>, ghost all1: set<Node<D>>)
    requires i == 2 * |nodes| < |nl| && hs == Hashes(nl) && LevelSoFar(h, hs, nodes, all, height)
    requires forall k :: 0 <= k < |nl| ==> nl[k] in all && nl[k].height == height && nl[k] !in nodes
    modifies nl
    ensures LevelSoFar(h, hs, nodes1, all1, height) && |nodes1| == |nodes| + 1 && nodes1[..|nodes|] == nodes
    ensures all <= all1 && fresh(all1 - all) && fresh(nodes1[|nodes|])
  {
    var node := JoinPair(h, nl, i, all, |nodes|, height);
    nodes1, all1 := nodes + [node], all + {node};
  }

  method CreateIntermediate<D(!new)>(h: Hasher<D>, nl: seq<Node<D>>, ghost all: set<Node<D>>, ghost height: nat)
    returns (root: Node<D>, ghost all1: set<Node<D>>)
    requires |nl| >= 2 && IsLevel(h, nl, height) && Linked(h, all, height) && forall i :: 0 <= i < |nl| ==> nl[i] in all
    modifies nl
    ensures root in all1 && all <= all1 && fresh(all1 - all) && Linked(h, all1, root.height)
    ensures root.hash == RootOf(h, Hashes(nl))
    decreases |nl|
  {
    var nodes;
    nodes, all1 := CreateLevel(h, nl, all, height);
    if |nl| == 2 {
      root := nodes[0];
      AboveAt(h, Hashes(nl), 0);
      assert root.hash == Hashes(nodes)[0];
    } else {
      root, all1 := CreateIntermediate(h, nodes, all1, height + 1);
    }
  }

  // ---------- The tree ----------

  datatype Tree<D(!new)> = Tree(root: Node<D>, merkleRoot: Hash, leaves: seq<Node<D>>)

  // The nodes of a tree, with the leaves among them.
  ghost predicate IsTree<D(!new)>(h: Hasher<D>, t: Tree<D>, all: set<Node<D>>)
    reads all
  {
    && t.root in all && t.merkleRoot == t.root.hash && Linked(h, all, t.root.height)
    && |t.leaves| > 0 && forall i :: 0 <= i < |t.leaves| ==> t.leaves[i] in all && t.leaves[i].IsLeaf()
  }

  // The payloads of the leaves: one is added to an odd number.
  function Padded<D>(pl: seq<D>): (r: seq<D>)
    requires |pl| > 0
    ensures |r| >= 2
  {
    if |pl| % 2 == 1 then pl + [pl[|pl| - 1]] else pl
  }

  ghost predicate AllHash<D>(h: Hasher<D>, pl: seq<D>) {
    forall i :: 0 <= i < |pl| ==> h.calculate(pl[i]).Ok?
  }

  function PayloadHashes<D>(h: Hasher<D>, pl: seq<D>): (r: seq<Hash>)
    ensures |r| == |pl|
    ensures forall i :: 0 <= i < |pl| ==> r[i] == (if h.calculate(pl[i]).Ok? then h.calculate(pl[i]).value else [])
  {
    if |pl| == 0 then []
    else
      var c := h.calculate(pl[|pl| - 1]);
      PayloadHashes(h, pl[..|pl| - 1]) + [if c.Ok? then c.value else []]
  }

  ghost predicate LeavesOf<D(!new)>(h: Hasher<D>, leaves: seq<Node<D>>, pl: seq<D>) {
    && |leaves| == |pl|
    && forall i :: 0 <= i < |pl| ==> leaves[i].data == Some(pl[i]) && h.calculate(pl[i]) == Ok(leaves[i].hash)
  }

  lemma LeafHashes<D(!new)>(h: Hasher<D>, leaves: seq<Node<D>>, pl: seq<D>)
    requires LeavesOf(h, leaves, pl)
    ensures Hashes(leaves) == PayloadHashes(h, pl)
    ensures forall i :: 0 <= i < |leaves| ==> leaves[i].IsLeaf()
  {
  }

  method CreateLeaves<D(!new)>(h: Hasher<D>, pl: seq<D>) returns (r: Result<seq<Node<D>>>)
    requires |pl| > 0
    ensures r.Ok? <==> AllHash(h, pl)
    ensures r.Ok? ==> LeavesOf(h, r.value, Padded(pl)) && IsLevel(h, r.value, 0)
    ensures r.Ok? ==> forall i :: 0 <= i < |r.value| ==> fresh(r.value[i])
  {
    var leaves: seq<Node<D>> := [];
    for i := 0 to |pl|
      invariant |leaves| == i && LeavesOf(h, leaves, pl[..i]) && IsLevel(h, leaves, 0)
      invariant forall j :: 0 <= j < i ==> fresh(leaves[j])
      invariant forall j :: 0 <= j < i ==> h.calculate(pl[j]).Ok?
    {
      var hash := h.calculate(pl[i]);
      if hash.Err? {
        return Err;
      }
      var leaf := new Node<D>.Leaf(pl[i], hash.value, false);
      leaves := leaves + [leaf];
    }
    assert pl[..|pl|] == pl;
    if |leaves| % 2 == 1 {
      var previous := leaves[|leaves| - 1];
      var duplicate := new Node<D>.Leaf(pl[|pl| - 1], previous.hash, true);
      leaves := leaves + [duplicate];
    }
    r := Ok(leaves);
  }

  method Create<D(!new)>(h: Hasher<D>, pl: seq<D>) returns (r: Result<Tree<D>>, ghost all: set<Node<D>>)
    ensures r.Ok? <==> |pl| > 0 && AllHash(h, pl)
    ensures r.Ok? ==> IsTree(h, r.value, all) && LeavesOf(h, r.value.leaves, Padded(pl)) && fresh(all)
    ensures r.Ok? ==> r.value.merkleRoot == RootOf(h, PayloadHashes(h, Padded(pl)))
  {
    all := {};
    if |pl| == 0 {
      return Err, {};
    }
    var leaves := CreateLeaves(h, pl);
    if leaves.Err? {
      return Err, {};
    }
    var nl := leaves.value;
    LeafHashes(h, nl, Padded(pl));
    var t;
    t, all := BuildTree(h, nl);
    r := Ok(t);
  }

  // The tree over leaves.
  method BuildTree<D(!new)>(h: Hasher<D>, nl: seq<Node<D>>) returns (t: Tree<D>, ghost all: set<Node<D>>)
    requires |nl| >= 2 && IsLevel(h, nl, 0) && forall i :: 0 <= i < |nl| ==> nl[i].IsLeaf()
    modifies nl
    ensures t.leaves == nl && IsTree(h, t, all) && t.merkleRoot == RootOf(h, Hashes(nl))
    ensures fresh(all - set n | n in nl)
  {
    ghost var bottom := set n | n in nl;
    assert Linked(h, bottom, 0);
    var root;
    root, all := CreateIntermediate(h, nl, bottom, 0);
    t := Tree(root, root.hash, nl);
  }

  // ---------- Verification ----------

  // Every inner node has two children below it.
  ghost predicate Shaped<D(!new)>(n: Node<D>)
    decreases n.height
  {
    n.IsLeaf() || (n.left != null && n.right != null && n.left.height < n.height && n.right.height < n.height
                   && Shaped(n.left) && Shaped(n.right))
  }

  // The hash of a node, computed again from its leaves.
  function VerifyNode<D(!new)>(h: Hasher<D>, n: Node<D>): Result<Hash>
    requires Shaped(n)
    decreases n.height
  {
    if n.IsLeaf() then h.calculate(n.data.value)
    else
      var right := VerifyNode(h, n.right);
      if right.Err? then Err
      else
        var left := VerifyNode(h, n.left);
        if left.Err? then Err else Ok(h.sha(left.value + right.value))
  }

  // Computing the hashes again gives the ones that are stored.
  lemma {:induction false} Recomputed<D(!new)>(h: Hasher<D>, n: Node<D>)
    requires Built(h, n)
    ensures Shaped(n) && VerifyNode(h, n) == Ok(n.hash)
    decreases n.height
  {
    if !n.IsLeaf() {
      Recomputed(h, n.left);
      Recomputed(h, n.right);
    }
  }

  method VerifyTree<D(!new)>(h: Hasher<D>, t: Tree<D>) returns (r: Result<bool>)
    requires Shaped(t.root)
    ensures Built(h, t.root) ==> r == Ok(t.merkleRoot == t.root.hash)
    ensures r.Ok? ==> VerifyNode(h, t.root).Ok? && (r.value <==> VerifyNode(h, t.root).value == t.merkleRoot)
  {
    var calculated := VerifyNode(h, t.root);
    if Built(h, t.root) {
      Recomputed(h, t.root);
    }
    if calculated.Err? {
      return Err;
    }
    r := Ok(calculated.value == t.merkleRoot);
  }

  method CalculateNodeHash<D(!new)>(h: Hasher<D>, n: Node<D>) returns (r: Result<Hash>)
    requires Built(h, n)
    ensures r == Ok(n.hash)
  {
    if n.IsLeaf() {
      return h.calculate(n.data.value);
    }
    r := Ok(h.sha(n.left.hash + n.right.hash));
  }

  // The walk from a leaf up to the root, with the hashes computed again on the way.
  method VerifyPath<D(!new)>(h: Hasher<D>, leaf: Node<D>, ghost all: set<Node<D>>, ghost top: nat)
    returns (r: Result<bool>)
    requires leaf in all && Linked(h, all, top)
    ensures r == Ok(true)
  {
    var current := leaf.parent;
    while current != null
      invariant current != null ==> current in all && !current.IsLeaf()
      decreases if current == null then 0 else top - current.height + 1
    {
      var right := CalculateNodeHash(h, current.right);
      if right.Err? {
        return Err;
      }
      var left := CalculateNodeHash(h, current.left);
      if left.Err? {
        return Err;
      }
      if h.sha(left.value + right.value) != current.hash {
        return Ok(false);
      }
      current := current.parent;
    }
    r := Ok(true);
  }

  // A payload is found exactly when some leaf has its hash.
  method VerifyContent<D(!new)>(h: Hasher<D>, t: Tree<D>, data: D, ghost all: set<Node<D>>) returns (r: Result<bool>)
    requires IsTree(h, t, all)
    ensures r.Ok? <==> h.calculate(data).Ok?
    ensures r.Ok? ==> (r.value <==> exists i :: 0 <= i < |t.leaves| && t.leaves[i].hash == h.calculate(data).value)
  {
    for i := 0 to |t.leaves|
      invariant i > 0 ==> h.calculate(data).Ok?
      invariant forall j :: 0 <= j < i ==> t.leaves[j].hash != h.calculate(data).value
    {
      var leaf := t.leaves[i];
      var hashA := h.calculate(leaf.data.value);
      assert Built(h, leaf);
      var hashB := h.calculate(data);
      if hashB.Err? {
        return Err;
      }
      if hashA.value == hashB.value {
        r := VerifyPath(h, leaf, all, t.root.height);
        return;
      }
    }
    r := Ok(false);
  }

  // A tree that was created from payloads passes as a whole, and holds a payload exactly when one
  // of them has its hash.
  method CreateThenVerify<D(!new)>(h: Hasher<D>, pl: seq<D>, data: D) returns (whole: Result<bool>, r: Result<bool>)
    requires |pl| > 0 && AllHash(h, pl) && h.calculate(data).Ok?
    ensures whole == Ok(true)
    ensures r == Ok(exists i :: 0 <= i < |pl| && h.calculate(pl[i]) == h.calculate(data))
  {
    var t;
    ghost var all;
    t, all := Create(h, pl);
    Recomputed(h, t.value.root);
    whole := VerifyTree(h, t.value);
    r := VerifyContent(h, t.value, data, all);
    forall i | 0 <= i < |pl| ensures h.calculate(pl[i]) == Ok(t.value.leaves[i].hash) {
    }
    if r.value {
      ghost var i :| 0 <= i < |t.value.leaves| && t.value.leaves[i].hash == h.calculate(data).value;
      assert h.calculate(pl[if i < |pl| then i else |pl| - 1]) == h.calculate(data);
    }
  }
}
