/**
 * The Merkle tree: the shape it has, and the three programs that build it, prove membership in it
 * and check such proofs, each with its own loop as in the source.
 */
module Merkle {
  import opened Basics

  /** A node holds the hash of its data, or of its two children's hashes joined. */
  datatype Node =
    | Leaf(data: Digest)
    | Inner(left: Node, right: Node, data: Digest)

  datatype Tree = Tree(root: Node, leaves: seq<Node>)

  datatype Proof = Proof(hashes: seq<Bytes>, index: uint64, numLeaves: uint64)

  function NewLeaf(h: Hash, data: Bytes): Node {
    Leaf(h(data))
  }

  /** What an inner node hashes. */
  function PairInput(left: Bytes, right: Bytes): Bytes {
    left + right
  }

  function NewInner(h: Hash, left: Node, right: Node): Node {
    Inner(left, right, h(PairInput(left.data, right.data)))
  }

  /** The leaves of a list. */
  function LeavesOf(h: Hash, data: seq<Bytes>): (leaves: seq<Node>)
    ensures |leaves| == |data|
    ensures forall i :: 0 <= i < |data| ==> leaves[i] == NewLeaf(h, data[i])
  {
    if data == [] then [] else LeavesOf(h, data[..|data| - 1]) + [NewLeaf(h, data[|data| - 1])]
  }

  // ---------------------------------------------------------------- the shape

  function Pow2(d: nat): (p: nat)
    ensures p >= 1
  {
    if d == 0 then 1 else 2 * Pow2(d - 1)
  }

  /** Levels above n nodes: halve, rounding up, until one node is left. */
  function Height(n: nat): (d: nat)
    requires n >= 1
    ensures d == 0 <==> n == 1
  {
    if n == 1 then 0 else 1 + Height((n + 1) / 2)
  }

  /** A single leaf is paired with itself, so a tree has at least one level above its leaves. */
  function Depth(n: nat): (d: nat)
    requires n >= 1
    ensures d >= 1
  {
    1 + Height((n + 1) / 2)
  }

  /** How many different nodes level k has. */
  function Size(n: nat, k: nat): (m: nat)
    requires n >= 1
    ensures m >= 1
  {
    if k == 0 then n else (Size(n, k - 1) + 1) / 2
  }

  /**
   * Which of n nodes stands at position p of a perfect binary tree with d levels above them, when
   * every odd level repeats its last node.
   */
  function Source(n: nat, d: nat, p: nat): (s: nat)
    requires n >= 1
    ensures s < n
  {
    if d == 0 then 0
    else
      var s := 2 * Source((n + 1) / 2, d - 1, p / 2) + p % 2;
      if s < n then s else n - 1
  }

  /** The p-th node of level k of that perfect tree, built from its two children down to the leaves. */
  function NodeAt(h: Hash, leaves: seq<Node>, d: nat, k: nat, p: nat): Node
    requires leaves != []
  {
    if k == 0 then leaves[Source(|leaves|, d, p)]
    else NewInner(h, NodeAt(h, leaves, d, k - 1, 2 * p), NodeAt(h, leaves, d, k - 1, 2 * p + 1))
  }

  /** The perfect tree itself. */
  function Root(h: Hash, leaves: seq<Node>): Node
    requires leaves != []
  {
    NodeAt(h, leaves, Depth(|leaves|), Depth(|leaves|), 0)
  }

  /** The root hash of a non-empty list. */
  function RootHash(h: Hash, data: seq<Bytes>): Digest
    requires data != []
  {
    Root(h, LeavesOf(h, data)).data
  }

  lemma {:induction false} HeightBound(n: nat, d: nat)
    requires n >= 1
    ensures n <= Pow2(d) <==> Height(n) <= d
  {
    if n > 1 && d > 0 {
      HeightBound((n + 1) / 2, d - 1);
    }
  }

  /** `Depth(n)` is the least d >= 1 with n <= 2^d. */
  lemma DepthIsLeast(n: nat, d: nat)
    requires n >= 1 && d >= 1
    ensures n <= Pow2(d) <==> Depth(n) <= d
  {
    HeightBound((n + 1) / 2, d - 1);
  }

  /** Real leaves stand at their own index. */
  lemma {:induction false} SourceIsIdentity(n: nat, d: nat, p: nat)
    requires p < n <= Pow2(d)
    ensures Source(n, d, p) == p
  {
    if d > 0 {
      SourceIsIdentity((n + 1) / 2, d - 1, p / 2);
    }
  }

  /** In an odd level the position after the last node holds that node again. */
  lemma SourceRepeatsLast(q: nat, d: nat)
    requires d >= 1 && 2 * q + 1 <= Pow2(d)
    ensures Source(2 * q + 1, d, 2 * q + 1) == Source(2 * q + 1, d, 2 * q)
  {
    assert (2 * q + 1 + 1) / 2 == q + 1 && (2 * q + 1) / 2 == q && (2 * q) / 2 == q;
    SourceIsIdentity(q + 1, d - 1, q);
  }

  lemma ParentNode(h: Hash, leaves: seq<Node>, d: nat, k: nat, p: nat)
    requires leaves != [] && k > 0
    ensures NodeAt(h, leaves, d, k, p)
      == NewInner(h, NodeAt(h, leaves, d, k - 1, 2 * p), NodeAt(h, leaves, d, k - 1, 2 * p + 1))
  {
  }

  /** Two positions of level k, of size m, with e levels above it, stand for the same node. */
  predicate SameSource(m: nat, e: nat, p: nat, q: nat)
    requires m >= 1
  {
    Source(m, e, p) == Source(m, e, q)
  }

  /** Positions of level k that stand for the same node carry the same subtree. */
  lemma {:induction false} SameSourceSameNode(h: Hash, leaves: seq<Node>, d: nat, k: nat, p: nat, q: nat)
    requires leaves != [] && k <= d
    requires SameSource(Size(|leaves|, k), d - k, p, q)
    ensures NodeAt(h, leaves, d, k, p) == NodeAt(h, leaves, d, k, q)
  {
    if k > 0 {
      SourceOfChildren(Size(|leaves|, k - 1), d - k, p, q);
      SameSourceSameNode(h, leaves, d, k - 1, 2 * p, 2 * q);
      SameSourceSameNode(h, leaves, d, k - 1, 2 * p + 1, 2 * q + 1);
      ParentNode(h, leaves, d, k, p);
      ParentNode(h, leaves, d, k, q);
    }
  }

  lemma SourceOfChildren(n: nat, e: nat, p: nat, q: nat)
    requires n >= 1
    requires SameSource((n + 1) / 2, e, p, q)
    ensures SameSource(n, e + 1, 2 * p, 2 * q) && SameSource(n, e + 1, 2 * p + 1, 2 * q + 1)
  {
    assert (2 * p) / 2 == (2 * p + 1) / 2 == p && (2 * q) / 2 == (2 * q + 1) / 2 == q;
  }

  // ---------------------------------------------------------------- levels as the loops keep them

  /**
   * What both loops know of a level: its nodes are those of the tree's level k, and it was made
   * even unless it is the root alone.
   */
  ghost predicate IsLevel(h: Hash, leaves: seq<Node>, k: nat, level: seq<Node>) {
    && leaves != [] && level != []
    && (|level| == 1 || |level| % 2 == 0)
    && k + Height(|level|) == Depth(|leaves|)
    && Size(|leaves|, k) <= |level|
    && (|level| + 1) / 2 == Size(|leaves|, k + 1)
    && IsRow(h, leaves, k, level)
  }

  ghost predicate IsRow(h: Hash, leaves: seq<Node>, k: nat, row: seq<Node>)
    requires leaves != []
  {
    forall p :: 0 <= p < |row| ==> row[p] == NodeAt(h, leaves, Depth(|leaves|), k, p)
  }

  /** Making level k even by repeating its last node keeps it a level of the tree. */
  lemma RepeatedLast(h: Hash, leaves: seq<Node>, k: nat, e: nat, m: nat)
    requires leaves != [] && k + e == Depth(|leaves|) && e >= 1
    requires m == Size(|leaves|, k) && m % 2 == 1 && Height((m + 1) / 2) == e - 1
    ensures NodeAt(h, leaves, Depth(|leaves|), k, m) == NodeAt(h, leaves, Depth(|leaves|), k, m - 1)
  {
    assert Source(m, e, m) == Source(m, e, m - 1) by {
      HeightBound((m + 1) / 2, e - 1);
      SourceRepeatsLast(m / 2, e);
    }
    SameSourceSameNode(h, leaves, k + e, k, m, m - 1);
  }

  lemma FirstLevel(h: Hash, leaves: seq<Node>, level: seq<Node>)
    requires leaves != []
    requires level == if |leaves| % 2 != 0 then leaves + [leaves[|leaves| - 1]] else leaves
    ensures IsLevel(h, leaves, 0, level)
  {
    FirstSizes(|leaves|, |level|);
    FirstEvenRow(h, leaves, level);
  }

  lemma FirstEvenRow(h: Hash, leaves: seq<Node>, level: seq<Node>)
    requires leaves != []
    requires level == if |leaves| % 2 != 0 then leaves + [leaves[|leaves| - 1]] else leaves
    ensures IsRow(h, leaves, 0, level)
  {
    FirstRow(h, leaves);
    if |leaves| % 2 != 0 {
      FirstRepeat(h, leaves);
      ExtendRow(h, leaves, 0, leaves, leaves[|leaves| - 1]);
    }
  }

  lemma ExtendRow(h: Hash, leaves: seq<Node>, k: nat, row: seq<Node>, node: Node)
    requires leaves != [] && IsRow(h, leaves, k, row)
    requires node == NodeAt(h, leaves, Depth(|leaves|), k, |row|)
    ensures IsRow(h, leaves, k, row + [node])
  {
  }

  lemma FirstRepeat(h: Hash, leaves: seq<Node>)
    requires |leaves| % 2 == 1
    ensures NodeAt(h, leaves, Depth(|leaves|), 0, |leaves|) == leaves[|leaves| - 1]
  {
    FirstRow(h, leaves);
    RepeatedLast(h, leaves, 0, Depth(|leaves|), |leaves|);
  }

  lemma FirstSizes(n: nat, size: nat)
    requires n >= 1 && size == if n % 2 != 0 then n + 1 else n
    ensures size % 2 == 0 && Height(size) == Depth(n)
    ensures (size + 1) / 2 == Size(n, 1)
  {
    assert Size(n, 1) == (n + 1) / 2 == (size + 1) / 2;
  }

  lemma FirstRow(h: Hash, leaves: seq<Node>)
    requires leaves != []
    ensures IsRow(h, leaves, 0, leaves)
  {
    var n, d := |leaves|, Depth(|leaves|);
    DepthIsLeast(n, d);
    forall p | 0 <= p < n ensures leaves[p] == NodeAt(h, leaves, d, 0, p) {
      SourceIsIdentity(n, d, p);
    }
  }

  ghost predicate IsPaired(h: Hash, level: seq<Node>, up: seq<Node>) {
    && |level| == 2 * |up|
    && forall i :: 0 <= i < |up| ==> up[i] == NewInner(h, level[2 * i], level[2 * i + 1])
  }

  lemma NextRow(h: Hash, leaves: seq<Node>, k: nat, up: seq<Node>, next: seq<Node>)
    requires leaves != [] && up != [] && IsRow(h, leaves, k + 1, up)
    requires |up| == Size(|leaves|, k + 1) && k + 1 + Height(|up|) == Depth(|leaves|)
    requires |up| > 1 ==> Height((|up| + 1) / 2) == Height(|up|) - 1
    requires next == if |up| % 2 != 0 && |up| > 1 then up + [up[|up| - 1]] else up
    ensures IsRow(h, leaves, k + 1, next)
  {
    var m := |up|;
    if |next| > m {
      RepeatedLast(h, leaves, k + 1, Height(m), m);
      ExtendRow(h, leaves, k + 1, up, up[m - 1]);
    }
  }

  lemma NextLevel(h: Hash, leaves: seq<Node>, k: nat, level: seq<Node>, up: seq<Node>, next: seq<Node>)
    requires |level| > 1 && IsLevel(h, leaves, k, level) && IsPaired(h, level, up)
    requires next == if |up| % 2 != 0 && |up| > 1 then up + [up[|up| - 1]] else up
    ensures IsLevel(h, leaves, k + 1, next)
  {
    PairedRow(h, leaves, k, level, up);
    NextSizes(|leaves|, k, |level|, |up|, |next|);
    NextRow(h, leaves, k, up, next);
  }

  lemma NextSizes(n: nat, k: nat, size: nat, m: nat, next: nat)
    requires n >= 1 && m >= 1 && size == 2 * m && m == Size(n, k + 1)
    requires next == if m % 2 != 0 && m > 1 then m + 1 else m
    ensures Height(size) == 1 + Height(m) && Height(next) == Height(m)
    ensures next == 1 || next % 2 == 0
    ensures (next + 1) / 2 == Size(n, k + 2)
    ensures m > 1 ==> Height((m + 1) / 2) == Height(m) - 1
  {
    assert (size + 1) / 2 == m;
    assert m > 1 ==> (next + 1) / 2 == (m + 1) / 2;
  }

  lemma PairedRow(h: Hash, leaves: seq<Node>, k: nat, level: seq<Node>, up: seq<Node>)
    requires leaves != [] && IsRow(h, leaves, k, level) && IsPaired(h, level, up)
    ensures IsRow(h, leaves, k + 1, up)
  {
  }

  // ---------------------------------------------------------------- the three programs

  /** One level up, as both loops do it. */
  method BuildLevel(h: Hash, level: seq<Node>, ghost leaves: seq<Node>, ghost k: nat) returns (next: seq<Node>)
    requires |level| > 1 && IsLevel(h, leaves, k, level)
    ensures IsLevel(h, leaves, k + 1, next)
    ensures |next| < |level|
  {
    next := [];
    var i := 0;
    while i < |level|
      invariant 0 <= i <= |level| && i == 2 * |next|
      invariant forall q :: 0 <= q < |next| ==> next[q] == NewInner(h, level[2 * q], level[2 * q + 1])
    {
      next := next + [NewInner(h, level[i], level[i + 1])];
      i := i + 2;
    }
    ghost var up := next;
    if |next| % 2 != 0 && |next| > 1 {
      next := next + [next[|next| - 1]];
    }
    NextLevel(h, leaves, k, level, up, next);
  }

  method MakeLeaves(h: Hash, data: seq<Bytes>) returns (leaves: seq<Node>)
    ensures leaves == LeavesOf(h, data)
  {
    leaves := [];
    for i := 0 to |data|
      invariant |leaves| == i
      invariant forall j :: 0 <= j < i ==> leaves[j] == NewLeaf(h, data[j])
    {
      leaves := leaves + [NewLeaf(h, data[i])];
    }
  }

  /**
   * The level-by-level loop builds exactly the perfect tree over the padded leaves; an empty list
   * gets a fixed root and no leaves.
   */
  method NewMerkleTree(h: Hash, data: seq<Bytes>) returns (tree: Tree)
    ensures data == [] ==> tree == Tree(Leaf(h([])), [])
    ensures data != [] ==> tree.leaves == LeavesOf(h, data) && tree.root == Root(h, LeavesOf(h, data))
    ensures data != [] ==> tree.root.data == RootHash(h, data)
  {
    if |data| == 0 {
      return Tree(Leaf(h([])), []);
    }
    var leaves := MakeLeaves(h, data);
    var nodes := PadLeaves(h, leaves);
    ghost var k := 0;
    while |nodes| > 1
      invariant IsLevel(h, leaves, k, nodes)
      decreases |nodes|
    {
      nodes := BuildLevel(h, nodes, leaves, k);
      k := k + 1;
    }
    TopLevel(h, leaves, k, nodes);
    return Tree(nodes[0], leaves);
  }

  /** The last leaf once more if there is an odd number. */
  method PadLeaves(h: Hash, leaves: seq<Node>) returns (nodes: seq<Node>)
    requires leaves != []
    ensures IsLevel(h, leaves, 0, nodes)
  {
    nodes := leaves;
    if |nodes| % 2 != 0 {
      nodes := nodes + [nodes[|nodes| - 1]];
    }
    FirstLevel(h, leaves, nodes);
  }

  lemma TopLevel(h: Hash, leaves: seq<Node>, k: nat, nodes: seq<Node>)
    requires IsLevel(h, leaves, k, nodes) && |nodes| == 1
    ensures nodes[0] == Root(h, leaves)
  {
  }

  /** The other node of the pair that p belongs to. */
  function Sibling(p: nat): nat {
    if p % 2 == 0 then p + 1 else p - 1
  }

  /** A position after k halvings. */
  function Shift(p: nat, k: nat): nat {
    if k == 0 then p else Shift(p, k - 1) / 2
  }

  /** The proof for an index: on every level, the hash of the node beside the path. */
  ghost predicate IsProofFor(h: Hash, leaves: seq<Node>, index: nat, proof: Proof) {
    && leaves != []
    && proof.index == index && proof.numLeaves == |leaves|
    && |proof.hashes| == Depth(|leaves|)
    && forall k :: 0 <= k < |proof.hashes| ==> proof.hashes[k] == PathHash(h, leaves, index, k)
  }

  /** The hash of the node beside the path from leaf `index` on level k. */
  function PathHash(h: Hash, leaves: seq<Node>, index: nat, k: nat): Digest
    requires leaves != []
  {
    NodeAt(h, leaves, Depth(|leaves|), k, Sibling(Shift(index, k))).data
  }

  /** The path stays inside the level, and the sibling is there. */
  lemma PathInside(n: nat, k: nat, p: nat)
    requires n >= 1 && p < Size(n, k)
    ensures p / 2 < Size(n, k + 1)
  {
  }

  /** On every level but the top, it carries the hash the proof needs. */
  lemma BesidePath(h: Hash, leaves: seq<Node>, k: nat, level: seq<Node>, index: nat, p: nat)
    requires IsLevel(h, leaves, k, level) && |level| > 1 && p == Shift(index, k) < Size(|leaves|, k)
    ensures p < |level| && |level| % 2 == 0
    ensures Sibling(p) < |level| ==> level[Sibling(p)].data == PathHash(h, leaves, index, k)
  {
  }

  /** The missing-sibling branch is dead. */
  method SiblingHash(level: seq<Node>, nodeIndex: nat) returns (hash: Digest)
    requires nodeIndex < |level| && |level| % 2 == 0
    ensures Sibling(nodeIndex) < |level| && hash == level[Sibling(nodeIndex)].data
  {
    if nodeIndex % 2 == 0 {
      var siblingIndex := nodeIndex + 1;
      if siblingIndex < |level| {
        hash := level[siblingIndex].data;
      } else {
        assert false;
      }
    } else {
      var siblingIndex := nodeIndex - 1;
      hash := level[siblingIndex].data;
    }
  }

  /**
   * The prover rebuilds the levels itself.  An index past the leaves is the only error: the missing
   * sibling the source guards against does not occur.
   */
  method GenerateMerkleProof(h: Hash, t: Tree, index: uint64) returns (result: Result<Proof>)
    requires |t.leaves| < WORD
    ensures result.Err? <==> index >= |t.leaves|
    ensures result.Ok? ==> IsProofFor(h, t.leaves, index, result.value)
  {
    var numLeaves := |t.leaves|;
    if index >= numLeaves {
      return Err("index out of bounds");
    }
    var currentLevel := t.leaves;
    if |currentLevel| % 2 != 0 {
      currentLevel := currentLevel + [currentLevel[|currentLevel| - 1]];
    }
    FirstLevel(h, t.leaves, currentLevel);
    var hashes := ClimbPath(h, currentLevel, index, t.leaves);
    return Ok(Proof(hashes, index, numLeaves));
  }

  /** The prover's loop up the levels. */
  method ClimbPath(h: Hash, level: seq<Node>, index: nat, ghost leaves: seq<Node>) returns (hashes: seq<Bytes>)
    requires index < |leaves| && IsLevel(h, leaves, 0, level)
    ensures |hashes| == Depth(|leaves|)
    ensures forall i :: 0 <= i < |hashes| ==> hashes[i] == PathHash(h, leaves, index, i)
  {
    hashes := [];
    var currentLevel, nodeIndex := level, index;
    ghost var k := 0;
    while |currentLevel| > 1
      invariant |hashes| == k && nodeIndex >= 0
      invariant IsLevel(h, leaves, k, currentLevel)
      invariant nodeIndex == Shift(index, k) < Size(|leaves|, k)
      invariant forall i :: 0 <= i < k ==> hashes[i] == PathHash(h, leaves, index, i)
      decreases |currentLevel|
    {
      PathInside(|leaves|, k, nodeIndex);
      BesidePath(h, leaves, k, currentLevel, index, nodeIndex);
      var siblingHash := SiblingHash(currentLevel, nodeIndex);
      hashes := hashes + [siblingHash];
      currentLevel := BuildLevel(h, currentLevel, leaves, k);
      k := k + 1;
      nodeIndex := nodeIndex / 2;
    }
  }

  /** One step of the walk: the low bit of the index says on which side the running hash goes. */
  function Combine(index: nat, current: Bytes, sibling: Bytes): Bytes {
    if index % 2 == 0 then PairInput(current, sibling) else PairInput(sibling, current)
  }

  /** The walk from a hash through the siblings from the k-th on. */
  function Walk(h: Hash, current: Digest, index: nat, hashes: seq<Bytes>, k: nat): Digest
    requires k <= |hashes|
    decreases |hashes| - k
  {
    if k == |hashes| then current
    else Walk(h, h(Combine(index, current, hashes[k])), index / 2, hashes, k + 1)
  }

  predicate Accepts(h: Hash, root: Bytes, leaf: Bytes, proof: Option<Proof>) {
    && proof.Some?
    && (if proof.value.numLeaves == 0 then root == []
        else Walk(h, h(leaf), proof.value.index, proof.value.hashes, 0) == root)
  }

  method VerifyMerkleProof(h: Hash, rootHash: Bytes, leafData: Bytes, proof: Option<Proof>) returns (ok: bool)
    ensures ok <==> Accepts(h, rootHash, leafData, proof)
  {
    if proof.None? {
      return false;
    }
    var currentHash := h(leafData);
    var currentIndex: nat := proof.value.index;
    var numLeavesCurrentLevel: nat := proof.value.numLeaves;
    if numLeavesCurrentLevel == 0 && |rootHash| == 0 {
      return true;
    }
    if numLeavesCurrentLevel == 0 {
      return false;
    }
    var hashes := proof.value.hashes;
    ghost var goal := Walk(h, currentHash, currentIndex, hashes, 0);
    for k := 0 to |hashes|
      invariant Walk(h, currentHash, currentIndex, hashes, k) == goal
    {
      var combined := if currentIndex % 2 == 0 then currentHash + hashes[k] else hashes[k] + currentHash;
      currentHash := h(combined);
      currentIndex := currentIndex / 2;
      if numLeavesCurrentLevel % 2 != 0 && numLeavesCurrentLevel > 1 {
        numLeavesCurrentLevel := numLeavesCurrentLevel / 2 + 1;
      } else {
        numLeavesCurrentLevel := numLeavesCurrentLevel / 2;
      }
    }
    return currentHash == rootHash;
  }
}
