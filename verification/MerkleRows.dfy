/** The root as rows of hashes, each pairing up the one below: a reference without trees or positions. */
module MerkleRows {
  import opened Basics
  import opened Merkle

  function HashOf(h: Hash, left: Bytes, right: Bytes): Digest {
    h(left + right)
  }

  /** Neighbours from position i on hashed together, left before right; a last one without neighbour with itself. */
  function PairsFrom(h: Hash, row: seq<Digest>, i: nat): (up: seq<Digest>)
    ensures i >= |row| ==> up == []
    decreases |row| - i
  {
    if i >= |row| then []
    else if i + 1 < |row| then [HashOf(h, row[i], row[i + 1])] + PairsFrom(h, row, i + 2)
    else [HashOf(h, row[i], row[i])]
  }

  lemma {:induction false} PairsCount(h: Hash, row: seq<Digest>, i: nat)
    requires i <= |row|
    ensures |PairsFrom(h, row, i)| == (|row| - i + 1) / 2
    decreases |row| - i
  {
    if i + 1 < |row| {
      PairsCount(h, row, i + 2);
    }
  }

  lemma {:induction false} PairsAt(h: Hash, row: seq<Digest>, i: nat, p: nat)
    requires i <= |row| && i + 2 * p < |row|
    ensures p < |PairsFrom(h, row, i)| && PairsFrom(h, row, i)[p] == PairAt(h, row, i + 2 * p)
    decreases |row| - i
  {
    if p > 0 {
      PairsAt(h, row, i + 2, p - 1);
      PairsNext(h, row, i, p);
      assert i + 2 + 2 * (p - 1) == i + 2 * p;
    }
  }

  /** The hash of the pair that starts at j. */
  function PairAt(h: Hash, row: seq<Digest>, j: nat): Digest
    requires j < |row|
  {
    HashOf(h, row[j], row[if j + 1 < |row| then j + 1 else j])
  }

  lemma PairsNext(h: Hash, row: seq<Digest>, i: nat, p: nat)
    requires i + 1 < |row| && 0 < p && p - 1 < |PairsFrom(h, row, i + 2)|
    ensures p < |PairsFrom(h, row, i)| && PairsFrom(h, row, i)[p] == PairsFrom(h, row, i + 2)[p - 1]
  {
  }

  /** Row upon row until one hash is left. */
  function Top(h: Hash, row: seq<Digest>): Digest
    requires row != []
    decreases |row|
  {
    PairsCount(h, row, 0);
    if |row| == 1 then row[0] else Top(h, PairsFrom(h, row, 0))
  }

  ghost predicate IsHashRow(h: Hash, leaves: seq<Node>, k: nat, row: seq<Digest>)
    requires leaves != []
  {
    |row| == Size(|leaves|, k) && forall p :: 0 <= p < |row| ==> row[p] == NodeAt(h, leaves, Depth(|leaves|), k, p).data
  }

  lemma {:induction false} SizeHeight(n: nat, k: nat)
    requires n >= 1 && k < Depth(n)
    ensures Height((Size(n, k) + 1) / 2) == Depth(n) - k - 1
  {
    if k > 0 {
      SizeHeight(n, k - 1);
      assert Size(n, k) == (Size(n, k - 1) + 1) / 2;
    }
  }

  lemma ChildHashes(h: Hash, leaves: seq<Node>, d: nat, k: nat, p: nat, l: Digest, r: Digest)
    requires leaves != [] && l == NodeAt(h, leaves, d, k, 2 * p).data && r == NodeAt(h, leaves, d, k, 2 * p + 1).data
    ensures NodeAt(h, leaves, d, k + 1, p).data == HashOf(h, l, r)
  {
    ParentNode(h, leaves, d, k + 1, p);
  }

  /** The right one of a pair, or the left one again at the end of an odd row. */
  lemma RightHash(h: Hash, leaves: seq<Node>, k: nat, row: seq<Digest>, p: nat)
    requires leaves != [] && k < Depth(|leaves|) && IsHashRow(h, leaves, k, row) && 2 * p < |row|
    ensures NodeAt(h, leaves, Depth(|leaves|), k, 2 * p + 1).data == row[if 2 * p + 1 < |row| then 2 * p + 1 else 2 * p]
  {
    if 2 * p + 1 == |row| {
      SizeHeight(|leaves|, k);
      RepeatedLast(h, leaves, k, Depth(|leaves|) - k, |row|);
    }
  }

  lemma ParentHash(h: Hash, leaves: seq<Node>, k: nat, row: seq<Digest>, p: nat)
    requires leaves != [] && k < Depth(|leaves|) && IsHashRow(h, leaves, k, row) && 2 * p < |row|
    ensures NodeAt(h, leaves, Depth(|leaves|), k + 1, p).data == PairAt(h, row, 2 * p)
  {
    RightHash(h, leaves, k, row, p);
    ChildHashes(h, leaves, Depth(|leaves|), k, p, row[2 * p], row[if 2 * p + 1 < |row| then 2 * p + 1 else 2 * p]);
  }

  lemma RowAbove(h: Hash, leaves: seq<Node>, k: nat, row: seq<Digest>)
    requires leaves != [] && k < Depth(|leaves|) && IsHashRow(h, leaves, k, row)
    ensures IsHashRow(h, leaves, k + 1, PairsFrom(h, row, 0))
  {
    var up := PairsFrom(h, row, 0);
    PairsCount(h, row, 0);
    forall p | 0 <= p < |up| ensures up[p] == NodeAt(h, leaves, Depth(|leaves|), k + 1, p).data {
      PairsAt(h, row, 0, p);
      ParentHash(h, leaves, k, row, p);
    }
  }

  lemma {:induction false} TopIsRoot(h: Hash, leaves: seq<Node>, k: nat, row: seq<Digest>)
    requires leaves != [] && 1 <= k <= Depth(|leaves|) && IsHashRow(h, leaves, k, row)
    ensures row != [] && Top(h, row) == Root(h, leaves).data
    decreases Depth(|leaves|) - k
  {
    SizeHeight(|leaves|, k - 1);
    if k < Depth(|leaves|) {
      RowAbove(h, leaves, k, row);
      TopIsRoot(h, leaves, k + 1, PairsFrom(h, row, 0));
    }
  }

  /** The root of any list: hash the elements, pair at least once, and go on until one hash is left. */
  lemma RootOfRows(h: Hash, data: seq<Bytes>, hashes: seq<Digest>)
    requires data != [] && |hashes| == |data| && forall i :: 0 <= i < |data| ==> hashes[i] == h(data[i])
    ensures PairsFrom(h, hashes, 0) != [] && RootHash(h, data) == Top(h, PairsFrom(h, hashes, 0))
  {
    var leaves := LeavesOf(h, data);
    BottomRow(h, data, hashes);
    RowAbove(h, leaves, 0, hashes);
    TopIsRoot(h, leaves, 1, PairsFrom(h, hashes, 0));
  }

  lemma BottomRow(h: Hash, data: seq<Bytes>, hashes: seq<Digest>)
    requires data != [] && |hashes| == |data| && forall i :: 0 <= i < |data| ==> hashes[i] == h(data[i])
    ensures IsHashRow(h, LeavesOf(h, data), 0, hashes)
  {
    var leaves := LeavesOf(h, data);
    FirstRow(h, leaves);
    forall p | 0 <= p < |hashes| ensures hashes[p] == NodeAt(h, leaves, Depth(|leaves|), 0, p).data {
      assert leaves[p] == NewLeaf(h, data[p]);
    }
  }
}
