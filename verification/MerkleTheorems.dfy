/**
 * What the three Merkle programs owe each other.  Nothing is assumed of the hash: a false
 * conclusion is traded for two inputs, computed from the data at hand, with the same hash.
 */
module MerkleTheorems {
  import opened Basics
  import opened Merkle

  // ---------------------------------------------------------------- completeness

  /** Walking on from level k along the right siblings ends at the root. */
  lemma {:induction false} PathLeadsUp(h: Hash, leaves: seq<Node>, index: nat, hashes: seq<Bytes>, k: nat)
    requires leaves != [] && |hashes| == Depth(|leaves|) && k <= |hashes|
    requires forall i :: 0 <= i < |hashes| ==> hashes[i] == PathHash(h, leaves, index, i)
    ensures Walk(h, NodeAt(h, leaves, |hashes|, k, Shift(index, k)).data, Shift(index, k), hashes, k) ==
      NodeAt(h, leaves, |hashes|, |hashes|, Shift(index, |hashes|)).data
    decreases |hashes| - k
  {
    if k < |hashes| {
      var p := Shift(index, k);
      ParentHash(h, leaves, |hashes|, k, p);
      PathLeadsUp(h, leaves, index, hashes, k + 1);
    }
  }

  lemma ParentHash(h: Hash, leaves: seq<Node>, d: nat, k: nat, p: nat)
    requires leaves != []
    ensures NodeAt(h, leaves, d, k + 1, p / 2).data ==
      h(Combine(p, NodeAt(h, leaves, d, k, p).data, NodeAt(h, leaves, d, k, Sibling(p)).data))
  {
    assert p == 2 * (p / 2) + p % 2;
  }

  lemma {:induction false} ShiftToZero(index: nat, d: nat)
    requires index < Pow2(d)
    ensures Shift(index, d) == 0
  {
    if d > 0 {
      ShiftTop(index, d);
      ShiftToZero(index / 2, d - 1);
    }
  }

  lemma {:induction false} ShiftTop(index: nat, d: nat)
    requires d > 0
    ensures Shift(index, d) == Shift(index / 2, d - 1)
  {
    if d > 1 {
      ShiftTop(index, d - 1);
    }
  }

  /** Joining a genuine proof at any level leads to the root. */
  lemma ProofLeadsToRoot(h: Hash, leaves: seq<Node>, proof: Proof, k: nat)
    requires proof.index < |leaves| && IsProofFor(h, leaves, proof.index, proof) && k <= |proof.hashes|
    ensures Walk(h, NodeAt(h, leaves, Depth(|leaves|), k, Shift(proof.index, k)).data,
                 Shift(proof.index, k), proof.hashes, k) == Root(h, leaves).data
  {
    DepthIsLeast(|leaves|, Depth(|leaves|));
    ShiftToZero(proof.index, Depth(|leaves|));
    PathLeadsUp(h, leaves, proof.index, proof.hashes, k);
  }

  /** Every proof the generator makes is accepted for the element at its index. */
  lemma Completeness(h: Hash, data: seq<Bytes>, proof: Proof)
    requires proof.index < |data|
    requires IsProofFor(h, LeavesOf(h, data), proof.index, proof)
    ensures Accepts(h, RootHash(h, data), data[proof.index], Some(proof))
  {
    DepthIsLeast(|data|, Depth(|data|));
    SourceIsIdentity(|data|, Depth(|data|), proof.index);
    ProofLeadsToRoot(h, LeavesOf(h, data), proof, 0);
  }

  // ---------------------------------------------------------------- soundness

  /** Where an index lands among 2^d positions: a walk looks at its low d bits only. */
  function Position(d: nat, index: nat): nat {
    if d == 0 then 0 else 2 * Position(d - 1, index / 2) + index % 2
  }

  lemma {:induction false} PositionIsIndex(d: nat, index: nat)
    requires index < Pow2(d)
    ensures Position(d, index) == index
  {
    if d > 0 {
      PositionIsIndex(d - 1, index / 2);
    }
  }

  /**
   * The two inputs at which a walk ending in the root and the tree of depth d part ways.  After k of
   * the hashes the walk stands as far below the root as there are hashes left.
   */
  function WalkCollision(h: Hash, leaves: seq<Node>, d: nat, current: Digest, index: nat, hashes: seq<Bytes>, k: nat): (Bytes, Bytes)
    requires leaves != [] && k <= |hashes| <= d
    decreases |hashes| - k
  {
    if k == |hashes| then ([], [])
    else
      var level, q := d - |hashes| + k, Position(|hashes| - k - 1, index / 2);
      var walked := Combine(index, current, hashes[k]);
      if h(walked) == NodeAt(h, leaves, d, level + 1, q).data
      then (walked, InnerInput(h, leaves, d, level, q))
      else WalkCollision(h, leaves, d, h(walked), index / 2, hashes, k + 1)
  }

  /** A 32-byte hash next to a sibling of any length, joined, can be read back on its own side. */
  lemma HalvesAgree(index: nat, current: Digest, sibling: Bytes, left: Digest, right: Digest)
    requires Combine(index, current, sibling) == PairInput(left, right)
    ensures current == if index % 2 == 0 then left else right
  {
    var c, t := Combine(index, current, sibling), PairInput(left, right);
    assert |sibling| == 32;
    assert t[..32] == left && t[32..] == right;
    assert c[..32] == (if index % 2 == 0 then current else sibling);
    assert c[32..] == (if index % 2 == 0 then sibling else current);
  }

  /** One step that hashes what the tree hashes started from the tree's node on the index's side. */
  lemma StepSound(h: Hash, leaves: seq<Node>, d: nat, level: nat, current: Digest, index: nat, sibling: Bytes, q: nat)
    requires leaves != []
    requires Combine(index, current, sibling) == InnerInput(h, leaves, d, level, q)
    ensures current == NodeAt(h, leaves, d, level, 2 * q + index % 2).data
  {
    HalvesAgree(index, current, sibling, NodeAt(h, leaves, d, level, 2 * q).data, NodeAt(h, leaves, d, level, 2 * q + 1).data);
  }

  /** What a walk from position k on shows: it started from the tree's node, or parted ways somewhere. */
  ghost predicate Pinned(h: Hash, leaves: seq<Node>, d: nat, current: Digest, index: nat, hashes: seq<Bytes>, k: nat)
    requires leaves != [] && k <= |hashes| <= d
  {
    || current == NodeAt(h, leaves, d, d - |hashes| + k, Position(|hashes| - k, index)).data
    || var c := WalkCollision(h, leaves, d, current, index, hashes, k); Collides(h, c.0, c.1)
  }

  lemma PinnedStep(h: Hash, leaves: seq<Node>, d: nat, current: Digest, index: nat, hashes: seq<Bytes>, k: nat)
    requires leaves != [] && k < |hashes| <= d
    requires Pinned(h, leaves, d, h(Combine(index, current, hashes[k])), index / 2, hashes, k + 1)
    ensures Pinned(h, leaves, d, current, index, hashes, k)
  {
    var level, q := d - |hashes| + k, Position(|hashes| - k - 1, index / 2);
    var walked, input := Combine(index, current, hashes[k]), InnerInput(h, leaves, d, level, q);
    InnerInputHash(h, leaves, d, level, q);
    if walked == input {
      StepSound(h, leaves, d, level, current, index, hashes[k], q);
    }
  }

  lemma {:induction false} WalkSound(h: Hash, leaves: seq<Node>, d: nat, current: Digest, index: nat, hashes: seq<Bytes>, k: nat)
    requires leaves != [] && k <= |hashes| <= d
    requires Walk(h, current, index, hashes, k) == NodeAt(h, leaves, d, d, 0).data
    ensures Pinned(h, leaves, d, current, index, hashes, k)
    decreases |hashes| - k
  {
    if k < |hashes| {
      WalkSound(h, leaves, d, h(Combine(index, current, hashes[k])), index / 2, hashes, k + 1);
      PinnedStep(h, leaves, d, current, index, hashes, k);
    }
  }

  /** The element at position p of the padded list. */
  function At(data: seq<Bytes>, p: nat): Bytes
    requires data != []
  {
    data[Source(|data|, Depth(|data|), p)]
  }

  /** The two inputs an accepted proof of a wrong leaf gives away. */
  function Forgery(h: Hash, data: seq<Bytes>, leaf: Bytes, proof: Proof): (Bytes, Bytes)
    requires data != []
  {
    var element := At(data, Position(Depth(|data|), proof.index));
    if h(leaf) == h(element) then (leaf, element)
    else WalkCollision(h, LeavesOf(h, data), |proof.hashes|, h(leaf), proof.index, proof.hashes, 0)
  }

  /**
   * Soundness for any index, with siblings of any length: as many hashes as the tree has levels and
   * an honest root pin the leaf down.
   */
  lemma SoundnessAnyIndex(h: Hash, data: seq<Bytes>, leaf: Bytes, proof: Proof)
    requires data != [] && proof.numLeaves != 0 && |proof.hashes| == Depth(|data|)
    requires Accepts(h, RootHash(h, data), leaf, Some(proof))
    ensures leaf == At(data, Position(Depth(|data|), proof.index))
      || Collides(h, Forgery(h, data, leaf, proof).0, Forgery(h, data, leaf, proof).1)
  {
    WalkSound(h, LeavesOf(h, data), |proof.hashes|, h(leaf), proof.index, proof.hashes, 0);
  }

  lemma Soundness(h: Hash, data: seq<Bytes>, leaf: Bytes, proof: Proof)
    requires proof.index < |data| && proof.numLeaves != 0 && |proof.hashes| == Depth(|data|)
    requires Accepts(h, RootHash(h, data), leaf, Some(proof))
    ensures leaf == data[proof.index]
      || Collides(h, Forgery(h, data, leaf, proof).0, Forgery(h, data, leaf, proof).1)
  {
    var d := Depth(|data|);
    DepthIsLeast(|data|, d);
    PositionIsIndex(d, proof.index);
    SourceIsIdentity(|data|, d, proof.index);
    SoundnessAnyIndex(h, data, leaf, proof);
  }

  /**
   * The hash count cannot be dropped from soundness: leaves and inner nodes share one hash, so a
   * genuine proof without its first k + 1 siblings has the 64-byte input of the inner node on level
   * k + 1 accepted as a leaf.
   */
  lemma ShortProofAcceptsInnerNode(h: Hash, data: seq<Bytes>, proof: Proof, k: nat) returns (input: Bytes, short: Proof)
    requires proof.index < |data| && IsProofFor(h, LeavesOf(h, data), proof.index, proof)
    requires k < |proof.hashes|
    ensures |input| == 64 && short.numLeaves == proof.numLeaves
    ensures short.hashes == proof.hashes[k + 1..]
    ensures Accepts(h, RootHash(h, data), input, Some(short))
  {
    var p := Shift(proof.index, k + 1);
    ShiftBound(proof.index, k + 1);
    input := InnerInput(h, LeavesOf(h, data), |proof.hashes|, k, p);
    short := Proof(proof.hashes[k + 1..], p, proof.numLeaves);
    InnerInputHash(h, LeavesOf(h, data), |proof.hashes|, k, p);
    WalkFromLevel(h, data, proof, k + 1);
  }

  /** The genuine siblings from level k on lead from the path's node there to the root. */
  lemma WalkFromLevel(h: Hash, data: seq<Bytes>, proof: Proof, k: nat)
    requires proof.index < |data| && IsProofFor(h, LeavesOf(h, data), proof.index, proof) && k <= |proof.hashes|
    ensures
      var p := Shift(proof.index, k);
      Walk(h, NodeAt(h, LeavesOf(h, data), |proof.hashes|, k, p).data, p, proof.hashes[k..], 0) == RootHash(h, data)
  {
    ProofLeadsToRoot(h, LeavesOf(h, data), proof, k);
    WalkDropped(h, NodeAt(h, LeavesOf(h, data), |proof.hashes|, k, Shift(proof.index, k)).data, Shift(proof.index, k),
                proof.hashes, k);
  }

  lemma WalkDropped(h: Hash, current: Digest, index: nat, hashes: seq<Bytes>, k: nat)
    requires k <= |hashes|
    ensures Walk(h, current, index, hashes[k..], 0) == Walk(h, current, index, hashes, k)
  {
    WalkSuffix(h, current, index, hashes, k, 0);
  }

  /** What node p of level k + 1 hashes. */
  function InnerInput(h: Hash, leaves: seq<Node>, d: nat, k: nat, p: nat): Bytes
    requires leaves != []
  {
    PairInput(NodeAt(h, leaves, d, k, 2 * p).data, NodeAt(h, leaves, d, k, 2 * p + 1).data)
  }

  lemma InnerInputHash(h: Hash, leaves: seq<Node>, d: nat, k: nat, p: nat)
    requires leaves != []
    ensures |InnerInput(h, leaves, d, k, p)| == 64
    ensures NodeAt(h, leaves, d, k + 1, p).data == h(InnerInput(h, leaves, d, k, p))
  {
  }

  lemma {:induction false} ShiftBound(index: nat, k: nat)
    ensures Shift(index, k) <= index
  {
    if k > 0 {
      ShiftBound(index, k - 1);
    }
  }

  /** Walking from position k on is walking the siblings from there. */
  lemma {:induction false} WalkSuffix(h: Hash, current: Digest, index: nat, hashes: seq<Bytes>, k: nat, i: nat)
    requires k + i <= |hashes|
    ensures Walk(h, current, index, hashes, k + i) == Walk(h, current, index, hashes[k..], i)
    decreases |hashes| - k - i
  {
    if k + i < |hashes| {
      WalkSuffix(h, h(Combine(index, current, hashes[k + i])), index / 2, hashes, k, i + 1);
    }
  }

  /** The other way round: all that fewer hashes pass off is the 64-byte input of the inner node they start from. */
  lemma ShorterProofs(h: Hash, data: seq<Bytes>, leaf: Bytes, proof: Proof)
    requires data != [] && proof.numLeaves != 0 && |proof.hashes| < Depth(|data|)
    requires Accepts(h, RootHash(h, data), leaf, Some(proof))
    ensures leaf == NamedInput(h, data, proof)
      || Collides(h, ShortForgery(h, data, leaf, proof).0, ShortForgery(h, data, leaf, proof).1)
    ensures |NamedInput(h, data, proof)| == 64
  {
    WalkSound(h, LeavesOf(h, data), Depth(|data|), h(leaf), proof.index, proof.hashes, 0);
    NamedInputHash(h, data, proof);
  }

  lemma NamedInputHash(h: Hash, data: seq<Bytes>, proof: Proof)
    requires data != [] && |proof.hashes| < Depth(|data|)
    ensures |NamedInput(h, data, proof)| == 64
    ensures
      var d, m := Depth(|data|), |proof.hashes|;
      NodeAt(h, LeavesOf(h, data), d, d - m, Position(m, proof.index)).data == h(NamedInput(h, data, proof))
  {
    var d, m := Depth(|data|), |proof.hashes|;
    InnerInputHash(h, LeavesOf(h, data), d, d - m - 1, Position(m, proof.index));
  }

  /** What the inner node hashes that a short proof leads up from. */
  function NamedInput(h: Hash, data: seq<Bytes>, proof: Proof): Bytes
    requires data != [] && |proof.hashes| < Depth(|data|)
  {
    var d, m := Depth(|data|), |proof.hashes|;
    InnerInput(h, LeavesOf(h, data), d, d - m - 1, Position(m, proof.index))
  }

  function ShortForgery(h: Hash, data: seq<Bytes>, leaf: Bytes, proof: Proof): (Bytes, Bytes)
    requires data != [] && |proof.hashes| < Depth(|data|)
  {
    var input := NamedInput(h, data, proof);
    if h(leaf) == h(input) then (leaf, input)
    else WalkCollision(h, LeavesOf(h, data), Depth(|data|), h(leaf), proof.index, proof.hashes, 0)
  }

  // ---------------------------------------------------------------- more hashes than levels

  /** What the n-th step of a walk hashes. */
  function Joined(h: Hash, current: Digest, index: nat, hashes: seq<Bytes>, n: nat): Bytes
    requires 0 < n <= |hashes|
  {
    if n == 1 then Combine(index, current, hashes[0])
    else Combine(Shift(index, n - 1), h(Joined(h, current, index, hashes, n - 1)), hashes[n - 1])
  }

  lemma {:induction false} WalkFromJoined(h: Hash, current: Digest, index: nat, hashes: seq<Bytes>, n: nat)
    requires 0 < n <= |hashes|
    ensures Walk(h, current, index, hashes, 0)
      == Walk(h, h(Joined(h, current, index, hashes, n)), Shift(index, n), hashes, n)
  {
    if n > 1 {
      WalkFromJoined(h, current, index, hashes, n - 1);
    }
  }

  /** The proof without its first n hashes. */
  function Rest(proof: Proof, n: nat): Proof
    requires n <= |proof.hashes|
  {
    ShiftBound(proof.index, n);
    Proof(proof.hashes[n..], Shift(proof.index, n), proof.numLeaves)
  }

  /**
   * A longer proof accepts a leaf exactly if the rest of it, as long as the tree is deep, accepts
   * what the extra steps last join.
   */
  lemma LongerProofsExactly(h: Hash, root: Bytes, leaf: Bytes, proof: Proof, extra: nat)
    requires proof.numLeaves != 0 && 0 < extra <= |proof.hashes|
    ensures Accepts(h, root, leaf, Some(proof))
      <==> Accepts(h, root, Joined(h, h(leaf), proof.index, proof.hashes, extra), Some(Rest(proof, extra)))
  {
    var joined := Joined(h, h(leaf), proof.index, proof.hashes, extra);
    WalkFromJoined(h, h(leaf), proof.index, proof.hashes, extra);
    WalkSuffix(h, h(joined), Shift(proof.index, extra), proof.hashes, extra, 0);
  }

  lemma JoinedLong(h: Hash, current: Digest, index: nat, hashes: seq<Bytes>, n: nat)
    requires 0 < n <= |hashes|
    ensures |Joined(h, current, index, hashes, n)| == 32 + |hashes[n - 1]|
  {
  }

  /** So the element it names is what its extra steps last join, at least 32 bytes, or here is a collision. */
  lemma LongerProofs(h: Hash, data: seq<Bytes>, leaf: Bytes, proof: Proof)
    requires data != [] && proof.numLeaves != 0 && |proof.hashes| > Depth(|data|)
    requires Accepts(h, RootHash(h, data), leaf, Some(proof))
    ensures
      var extra := |proof.hashes| - Depth(|data|);
      var joined := Joined(h, h(leaf), proof.index, proof.hashes, extra);
      && |joined| >= 32
      && (|| joined == At(data, Position(Depth(|data|), Shift(proof.index, extra)))
          || Collides(h, Forgery(h, data, joined, Rest(proof, extra)).0, Forgery(h, data, joined, Rest(proof, extra)).1))
  {
    var extra := |proof.hashes| - Depth(|data|);
    var joined := Joined(h, h(leaf), proof.index, proof.hashes, extra);
    LongerProofsExactly(h, RootHash(h, data), leaf, proof, extra);
    JoinedLong(h, h(leaf), proof.index, proof.hashes, extra);
    SoundnessAnyIndex(h, data, joined, Rest(proof, extra));
  }

  /**
   * Elements that are hashes themselves, as transaction IDs are, do let longer proofs through: one
   * empty sibling more, and what the element is the hash of is accepted in its place.
   */
  lemma LongProofAcceptsPreimage(h: Hash, data: seq<Bytes>, proof: Proof, leaf: Bytes) returns (long: Proof)
    requires proof.index < |data| && IsProofFor(h, LeavesOf(h, data), proof.index, proof)
    requires data[proof.index] == h(leaf) && 2 * proof.index < WORD
    ensures long == Proof([[]] + proof.hashes, 2 * proof.index, proof.numLeaves)
    ensures Accepts(h, RootHash(h, data), leaf, Some(long))
  {
    long := Proof([[]] + proof.hashes, 2 * proof.index, proof.numLeaves);
    Completeness(h, data, proof);
    assert Joined(h, h(leaf), long.index, long.hashes, 1) == h(leaf) + [] == h(leaf);
    assert long.hashes[1..] == proof.hashes;
    assert Shift(long.index, 1) == Shift(long.index, 0) / 2 == proof.index;
    LongerProofsExactly(h, RootHash(h, data), leaf, long, 1);
  }

  // ---------------------------------------------------------------- any number of hashes

  /** The two inputs that an accepted proof of a wrong leaf gives away, however many hashes it has. */
  function AnyForgery(h: Hash, data: seq<Bytes>, leaf: Bytes, proof: Proof): (Bytes, Bytes)
    requires data != []
  {
    var d, m := Depth(|data|), |proof.hashes|;
    if m < d then ShortForgery(h, data, leaf, proof)
    else if m == d then Forgery(h, data, leaf, proof)
    else Forgery(h, data, Joined(h, h(leaf), proof.index, proof.hashes, m - d), Rest(proof, m - d))
  }

  /**
   * What a caller can check instead of the number of hashes: no element has 32 bytes or more and the
   * leaf is not 64 bytes long.  Then an accepted leaf is the element its index names, on a proof as
   * long as the tree is deep, or here is a collision.
   */
  lemma SoundnessByLength(h: Hash, data: seq<Bytes>, leaf: Bytes, proof: Proof)
    requires data != [] && proof.numLeaves != 0 && |leaf| != 64
    requires forall i :: 0 <= i < |data| ==> |data[i]| < 32
    requires Accepts(h, RootHash(h, data), leaf, Some(proof))
    ensures
      || (|proof.hashes| == Depth(|data|) && leaf == At(data, Position(Depth(|data|), proof.index)))
      || Collides(h, AnyForgery(h, data, leaf, proof).0, AnyForgery(h, data, leaf, proof).1)
  {
    if |proof.hashes| < Depth(|data|) {
      ShorterProofs(h, data, leaf, proof);
    } else if |proof.hashes| == Depth(|data|) {
      SoundnessAnyIndex(h, data, leaf, proof);
    } else {
      LongerProofs(h, data, leaf, proof);
    }
  }

  // ---------------------------------------------------------------- binding

  /** Where two trees whose k-level nodes at p have the same hash part ways. */
  function NodeCollision(h: Hash, xs: seq<Node>, ys: seq<Node>, d: nat, k: nat, p: nat): (Bytes, Bytes)
    requires xs != [] && ys != []
  {
    if k == 0 then ([], [])
    else
      var x, y := InnerInput(h, xs, d, k - 1, p), InnerInput(h, ys, d, k - 1, p);
      if x != y then (x, y)
      else
        var left := NodeCollision(h, xs, ys, d, k - 1, 2 * p);
        if Collides(h, left.0, left.1) then left else NodeCollision(h, xs, ys, d, k - 1, 2 * p + 1)
  }

  lemma PairInputInjective(a: Digest, b: Digest, c: Digest, d: Digest)
    requires PairInput(a, b) == PairInput(c, d)
    ensures a == c && b == d
  {
    assert PairInput(a, b)[..32] == a && PairInput(a, b)[32..] == b;
    assert PairInput(c, d)[..32] == c && PairInput(c, d)[32..] == d;
  }

  /** Every leaf q under node p of level k has the same hash in both trees, or here is a collision. */
  lemma {:induction false} NodesBinding(h: Hash, xs: seq<Node>, ys: seq<Node>, d: nat, k: nat, p: nat, q: nat)
    requires xs != [] && ys != [] && Shift(q, k) == p
    requires NodeAt(h, xs, d, k, p).data == NodeAt(h, ys, d, k, p).data
    ensures NodeAt(h, xs, d, 0, q).data == NodeAt(h, ys, d, 0, q).data
      || var c := NodeCollision(h, xs, ys, d, k, p); Collides(h, c.0, c.1)
  {
    if k > 0 && InnerInput(h, xs, d, k - 1, p) == InnerInput(h, ys, d, k - 1, p) {
      PairInputInjective(NodeAt(h, xs, d, k - 1, 2 * p).data, NodeAt(h, xs, d, k - 1, 2 * p + 1).data,
                         NodeAt(h, ys, d, k - 1, 2 * p).data, NodeAt(h, ys, d, k - 1, 2 * p + 1).data);
      var child := Shift(q, k - 1);
      assert child == 2 * p || child == 2 * p + 1;
      NodesBinding(h, xs, ys, d, k - 1, child, q);
    }
  }

  ghost predicate SamePadded(xs: seq<Bytes>, ys: seq<Bytes>)
    requires xs != [] && ys != []
  {
    && Depth(|xs|) == Depth(|ys|)
    && forall p: nat :: p < Pow2(Depth(|xs|)) ==> At(xs, p) == At(ys, p)
  }

  /** The first position from p on, up to the end, at which the padded lists differ. */
  function ElementMismatch(xs: seq<Bytes>, ys: seq<Bytes>, p: nat, end: nat): (Bytes, Bytes)
    requires xs != [] && ys != []
    decreases end - p
  {
    if p >= end then ([], [])
    else if At(xs, p) != At(ys, p) then (At(xs, p), At(ys, p))
    else ElementMismatch(xs, ys, p + 1, end)
  }

  lemma {:induction false} MismatchFound(xs: seq<Bytes>, ys: seq<Bytes>, p: nat, end: nat, q: nat)
    requires xs != [] && ys != [] && p <= q < end && At(xs, q) != At(ys, q)
    ensures exists i: nat :: i < end && ElementMismatch(xs, ys, p, end) == (At(xs, i), At(ys, i)) && At(xs, i) != At(ys, i)
    decreases end - p
  {
    if At(xs, p) == At(ys, p) {
      MismatchFound(xs, ys, p + 1, end, q);
    }
  }

  function ListCollision(h: Hash, xs: seq<Bytes>, ys: seq<Bytes>): (Bytes, Bytes)
    requires xs != [] && ys != []
  {
    var d := Depth(|xs|);
    var above := NodeCollision(h, LeavesOf(h, xs), LeavesOf(h, ys), d, d, 0);
    if Collides(h, above.0, above.1) then above else ElementMismatch(xs, ys, 0, Pow2(d))
  }

  /** Lists of the same depth have the same root exactly when their padded lists agree, up to a collision. */
  lemma BindingSameDepth(h: Hash, xs: seq<Bytes>, ys: seq<Bytes>)
    requires xs != [] && ys != [] && Depth(|xs|) == Depth(|ys|)
    ensures SamePadded(xs, ys) ==> RootHash(h, xs) == RootHash(h, ys)
    ensures RootHash(h, xs) == RootHash(h, ys) ==>
      SamePadded(xs, ys) || Collides(h, ListCollision(h, xs, ys).0, ListCollision(h, xs, ys).1)
  {
    var d := Depth(|xs|);
    if SamePadded(xs, ys) {
      SameLeavesSameNode(h, xs, ys, d, 0);
    }
    if RootHash(h, xs) == RootHash(h, ys) && !SamePadded(xs, ys) {
      RootsDiffer(h, xs, ys);
    }
  }

  lemma RootsDiffer(h: Hash, xs: seq<Bytes>, ys: seq<Bytes>)
    requires xs != [] && ys != [] && Depth(|xs|) == Depth(|ys|)
    requires RootHash(h, xs) == RootHash(h, ys) && !SamePadded(xs, ys)
    ensures Collides(h, ListCollision(h, xs, ys).0, ListCollision(h, xs, ys).1)
  {
    var d := Depth(|xs|);
    var lx, ly := LeavesOf(h, xs), LeavesOf(h, ys);
    var above := NodeCollision(h, lx, ly, d, d, 0);
    if !Collides(h, above.0, above.1) {
      var i := FirstMismatch(xs, ys, d);
      ShiftToZero(i, d);
      NodesBinding(h, lx, ly, d, d, 0, i);
      assert NodeAt(h, lx, d, 0, i).data == h(At(xs, i)) && NodeAt(h, ly, d, 0, i).data == h(At(ys, i));
    }
  }

  lemma FirstMismatch(xs: seq<Bytes>, ys: seq<Bytes>, d: nat) returns (i: nat)
    requires xs != [] && ys != [] && d == Depth(|xs|) == Depth(|ys|) && !SamePadded(xs, ys)
    ensures i < Pow2(d) && ElementMismatch(xs, ys, 0, Pow2(d)) == (At(xs, i), At(ys, i)) && At(xs, i) != At(ys, i)
  {
    var q: nat :| q < Pow2(d) && At(xs, q) != At(ys, q);
    MismatchFound(xs, ys, 0, Pow2(d), q);
    i :| i < Pow2(d) && ElementMismatch(xs, ys, 0, Pow2(d)) == (At(xs, i), At(ys, i)) && At(xs, i) != At(ys, i);
  }

  lemma {:induction false} SameLeavesSameNode(h: Hash, xs: seq<Bytes>, ys: seq<Bytes>, k: nat, p: nat)
    requires xs != [] && ys != [] && SamePadded(xs, ys)
    requires k <= Depth(|xs|) && Shift(p, Depth(|xs|) - k) == 0
    ensures NodeAt(h, LeavesOf(h, xs), Depth(|xs|), k, p) == NodeAt(h, LeavesOf(h, ys), Depth(|xs|), k, p)
  {
    var d := Depth(|xs|);
    if k == 0 {
      ZeroShiftBound(p, d);
      assert At(xs, p) == At(ys, p);
    } else {
      ShiftTop(2 * p, d - k + 1);
      ShiftTop(2 * p + 1, d - k + 1);
      assert (2 * p) / 2 == p && (2 * p + 1) / 2 == p;
      SameLeavesSameNode(h, xs, ys, k - 1, 2 * p);
      SameLeavesSameNode(h, xs, ys, k - 1, 2 * p + 1);
    }
  }

  lemma {:induction false} ZeroShiftBound(p: nat, d: nat)
    requires Shift(p, d) == 0
    ensures p < Pow2(d)
  {
    if d > 0 {
      ShiftTop(p, d);
      ZeroShiftBound(p / 2, d - 1);
    }
  }

  /** Two lists of the same length with the same root are the same list, or here is a collision. */
  lemma Binding(h: Hash, xs: seq<Bytes>, ys: seq<Bytes>)
    requires xs != [] && |xs| == |ys|
    requires RootHash(h, xs) == RootHash(h, ys)
    ensures xs == ys || Collides(h, ListCollision(h, xs, ys).0, ListCollision(h, xs, ys).1)
  {
    BindingSameDepth(h, xs, ys);
    if SamePadded(xs, ys) {
      var d := Depth(|xs|);
      DepthIsLeast(|xs|, d);
      forall i | 0 <= i < |xs| ensures xs[i] == ys[i] {
        SourceIsIdentity(|xs|, d, i);
        assert At(xs, i) == At(ys, i);
      }
    }
  }

  /** The length matters: repeating the last element of an odd list changes no root. */
  lemma RepeatedTailSameRoot(h: Hash, data: seq<Bytes>)
    requires |data| % 2 == 1
    ensures RootHash(h, data) == RootHash(h, data + [data[|data| - 1]])
  {
    var n, longer := |data|, data + [data[|data| - 1]];
    assert (n + 1) / 2 == (n + 1 + 1) / 2;
    forall p: nat | p < Pow2(Depth(n)) ensures At(data, p) == At(longer, p) {
      var d := Depth(n);
      assert Source(n, d, p) == Source(n + 1, d, p) || (Source(n, d, p) == n - 1 && Source(n + 1, d, p) == n);
    }
    BindingSameDepth(h, data, longer);
  }
}
