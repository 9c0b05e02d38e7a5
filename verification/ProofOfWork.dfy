/** Block headers, what their proof of work hashes, the nonce search and its check. */
module ProofsOfWork {
  import opened Basics
  import opened Order
  import opened ClockLattice
  import opened Merkle

  datatype Header = Header(
    shardID: nat,
    timestamp: int,
    prevBlockHash: Bytes,
    merkleRoot: Bytes,
    stateRoot: Bytes,
    nonce: int,
    height: uint64,
    difficulty: int,
    bloomFilter: Bytes,
    proposerID: NodeID,
    finalitySignatures: seq<NodeID>,
    vectorClock: Option<Clock<uint64>>,
    accumulatorState: Bytes)

  /** The hash, and the encoding of clocks: a function of the clock, as its comment promises. */
  datatype Codec = Codec(hash: Hash, serialize: Clock<uint64> -> Bytes)

  /** `%d` of any integer. */
  function Digits(n: int): (s: Bytes)
    ensures s != []
  {
    if n < 0 then [45] + Decimal(-n) else Decimal(n)
  }

  /** A clock that cannot be encoded counts as nothing. */
  function ClockBytes(c: Codec, clock: Option<Clock<uint64>>): Bytes {
    match clock
    case None => []
    case Some(vc) => c.serialize(vc)
  }

  function NumberFields(hd: Header): Bytes {
    Digits(hd.timestamp) + Digits(hd.shardID) + Digits(hd.height) + Digits(hd.difficulty)
  }

  /** Everything hashed ahead of the nonce. */
  function BeforeNonce(c: Codec, hd: Header): Bytes {
    hd.prevBlockHash + hd.merkleRoot + hd.stateRoot + NumberFields(hd)
    + hd.bloomFilter + hd.proposerID + ClockBytes(c, hd.vectorClock)
  }

  /** The hashed fields one after the other, with nothing between; no finality signatures. */
  function PrepareData(c: Codec, hd: Header, nonce: int): Bytes {
    BeforeNonce(c, hd) + Digits(nonce) + hd.accumulatorState
  }

  function HashAt(c: Codec, hd: Header, nonce: int): Digest {
    c.hash(PrepareData(c, hd, nonce))
  }

  /** A difficulty above 256 shifts by a wrapped count; a negative one makes every hash do. */
  function Target(difficulty: int): nat
    requires difficulty <= 256
  {
    Pow2(256 - difficulty)
  }

  predicate Meets(c: Codec, hd: Header, nonce: int)
    requires hd.difficulty <= 256
  {
    BigEndian(HashAt(c, hd, nonce)) < Target(hd.difficulty)
  }

  /** The block passes `Validate`: the stored hash is the header's own and meets the target. */
  predicate Seals(c: Codec, hd: Header, hash: Bytes)
    requires hd.difficulty <= 256
  {
    Meets(c, hd, hd.nonce) && hash == HashAt(c, hd, hd.nonce)
  }

  predicate OwnsHash(c: Codec, hd: Header, hash: Bytes) {
    hash == HashAt(c, hd, hd.nonce)
  }

  const MAX_NONCE := 0x1000_0000_0000_0000

  /** The nonce whose hash a search with this result returns. */
  function Tried(nonce: int): int {
    if nonce < MAX_NONCE then nonce else MAX_NONCE - 1
  }

  /** No nonce below the cap meets the target. */
  ghost predicate Exhausted(c: Codec, hd: Header)
    requires hd.difficulty <= 256
  {
    forall n :: 0 <= n < MAX_NONCE ==> !Meets(c, hd, n)
  }

  /** The least nonce that meets the target, or the cap with the hash of the last nonce tried. */
  ghost predicate IsFound(c: Codec, hd: Header, nonce: int, hash: Bytes)
    requires hd.difficulty <= 256
  {
    if nonce < MAX_NONCE then
      && 0 <= nonce && Meets(c, hd, nonce) && hash == HashAt(c, hd, nonce)
      && forall n :: 0 <= n < nonce ==> !Meets(c, hd, n)
    else
      nonce == MAX_NONCE && Exhausted(c, hd) && hash == HashAt(c, hd, MAX_NONCE - 1)
  }

  /** Nonce and hash are what the search on this header comes to. */
  ghost predicate Searched(c: Codec, hd: Header, hash: Bytes)
    requires hd.difficulty <= 256
  {
    IsFound(c, hd, hd.nonce, hash)
  }

  method Run(c: Codec, hd: Header) returns (nonce: int, hash: Digest)
    requires hd.difficulty <= 256
    ensures IsFound(c, hd, nonce, hash)
  {
    nonce, hash := 0, seq(32, _ => 0);
    while nonce < MAX_NONCE
      invariant 0 <= nonce <= MAX_NONCE
      invariant forall n :: 0 <= n < nonce ==> !Meets(c, hd, n)
      invariant nonce > 0 ==> hash == HashAt(c, hd, nonce - 1)
    {
      hash := TryNonce(c, hd, nonce);
      if BigEndian(hash) < Target(hd.difficulty) {
        break;
      }
      nonce := nonce + 1;
    }
  }

  method TryNonce(c: Codec, hd: Header, nonce: int) returns (hash: Digest)
    requires hd.difficulty <= 256
    ensures hash == HashAt(c, hd, nonce)
    ensures BigEndian(hash) < Target(hd.difficulty) <==> Meets(c, hd, nonce)
  {
    hash := c.hash(PrepareData(c, hd, nonce));
  }

  /** What the search found does validate, unless it hit the cap; then a hash of its own gives a collision. */
  lemma FoundSeals(c: Codec, hd: Header, hash: Bytes)
    requires hd.difficulty <= 256 && Searched(c, hd, hash)
    ensures Seals(c, hd, hash) <==> hd.nonce < MAX_NONCE
    ensures hd.nonce >= MAX_NONCE && OwnsHash(c, hd, hash) ==> CapClash(c, hd)
  {
    if hd.nonce >= MAX_NONCE {
      NonceSeparates(c, hd, MAX_NONCE, MAX_NONCE - 1);
      assert !Meets(c, hd, MAX_NONCE - 1);
    }
  }

  /** The inputs of the cap and of the last nonce below it, told apart by `NonceSeparates`, collide. */
  predicate CapClash(c: Codec, hd: Header) {
    Collides(c.hash, PrepareData(c, hd, MAX_NONCE), PrepareData(c, hd, MAX_NONCE - 1))
  }

  /** The search looks at nothing but what is hashed and the difficulty. */
  lemma SameSearch(c: Codec, a: Header, b: Header, nonce: int, hash: Bytes)
    requires a.difficulty == b.difficulty <= 256
    requires BeforeNonce(c, a) == BeforeNonce(c, b) && a.accumulatorState == b.accumulatorState
    ensures IsFound(c, a, nonce, hash) ==> IsFound(c, b, nonce, hash)
  {
    if IsFound(c, a, nonce, hash) {
      forall n ensures Meets(c, a, n) <==> Meets(c, b, n) {
        assert HashAt(c, a, n) == HashAt(c, b, n);
      }
    }
  }

  /** Neither the nonce nor the signatures of a header are hashed with a nonce being tried. */
  lemma FoundKept(c: Codec, hd: Header, nonce: int, ids: seq<NodeID>, tried: int, hash: Bytes)
    requires hd.difficulty <= 256 && IsFound(c, hd, tried, hash)
    ensures IsFound(c, hd.(nonce := nonce, finalitySignatures := ids), tried, hash)
  {
    var other := hd.(nonce := nonce, finalitySignatures := ids);
    assert NumberFields(other) == NumberFields(hd);
    assert BeforeNonce(c, other) == BeforeNonce(c, hd);
    SameSearch(c, hd, other, tried, hash);
  }

  /** Different nonces are hashed as different bytes. */
  lemma NonceSeparates(c: Codec, hd: Header, m: nat, n: nat)
    ensures PrepareData(c, hd, m) == PrepareData(c, hd, n) ==> m == n
  {
    if PrepareData(c, hd, m) == PrepareData(c, hd, n) {
      MiddleEqual(BeforeNonce(c, hd), Digits(m), Digits(n), hd.accumulatorState);
      DecimalInjective(m, n);
    }
  }

  lemma MiddleEqual(a: Bytes, x: Bytes, y: Bytes, b: Bytes)
    requires a + x + b == a + y + b
    ensures x == y
  {
    assert |x| == |y|;
    assert x == (a + x + b)[|a|..|a| + |x|];
    assert y == (a + y + b)[|a|..|a| + |y|];
  }

  /**
   * The hashed bytes are longer than a hash, so the test meant to catch an exhausted search, whether
   * the hash equals those bytes, never fires.
   */
  lemma ExhaustionTestNeverFires(c: Codec, hd: Header, nonce: int, hash: Digest)
    requires |hd.merkleRoot| == 32
    ensures PrepareData(c, hd, nonce) != hash
  {
    assert |PrepareData(c, hd, nonce)| >= |hd.merkleRoot| + |Digits(nonce)|;
  }

  lemma FinalityKeepsHash(c: Codec, hd: Header, ids: seq<NodeID>, nonce: int)
    ensures HashAt(c, hd.(finalitySignatures := ids), nonce) == HashAt(c, hd, nonce)
  {
    var other := hd.(finalitySignatures := ids);
    assert NumberFields(other) == NumberFields(hd);
    assert BeforeNonce(c, other) == BeforeNonce(c, hd);
  }

  /** Finality signatures are not hashed: writing them leaves a valid block valid. */
  lemma FinalityKeepsSeal(c: Codec, hd: Header, ids: seq<NodeID>, hash: Bytes)
    requires hd.difficulty <= 256
    ensures Seals(c, hd.(finalitySignatures := ids), hash) <==> Seals(c, hd, hash)
    ensures OwnsHash(c, hd.(finalitySignatures := ids), hash) <==> OwnsHash(c, hd, hash)
  {
    FinalityKeepsHash(c, hd, ids, hd.nonce);
  }

  method Validate(c: Codec, header: Header, stored: Bytes) returns (valid: bool)
    requires header.difficulty <= 256
    ensures valid <==> Seals(c, header, stored)
  {
    var hash := c.hash(PrepareData(c, header, header.nonce));
    var isValidTarget := BigEndian(hash) < Target(header.difficulty);
    var isMatchingHash := hash == stored;
    valid := isValidTarget && isMatchingHash;
  }

  class Block {
    var Header: Header
    var Transactions: seq<Option<Bytes>>
    var Hash: Bytes

    constructor (header: Header, transactions: seq<Option<Bytes>>)
      ensures Header == header && Transactions == transactions && Hash == []
    {
      Header, Transactions, Hash := header, transactions, [];
    }

    /** Writes the finality list and nothing else: the block is as valid as before. */
    method Finalize(c: Codec, ids: seq<NodeID>)
      requires Header.difficulty <= 256
      modifies this`Header
      ensures Header == old(Header).(finalitySignatures := ids)
      ensures Seals(c, Header, Hash) <==> old(Seals(c, Header, Hash))
    {
      FinalityKeepsSeal(c, Header, ids, Hash);
      Header := Header.(finalitySignatures := ids);
    }
  }

  /** The IDs of the transactions, if all have one. */
  method CollectIDs(transactions: seq<Option<Bytes>>) returns (ids: Option<seq<Bytes>>)
    ensures ids.None? <==> None in transactions
    ensures ids.Some? ==> AreTheIDs(ids.value, transactions)
  {
    var collected := [];
    for i := 0 to |transactions|
      invariant |collected| == i
      invariant forall j :: 0 <= j < i ==> transactions[j] == Some(collected[j])
    {
      match transactions[i]
      case None =>
        return None;
      case Some(id) =>
        collected := collected + [id];
    }
    return Some(collected);
  }

  /** The header commits to the transactions' IDs in order; the accumulator repeats the root. */
  ghost predicate CommitsTo(h: Hash, hd: Header, transactions: seq<Option<Bytes>>) {
    && |hd.merkleRoot| == 32
    && hd.accumulatorState == (if transactions == [] then [] else hd.merkleRoot)
    && if transactions == [] then hd.merkleRoot == h([])
       else exists ids: seq<Bytes> :: AreTheIDs(ids, transactions) && hd.merkleRoot == RootHash(h, ids)
  }

  ghost predicate AreTheIDs(ids: seq<Bytes>, transactions: seq<Option<Bytes>>) {
    |ids| == |transactions| && forall i :: 0 <= i < |ids| ==> transactions[i] == Some(ids[i])
  }

  /** What is proposed on a draft: the draft's fields, the transactions, and what the search found. */
  ghost predicate IsProposal(c: Codec, draft: Header, transactions: seq<Option<Bytes>>, now: int, hd: Header, hash: Bytes) {
    && hd.prevBlockHash == draft.prevBlockHash && hd.height == draft.height && hd.shardID == draft.shardID
    && hd.stateRoot == draft.stateRoot && hd.proposerID == draft.proposerID && hd.difficulty == draft.difficulty <= 256
    && hd.vectorClock == Some(if draft.vectorClock.None? then map[] else draft.vectorClock.value)
    && hd.timestamp == now && hd.finalitySignatures == [] && hd.bloomFilter == []
    && CommitsTo(c.hash, hd, transactions)
    && Searched(c, hd, hash)
  }

  /**
   * A block on the given parent.  The exhausted search is not caught: such a block comes out too,
   * with a hash not its own.
   */
  method ProposeBlock(c: Codec, draft: Header, transactions: seq<Option<Bytes>>, now: int)
    returns (block: Result<Block>)
    requires draft.difficulty <= 256
    ensures block.Ok? <==> None !in transactions
    ensures block.Ok? ==> fresh(block.value) && block.value.Transactions == transactions
    ensures block.Ok? ==> IsProposal(c, draft, transactions, now, block.value.Header, block.value.Hash)
  {
    var ids := CollectIDs(transactions);
    if ids.None? {
      return Err("invalid transaction found");
    }
    var tree := NewMerkleTree(c.hash, ids.value);
    var clock := if draft.vectorClock.None? then map[] else draft.vectorClock.value;
    var header := draft.(
      merkleRoot := tree.root.data,
      accumulatorState := if transactions == [] then [] else tree.root.data,
      timestamp := now,
      vectorClock := Some(clock),
      bloomFilter := [],
      finalitySignatures := [],
      nonce := 0);
    var proposed := new Block(header, transactions);
    var nonce, hash := Run(c, header);
    ExhaustionTestNeverFires(c, header, nonce, hash);
    if hash == PrepareData(c, header, nonce) && nonce >= MAX_NONCE {
      assert false;
    }
    proposed.Header := proposed.Header.(nonce := nonce);
    proposed.Hash := hash;
    FoundKept(c, header, nonce, [], nonce, hash);
    return Ok(proposed);
  }
}
