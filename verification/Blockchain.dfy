/** The chains themselves: head, append, prune, look up, and mining one block. */
module Blockchains {
  import opened Basics
  import opened ClockLattice
  import opened Merkle
  import opened Quorum
  import opened ProofsOfWork
  import opened ValidatorSpec
  import opened Voting
  import opened Validators
  import opened LedgerRuns

  ghost function SealedOf(b: Block): Sealed
    reads b
  {
    Sealed(b.Header, b.Hash)
  }

  /** A chain as the runs see it. */
  ghost function View(blocks: seq<Block>): (view: seq<Sealed>)
    reads blocks
    ensures |view| == |blocks|
  {
    if blocks == [] then [] else View(blocks[..|blocks| - 1]) + [SealedOf(blocks[|blocks| - 1])]
  }

  lemma {:induction false} ViewAt(blocks: seq<Block>, i: nat)
    requires i < |blocks|
    ensures View(blocks)[i] == SealedOf(blocks[i])
  {
    if i < |blocks| - 1 {
      ViewAt(blocks[..|blocks| - 1], i);
    }
  }

  lemma {:induction false} ViewDrop(blocks: seq<Block>, n: nat)
    requires n <= |blocks|
    ensures View(blocks[n..]) == View(blocks)[n..]
  {
    if n < |blocks| {
      var front := blocks[..|blocks| - 1];
      ViewDrop(front, n);
      assert blocks[n..][..|blocks| - n - 1] == front[n..];
    }
  }

  class Blockchain {
    var BlockChains: map<nat, seq<Block>>

    constructor ()
      ensures BlockChains == map[]
    {
      BlockChains := map[];
    }

    function ChainOf(shardID: nat): seq<Block>
      reads this
    {
      if shardID in BlockChains then BlockChains[shardID] else []
    }

    ghost function ViewOf(shardID: nat): seq<Sealed>
      reads this, ChainOf(shardID)
    {
      View(ChainOf(shardID))
    }

    method ReadHead(shardID: nat) returns (head: Head, clock: Option<Clock<uint64>>)
      ensures head == HeadOf(ViewOf(shardID))
      ensures clock == ClockOf(ViewOf(shardID))
    {
      if shardID in BlockChains && |BlockChains[shardID]| > 0 {
        var chain := BlockChains[shardID];
        var lastBlock := chain[|chain| - 1];
        return Head(lastBlock.Hash, lastBlock.Header.height), lastBlock.Header.vectorClock;
      }
      return Head([], 0), Some(map[]);
    }

    /** The parent check and the append, under one lock.  A shard without a chain gets an empty one. */
    method AppendBlock(shardID: nat, block: Block) returns (ok: bool)
      modifies this
      ensures ok == Links(old(ViewOf(shardID)), SealedOf(block))
      ensures ChainOf(shardID) == if ok then old(ChainOf(shardID)) + [block] else old(ChainOf(shardID))
      ensures ViewOf(shardID) == if ok then old(ViewOf(shardID)) + [SealedOf(block)] else old(ViewOf(shardID))
      ensures BlockChains - {shardID} == old(BlockChains) - {shardID}
    {
      if shardID !in BlockChains {
        BlockChains := BlockChains[shardID := []];
      }
      var currentChain := BlockChains[shardID];
      var isFirstRealBlock := block.Header.height == 1;
      var parentMismatch := false;
      if isFirstRealBlock {
        if |currentChain| == 0 {
          parentMismatch := true;
        } else {
          var genesisBlock := currentChain[|currentChain| - 1];
          if genesisBlock.Header.height != 0 {
            parentMismatch := true;
          } else if genesisBlock.Hash != block.Header.prevBlockHash {
            parentMismatch := true;
          }
        }
      } else {
        if |currentChain| == 0 {
          parentMismatch := true;
        } else if currentChain[|currentChain| - 1].Hash != block.Header.prevBlockHash {
          parentMismatch := true;
        }
      }
      if parentMismatch {
        return false;
      }
      assert (currentChain + [block])[..|currentChain|] == currentChain;
      BlockChains := BlockChains[shardID := currentChain + [block]];
      return true;
    }

    /** Keeps the last blocks only; the head stays. */
    method PruneChain(shardID: nat, minBlocksToKeep: nat)
      modifies this
      ensures ViewOf(shardID) == Pruned(old(ViewOf(shardID)), minBlocksToKeep)
      ensures BlockChains - {shardID} == old(BlockChains) - {shardID}
    {
      if shardID !in BlockChains || |BlockChains[shardID]| <= minBlocksToKeep {
        return;
      }
      var chain := BlockChains[shardID];
      var pruneCount := |chain| - minBlocksToKeep;
      ViewDrop(chain, pruneCount);
      BlockChains := BlockChains[shardID := chain[pruneCount..]];
    }

    /** The latest block with the hash, searched for from the head down. */
    method GetBlock(shardID: nat, blockHash: Bytes) returns (found: Option<Block>)
      ensures found.None? <==> forall b :: b in ChainOf(shardID) ==> b.Hash != blockHash
      ensures found.Some? ==> found.value.Hash == blockHash
      ensures found.Some? ==> exists i ::
        && 0 <= i < |ChainOf(shardID)| && ChainOf(shardID)[i] == found.value
        && forall j :: i < j < |ChainOf(shardID)| ==> ChainOf(shardID)[j].Hash != blockHash
    {
      if shardID !in BlockChains {
        return None;
      }
      var chain := BlockChains[shardID];
      var i := |chain|;
      while i > 0
        invariant 0 <= i <= |chain|
        invariant forall j :: i <= j < |chain| ==> chain[j].Hash != blockHash
      {
        i := i - 1;
        if chain[i].Hash == blockHash {
          return Some(chain[i]);
        }
      }
      return None;
    }

    method GetLatestBlock(shardID: nat) returns (latest: Option<Block>)
      ensures latest == if ChainOf(shardID) == [] then None else Some(ChainOf(shardID)[|ChainOf(shardID)| - 1])
    {
      if shardID !in BlockChains || |BlockChains[shardID]| == 0 {
        return None;
      }
      var chain := BlockChains[shardID];
      return Some(chain[|chain| - 1]);
    }
  }

  /** The first block of a shard, fit to start a chain; there is none if its transaction has no ID. */
  method NewGenesisBlock(c: Codec, shardID: uint64, coinbase: Option<Bytes>, difficulty: int, genesisProposerID: NodeID, now: int)
    returns (genesis: Option<Block>)
    requires difficulty <= 256
    ensures genesis.None? <==> coinbase.None?
    ensures genesis.Some? ==> fresh(genesis.value) && IsGenesis(c, coinbase.value, SealedOf(genesis.value))
    ensures genesis.Some? ==>
      genesis.value.Header.finalitySignatures == [if genesisProposerID == [] then GENESIS else genesisProposerID]
    ensures genesis.Some? ==> genesis.value.Transactions == [coinbase]
    ensures genesis.Some? ==>
      var hd := genesis.value.Header;
      && hd.vectorClock == Some(map[shardID := 1]) && hd.shardID == shardID && hd.difficulty == difficulty
      && hd.timestamp == now && hd.stateRoot == c.hash([])
      && hd.proposerID == if genesisProposerID == [] then GENESIS else genesisProposerID
  {
    var emptyStateRoot := c.hash([]);
    var genesisProposer := if genesisProposerID == [] then GENESIS else genesisProposerID;
    var draft := Header(shardID, 0, [], [], emptyStateRoot, 0, 0, difficulty, [], genesisProposer, [],
                        Some(map[shardID := 1]), []);
    var proposed := ProposeBlock(c, draft, [coinbase], now);
    if proposed.Err? {
      assert None in [coinbase];
      return None;
    }
    var block := proposed.value;
    LoneID(c.hash, coinbase, block.Header);
    ghost var hd := block.Header;
    block.Finalize(c, [genesisProposer]);
    FinalityKeepsHash(c, hd, [genesisProposer], Tried(hd.nonce));
    return Some(block);
  }

  /** "GENESIS". */
  const GENESIS: NodeID := [71, 69, 78, 69, 83, 73, 83]

  lemma LoneID(h: Hash, coinbase: Option<Bytes>, hd: Header)
    requires coinbase.Some? && CommitsTo(h, hd, [coinbase])
    ensures hd.merkleRoot == RootHash(h, [coinbase.value])
  {
    var ids: seq<Bytes> :| AreTheIDs(ids, [coinbase]) && hd.merkleRoot == RootHash(h, ids);
    assert [coinbase][0] == Some(ids[0]);
    assert ids == [coinbase.value];
  }

  /** The header a miner starts from. */
  function Draft(shardID: nat, head: Head, clock: Option<Clock<uint64>>, stateRoot: Bytes, difficulty: int, proposerID: NodeID): Header {
    Header(shardID, 0, head.hash, [], stateRoot, 0, HeightAbove(head), difficulty, [], proposerID, [], clock, [])
  }

  /** What the proposer's and the voters' reputations come to; `voted` is the block as it went to the vote. */
  ghost function AfterMining(c: Codec, r: Registry, proposerID: NodeID, voted: Option<Sealed>, votes: map<NodeID, Vote>): Registry
    requires voted.Some? ==> voted.value.header.difficulty <= 256
  {
    match voted
    case None => r
    case Some(b) =>
      var after := AfterBlockVote(c, r, b.header, b.hash, votes);
      if IsFinal(c, r.standings, b.header, b.hash, votes) then after else Adjust(after, proposerID, -2)
  }

  /** The block with the signers of its vote written in. */
  ghost predicate IsSigned(c: Codec, standings: map<NodeID, Standing>, voted: Sealed, b: Sealed, votes: map<NodeID, Vote>)
    requires voted.header.difficulty <= 256
  {
    && b.hash == voted.hash
    && IsSignedOff(OutcomeOf(c, standings, voted.header, voted.hash, votes), voted.header, b.header)
  }

  /** What a miner works on. */
  datatype Task = Task(draft: Header, transactions: seq<Option<Bytes>>, now: int, votes: map<NodeID, Vote>, pruneKeepBlocks: int)

  predicate OnTop(head: Head, draft: Header) {
    draft.difficulty <= 256 && draft.prevBlockHash == head.hash && draft.height == HeightAbove(head)
  }

  /** The proposal that goes to the vote: none if a transaction has no ID. */
  ghost predicate IsBallot(c: Codec, task: Task, voted: Option<Sealed>) {
    && (voted.None? <==> None in task.transactions)
    && (voted.Some? ==> IsProposal(c, task.draft, task.transactions, task.now, voted.value.header, voted.value.hash))
  }

  ghost predicate Wins(c: Codec, r: Registry, task: Task, voted: Option<Sealed>) {
    && voted.Some? && voted.value.header.difficulty <= 256
    && IsFinal(c, r.standings, voted.value.header, voted.value.hash, task.votes)
  }

  /** The final block is the one voted on, signed; the registry moves from r to v. */
  ghost predicate IsVote(c: Codec, r: Registry, head: Head, task: Task, voted: Option<Sealed>, b: Option<Sealed>, v: Registry) {
    && IsBallot(c, task, voted)
    && v == AfterMining(c, r, task.draft.proposerID, voted, task.votes)
    && (b.Some? <==> Wins(c, r, task, voted))
    && (b.Some? ==> IsSigned(c, r.standings, voted.value, b.value, task.votes))
    && (b.Some? ==> IsCandidate(c, r.standings, head, b.value, task.votes))
  }

  ghost function SealedIf(mined: Result<Block>): (b: Option<Sealed>)
    reads if mined.Ok? then {mined.value} else {}
  {
    match mined
    case Ok(block) => Some(SealedOf(block))
    case Err(_) => None
  }

  /**
   * Proposes a block on the head that was read and puts it to the vote.  What comes out final is a
   * candidate on that head, with its signatures written in; a proposer whose block is not final
   * loses reputation.
   */
  method MineBlock(c: Codec, vm: ValidatorManager, ghost r: Registry, ghost head: Head, task: Task)
    returns (mined: Result<Block>, ghost voted: Option<Sealed>, ghost b: Option<Sealed>, ghost v: Registry)
    requires vm.Wired() && r == vm.Abs() && OnTop(head, task.draft)
    modifies vm`ReputationScores, vm`standings, vm.owned
    ensures vm.Wired() && v == vm.Abs() && b == SealedIf(mined)
    ensures IsVote(c, r, head, task, voted, b, v)
    ensures mined.Ok? ==> fresh(mined.value) && mined.value.Transactions == task.transactions
  {
    voted, b, v := None, None, r;
    var proposed := ProposeBlock(c, task.draft, task.transactions, task.now);
    if proposed.Err? {
      NoVote(c, r, head, task);
      return Err("invalid transaction found"), voted, b, v;
    }
    ghost var a := SealedOf(proposed.value);
    var final;
    final, b, v := Decide(c, vm, r, head, task, proposed.value, a);
    voted := Some(a);
    if !final {
      return Err("block finalization failed"), voted, b, v;
    }
    return proposed, voted, b, v;
  }

  /** Vote and penalty. */
  method Decide(c: Codec, vm: ValidatorManager, ghost r: Registry, ghost head: Head, task: Task, block: Block, ghost a: Sealed)
    returns (final: bool, ghost b: Option<Sealed>, ghost v: Registry)
    requires vm.Wired() && r == vm.Abs() && OnTop(head, task.draft)
    requires a == SealedOf(block) && IsBallot(c, task, Some(a))
    modifies vm`ReputationScores, vm`standings, vm.owned, block`Header
    ensures vm.Wired() && v == vm.Abs() && b == if final then Some(SealedOf(block)) else None
    ensures IsVote(c, r, head, task, Some(a), b, v)
  {
    final := Confirm(c, vm, r, block, a, task.votes);
    v := vm.Abs();
    if final {
      b := Some(SealedOf(block));
      VoteWon(c, r, head, task, a, b.value, v);
    } else {
      VoteLost(c, r, head, task, a, v);
      vm.UpdateReputation(task.draft.proposerID, -2);
      b, v := None, vm.Abs();
    }
  }

  lemma NoVote(c: Codec, r: Registry, head: Head, task: Task)
    requires None in task.transactions
    ensures IsVote(c, r, head, task, None, None, r)
  {
  }

  lemma VoteLost(c: Codec, r: Registry, head: Head, task: Task, a: Sealed, v: Registry)
    requires IsBallot(c, task, Some(a)) && v == AfterBlockVote(c, r, a.header, a.hash, task.votes)
    requires !IsFinal(c, r.standings, a.header, a.hash, task.votes)
    ensures IsVote(c, r, head, task, Some(a), None, Adjust(v, task.draft.proposerID, -2))
  {
  }

  lemma VoteWon(c: Codec, r: Registry, head: Head, task: Task, a: Sealed, b: Sealed, v: Registry)
    requires IsBallot(c, task, Some(a)) && v == AfterBlockVote(c, r, a.header, a.hash, task.votes)
    requires IsFinal(c, r.standings, a.header, a.hash, task.votes) && IsSigned(c, r.standings, a, b, task.votes)
    requires OnTop(head, task.draft)
    ensures IsVote(c, r, head, task, Some(a), Some(b), v)
  {
    SignedIsCandidate(c, r.standings, head, a, b, task.votes);
  }

  /** The vote on a proposed block. */
  method Confirm(c: Codec, vm: ValidatorManager, ghost r: Registry, block: Block, ghost voted: Sealed, votes: map<NodeID, Vote>)
    returns (final: bool)
    requires vm.Wired() && r == vm.Abs() && voted == SealedOf(block) && voted.header.difficulty <= 256
    modifies vm`ReputationScores, vm`standings, vm.owned, block`Header
    ensures vm.Wired() && vm.Abs() == AfterBlockVote(c, r, voted.header, voted.hash, votes)
    ensures final <==> IsFinal(c, r.standings, voted.header, voted.hash, votes)
    ensures IsSigned(c, r.standings, voted, SealedOf(block), votes)
  {
    var outcome, _ := vm.FinalizeBlockDBFT(c, block, votes);
    final := outcome.Voted? && outcome.reached;
  }

  /** The signatures change neither what was found nor that it is final. */
  lemma SignedIsCandidate(c: Codec, standings: map<NodeID, Standing>, head: Head, voted: Sealed, b: Sealed, votes: map<NodeID, Vote>)
    requires voted.header.difficulty <= 256 && Searched(c, voted.header, voted.hash)
    requires IsFinal(c, standings, voted.header, voted.hash, votes) && IsSigned(c, standings, voted, b, votes)
    requires OnHead(head, voted) && |voted.header.merkleRoot| == 32
    ensures IsCandidate(c, standings, head, b, votes)
  {
    var hd, ids := voted.header, b.header.finalitySignatures;
    assert b.header == hd.(finalitySignatures := ids) == hd.(nonce := hd.nonce, finalitySignatures := ids);
    FoundKept(c, hd, hd.nonce, ids, hd.nonce, voted.hash);
    SignaturesKeepVote(c, Registry(standings, map[], map[]), hd, ids, voted.hash, votes);
  }

  function Kept(chain: seq<Sealed>, pruneKeepBlocks: int): seq<Sealed> {
    if pruneKeepBlocks > 0 then Pruned(chain, pruneKeepBlocks) else chain
  }

  /** The chain gained a block that was mined on its head and is final, and was pruned. */
  ghost predicate Gained(c: Codec, standings: map<NodeID, Standing>, before: seq<Sealed>, after: seq<Sealed>, b: Sealed,
    votes: map<NodeID, Vote>, pruneKeepBlocks: int)
  {
    && Links(before, b) && IsCandidate(c, standings, HeadOf(before), b, votes)
    && after == Kept(before + [b], pruneKeepBlocks)
  }

  /** Appends the block if it links, and prunes. */
  method Store(bc: Blockchain, shardID: nat, block: Block, pruneKeepBlocks: int) returns (ok: bool)
    modifies bc
    ensures ok == Links(old(bc.ViewOf(shardID)), SealedOf(block))
    ensures bc.ViewOf(shardID) ==
      if ok then Kept(old(bc.ViewOf(shardID)) + [SealedOf(block)], pruneKeepBlocks) else old(bc.ViewOf(shardID))
  {
    ok := bc.AppendBlock(shardID, block);
    if ok && pruneKeepBlocks > 0 {
      bc.PruneChain(shardID, pruneKeepBlocks);
    }
  }

  method StoreCandidate(bc: Blockchain, shardID: nat, block: Block, pruneKeepBlocks: int, ghost c: Codec,
    ghost standings: map<NodeID, Standing>, ghost votes: map<NodeID, Vote>, ghost before: seq<Sealed>, ghost b: Sealed)
    returns (ok: bool, ghost after: seq<Sealed>)
    requires before == bc.ViewOf(shardID) && b == SealedOf(block)
    requires IsCandidate(c, standings, HeadOf(before), b, votes)
    modifies bc
    ensures bc.ViewOf(shardID) == after && ok == Links(before, b)
    ensures if ok then Gained(c, standings, before, after, b, votes, pruneKeepBlocks) else after == before
  {
    ok := Store(bc, shardID, block, pruneKeepBlocks);
    after := bc.ViewOf(shardID);
  }

  method Reward(bc: Blockchain, vm: ValidatorManager, ghost shardID: nat, proposerID: NodeID)
    requires vm.Wired()
    modifies vm`ReputationScores, vm`standings, vm.owned
    ensures vm.Wired() && bc.ViewOf(shardID) == old(bc.ViewOf(shardID))
    ensures vm.Abs() == Adjust(old(vm.Abs()), proposerID, 1)
  {
    vm.UpdateReputation(proposerID, 1);
  }

  method StoreAndReward(bc: Blockchain, vm: ValidatorManager, shardID: nat, block: Block, proposerID: NodeID,
    pruneKeepBlocks: int, ghost c: Codec, ghost standings: map<NodeID, Standing>, ghost votes: map<NodeID, Vote>,
    ghost before: seq<Sealed>, ghost b: Sealed)
    returns (ok: bool, ghost after: seq<Sealed>)
    requires before == bc.ViewOf(shardID) && b == SealedOf(block)
    requires vm.Wired() && IsCandidate(c, standings, HeadOf(before), b, votes)
    modifies bc, vm`ReputationScores, vm`standings, vm.owned
    ensures vm.Wired() && bc.ViewOf(shardID) == after && unchanged(block)
    ensures ok == Links(before, b)
    ensures vm.Abs() == if ok then Adjust(old(vm.Abs()), proposerID, 1) else old(vm.Abs())
    ensures if ok then Gained(c, standings, before, after, b, votes, pruneKeepBlocks) else after == before
  {
    ok, after := StoreCandidate(bc, shardID, block, pruneKeepBlocks, c, standings, votes, before, b);
    if ok {
      Reward(bc, vm, shardID, proposerID);
    }
  }

  /** A block on the head as it is now, without storing it. */
  method MineOnHead(c: Codec, bc: Blockchain, ghost shardID: nat, ghost view: seq<Sealed>, vm: ValidatorManager,
    ghost r: Registry, task: Task)
    returns (mined: Result<Block>, ghost voted: Option<Sealed>, ghost b: Option<Sealed>, ghost v: Registry)
    requires vm.Wired() && r == vm.Abs() && view == bc.ViewOf(shardID) && OnTop(HeadOf(view), task.draft)
    modifies vm`ReputationScores, vm`standings, vm.owned
    ensures vm.Wired() && v == vm.Abs() && b == SealedIf(mined) && view == bc.ViewOf(shardID)
    ensures IsVote(c, r, HeadOf(view), task, voted, b, v)
    ensures mined.Ok? ==> mined.value.Transactions == task.transactions
  {
    mined, voted, b, v := MineBlock(c, vm, r, HeadOf(view), task);
  }

  /**
   * A whole round on a chain: the block voted on is stored, signed, if it wins and links, and its
   * proposer is rewarded for it; otherwise the chain is as before.
   */
  ghost predicate IsRound(c: Codec, r: Registry, before: seq<Sealed>, task: Task, voted: Option<Sealed>, b: Option<Sealed>,
    v: Registry, after: seq<Sealed>)
  {
    && IsBallot(c, task, voted)
    && (b.Some? <==> Wins(c, r, task, voted) && Links(before, voted.value))
    && (b.Some? ==> IsSigned(c, r.standings, voted.value, b.value, task.votes))
    && (b.Some? ==> Gained(c, r.standings, before, after, b.value, task.votes, task.pruneKeepBlocks))
    && (b.None? ==> after == before)
    && var settled := AfterMining(c, r, task.draft.proposerID, voted, task.votes);
       v == if b.Some? then Adjust(settled, task.draft.proposerID, 1) else settled
  }

  lemma RoundStored(c: Codec, r: Registry, before: seq<Sealed>, task: Task, voted: Option<Sealed>, b: Sealed,
    settled: Registry, ok: bool, v: Registry, after: seq<Sealed>)
    requires IsVote(c, r, HeadOf(before), task, voted, Some(b), settled) && ok == Links(before, b)
    requires v == if ok then Adjust(settled, task.draft.proposerID, 1) else settled
    requires if ok then Gained(c, r.standings, before, after, b, task.votes, task.pruneKeepBlocks) else after == before
    ensures IsRound(c, r, before, task, voted, if ok then Some(b) else None, v, after)
  {
    assert b.header.height == voted.value.header.height && b.header.prevBlockHash == voted.value.header.prevBlockHash;
  }

  lemma RoundLost(c: Codec, r: Registry, before: seq<Sealed>, task: Task, voted: Option<Sealed>, b: Option<Sealed>,
    settled: Registry, after: seq<Sealed>)
    requires IsVote(c, r, HeadOf(before), task, voted, b, settled) && b.None? && after == before
    ensures IsRound(c, r, before, task, voted, b, settled, after)
  {
  }

  /** The final block is stored and its proposer rewarded, if the block still links. */
  method StoreWinner(c: Codec, bc: Blockchain, shardID: nat, ghost before: seq<Sealed>, vm: ValidatorManager, ghost r: Registry,
    task: Task, block: Block, ghost voted: Option<Sealed>, ghost a: Sealed)
    returns (stored: Result<Block>, ghost b: Option<Sealed>, ghost v: Registry, ghost after: seq<Sealed>)
    requires vm.Wired() && before == bc.ViewOf(shardID) && a == SealedOf(block)
    requires IsVote(c, r, HeadOf(before), task, voted, Some(a), vm.Abs())
    modifies bc, vm`ReputationScores, vm`standings, vm.owned
    ensures vm.Wired() && b == SealedIf(stored) && v == vm.Abs() && after == bc.ViewOf(shardID)
    ensures stored.Ok? ==> stored.value.Transactions == old(block.Transactions)
    ensures IsRound(c, r, before, task, voted, b, v, after)
  {
    ghost var settled := vm.Abs();
    var ok;
    ok, after := StoreAndReward(bc, vm, shardID, block, task.draft.proposerID, task.pruneKeepBlocks, c, r.standings,
                                    task.votes, before, a);
    v := vm.Abs();
    RoundStored(c, r, before, task, voted, a, settled, ok, v, after);
    if !ok {
      return Err("proposed block does not link correctly to the chain"), None, v, after;
    }
    return Ok(block), Some(a), v, after;
  }

  /** What becomes of a vote's result. */
  method Conclude(c: Codec, bc: Blockchain, shardID: nat, ghost before: seq<Sealed>, vm: ValidatorManager, ghost r: Registry,
    task: Task, final: Result<Block>, ghost voted: Option<Sealed>, ghost a: Option<Sealed>)
    returns (mined: Result<Block>, ghost b: Option<Sealed>, ghost v: Registry, ghost after: seq<Sealed>)
    requires vm.Wired() && before == bc.ViewOf(shardID) && a == SealedIf(final)
    requires IsVote(c, r, HeadOf(before), task, voted, a, vm.Abs())
    modifies bc, vm`ReputationScores, vm`standings, vm.owned
    ensures vm.Wired() && b == SealedIf(mined) && v == vm.Abs() && after == bc.ViewOf(shardID)
    ensures mined.Ok? ==> final.Ok? && mined.value.Transactions == old(final.value.Transactions)
    ensures IsRound(c, r, before, task, voted, b, v, after)
  {
    if final.Err? {
      RoundLost(c, r, before, task, voted, a, vm.Abs(), before);
      return final, None, vm.Abs(), before;
    }
    mined, b, v, after := StoreWinner(c, bc, shardID, before, vm, r, task, final.value, voted, a.value);
  }

  /** Everything after the state has moved on: block, vote, append, reward, prune. */
  method MineAndStore(c: Codec, bc: Blockchain, shardID: nat, ghost before: seq<Sealed>, vm: ValidatorManager,
    ghost r: Registry, task: Task)
    returns (mined: Result<Block>, ghost voted: Option<Sealed>, ghost b: Option<Sealed>, ghost v: Registry, ghost after: seq<Sealed>)
    requires vm.Wired() && r == vm.Abs() && before == bc.ViewOf(shardID) && OnTop(HeadOf(before), task.draft)
    modifies bc, vm`ReputationScores, vm`standings, vm.owned
    ensures vm.Wired() && b == SealedIf(mined) && v == vm.Abs() && after == bc.ViewOf(shardID)
    ensures IsRound(c, r, before, task, voted, b, v, after)
    ensures mined.Ok? ==> mined.value.Transactions == task.transactions
  {
    var final;
    ghost var a;
    final, voted, a, v := MineOnHead(c, bc, shardID, before, vm, r, task);
    mined, b, v, after := Conclude(c, bc, shardID, before, vm, r, task, final, voted, a);
  }
}
