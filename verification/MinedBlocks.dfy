/** What a mined block carries, field by field, and what mining it does to shard, chain and validators. */
module MinedBlocks {
  import opened Basics
  import opened Order
  import opened ClockLattice
  import opened Merkle
  import opened Blockchains
  import opened Consensus
  import Conflict
  import opened LedgerRuns
  import opened Mining
  import opened ProofsOfWork
  import opened Quorum
  import opened RegistryEffects
  import opened ShardSpec
  import opened ShardRuns
  import opened ShardManagers
  import opened Shards
  import opened StateStore
  import opened ValidatorSpec
  import opened Voting

  /** How many transactions a block takes: ten, or all there are. */
  function Count(pool: seq<Transaction>): (n: nat)
    ensures n <= |pool| && n <= 10 && (n == 10 || n == |pool|)
  {
    if |pool| < 10 then |pool| else 10
  }

  /** The shard after the block: the oldest are gone from the pool and applied in order, the size is that of the new state. */
  ghost predicate IsMoved(env: Conflict.Env<Bytes>, s: ShardState<Transaction>, t: ShardState<Transaction>) {
    var n := Count(s.pool);
    && t.pool == s.pool[n..] && (n > 0 ==> t.pending == |t.pool|) && (n == 0 ==> t.pending == s.pending)
    && t.data == Applied(env, s.data, s.pool[..n], n) && t.stateSize == |t.data|
  }

  lemma AfterBlockMoved(env: Conflict.Env<Bytes>, s: ShardState<Transaction>)
    ensures Taken(s) == s.pool[..Count(s.pool)] && IsMoved(env, s, AfterBlock(env, s))
  {
  }

  /** The block would be the first one above the genesis block, or there is no genesis block. */
  predicate IsFirst(chain: seq<Sealed>) {
    chain == [] || Successor(chain[|chain| - 1].header.height) <= 1
  }

  /** Only shard `id` moves, and only if there is a transaction or the block would be the first. */
  ghost predicate IsShardMoved(env: Conflict.Env<Bytes>, m: Manager<Transaction>, id: nat, chain: seq<Sealed>, v: Manager<Transaction>)
    requires id in m.shards
  {
    && v.ids == m.ids && v.ring == m.ring && v.next == m.next && v.shards.Keys == m.shards.Keys
    && (forall other :: other in m.shards && other != id ==> v.shards[other] == m.shards[other])
    && if m.shards[id].pool != [] || IsFirst(chain) then IsMoved(env, m.shards[id], v.shards[id]) else v == m
  }

  lemma PreparedShard(env: Conflict.Env<Bytes>, m: Manager<Transaction>, id: nat, chain: seq<Sealed>,
    transactions: seq<Option<Bytes>>, root: Option<Digest>, v: Manager<Transaction>)
    requires id in m.shards && IsPrepared(env, m, id, HeightAbove(HeadOf(chain)), transactions, root, v)
    ensures IsShardMoved(env, m, id, chain, v)
  {
    NextHeight(chain);
    AfterBlockMoved(env, m.shards[id]);
  }

  lemma MinedShard(env: Conflict.Env<Bytes>, s: System, id: nat, given: Setting, x: Attempt, b: Option<Sealed>, v: System)
    requires IsMining(env, s, id, given, x, b, v)
    ensures
      if id in s.shards.shards && x.proposer.Some? then IsShardMoved(env, s.shards, id, s.chain, v.shards)
      else b.None? && v == s
  {
    if id in s.shards.shards && x.proposer.Some? {
      PreparedOf(env, s, id, given, x, b, v);
      PreparedShard(env, s.shards, id, s.chain, x.transactions, x.root, v.shards);
    }
  }

  lemma PreparedOf(env: Conflict.Env<Bytes>, s: System, id: nat, given: Setting, x: Attempt, b: Option<Sealed>, v: System)
    requires IsMining(env, s, id, given, x, b, v) && id in s.shards.shards && x.proposer.Some?
    ensures IsPrepared(env, s.shards, id, HeightAbove(HeadOf(s.chain)), x.transactions, x.root, v.shards)
  {
  }

  // ---------------------------------------------------------------- the header

  /** The clock handed on from the head, empty if there is none. */
  function HandedOn(chain: seq<Sealed>): Clock<uint64> {
    if chain == [] || chain[|chain| - 1].header.vectorClock.None? then map[]
    else chain[|chain| - 1].header.vectorClock.value
  }

  /** The proposer named by the values: nobody eligible has a lower one. */
  ghost predicate HasLeastValue(r: Registry, values: map<NodeID, nat>, id: NodeID) {
    && id in r.standings && r.standings[id].active && r.standings[id].authenticated && id in values
    && forall other :: other in r.standings && r.standings[other].active && r.standings[other].authenticated && other in values
         ==> values[id] <= values[other]
  }

  /** The fields a round gives its block, from the head that was read. */
  ghost predicate AreFields(chain: seq<Sealed>, id: nat, given: Setting, proposer: NodeID, root: Bytes, hd: Header) {
    && hd.shardID == id && hd.proposerID == proposer && hd.difficulty == given.difficulty && hd.timestamp == given.now
    && hd.vectorClock == Some(HandedOn(chain)) && hd.stateRoot == root && hd.bloomFilter == []
    && hd.prevBlockHash == (if chain == [] then [] else chain[|chain| - 1].hash)
    && hd.height == (if chain == [] then 1 else Successor(chain[|chain| - 1].header.height))
  }

  /** The root over the transactions' IDs, in order, and the accumulator repeats it. */
  ghost predicate IsCommitment(h: Hash, hd: Header, txs: seq<Transaction>) {
    && hd.accumulatorState == (if txs == [] then [] else hd.merkleRoot)
    && if txs == [] then hd.merkleRoot == h([])
       else exists ids: seq<Bytes> ::
         && |ids| == |txs| && (forall i :: 0 <= i < |txs| ==> txs[i].id == Some(ids[i]))
         && hd.merkleRoot == RootHash(h, ids)
  }

  function Successor(n: uint64): uint64 {
    if n == 0xFFFF_FFFF_FFFF_FFFF then 0 else n + 1
  }

  lemma CommitsToTaken(h: Hash, hd: Header, transactions: seq<Option<Bytes>>, txs: seq<Transaction>)
    requires CommitsTo(h, hd, transactions) && AreIDs(transactions, txs)
    ensures IsCommitment(h, hd, txs)
  {
    if transactions != [] {
      var ids: seq<Bytes> :| AreTheIDs(ids, transactions) && hd.merkleRoot == RootHash(h, ids);
      assert forall i :: 0 <= i < |txs| ==> txs[i].id == Some(ids[i]);
    }
  }

  lemma NextHeight(chain: seq<Sealed>)
    ensures HeightAbove(HeadOf(chain)) == if chain == [] then 1 else Successor(chain[|chain| - 1].header.height)
  {
  }

  lemma HeadAndClock(chain: seq<Sealed>, clock: Option<Clock<uint64>>)
    requires clock == ClockOf(chain)
    ensures HeadOf(chain).hash == if chain == [] then [] else chain[|chain| - 1].hash
    ensures (if clock.None? then map[] else clock.value) == HandedOn(chain)
  {
  }

  lemma ProposedFields(c: Codec, chain: seq<Sealed>, id: nat, given: Setting, x: Attempt, hd: Header, hash: Bytes)
    requires x.proposer.Some? && x.root.Some? && x.clock == ClockOf(chain)
    requires
      var task := TaskOf(id, HeadOf(chain), given, x);
      IsProposal(c, task.draft, task.transactions, task.now, hd, hash)
    ensures AreFields(chain, id, given, x.proposer.value, x.root.value, hd) && CommitsTo(c.hash, hd, x.transactions)
  {
    NextHeight(chain);
    HeadAndClock(chain, x.clock);
  }

  /** A ballot was held on what the round worked on. */
  lemma BallotHeld(env: Conflict.Env<Bytes>, s: System, id: nat, given: Setting, x: Attempt, b: Option<Sealed>, v: System)
    requires IsMining(env, s, id, given, x, b, v) && id in s.shards.shards && x.proposer.Some? && x.root.Some?
    ensures x.clock == ClockOf(s.chain)
    ensures IsBallot(Codec(env.hash, env.serialize), TaskOf(id, HeadOf(s.chain), given, x), x.voted)
    ensures IsPrepared(env, s.shards, id, HeightAbove(HeadOf(s.chain)), x.transactions, x.root, v.shards)
    ensures HasLeastValue(s.validators, given.values, x.proposer.value)
  {
  }

  lemma PreparedState(env: Conflict.Env<Bytes>, m: Manager<Transaction>, id: nat, height: uint64,
    transactions: seq<Option<Bytes>>, root: Option<Digest>, v: Manager<Transaction>)
    requires id in m.shards && root.Some? && IsPrepared(env, m, id, height, transactions, root, v)
    ensures id in v.shards && IsStateRoot(env.hash, v.shards[id].data, root.value)
    ensures AreIDs(transactions, m.shards[id].pool[..Count(m.shards[id].pool)])
  {
    AfterBlockMoved(env, m.shards[id]);
  }

  /** The proposal of a round, final or not. */
  lemma VotedHeader(env: Conflict.Env<Bytes>, s: System, id: nat, given: Setting, x: Attempt, b: Option<Sealed>, v: System)
    requires IsMining(env, s, id, given, x, b, v) && id in s.shards.shards
    requires x.proposer.Some? && x.root.Some? && x.voted.Some?
    ensures id in v.shards.shards && HasLeastValue(s.validators, given.values, x.proposer.value)
    ensures IsStateRoot(env.hash, v.shards.shards[id].data, x.root.value)
    ensures AreFields(s.chain, id, given, x.proposer.value, x.root.value, x.voted.value.header)
    ensures
      var pool := s.shards.shards[id].pool;
      IsCommitment(env.hash, x.voted.value.header, pool[..Count(pool)])
  {
    var hd, pool := x.voted.value.header, s.shards.shards[id].pool;
    BallotHeld(env, s, id, given, x, b, v);
    PreparedState(env, s.shards, id, HeightAbove(HeadOf(s.chain)), x.transactions, x.root, v.shards);
    ProposedFields(Codec(env.hash, env.serialize), s.chain, id, given, x, hd, x.voted.value.hash);
    CommitsToTaken(env.hash, hd, x.transactions, pool[..Count(pool)]);
  }

  lemma SignedSameFields(c: Codec, standings: map<NodeID, Standing>, voted: Sealed, b: Sealed, votes: map<NodeID, Vote>)
    requires voted.header.difficulty <= 256 && IsSigned(c, standings, voted, b, votes)
    ensures b.header == voted.header.(finalitySignatures := b.header.finalitySignatures) && b.hash == voted.hash
  {
  }

  /**
   * A block that came out of mining carries: the root of the very state its shard is left in, its
   * shard, proposer, difficulty and time, the head's hash, clock and next height, and the IDs taken.
   */
  lemma MinedHeader(env: Conflict.Env<Bytes>, s: System, id: nat, given: Setting, x: Attempt, b: Option<Sealed>, v: System)
    requires IsMining(env, s, id, given, x, b, v) && b.Some?
    ensures id in s.shards.shards && id in v.shards.shards && x.proposer.Some? && |b.value.header.stateRoot| == 32
    ensures HasLeastValue(s.validators, given.values, x.proposer.value)
    ensures IsStateRoot(env.hash, v.shards.shards[id].data, b.value.header.stateRoot)
    ensures AreFields(s.chain, id, given, x.proposer.value, b.value.header.stateRoot, b.value.header)
    ensures
      var pool := s.shards.shards[id].pool;
      IsCommitment(env.hash, b.value.header, pool[..Count(pool)])
  {
    VotedHeader(env, s, id, given, x, b, v);
    SignedSameFields(Codec(env.hash, env.serialize), s.validators.standings, x.voted.value, b.value, given.votes);
  }

  // ---------------------------------------------------------------- the chain

  /** The block behind what was there, and of that only the last `keep` blocks if pruning is on. */
  ghost predicate IsGrown(before: seq<Sealed>, b: Sealed, keep: int, after: seq<Sealed>) {
    var grown := before + [b];
    if keep > 0 && |grown| > keep then after == grown[|grown| - keep..] else after == grown
  }

  lemma GainedGrown(c: Codec, standings: map<NodeID, Standing>, before: seq<Sealed>, after: seq<Sealed>, b: Sealed,
    votes: map<NodeID, Vote>, keep: int)
    requires Gained(c, standings, before, after, b, votes, keep)
    ensures IsGrown(before, b, keep, after) && before != []
  {
  }

  /** A block is stored on a chain that has a head, and the chain is as before when none is. */
  lemma MinedChain(env: Conflict.Env<Bytes>, s: System, id: nat, given: Setting, x: Attempt, b: Option<Sealed>, v: System)
    requires IsMining(env, s, id, given, x, b, v)
    ensures if b.Some? then s.chain != [] && IsGrown(s.chain, b.value, given.pruneKeepBlocks, v.chain) else v.chain == s.chain
  {
    if b.Some? {
      RoundOf(env, s, id, given, x, b, v);
      GainedGrown(Codec(env.hash, env.serialize), s.validators.standings, s.chain, v.chain, b.value, given.votes, given.pruneKeepBlocks);
    }
  }

  lemma RoundOf(env: Conflict.Env<Bytes>, s: System, id: nat, given: Setting, x: Attempt, b: Option<Sealed>, v: System)
    requires IsMining(env, s, id, given, x, b, v) && id in s.shards.shards && x.proposer.Some? && x.root.Some?
    ensures IsRound(Codec(env.hash, env.serialize), s.validators, s.chain, TaskOf(id, HeadOf(s.chain), given, x), x.voted, b,
      v.validators, v.chain)
  {
  }

  lemma LinksExactly(chain: seq<Sealed>, id: nat, given: Setting, proposer: NodeID, root: Bytes, a: Sealed)
    requires AreFields(chain, id, given, proposer, root, a.header)
    ensures Links(chain, a) <==> chain != []
  {
  }

  /** Undisturbed, a block is stored exactly if there is a chain to store it on and the vote made it final. */
  lemma StoredExactly(env: Conflict.Env<Bytes>, s: System, id: nat, given: Setting, x: Attempt, b: Option<Sealed>, v: System)
    requires IsMining(env, s, id, given, x, b, v)
    ensures b.Some? <==>
      && id in s.shards.shards && x.proposer.Some? && x.root.Some? && x.voted.Some? && s.chain != []
      && x.voted.value.header.difficulty <= 256
      && IsFinal(Codec(env.hash, env.serialize), s.validators.standings, x.voted.value.header, x.voted.value.hash, given.votes)
  {
    if id in s.shards.shards && x.proposer.Some? && x.root.Some? && x.voted.Some? {
      RoundOf(env, s, id, given, x, b, v);
      VotedHeader(env, s, id, given, x, b, v);
      LinksExactly(s.chain, id, given, x.proposer.value, x.root.value, x.voted.value);
    }
  }

  lemma StoredSigned(env: Conflict.Env<Bytes>, s: System, id: nat, given: Setting, x: Attempt, b: Option<Sealed>, v: System)
    requires IsMining(env, s, id, given, x, b, v) && b.Some?
    ensures x.voted.Some? && x.voted.value.header.difficulty <= 256
    ensures IsSigned(Codec(env.hash, env.serialize), s.validators.standings, x.voted.value, b.value, given.votes)
    ensures IsFinal(Codec(env.hash, env.serialize), s.validators.standings, x.voted.value.header, x.voted.value.hash, given.votes)
  {
    RoundOf(env, s, id, given, x, b, v);
  }

  /** The stored block is the one voted on, with exactly those who signed it well, each once and in order. */
  lemma MinedSigners(env: Conflict.Env<Bytes>, s: System, id: nat, given: Setting, x: Attempt, b: Option<Sealed>, v: System, who: NodeID)
    requires IsMining(env, s, id, given, x, b, v) && b.Some?
    ensures x.voted.Some? && x.voted.value.header.difficulty <= 256
    ensures b.value.hash == x.voted.value.hash
    ensures b.value.header == x.voted.value.header.(finalitySignatures := b.value.header.finalitySignatures)
    ensures HasSigned(Codec(env.hash, env.serialize), s.validators.standings, x.voted.value, b.value, given.votes, who)
  {
    StoredSigned(env, s, id, given, x, b, v);
    SignedSameFields(Codec(env.hash, env.serialize), s.validators.standings, x.voted.value, b.value, given.votes);
    SignersListed(Codec(env.hash, env.serialize), s.validators.standings, x.voted.value, b.value, given.votes, who);
  }

  // ---------------------------------------------------------------- reputations

  /** Loses 5 for a signature that does not verify, if the block is valid and this one may vote. */
  ghost predicate CountsAsBad(c: Codec, r: Registry, a: Sealed, votes: map<NodeID, Vote>, id: NodeID)
    requires a.header.difficulty <= 256
  {
    && id in r.standings && r.standings[id].active && r.standings[id].authenticated
    && id in votes && votes[id] == SignsBadly && Seals(c, a.header, a.hash)
  }

  /** What the vote does to one validator. */
  lemma VoteEffect(c: Codec, r: Registry, a: Sealed, votes: map<NodeID, Vote>, id: NodeID)
    requires a.header.difficulty <= 256 && id in r.standings
    ensures
      var v := AfterBlockVote(c, r, a.header, a.hash, votes);
      && id in v.standings
      && if CountsAsBad(c, r, a, votes, id) then IsAdjusted(r.standings[id], -5, v.standings[id])
         else v.standings[id] == r.standings[id]
  {
    PenalizedEffect(r, BadSigners(Eligible(r.standings), Seals(c, a.header, a.hash), votes), id);
  }

  /** By how much the round itself changes the proposer: 1 for a stored block, -2 for one that was not final. */
  function Change(final: bool, stored: bool): int64 {
    if stored then 1 else if final then 0 else -2
  }

  /** One validator through a round: the vote first, then, for the proposer, the outcome. */
  ghost predicate IsRated(c: Codec, r: Registry, a: Sealed, votes: map<NodeID, Vote>, proposer: NodeID, stored: bool,
    id: NodeID, voted: Standing, after: Standing)
    requires a.header.difficulty <= 256 && id in r.standings
  {
    && (if CountsAsBad(c, r, a, votes, id) then IsAdjusted(r.standings[id], -5, voted) else voted == r.standings[id])
    && var change := Change(IsFinal(c, r.standings, a.header, a.hash, votes), stored);
       if id != proposer || change == 0 then after == voted else IsAdjusted(voted, change, after)
  }

  lemma RoundRates(c: Codec, r: Registry, before: seq<Sealed>, task: Task, a: Sealed, b: Option<Sealed>,
    v: Registry, after: seq<Sealed>, id: NodeID) returns (voted: Standing)
    requires IsRound(c, r, before, task, Some(a), b, v, after) && id in r.standings
    ensures a.header.difficulty <= 256 && id in v.standings
    ensures IsRated(c, r, a, task.votes, task.draft.proposerID, b.Some?, id, voted, v.standings[id])
  {
    var polled := AfterBlockVote(c, r, a.header, a.hash, task.votes);
    VoteEffect(c, r, a, task.votes, id);
    voted := polled.standings[id];
    AdjustEffect(polled, task.draft.proposerID, -2);
    AdjustEffect(polled, task.draft.proposerID, 1);
  }

  /** Every validator after a whole round, by name; without a vote nobody changes. */
  lemma MinedRatings(env: Conflict.Env<Bytes>, s: System, id: nat, given: Setting, x: Attempt, b: Option<Sealed>, v: System, who: NodeID)
    returns (voted: Standing)
    requires IsMining(env, s, id, given, x, b, v) && who in s.validators.standings
    ensures who in v.validators.standings
    ensures
      if x.proposer.Some? && id in s.shards.shards && x.root.Some? && x.voted.Some? then
        && x.voted.value.header.difficulty <= 256
        && IsRated(Codec(env.hash, env.serialize), s.validators, x.voted.value, given.votes, x.proposer.value, b.Some?,
             who, voted, v.validators.standings[who])
      else v.validators == s.validators
  {
    voted := s.validators.standings[who];
    if x.proposer.Some? && id in s.shards.shards && x.root.Some? {
      RoundOf(env, s, id, given, x, b, v);
      if x.voted.Some? {
        voted := RoundRates(Codec(env.hash, env.serialize), s.validators, s.chain, TaskOf(id, HeadOf(s.chain), given, x),
          x.voted.value, b, v.validators, v.chain, who);
      }
    }
  }
}
