/** Mining a block for a shard: what happens to its pool, its state and its chain. */
module Mining {
  import opened Basics
  import opened ClockLattice
  import opened Blockchains
  import Conflict
  import opened LedgerRuns
  import opened ProofsOfWork
  import opened ShardSpec
  import opened ShardRuns
  import opened ShardManagers
  import opened Shards
  import opened StateStore
  import opened ValidatorSpec
  import opened Validators
  import opened Voting

  /** What a block of at most ten takes from a shard. */
  function Taken(s: ShardState<Transaction>): seq<Transaction> {
    s.pool[..Min(|s.pool|, 10)]
  }

  /** A shard after a block of what was taken from it. */
  function AfterBlock(env: Conflict.Env<Bytes>, s: ShardState<Transaction>): ShardState<Transaction> {
    Executed(env, Dequeue(s, 10), Taken(s))
  }

  /** Above height 1 an empty pool gives no block. */
  predicate NothingToMine(s: ShardState<Transaction>, height: uint64) {
    s.pool == [] && height > 1
  }

  ghost predicate AreIDs(ids: seq<Option<Bytes>>, txs: seq<Transaction>) {
    |ids| == |txs| && forall i :: 0 <= i < |ids| ==> ids[i] == txs[i].id
  }

  function IDsOf(txs: seq<Transaction>): (ids: seq<Option<Bytes>>)
    ensures AreIDs(ids, txs)
  {
    if txs == [] then [] else IDsOf(txs[..|txs| - 1]) + [txs[|txs| - 1].id]
  }

  /** What preparing a block for shard `id` leaves of the shards, and the transactions and state root it gives. */
  ghost predicate IsPrepared(env: Conflict.Env<Bytes>, m: Manager<Transaction>, id: nat, height: uint64,
    transactions: seq<Option<Bytes>>, root: Option<Digest>, v: Manager<Transaction>)
    requires id in m.shards
  {
    var s := m.shards[id];
    && AreIDs(transactions, Taken(s))
    && (root.None? <==> NothingToMine(s, height))
    && v == (if root.None? then m else m.(shards := m.shards[id := AfterBlock(env, s)]))
    && (root.Some? ==> IsStateRoot(env.hash, AfterBlock(env, s).data, root.value))
  }

  lemma TakenIsPrepared(env: Conflict.Env<Bytes>, m: Manager<Transaction>, id: nat, height: uint64,
    txs: seq<Transaction>, transactions: seq<Option<Bytes>>, root: Option<Digest>, v: Manager<Transaction>)
    requires id in m.shards && AreIDs(transactions, txs)
    requires IsTaken(env, m.shards, id, 10, height > 1, txs, root, v.shards) && v == m.(shards := v.shards)
    ensures IsPrepared(env, m, id, height, transactions, root, v)
  {
  }

  /** Preparing a block keeps all structures in step. */
  lemma PreparedInStep(env: Conflict.Env<Bytes>, cfg: Config, m: Manager<Transaction>, id: nat, height: uint64,
    transactions: seq<Option<Bytes>>, root: Option<Digest>, v: Manager<Transaction>)
    requires id in m.shards && InStep(cfg, m) && IsPrepared(env, m, id, height, transactions, root, v)
    ensures InStep(cfg, v)
  {
    if root.Some? {
      UpdatedInStep(cfg, m, v, id, AfterBlock(env, m.shards[id]));
    }
  }

  /** Drains the shard for a block and applies what was drained; nothing drained is fine for height 1 only. */
  method Take(env: Conflict.Env<Bytes>, sm: ShardManager, shard: Shard, ghost m: Manager<Transaction>, id: nat, needed: bool)
    returns (txs: seq<Transaction>, root: Option<Digest>, ghost v: Manager<Transaction>)
    requires sm.Wired() && m == sm.Abs() && id in sm.shards && id in m.shards && shard == sm.shards[id]
    modifies sm`states, shard, shard.StateDB
    ensures sm.Wired() && v == sm.Abs() == m.(shards := v.shards)
    ensures IsTaken(env, m.shards, id, 10, needed, txs, root, v.shards)
  {
    txs, root := sm.TakeBlock(env, m.shards, id, 10, needed);
    v := sm.Abs();
  }

  /** Validators are left alone. */
  method TakeBeside(env: Conflict.Env<Bytes>, sm: ShardManager, shard: Shard, ghost m: Manager<Transaction>, id: nat, needed: bool,
    ghost vm: ValidatorManager, ghost r: Registry)
    returns (txs: seq<Transaction>, root: Option<Digest>, ghost v: Manager<Transaction>)
    requires sm.Wired() && m == sm.Abs() && id in sm.shards && id in m.shards && shard == sm.shards[id]
    requires vm.Wired() && r == vm.Abs()
    modifies sm`states, shard, shard.StateDB
    ensures sm.Wired() && v == sm.Abs() == m.(shards := v.shards)
    ensures IsTaken(env, m.shards, id, 10, needed, txs, root, v.shards)
    ensures vm.Wired() && r == vm.Abs()
  {
    txs, root, v := Take(env, sm, shard, m, id, needed);
    ManagerKept(vm);
  }

  twostate lemma ManagerKept(vm: ValidatorManager)
    requires old(vm.Wired()) && unchanged(vm) && unchanged(vm.owned) && unchanged(vm.members)
    ensures vm.Wired() && vm.Abs() == old(vm.Abs())
  {
  }

  /** And so is the chain. */
  method TakeBesideBoth(env: Conflict.Env<Bytes>, sm: ShardManager, shard: Shard, ghost m: Manager<Transaction>, id: nat, needed: bool,
    ghost bc: Blockchain, ghost chain: seq<Sealed>, ghost vm: ValidatorManager, ghost r: Registry)
    returns (txs: seq<Transaction>, root: Option<Digest>, ghost v: Manager<Transaction>)
    requires sm.Wired() && m == sm.Abs() && id in sm.shards && id in m.shards && shard == sm.shards[id]
    requires vm.Wired() && r == vm.Abs() && chain == bc.ViewOf(id)
    modifies sm`states, shard, shard.StateDB
    ensures sm.Wired() && v == sm.Abs() == m.(shards := v.shards)
    ensures IsTaken(env, m.shards, id, 10, needed, txs, root, v.shards)
    ensures vm.Wired() && r == vm.Abs() && chain == bc.ViewOf(id)
  {
    txs, root, v := TakeBeside(env, sm, shard, m, id, needed, vm, r);
  }

  /** A round on the chain; the shards are left alone. */
  method MineBeside(c: Codec, bc: Blockchain, shardID: nat, ghost chain: seq<Sealed>, vm: ValidatorManager,
    ghost r: Registry, task: Task, ghost sm: ShardManager, ghost v: Manager<Transaction>)
    returns (mined: Result<Block>, ghost voted: Option<Sealed>, ghost b: Option<Sealed>, ghost s: Registry, ghost after: seq<Sealed>)
    requires sm.Wired() && v == sm.Abs()
    requires vm.Wired() && r == vm.Abs() && chain == bc.ViewOf(shardID) && OnTop(HeadOf(chain), task.draft)
    modifies bc, vm`ReputationScores, vm`standings, vm.owned
    ensures sm.Wired() && v == sm.Abs()
    ensures vm.Wired() && b == SealedIf(mined) && s == vm.Abs() && after == bc.ViewOf(shardID)
    ensures IsRound(c, r, chain, task, voted, b, s, after)
    ensures mined.Ok? ==> mined.value.Transactions == task.transactions
  {
    mined, voted, b, s, after := MineAndStore(c, bc, shardID, chain, vm, r, task);
    ShardsKept(sm);
  }

  twostate lemma ShardsKept(sm: ShardManager)
    requires old(sm.Wired()) && unchanged(sm) && unchanged(sm.owned) && unchanged(sm.homes.Keys)
    ensures sm.Wired() && sm.Abs() == old(sm.Abs())
  {
  }

  // ---------------------------------------------------------------- a whole round

  /** The rest of the configuration and of the outside world. */
  datatype Setting = Setting(difficulty: int, now: int, pruneKeepBlocks: int, values: map<NodeID, nat>, votes: map<NodeID, Vote>)

  /** What a round went through: proposer, transactions and state root, as far as there were any. */
  datatype Attempt = Attempt(
    clock: Option<Clock<uint64>>,
    proposer: Option<NodeID>,
    transactions: seq<Option<Bytes>>,
    root: Option<Digest>,
    voted: Option<Sealed>)

  function TaskOf(id: nat, head: Head, given: Setting, x: Attempt): Task
    requires x.proposer.Some? && x.root.Some?
  {
    Task(Draft(id, head, x.clock, x.root.value, given.difficulty, x.proposer.value), x.transactions, given.now, given.votes,
         given.pruneKeepBlocks)
  }

  /** Shards, registry and chain as values. */
  datatype System = System(shards: Manager<Transaction>, validators: Registry, chain: seq<Sealed>)

  /** Without a state root there is no block; otherwise a round on the chain with what was prepared. */
  ghost predicate IsFinished(c: Codec, r: Registry, chain: seq<Sealed>, id: nat, given: Setting, x: Attempt, b: Option<Sealed>,
    v: Registry, after: seq<Sealed>)
    requires x.proposer.Some?
  {
    if x.root.None? then b.None? && v == r && after == chain
    else IsRound(c, r, chain, TaskOf(id, HeadOf(chain), given, x), x.voted, b, v, after)
  }

  /** A round that found a proposer: the shard moves on if there is anything to mine, whatever comes of the block. */
  ghost predicate IsMinedBy(env: Conflict.Env<Bytes>, s: System, id: nat, given: Setting, x: Attempt, b: Option<Sealed>, v: System)
    requires id in s.shards.shards && x.proposer.Some?
  {
    && x.clock == ClockOf(s.chain)
    && IsPrepared(env, s.shards, id, HeightAbove(HeadOf(s.chain)), x.transactions, x.root, v.shards)
    && IsFinished(Codec(env.hash, env.serialize), s.validators, s.chain, id, given, x, b, v.validators, v.chain)
  }

  /** One miner's whole round for shard `id`, nobody else in between; nothing happens without shard or proposer. */
  ghost predicate IsMining(env: Conflict.Env<Bytes>, s: System, id: nat, given: Setting, x: Attempt, b: Option<Sealed>, v: System) {
    && IsDelegate(Eligible(s.validators.standings), given.values, x.proposer)
    && if id in s.shards.shards && x.proposer.Some? then IsMinedBy(env, s, id, given, x, b, v) else b.None? && v == s
  }

  /** Drains and applies for a block. */
  method PrepareShard(env: Conflict.Env<Bytes>, sm: ShardManager, shard: Shard, ghost m: Manager<Transaction>, id: nat, height: uint64,
    ghost bc: Blockchain, ghost chain: seq<Sealed>, ghost vm: ValidatorManager, ghost r: Registry)
    returns (transactions: seq<Option<Bytes>>, root: Option<Digest>, ghost v: Manager<Transaction>)
    requires sm.Wired() && m == sm.Abs() && id in sm.shards && id in m.shards && shard == sm.shards[id]
    requires vm.Wired() && r == vm.Abs() && chain == bc.ViewOf(id)
    modifies sm`states, shard, shard.StateDB
    ensures sm.Wired() && v == sm.Abs() && IsPrepared(env, m, id, height, transactions, root, v)
    ensures vm.Wired() && r == vm.Abs() && chain == bc.ViewOf(id)
  {
    var txs;
    txs, root, v := TakeBesideBoth(env, sm, shard, m, id, height > 1, bc, chain, vm, r);
    transactions := IDsOf(txs);
    TakenIsPrepared(env, m, id, height, txs, transactions, root, v);
  }

  lemma RoundCompleted(env: Conflict.Env<Bytes>, s: System, id: nat, given: Setting, x: Attempt, b: Option<Sealed>,
    shards: Manager<Transaction>, r: Registry, chain: seq<Sealed>, v: System)
    requires id in s.shards.shards && x.proposer.Some? && x.clock == ClockOf(s.chain) && v == System(shards, r, chain)
    requires IsPrepared(env, s.shards, id, HeightAbove(HeadOf(s.chain)), x.transactions, x.root, shards)
    requires IsFinished(Codec(env.hash, env.serialize), s.validators, s.chain, id, given, x, b, r, chain)
    ensures IsMinedBy(env, s, id, given, x, b, v)
  {
  }

  /** Mines on what was prepared, if anything was. */
  method FinishRound(c: Codec, bc: Blockchain, id: nat, ghost chain: seq<Sealed>, vm: ValidatorManager, ghost r: Registry,
    given: Setting, head: Head, prepared: Attempt, ghost sm: ShardManager, ghost shards: Manager<Transaction>)
    returns (mined: Result<Block>, ghost x: Attempt, ghost b: Option<Sealed>, ghost v: Registry, ghost after: seq<Sealed>)
    requires sm.Wired() && shards == sm.Abs()
    requires vm.Wired() && r == vm.Abs() && chain == bc.ViewOf(id)
    requires given.difficulty <= 256 && head == HeadOf(chain) && prepared.proposer.Some?
    modifies bc, vm`ReputationScores, vm`standings, vm.owned
    ensures sm.Wired() && shards == sm.Abs() && vm.Wired() && v == vm.Abs() && after == bc.ViewOf(id)
    ensures b == SealedIf(mined) && x == prepared.(voted := x.voted)
    ensures IsFinished(c, r, chain, id, given, x, b, v, after)
    ensures mined.Ok? ==> mined.value.Transactions == prepared.transactions
  {
    x, b, v, after := prepared, None, r, chain;
    if prepared.root.None? {
      return Err("no transactions to mine"), x, b, v, after;
    }
    ghost var voted;
    mined, voted, b, v, after := MineBeside(c, bc, id, chain, vm, r, TaskOf(id, head, given, prepared), sm, shards);
    x := x.(voted := voted);
  }

  /** The same after preparing. */
  method CompleteRound(env: Conflict.Env<Bytes>, bc: Blockchain, id: nat, ghost s: System, vm: ValidatorManager,
    given: Setting, head: Head, prepared: Attempt, ghost sm: ShardManager, ghost shards: Manager<Transaction>)
    returns (mined: Result<Block>, ghost x: Attempt, ghost b: Option<Sealed>, ghost v: System)
    requires sm.Wired() && shards == sm.Abs()
    requires vm.Wired() && s.validators == vm.Abs() && s.chain == bc.ViewOf(id)
    requires given.difficulty <= 256 && head == HeadOf(s.chain) && prepared.clock == ClockOf(s.chain)
    requires prepared.proposer.Some? && id in s.shards.shards
    requires IsPrepared(env, s.shards, id, HeightAbove(head), prepared.transactions, prepared.root, shards)
    modifies bc, vm`ReputationScores, vm`standings, vm.owned
    ensures sm.Wired() && v.shards == sm.Abs() && vm.Wired() && v.validators == vm.Abs() && v.chain == bc.ViewOf(id)
    ensures b == SealedIf(mined) && x.proposer == prepared.proposer && IsMinedBy(env, s, id, given, x, b, v)
    ensures mined.Ok? ==> mined.value.Transactions == x.transactions
  {
    ghost var r, after;
    mined, x, b, r, after := FinishRound(Codec(env.hash, env.serialize), bc, id, s.chain, vm, s.validators, given, head, prepared, sm, shards);
    v := System(shards, r, after);
    RoundCompleted(env, s, id, given, x, b, shards, r, after, v);
  }

  method MineAs(env: Conflict.Env<Bytes>, bc: Blockchain, vm: ValidatorManager, sm: ShardManager, shard: Shard, ghost s: System,
    id: nat, given: Setting, head: Head, clock: Option<Clock<uint64>>, proposer: NodeID)
    returns (mined: Result<Block>, ghost x: Attempt, ghost b: Option<Sealed>, ghost v: System)
    requires sm.Wired() && s.shards == sm.Abs() && id in sm.shards && id in s.shards.shards && shard == sm.shards[id]
    requires vm.Wired() && s.validators == vm.Abs() && s.chain == bc.ViewOf(id)
    requires given.difficulty <= 256 && head == HeadOf(s.chain) && clock == ClockOf(s.chain)
    modifies bc, vm`ReputationScores, vm`standings, vm.owned
    modifies sm`states, shard, shard.StateDB
    ensures sm.Wired() && v.shards == sm.Abs() && vm.Wired() && v.validators == vm.Abs() && v.chain == bc.ViewOf(id)
    ensures b == SealedIf(mined) && x.proposer == Some(proposer) && IsMinedBy(env, s, id, given, x, b, v)
    ensures mined.Ok? ==> mined.value.Transactions == x.transactions
  {
    var transactions, root, shards := PrepareShard(env, sm, shard, s.shards, id, HeightAbove(head), bc, s.chain, vm, s.validators);
    var prepared := Attempt(clock, Some(proposer), transactions, root, None);
    mined, x, b, v := CompleteRound(env, bc, id, s, vm, given, head, prepared, sm, shards);
  }

  /** A round leaves all shard structures in step. */
  lemma MiningInStep(env: Conflict.Env<Bytes>, cfg: Config, s: System, id: nat, given: Setting, x: Attempt, b: Option<Sealed>, v: System)
    requires InStep(cfg, s.shards) && IsMining(env, s, id, given, x, b, v)
    ensures InStep(cfg, v.shards)
  {
    if id in s.shards.shards && x.proposer.Some? {
      PreparedInStep(env, cfg, s.shards, id, HeightAbove(HeadOf(s.chain)), x.transactions, x.root, v.shards);
    }
  }

  /** What a round starts from. */
  method LookUp(bc: Blockchain, vm: ValidatorManager, sm: ShardManager, ghost s: System, id: nat, values: map<NodeID, nat>)
    returns (shard: Option<Shard>, head: Head, clock: Option<Clock<uint64>>, proposer: Option<NodeID>)
    requires sm.Wired() && vm.Wired() && s == System(sm.Abs(), vm.Abs(), bc.ViewOf(id))
    ensures sm.Wired() && vm.Wired() && s == System(sm.Abs(), vm.Abs(), bc.ViewOf(id))
    ensures shard.Some? <==> id in s.shards.shards
    ensures shard.Some? ==> id in sm.shards && shard.value == sm.shards[id]
    ensures shard.Some? ==> shard.value in sm.owned && shard.value.StateDB in sm.homes
    ensures head == HeadOf(s.chain) && clock == ClockOf(s.chain)
    ensures IsDelegate(Eligible(s.validators.standings), values, proposer)
  {
    shard := sm.GetShard(id);
    head, clock := bc.ReadHead(id);
    proposer := vm.SelectDelegateWithVRF(values);
    if shard.Some? {
      assert sm.WiredAt(id);
    }
  }

  /** The round itself. */
  method MineIfPossible(env: Conflict.Env<Bytes>, bc: Blockchain, vm: ValidatorManager, sm: ShardManager, ghost s: System,
    id: nat, given: Setting)
    returns (mined: Result<Block>, ghost x: Attempt, ghost b: Option<Sealed>, ghost v: System)
    requires sm.Wired() && vm.Wired() && s == System(sm.Abs(), vm.Abs(), bc.ViewOf(id)) && given.difficulty <= 256
    modifies bc, vm`ReputationScores, vm`standings, vm.owned
    modifies sm`states, sm.owned, sm.homes.Keys
    ensures sm.Wired() && vm.Wired() && v == System(sm.Abs(), vm.Abs(), bc.ViewOf(id))
    ensures b == SealedIf(mined) && IsMining(env, s, id, given, x, b, v)
    ensures mined.Ok? ==> mined.value.Transactions == x.transactions
  {
    var shard, head, clock, proposer := LookUp(bc, vm, sm, s, id, given.values);
    x, b, v := Attempt(clock, proposer, [], None, None), None, s;
    if shard.None? {
      return Err("could not get shard for mining"), x, b, v;
    }
    if proposer.None? {
      return Err("failed to select proposer using VRF"), x, b, v;
    }
    mined, x, b, v := MineAs(env, bc, vm, sm, shard.value, s, id, given, head, clock, proposer.value);
  }

  /**
   * One miner's whole round for a shard.  The drained transactions are not put back when no block
   * comes of it.
   */
  method MineShardBlock(env: Conflict.Env<Bytes>, bc: Blockchain, vm: ValidatorManager, sm: ShardManager, ghost s: System,
    id: nat, given: Setting)
    returns (mined: Result<Block>, ghost x: Attempt, ghost b: Option<Sealed>, ghost v: System)
    requires sm.Valid() && vm.Wired() && s == System(sm.Abs(), vm.Abs(), bc.ViewOf(id)) && given.difficulty <= 256
    modifies bc, vm`ReputationScores, vm`standings, vm.owned
    modifies sm`states, sm.owned, sm.homes.Keys
    ensures sm.Valid() && vm.Wired() && v == System(sm.Abs(), vm.Abs(), bc.ViewOf(id))
    ensures b == SealedIf(mined) && IsMining(env, s, id, given, x, b, v)
    ensures mined.Ok? ==> mined.value.Transactions == x.transactions
  {
    mined, x, b, v := MineIfPossible(env, bc, vm, sm, s, id, given);
    MiningInStep(env, sm.config, s, id, given, x, b, v);
  }
}
