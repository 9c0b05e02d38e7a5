/** The shard manager itself: objects, ring and ID slice updated in place, against `ShardSpec`. */
module ShardManagers {
  import opened Basics
  import opened Order
  import Conflict
  import opened StateStore
  import opened ShardSpec
  import opened ShardRuns
  import opened Shards

  /** The consistent-hash ring: it answers some member, and fails only when it has none. */
  method RingGet(ring: set<Bytes>, key: Bytes) returns (member: Option<Bytes>)
    ensures member.None? <==> ring == {}
    ensures member.Some? ==> member.value in ring
  {
    if ring == {} {
      return None;
    }
    var m :| m in ring;
    return Some(m);
  }

  class ShardManager {
    const config: Config
    var shards: map<nat, Shard>
    var shardIDs: seq<nat>
    var ring: set<Bytes>
    var nextShardID: nat
    var linked: bool

    /** Every live shard's content, kept equal to the objects by `Wired`. */
    ghost var states: map<nat, ShardState<Transaction>>

    /** Every shard the manager has created, and whose store is whose. */
    ghost var owned: set<Shard>
    ghost var homes: map<InMemoryStateDB, nat>

    /** Shards sit under their own IDs, run, share no store, and hold what `states` says. */
    ghost predicate Wired()
      reads this`shards, this`states, this`owned, this`homes, owned, homes.Keys
    {
      && states.Keys == shards.Keys
      && forall id :: id in shards ==> WiredAt(id)
    }

    ghost predicate WiredAt(id: nat)
      requires id in shards
      reads this`shards, this`states, this`owned, this`homes, owned, homes.Keys
    {
      HeldAt(id) && id in states && shards[id].State() == states[id]
    }

    ghost predicate HeldAt(id: nat)
      requires id in shards
      reads this`shards, this`owned, this`homes, owned
    {
      var shard := shards[id];
      && shard in owned && shard.ID == id && !shard.Stopped
      && shard.StateDB in homes && homes[shard.StateDB] == id
    }

    /** Shards and stores that were not there before are new objects. */
    twostate predicate Grown(shardsBefore: set<Shard>, storesBefore: set<InMemoryStateDB>)
      reads this
    {
      && (forall s :: s in owned ==> s in shardsBefore || fresh(s))
      && (forall d :: d in homes ==> d in storesBefore || fresh(d))
    }

    ghost function Abs(): Manager<Transaction>
      reads this
    {
      Manager(states, shardIDs, ring, nextShardID)
    }

    ghost predicate Valid()
      reads this, owned, homes.Keys
    {
      Wired() && InStep(config, Abs())
    }

    constructor Empty(config: Config)
      ensures this.config == config && !linked
      ensures Wired() && Abs() == Initial(0) && owned == {} && homes == map[]
    {
      this.config := config;
      shards, shardIDs, ring, nextShardID, linked := map[], [], {}, 0, false;
      states, owned, homes := map[], {}, map[];
    }

    method SetBlockchainLink()
      requires Valid()
      modifies this`linked
      ensures Valid() && linked && Abs() == old(Abs())
    {
      linked := true;
    }

    method GetShard(id: nat) returns (shard: Option<Shard>)
      ensures shard == if id in shards then Some(shards[id]) else None
    {
      shard := if id in shards then Some(shards[id]) else None;
    }

    /** Always a live shard: no error return and no fallback of the routing is reachable. */
    method DetermineShard(key: Bytes) returns (shardID: nat)
      requires Valid()
      ensures shardID in shards && Decimal(shardID) in ring
    {
      RingMember(shards.Keys, shardIDs[0]);
      if |shardIDs| == 0 || ring == {} {
        assert false;
      }
      var member := RingGet(ring, key);
      if member.None? {
        assert false;
      }
      ghost var id :| id in shards && member.value == Decimal(id);
      DecimalRoundTrip(id);
      match ParseDecimal(member.value) {
        case None =>
          assert false;
        case Some(parsed) =>
          if parsed !in shards {
            assert false;
          }
          return parsed;
      }
    }

    /**
     * The copy is sorted by insertion with the source's comparator, which compares an element of
     * the copy with one of the original slice.  It never asks for a swap, so the mix-up is harmless.
     */
    method GetAllShardIDs() returns (ids: seq<nat>)
      requires StrictlySorted(shardIDs)
      ensures ids == shardIDs
    {
      var idsCopy := shardIDs;
      for j := 0 to |idsCopy|
        invariant idsCopy == shardIDs
      {
        if j > 0 && idsCopy[j] < shardIDs[j - 1] {
          assert false;
        }
      }
      ids := idsCopy;
    }

    /** Puts a shard into the map. */
    method Insert(shard: Shard)
      requires Wired() && shard.ID !in shards && shard.StateDB !in homes
      requires !shard.Stopped && shard.State() == EmptyShard()
      modifies this`shards, this`states, this`owned, this`homes
      ensures Wired() && states == old(states)[shard.ID := EmptyShard()]
      ensures owned == old(owned) + {shard} && homes == old(homes)[shard.StateDB := shard.ID]
    {
      shards := shards[shard.ID := shard];
      states := states[shard.ID := EmptyShard()];
      owned, homes := owned + {shard}, homes[shard.StateDB := shard.ID];
      forall id | id in shards ensures WiredAt(id) {
        if id != shard.ID {
          assert old(WiredAt(id));
        }
      }
    }

    /** A new, empty shard under a new ID. */
    method Adopt(id: nat)
      requires Wired() && id !in shards
      modifies this`shards, this`states, this`owned, this`homes
      ensures Wired() && states == old(states)[id := EmptyShard()]
      ensures Grown(old(owned), old(homes.Keys))
    {
      var shard := new Shard(id);
      Insert(shard);
    }

    /** The counter moves on; ring and slice gain the ID. */
    method Register(id: nat)
      modifies this`shardIDs, this`ring, this`nextShardID
      ensures shardIDs == old(shardIDs) + [id] && ring == old(ring) + {Decimal(id)} && nextShardID == id + 1
    {
      nextShardID := id + 1;
      ring := ring + {Decimal(id)};
      shardIDs := shardIDs + [id];
    }

    /** A new, empty shard under the next ID; the slice may need sorting afterwards. */
    method Extend()
      requires Wired() && nextShardID !in shards
      modifies this`shards, this`shardIDs, this`ring, this`nextShardID, this`states, this`owned, this`homes
      ensures Wired() && Abs() == Split(old(Abs())) && Grown(old(owned), old(homes.Keys))
    {
      Adopt(nextShardID);
      Register(nextShardID);
    }

    method Resort()
      requires StrictlySorted(shardIDs)
      modifies this`shardIDs
      ensures shardIDs == old(shardIDs)
    {
      shardIDs := SortIDs(shardIDs);
    }

    method Grow()
      requires Wired() && nextShardID !in shards && StrictlySorted(shardIDs + [nextShardID])
      modifies this`shards, this`shardIDs, this`ring, this`nextShardID, this`states, this`owned, this`homes
      ensures Wired() && Abs() == Split(old(Abs())) && Grown(old(owned), old(homes.Keys))
    {
      Extend();
      Resort();
    }

    /** Fills a new manager; the slice is sorted once all IDs are in. */
    method Populate(n: nat)
      requires Wired() && Abs() == Initial(0)
      modifies this`shards, this`shardIDs, this`ring, this`nextShardID, this`states, this`owned, this`homes
      ensures Wired() && Abs() == Initial(n) && Grown(old(owned), old(homes.Keys))
    {
      for i := 0 to n
        invariant Wired() && Abs() == Initial(i) && Grown(old(owned), old(homes.Keys))
      {
        InitialReady(i, Abs());
        Extend();
      }
      InitialReady(n, Abs());
      Resort();
    }

    /** Fails without a blockchain; otherwise the new shard starts empty, whichever shard asked for it. */
    method TriggerSplit(sourceShardID: nat) returns (ok: bool)
      requires Wired() && nextShardID !in shards && StrictlySorted(shardIDs + [nextShardID])
      requires sourceShardID in shards
      modifies this`shards, this`shardIDs, this`ring, this`nextShardID, this`states, this`owned, this`homes
      ensures Wired() && ok == linked
      ensures Abs() == if ok then Split(old(Abs())) else old(Abs())
      ensures Grown(old(owned), old(homes.Keys))
      ensures !ok ==> owned == old(owned) && homes == old(homes)
    {
      if linked {
        Grow();
      }
      return linked;
    }

    /** Moves shard b's content into shard a; b is stopped but still in the map. */
    method Pour(a: nat, b: nat)
      requires Wired() && a in shards && b in shards && a != b
      modifies this`states, owned, homes.Keys
      ensures states == old(states)[a := MergeShards(old(states)[a], old(states)[b])]
      ensures forall id :: id in shards && id != b ==> WiredAt(id)
    {
      assert WiredAt(a) && WiredAt(b);
      Absorb(shards[a], shards[b]);
      states := states[a := MergeShards(states[a], states[b])];
      forall id | id in shards && id != b ensures WiredAt(id) {
        assert old(WiredAt(id));
      }
    }

    method Forget(b: nat)
      requires states.Keys == shards.Keys
      requires forall id :: id in shards && id != b ==> WiredAt(id)
      modifies this`shards, this`states
      ensures Wired() && states == old(states) - {b}
    {
      states := states - {b};
      shards := shards - {b};
      forall id | id in shards ensures WiredAt(id) {
        assert old(WiredAt(id));
      }
    }

    method Fuse(a: nat, b: nat)
      requires Wired() && a in shards && b in shards && a != b
      modifies this`shards, this`states, owned, homes.Keys
      ensures Wired()
      ensures states == (old(states) - {b})[a := MergeShards(old(states)[a], old(states)[b])]
    {
      Pour(a, b);
      Forget(b);
      UpdateThenDrop(old(states), a, b, MergeShards(old(states)[a], old(states)[b]));
    }

    method Unregister(id: nat)
      modifies this`shardIDs, this`ring
      ensures shardIDs == Remove(old(shardIDs), id) && ring == old(ring) - {Decimal(id)}
    {
      ring := ring - {Decimal(id)};
      shardIDs := DropID(shardIDs, id);
    }

    method Shed(a: nat, b: nat)
      requires Wired() && a in shards && b in shards && a != b
      modifies this`shards, this`shardIDs, this`ring, this`states, owned, homes.Keys
      ensures Wired()
      ensures states == (old(states) - {b})[a := MergeShards(old(states)[a], old(states)[b])]
      ensures shardIDs == Remove(old(shardIDs), b) && ring == old(ring) - {Decimal(b)}
    {
      Unregister(b);
      Fuse(a, b);
    }

    method Shrink(a: nat, b: nat)
      requires Wired() && a in shards && b in shards && a != b
      modifies this`shards, this`shardIDs, this`ring, this`states, owned, homes.Keys
      ensures Wired()
      ensures Abs() == Merge(old(Abs()), a, b)
    {
      ghost var m := Abs();
      Shed(a, b);
      FieldsOfMerge(m, Abs(), a, b);
    }

    /** Refuses to merge a shard into itself or with one that is not there. */
    method TriggerMerge(shardAID: nat, shardBID: nat) returns (ok: bool)
      requires Wired()
      modifies this`shards, this`shardIDs, this`ring, this`states, owned, homes.Keys
      ensures Wired() && ok == (shardAID != shardBID && shardAID in old(states) && shardBID in old(states))
      ensures Abs() == if ok then Merge(old(Abs()), shardAID, shardBID) else old(Abs())
    {
      if shardAID == shardBID || shardAID !in shards || shardBID !in shards {
        return false;
      }
      Shrink(shardAID, shardBID);
      return true;
    }

    method SplitMetrics(id: nat) returns (needs: bool)
      requires Wired() && id in shards
      ensures needs == NeedsSplit(config, states[id])
    {
      assert WiredAt(id);
      var stateSize, txPoolSize := shards[id].StateSize, shards[id].PendingTxPool;
      needs := (config.splitStateSize > 0 && stateSize > config.splitStateSize)
        || (config.splitTxPool > 0 && txPoolSize > config.splitTxPool);
    }

    /** What a management cycle relies on: live sorted IDs, all below the counter. */
    ghost predicate Ready()
      reads this, owned, homes.Keys
    {
      Wired() && IdsLive(Abs()) && nextShardID !in shards && StrictlySorted(shardIDs + [nextShardID])
    }

    /** The first shard over a split threshold, unless there are enough shards already. */
    method FindSplit() returns (id: Option<nat>)
      requires Wired() && IdsLive(Abs())
      ensures id.Some? == (MaySplit(config, Abs()) && SplitWanted(config, Abs(), 0))
      ensures id.Some? ==> id.value in shards
    {
      var currentShardIDs := shardIDs;
      for i := 0 to |currentShardIDs|
        invariant MaySplit(config, Abs()) ==> SplitWanted(config, Abs(), 0) == SplitWanted(config, Abs(), i)
      {
        var shardID := currentShardIDs[i];
        var needsSplit := SplitMetrics(shardID);
        if needsSplit && !(config.maxShards > 0 && |shards| >= config.maxShards) {
          return Some(shardID);
        }
      }
      return None;
    }

    /**
     * At most one split.  Without a blockchain the attempt fails, and so would one for any later
     * shard.
     */
    method SplitOne() returns (split: bool)
      requires Ready()
      modifies this`shards, this`shardIDs, this`ring, this`nextShardID, this`states, this`owned, this`homes
      ensures Wired()
      ensures split <==> OutcomeOf(config, linked, old(Abs())) == Splits
      ensures Abs() == if split then Split(old(Abs())) else old(Abs())
      ensures Grown(old(owned), old(homes.Keys))
      ensures !split ==> owned == old(owned) && homes == old(homes)
    {
      var id := FindSplit();
      split := false;
      if id.Some? {
        split := TriggerSplit(id.value);
      }
    }

    method MergeMetrics(a: nat, b: nat) returns (may: bool)
      requires Wired() && a in shards && b in shards
      ensures may == MayMerge(config, states[a], states[b])
    {
      assert WiredAt(a) && WiredAt(b);
      var stateSizeA, stateSizeB := shards[a].StateSize, shards[b].StateSize;
      may := config.mergeStateSize > 0 && stateSizeA < config.mergeStateSize
        && config.mergeTargetSize > 0 && stateSizeB < config.mergeTargetSize;
    }

    /** The first two neighbours below the merge thresholds; the last shard has no partner. */
    method FindMerge() returns (at: Option<nat>)
      requires Wired() && IdsLive(Abs())
      ensures at == FirstMerge(config, Abs(), 0)
    {
      for i := 0 to |shardIDs|
        invariant FirstMerge(config, Abs(), 0) == FirstMerge(config, Abs(), i)
      {
        if i + 1 < |shardIDs| {
          var may := MergeMetrics(shardIDs[i], shardIDs[i + 1]);
          if may {
            return Some(i);
          }
        }
      }
      return None;
    }

    /** A merge of two neighbours never fails. */
    method MergeAt(at: nat)
      requires Ready() && at + 1 < |shardIDs|
      modifies this`shards, this`shardIDs, this`ring, this`states, owned, homes.Keys
      ensures Wired() && Abs() == MergedAt(old(Abs()), at)
    {
      assert (shardIDs + [nextShardID])[at] < (shardIDs + [nextShardID])[at + 1];
      var _ := TriggerMerge(shardIDs[at], shardIDs[at + 1]);
    }

    /** At most one merge, when there is nothing to split. */
    method MergeOne()
      requires Ready() && OutcomeOf(config, linked, Abs()) != Splits
      modifies this`shards, this`shardIDs, this`ring, this`states, owned, homes.Keys
      ensures Wired() && Abs() == Manage(config, linked, old(Abs()))
    {
      ghost var m := Abs();
      if |shards| > config.minShards {
        var at := FindMerge();
        if at.Some? {
          MergeAt(at.value);
        }
      }
      IsManaged(config, linked, m, Abs());
    }

    method Cycle()
      requires Ready()
      modifies this`shards, this`shardIDs, this`ring, this`nextShardID, this`states, this`owned, this`homes
      modifies owned, homes.Keys
      ensures Wired() && Abs() == Manage(config, linked, old(Abs()))
      ensures Grown(old(owned), old(homes.Keys))
    {
      var splitTriggered := SplitOne();
      if !splitTriggered {
        MergeOne();
      }
    }

    /** One management cycle does what `Manage` says and keeps all structures in step. */
    method CheckAndManageShards()
      requires Valid()
      modifies this`shards, this`shardIDs, this`ring, this`nextShardID, this`states, this`owned, this`homes
      modifies owned, homes.Keys
      ensures Valid() && Abs() == Manage(config, linked, old(Abs()))
      ensures Grown(old(owned), old(homes.Keys))
    {
      ManageInStep(config, linked, Abs());
      NewIDLast(Abs());
      Cycle();
    }

    method EnqueueAt(id: nat, tx: Transaction)
      requires Wired() && id in shards && tx.id.Some?
      modifies this`states, owned
      ensures Wired() && states == old(states)[id := Enqueue(old(states)[id], tx)]
    {
      assert WiredAt(id);
      var _ := shards[id].AddTransaction(Some(tx));
      KeepOthers(id);
      Record(id);
    }

    /** The oldest transactions of a shard leave for a block. */
    method DrainAt(id: nat, max: nat) returns (txs: seq<Transaction>)
      requires Wired() && id in shards
      modifies this`states, shards[id]
      ensures Wired() && states == old(states)[id := Dequeue(old(states)[id], max)]
      ensures txs == old(states)[id].pool[..Min(|old(states)[id].pool|, max)]
    {
      assert WiredAt(id);
      txs := shards[id].GetTransactionsForBlock(max);
      KeepOthers(id);
      Record(id);
    }

    /** A block's transactions are applied to a shard's own store, and to no other. */
    method ExecuteAt(env: Conflict.Env<Bytes>, id: nat, txs: seq<Transaction>) returns (root: Digest)
      requires Wired() && id in shards
      modifies this`states, shards[id], shards[id].StateDB
      ensures Wired() && states == old(states)[id := Executed(env, old(states)[id], txs)]
      ensures IsStateRoot(env.hash, states[id].data, root)
    {
      assert WiredAt(id);
      root := shards[id].ApplyStateChanges(env, txs);
      KeepOthers(id);
      Record(id);
    }

    /** Drains a shard for a block and applies what was drained, unless there is nothing and there need be something. */
    method TakeBlock(env: Conflict.Env<Bytes>, ghost before: map<nat, ShardState<Transaction>>, id: nat, max: nat, needed: bool)
      returns (txs: seq<Transaction>, root: Option<Digest>)
      requires Wired() && states == before && id in shards && id in before
      modifies this`states, shards[id], shards[id].StateDB
      ensures Wired() && IsTaken(env, before, id, max, needed, txs, root, states)
    {
      txs := DrainAt(id, max);
      ghost var drained := states;
      if |txs| == 0 && needed {
        NothingTaken(env, before, id, max, txs, states);
        return txs, None;
      }
      var stateRoot := ExecuteAt(env, id, txs);
      BlockTaken(env, before, drained, id, max, needed, txs, stateRoot, states);
      return txs, Some(stateRoot);
    }

    /** Writing one shard and its store leaves the others as they were. */
    twostate lemma KeepOthers(id: nat)
      requires old(Wired()) && id in shards
      requires unchanged(`shards) && unchanged(`states) && unchanged(`owned) && unchanged(`homes)
      requires unchanged(owned - {shards[id]}) && unchanged(homes.Keys - {shards[id].StateDB}) && !shards[id].Stopped
      ensures states.Keys == shards.Keys && HeldAt(id)
      ensures forall other :: other in shards && other != id ==> WiredAt(other)
    {
      assert old(WiredAt(id));
      forall other | other in shards && other != id ensures WiredAt(other) {
        assert old(WiredAt(other));
      }
    }

    /** Takes down the content of a shard that was written to. */
    ghost method Record(id: nat)
      requires states.Keys == shards.Keys && id in shards
      requires HeldAt(id)
      requires forall other :: other in shards && other != id ==> WiredAt(other)
      modifies this`states
      ensures Wired() && states == old(states)[id := shards[id].State()]
    {
      states := states[id := shards[id].State()];
      forall other | other in shards ensures WiredAt(other) {
        if other != id {
          assert old(WiredAt(other));
        }
      }
    }
  }

  /** Refuses a count that is not positive or outside the configured bounds. */
  method NewShardManager(config: Config, initialShards: int) returns (sm: Result<ShardManager>)
    ensures sm.Ok? <==>
      && initialShards >= 1 && initialShards >= config.minShards
      && (config.maxShards <= 0 || initialShards <= config.maxShards)
    ensures sm.Ok? ==> fresh(sm.value) && sm.value.config == config && !sm.value.linked
    ensures sm.Ok? ==> sm.value.Valid() && sm.value.Abs() == Initial(initialShards)
    ensures sm.Ok? ==> fresh(sm.value.owned) && fresh(sm.value.homes.Keys)
  {
    if initialShards <= 0 || initialShards < config.minShards {
      return Err("initialShards must be positive and >= MinShards");
    }
    if config.maxShards > 0 && initialShards > config.maxShards {
      return Err("initialShards cannot exceed MaxShards");
    }
    var manager := MakeShardManager(config, initialShards);
    InitialValid(config, initialShards, manager.Abs());
    return Ok(manager);
  }

  method MakeShardManager(config: Config, n: nat) returns (manager: ShardManager)
    ensures fresh(manager) && manager.config == config && !manager.linked
    ensures manager.Wired() && manager.Abs() == Initial(n)
    ensures fresh(manager.owned) && fresh(manager.homes.Keys)
  {
    manager := new ShardManager.Empty(config);
    manager.Populate(n);
  }

  lemma UpdatedInStep(cfg: Config, m: Manager<Transaction>, v: Manager<Transaction>, id: nat, s: ShardState<Transaction>)
    requires InStep(cfg, m) && id in m.shards && v == m.(shards := m.shards[id := s])
    requires m.shards[id].pending == |m.shards[id].pool| ==> s.pending == |s.pool|
    ensures InStep(cfg, v)
  {
    UpdateInStep(cfg, m, id, s);
  }

  method QueueAt(sm: ShardManager, id: nat, tx: Transaction)
    requires sm.Valid() && id in sm.shards && tx.id.Some?
    modifies sm`states, sm.owned
    ensures sm.Valid()
    ensures sm.Abs() == old(sm.Abs()).(shards := old(sm.states)[id := Enqueue(old(sm.states)[id], tx)])
  {
    ghost var m := sm.Abs();
    sm.EnqueueAt(id, tx);
    UpdatedInStep(sm.config, m, sm.Abs(), id, Enqueue(m.shards[id], tx));
  }

  /** A shard's content after a block of these transactions. */
  function Executed(env: Conflict.Env<Bytes>, s: ShardState<Transaction>, txs: seq<Transaction>): ShardState<Transaction> {
    var data := Applied(env, s.data, txs, |txs|);
    s.(data := data, stateSize := |data|)
  }

  /** What a block takes from shard `id`, the root it gives, and the shards after it. */
  ghost predicate IsTaken(env: Conflict.Env<Bytes>, before: map<nat, ShardState<Transaction>>, id: nat, max: nat, needed: bool,
    txs: seq<Transaction>, root: Option<Digest>, after: map<nat, ShardState<Transaction>>)
    requires id in before
  {
    var s := before[id];
    var t := Executed(env, Dequeue(s, max), txs);
    && txs == s.pool[..Min(|s.pool|, max)]
    && (root.None? <==> needed && txs == [])
    && after == (if root.None? then before else before[id := t])
    && (root.Some? ==> IsStateRoot(env.hash, t.data, root.value))
  }

  lemma NothingTaken(env: Conflict.Env<Bytes>, before: map<nat, ShardState<Transaction>>, id: nat, max: nat,
    txs: seq<Transaction>, after: map<nat, ShardState<Transaction>>)
    requires id in before && txs == before[id].pool[..Min(|before[id].pool|, max)] == []
    requires after == before[id := Dequeue(before[id], max)]
    ensures IsTaken(env, before, id, max, true, txs, None, after)
  {
    assert before[id := before[id]] == before;
  }

  lemma BlockTaken(env: Conflict.Env<Bytes>, before: map<nat, ShardState<Transaction>>, drained: map<nat, ShardState<Transaction>>,
    id: nat, max: nat, needed: bool, txs: seq<Transaction>, root: Digest, after: map<nat, ShardState<Transaction>>)
    requires id in before && txs == before[id].pool[..Min(|before[id].pool|, max)] && !(needed && txs == [])
    requires drained == before[id := Dequeue(before[id], max)]
    requires after == drained[id := Executed(env, drained[id], txs)] && IsStateRoot(env.hash, after[id].data, root)
    ensures IsTaken(env, before, id, max, needed, txs, Some(root), after)
  {
    UpdatedTwice(before, id, Dequeue(before[id], max), Executed(env, drained[id], txs));
  }

  lemma UpdatedTwice<K, V>(m: map<K, V>, k: K, v: V, w: V)
    ensures m[k := v][k := w] == m[k := w]
  {
  }

  /** `DrainAt` keeps all structures in step, as the step of the runs does. */
  method DrainFrom(sm: ShardManager, ghost m: Manager<Transaction>, id: nat, max: nat) returns (txs: seq<Transaction>)
    requires sm.Valid() && m == sm.Abs() && id in sm.shards && id in m.shards
    modifies sm`states, sm.owned
    ensures sm.Valid() && sm.Abs() == m.(shards := m.shards[id := Dequeue(m.shards[id], max)])
    ensures txs == m.shards[id].pool[..Min(|m.shards[id].pool|, max)]
  {
    txs := sm.DrainAt(id, max);
    UpdatedInStep(sm.config, m, sm.Abs(), id, Dequeue(m.shards[id], max));
  }

  /** So does `ExecuteAt`. */
  method ExecuteOn(env: Conflict.Env<Bytes>, sm: ShardManager, ghost m: Manager<Transaction>, id: nat, txs: seq<Transaction>)
    returns (root: Digest)
    requires sm.Valid() && m == sm.Abs() && id in sm.shards && id in m.shards
    modifies sm`states, sm.owned, sm.homes.Keys
    ensures sm.Valid() && sm.Abs() == m.(shards := m.shards[id := Executed(env, m.shards[id], txs)])
    ensures IsStateRoot(env.hash, Executed(env, m.shards[id], txs).data, root)
  {
    root := sm.ExecuteAt(env, id, txs);
    UpdatedInStep(sm.config, m, sm.Abs(), id, Executed(env, m.shards[id], txs));
  }

  /** Routes by transaction ID and queues it there; only a missing transaction or ID is refused. */
  method AddTransaction(sm: ShardManager, tx: Option<Transaction>) returns (to: Result<nat>)
    requires sm.Valid()
    modifies sm`states, sm.owned
    ensures sm.Valid() && (to.Ok? <==> tx.Some? && tx.value.id.Some?)
    ensures to.Err? ==> sm.Abs() == old(sm.Abs())
    ensures to.Ok? ==> to.value in old(sm.states) && Decimal(to.value) in old(sm.ring)
    ensures to.Ok? ==>
      sm.Abs() == old(sm.Abs()).(shards := old(sm.states)[to.value := Enqueue(old(sm.states)[to.value], tx.value)])
  {
    if tx.None? || tx.value.id.None? {
      return Err("cannot add nil or uninitialized transaction");
    }
    var shardID := sm.DetermineShard(tx.value.id.value);
    var shard := sm.GetShard(shardID);
    if shard.None? {
      assert false;
    }
    QueueAt(sm, shardID, tx.value);
    return Ok(shardID);
  }

  lemma FieldsOfMerge(m: Manager<Transaction>, v: Manager<Transaction>, a: nat, b: nat)
    requires a in m.shards && b in m.shards
    requires v.shards == (m.shards - {b})[a := MergeShards(m.shards[a], m.shards[b])]
    requires v.ids == Remove(m.ids, b) && v.ring == m.ring - {Decimal(b)} && v.next == m.next
    ensures v == Merge(m, a, b)
  {
  }

  lemma UpdateThenDrop<K, V>(m: map<K, V>, a: K, b: K, v: V)
    requires a != b
    ensures m[a := v] - {b} == (m - {b})[a := v]
  {
  }

  lemma OverlayOne<K, V>(mine: map<K, V>, moved: map<K, V>, key: K, value: V)
    ensures (mine + moved)[key := value] == mine + moved[key := value]
  {
  }

  lemma AllMoved<V(!new)>(keys: seq<Bytes>, theirs: map<Bytes, V>, moved: map<Bytes, V>)
    requires Enumerates(keys, theirs.Keys) && PartOf(moved, theirs)
    requires forall j :: 0 <= j < |keys| ==> keys[j] in moved
    ensures moved == theirs
  {
    forall k | k in theirs ensures k in moved {
      var j :| 0 <= j < |keys| && keys[j] == k;
    }
  }

  ghost predicate PartOf<V(!new)>(moved: map<Bytes, V>, theirs: map<Bytes, V>) {
    forall k :: k in moved ==> k in theirs && moved[k] == theirs[k]
  }

  /** Copies every entry of one store into another, overwriting. */
  method MigrateState(from: InMemoryStateDB, to: InMemoryStateDB)
    requires from != to
    modifies to
    ensures to.data == old(to.data) + from.data
  {
    var keys := from.GetKeys();
    ghost var mine := to.data;
    ghost var moved: map<Bytes, Bytes> := map[];
    for i := 0 to |keys|
      invariant to.data == mine + moved
      invariant PartOf(moved, from.data)
      invariant forall j :: 0 <= j < i ==> keys[j] in moved
    {
      var value := from.Get(keys[i]);
      OverlayOne(mine, moved, keys[i], value.value);
      to.Put(keys[i], value.value);
      moved := moved[keys[i] := value.value];
    }
    AllMoved(keys, from.data, moved);
  }

  /** Moves everything of shard b into shard a: values overwrite, pending transactions queue behind. */
  method Absorb(a: Shard, b: Shard)
    requires a != b && a.StateDB != b.StateDB && !b.Stopped
    modifies a`TxPool, a`StateSize, a`PendingTxPool, a.StateDB
    modifies b`TxPool, b`PendingTxPool, b`Stopped, b.StateDB
    ensures a.State() == MergeShards(old(a.State()), old(b.State()))
    ensures b.TxPool == [] && b.PendingTxPool == 0 && b.StateDB.data == map[] && b.Stopped
  {
    MigrateState(b.StateDB, a.StateDB);
    b.StateDB.Clear();
    a.StateSize := a.StateDB.Size();
    a.TxPool := a.TxPool + b.TxPool;
    b.TxPool := [];
    a.PendingTxPool := |a.TxPool|;
    b.PendingTxPool := 0;
    b.Stop();
  }

  lemma IsManaged(cfg: Config, linked: bool, m: Manager<Transaction>, v: Manager<Transaction>)
    requires IdsLive(m) && IsOutcome(cfg, m, OutcomeOf(cfg, linked, m), v)
    ensures v == Manage(cfg, linked, m)
  {
  }

  lemma InitialValid(cfg: Config, n: nat, m: Manager<Transaction>)
    requires m == Initial(n) && CountInBounds(cfg, n)
    ensures InStep(cfg, m)
  {
    InitialInStep<Transaction>(cfg, n);
  }

  lemma InitialReady(n: nat, m: Manager<Transaction>)
    requires m == Initial(n)
    ensures m.next !in m.shards && StrictlySorted(m.ids)
  {
    InitialParts<Transaction>(n);
  }

  lemma NewIDLast(m: Manager<Transaction>)
    requires IdsInStep(m)
    ensures m.next !in m.shards && StrictlySorted(m.ids + [m.next])
  {
    SplitIds(m);
  }

  method SortIDs(ids: seq<nat>) returns (sorted: seq<nat>)
    requires StrictlySorted(ids)
    ensures sorted == ids
  {
    var slice := new nat[|ids|](i requires 0 <= i < |ids| => ids[i]);
    assert slice[..] == ids;
    SortSlice(slice, (n: nat) => n, NumLess);
    SortedUnique((n: nat) => n, NumLess, ids, slice[..]);
    sorted := slice[..];
  }

  lemma RemoveStep(ids: seq<nat>, i: nat, id: nat)
    requires i < |ids|
    ensures Remove(ids[i..], id) == (if ids[i] == id then [] else [ids[i]]) + Remove(ids[i + 1..], id)
  {
    assert ids[i..][1..] == ids[i + 1..];
  }

  lemma DropStep(rest: seq<nat>, ids: seq<nat>, i: nat, id: nat)
    requires i < |ids|
    ensures rest + Remove(ids[i..], id) == (if ids[i] == id then rest else rest + [ids[i]]) + Remove(ids[i + 1..], id)
  {
    RemoveStep(ids, i, id);
    var later := Remove(ids[i + 1..], id);
    assert rest + ([ids[i]] + later) == (rest + [ids[i]]) + later;
  }

  method DropID(ids: seq<nat>, id: nat) returns (rest: seq<nat>)
    ensures rest == Remove(ids, id)
  {
    rest := [];
    assert ids[0..] == ids;
    for i := 0 to |ids|
      invariant rest + Remove(ids[i..], id) == Remove(ids, id)
    {
      DropStep(rest, ids, i, id);
      if ids[i] != id {
        rest := rest + [ids[i]];
      }
    }
  }
}
