/** One shard: its pool, its state and the metrics management reads. */
module Shards {
  import opened Basics
  import opened Order
  import opened ClockLattice
  import opened VectorClocks
  import opened Conflict
  import opened StateStore
  import opened ShardSpec
  import opened ShardRuns

  datatype Transaction = Transaction(id: Option<Bytes>, data: Bytes, fromShard: nat, toShard: nat)

  const COLON: byte := 58

  const LOCAL: NodeID := Ascii("local")
  const TX: NodeID := Ascii("tx")

  /** The position of the first colon, or the length. */
  function FirstColon(data: Bytes, i: nat): (at: nat)
    requires i <= |data|
    ensures i <= at <= |data|
    ensures at < |data| ==> data[at] == COLON
    ensures forall k :: i <= k < at ==> data[k] != COLON
    decreases |data| - i
  {
    if i == |data| || data[i] == COLON then i else FirstColon(data, i + 1)
  }

  function IdBytes(tx: Transaction): Bytes {
    match tx.id
    case None => []
    case Some(id) => id
  }

  /** `key:value`, split at the first colon, or the whole data under the transaction's ID. */
  function WriteOf(tx: Transaction): (Bytes, Bytes) {
    var at := FirstColon(tx.data, 0);
    if at < |tx.data| then (tx.data[..at], tx.data[at + 1..]) else (IdBytes(tx), tx.data)
  }

  function LocalVersion(key: Bytes, existing: Bytes): Version<Bytes> {
    Version(key, existing, Some(map[]), LOCAL)
  }

  function TxVersion(key: Bytes, value: Bytes): Version<Bytes> {
    Version(key, value, Some(map[]), TX)
  }

  /** What is stored for a key: a draw between what is there and what is written, if something is there. */
  function Stored(env: Env<Bytes>, data: map<Bytes, Bytes>, tx: Transaction): Bytes {
    var (key, value) := WriteOf(tx);
    if key !in data then value
    else if Draw(env, IdBytes(tx), [LocalVersion(key, data[key]), TxVersion(key, value)]) == 0 then data[key]
    else value
  }

  /** The state after the first k transactions. */
  function Applied(env: Env<Bytes>, data: map<Bytes, Bytes>, txs: seq<Transaction>, k: nat): map<Bytes, Bytes>
    requires k <= |txs|
  {
    if k == 0 then data
    else
      var before := Applied(env, data, txs, k - 1);
      before[WriteOf(txs[k - 1]).0 := Stored(env, before, txs[k - 1])]
  }

  /** Some transaction among the first k writes to the key. */
  ghost predicate WrittenTo(txs: seq<Transaction>, k: nat, key: Bytes)
    requires k <= |txs|
  {
    exists i :: 0 <= i < k && WriteOf(txs[i]).0 == key
  }

  /** Some transaction among the first k writes the value to the key. */
  ghost predicate Wrote(txs: seq<Transaction>, k: nat, key: Bytes, value: Bytes)
    requires k <= |txs|
  {
    exists i :: 0 <= i < k && WriteOf(txs[i]) == (key, value)
  }

  lemma WroteNext(txs: seq<Transaction>, k: nat, key: Bytes, value: Bytes)
    requires 0 < k <= |txs|
    ensures WrittenTo(txs, k, key) <==> WrittenTo(txs, k - 1, key) || WriteOf(txs[k - 1]).0 == key
    ensures Wrote(txs, k, key, value) <==> Wrote(txs, k - 1, key, value) || WriteOf(txs[k - 1]) == (key, value)
  {
  }

  /** The key is there if it was or was written, with its old value or a written one. */
  ghost predicate Accounted(data: map<Bytes, Bytes>, txs: seq<Transaction>, k: nat, after: map<Bytes, Bytes>, key: Bytes)
    requires k <= |txs|
  {
    && (key in after <==> key in data || WrittenTo(txs, k, key))
    && (key in after ==> (key in data && after[key] == data[key]) || Wrote(txs, k, key, after[key]))
  }

  lemma AccountedNext(data: map<Bytes, Bytes>, txs: seq<Transaction>, k: nat, before: map<Bytes, Bytes>, after: map<Bytes, Bytes>, key: Bytes)
    requires 0 < k <= |txs| && Accounted(data, txs, k - 1, before, key)
    requires key in after <==> key in before || WriteOf(txs[k - 1]).0 == key
    requires key in after ==> (key in before && after[key] == before[key]) || WriteOf(txs[k - 1]) == (key, after[key])
    ensures Accounted(data, txs, k, after, key)
  {
    WroteNext(txs, k, key, if key in after then after[key] else []);
  }

  /**
   * Applying a block creates exactly the keys written, and every value is the old one or one that
   * some transaction of the block wrote to that key.
   */
  lemma {:induction false} AppliedWrites(env: Env<Bytes>, data: map<Bytes, Bytes>, txs: seq<Transaction>, k: nat, key: Bytes)
    requires k <= |txs|
    ensures Accounted(data, txs, k, Applied(env, data, txs, k), key)
  {
    if k > 0 {
      var before := Applied(env, data, txs, k - 1);
      AppliedWrites(env, data, txs, k - 1, key);
      AppliedNext(env, data, txs, k, before, key);
    }
  }

  lemma AppliedNext(env: Env<Bytes>, data: map<Bytes, Bytes>, txs: seq<Transaction>, k: nat, before: map<Bytes, Bytes>, key: Bytes)
    requires 0 < k <= |txs| && Accounted(data, txs, k - 1, before, key)
    ensures Accounted(data, txs, k, before[WriteOf(txs[k - 1]).0 := Stored(env, before, txs[k - 1])], key)
  {
    AppliedOne(env, before, txs[k - 1], key);
    AccountedNext(data, txs, k, before, before[WriteOf(txs[k - 1]).0 := Stored(env, before, txs[k - 1])], key);
  }

  /** A write leaves its key with the old value or the written one. */
  lemma AppliedOne(env: Env<Bytes>, data: map<Bytes, Bytes>, tx: Transaction, key: Bytes)
    ensures
      var after := data[WriteOf(tx).0 := Stored(env, data, tx)];
      && (key in after <==> key in data || WriteOf(tx).0 == key)
      && (key in after ==> (key in data && after[key] == data[key]) || WriteOf(tx) == (key, after[key]))
  {
    var write := WriteOf(tx);
    assert write == (write.0, write.1);
  }

  class Shard {
    const ID: nat
    const StateDB: InMemoryStateDB
    var TxPool: seq<Transaction>
    var TxCount: int
    var StateSize: int
    var BlockCount: int
    var PendingTxPool: int
    var Stopped: bool

    constructor (id: nat)
      ensures ID == id && fresh(StateDB) && !Stopped
      ensures State() == EmptyShard()
    {
      ID := id;
      StateDB := new InMemoryStateDB();
      TxPool := [];
      TxCount, StateSize, BlockCount, PendingTxPool := 0, 0, 0, 0;
      Stopped := false;
    }

    function State(): ShardState<Transaction>
      reads this, StateDB
    {
      ShardState(TxPool, StateDB.data, PendingTxPool, StateSize)
    }

    /** Rejects a missing transaction or one without an ID. */
    method AddTransaction(tx: Option<Transaction>) returns (ok: bool)
      modifies this`TxPool, this`PendingTxPool
      ensures ok <==> tx.Some? && tx.value.id.Some?
      ensures ok ==> State() == Enqueue(old(State()), tx.value)
      ensures !ok ==> State() == old(State())
    {
      if tx.None? || tx.value.id.None? {
        return false;
      }
      TxPool := TxPool + [tx.value];
      PendingTxPool := |TxPool|;
      return true;
    }

    method GetTransactionsForBlock(maxTx: nat) returns (txs: seq<Transaction>)
      modifies this`TxPool, this`PendingTxPool
      ensures txs == old(TxPool)[..Min(|old(TxPool)|, maxTx)]
      ensures State() == Dequeue(old(State()), maxTx)
    {
      var count := |TxPool|;
      if count > maxTx {
        count := maxTx;
      }
      if count == 0 {
        return [];
      }
      txs := TxPool[..count];
      TxPool := TxPool[count..];
      PendingTxPool := |TxPool|;
    }

    /** Closing the stop channel a second time would panic. */
    method Stop()
      requires !Stopped
      modifies this`Stopped
      ensures Stopped
    {
      Stopped := true;
    }

    method ApplyStateChanges(env: Env<Bytes>, transactions: seq<Transaction>) returns (root: Digest)
      modifies this`TxCount, this`StateSize, StateDB
      ensures StateDB.data == Applied(env, old(StateDB.data), transactions, |transactions|)
      ensures StateSize == |StateDB.data| && TxCount == old(TxCount) + |transactions|
      ensures IsStateRoot(env.hash, StateDB.data, root)
    {
      ghost var before := StateDB.data;
      for i := 0 to |transactions|
        invariant StateDB.data == Applied(env, before, transactions, i)
        invariant TxCount == old(TxCount) + i
      {
        var tx := transactions[i];
        var (key, value) := WriteOf(tx);
        var existing := StateDB.Get(key);
        if existing.Ok? {
          value := Reconcile(env, key, existing.value, value, IdBytes(tx));
        }
        StateDB.Put(key, value);
        TxCount := TxCount + 1;
      }
      StateSize := StateDB.Size();
      root := StateDB.GetStateRoot(env.hash);
    }
  }

  /** Equal clocks and two sources in a fixed order: the draw alone decides. */
  lemma ReconciledValue(env: Env<Bytes>, key: Bytes, existing: Bytes, value: Bytes, context: Bytes, r: Version<Bytes>)
    requires Resolved(env, LocalVersion(key, existing), TxVersion(key, value), context, r)
    ensures r.value ==
      if Draw(env, context, [LocalVersion(key, existing), TxVersion(key, value)]) == 0 then existing else value
  {
    var a, b := LocalVersion(key, existing), TxVersion(key, value);
    var w: Version<Bytes> :| Picked(env, a, b, context, w) && r == Merged(w, a, b);
    LocalBeforeTx();
    LessTotal(LOCAL, TX);
    InOrderWinner(env, a, b, context, w);
  }

  lemma LocalBeforeTx()
    ensures Less(LOCAL, TX)
  {
    assert LOCAL[0] == 108 && TX[0] == 116;
  }

  /** The stored value meets the written one, both with a fresh empty clock. */
  method Reconcile(env: Env<Bytes>, key: Bytes, existing: Bytes, value: Bytes, context: Bytes) returns (kept: Bytes)
    ensures kept ==
      if Draw(env, context, [LocalVersion(key, existing), TxVersion(key, value)]) == 0 then existing else value
  {
    var localClock := new VectorClock();
    var txClock := new VectorClock();
    var a, b := StateVersion(key, existing, localClock, LOCAL), StateVersion(key, value, txClock, TX);
    var resolved := HandlePotentialConflict(env, a, b, context);
    ReconciledValue(env, key, existing, value, context, View(resolved));
    kept := resolved.value;
  }
}
