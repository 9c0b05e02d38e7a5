/** What the transactions of a block write, in raw bytes, and what the state's root is the hash of. */
module Writes {
  import opened Basics
  import opened Order
  import opened Conflict
  import opened Draws
  import opened StateStore
  import opened Shards

  // ---------------------------------------------------------------- one transaction

  lemma {:induction false} ColonAfter(key: Bytes, value: Bytes, i: nat)
    requires 58 !in key && i <= |key|
    ensures FirstColon(key + [58] + value, i) == |key|
    decreases |key| - i
  {
    var data := key + [58] + value;
    if i < |key| {
      assert data[i] == key[i] && key[i] in key;
      ColonAfter(key, value, i + 1);
    }
  }

  /** `key:value`, split at the first colon. */
  lemma KeyedWrite(tx: Transaction, key: Bytes, value: Bytes)
    requires tx.data == key + [58] + value && 58 !in key
    ensures WriteOf(tx) == (key, value)
  {
    ColonAfter(key, value, 0);
    assert tx.data[..|key|] == key && tx.data[|key| + 1..] == value;
  }

  /** Data without a colon goes under the transaction's ID. */
  lemma PlainWrite(tx: Transaction, id: Bytes)
    requires 58 !in tx.data && tx.id == Some(id)
    ensures WriteOf(tx) == (id, tx.data)
  {
    NoColon(tx.data, 0);
  }

  lemma {:induction false} NoColon(data: Bytes, i: nat)
    requires 58 !in data && i <= |data|
    ensures FirstColon(data, i) == |data|
    decreases |data| - i
  {
    if i < |data| {
      assert data[i] in data;
      NoColon(data, i + 1);
    }
  }

  /** The key gets the value where it had none, and otherwise the winner of a draw. */
  ghost predicate IsWritten(env: Env<Bytes>, data: map<Bytes, Bytes>, id: Bytes, key: Bytes, value: Bytes, after: map<Bytes, Bytes>) {
    if key !in data then after == data[key := value]
    else after == data[key := Surviving(env, id, key, data[key], value)]
  }

  /** The stored value competes as "local" and the written one as "tx", both with an empty clock, on the ID as context. */
  function Surviving(env: Env<Bytes>, id: Bytes, key: Bytes, stored: Bytes, value: Bytes): Bytes {
    var x := id + key + env.render(stored) + env.serialize(map[]) + [108, 111, 99, 97, 108]
      + key + env.render(value) + env.serialize(map[]) + [116, 120];
    if BigEndian(env.hash(env.hash(x))) % 2 == 0 then stored else value
  }

  lemma Sources()
    ensures LOCAL == [108, 111, 99, 97, 108] && TX == [116, 120]
  {
  }

  lemma StoredSurvives(env: Env<Bytes>, data: map<Bytes, Bytes>, tx: Transaction, key: Bytes, value: Bytes)
    requires WriteOf(tx) == (key, value) && key in data
    ensures Stored(env, data, tx) == Surviving(env, IdBytes(tx), key, data[key], value)
  {
    var a, b := LocalVersion(key, data[key]), TxVersion(key, value);
    Sources();
    DrawWritten(env, IdBytes(tx), [a, b]);
    TwoWritten(env, IdBytes(tx), a, b);
    Regrouped(IdBytes(tx), key, env.render(data[key]), env.serialize(map[]), LOCAL, key, env.render(value), env.serialize(map[]), TX);
  }

  lemma WrittenOnce(env: Env<Bytes>, data: map<Bytes, Bytes>, tx: Transaction, key: Bytes, value: Bytes)
    requires WriteOf(tx) == (key, value)
    ensures IsWritten(env, data, IdBytes(tx), key, value, Applied(env, data, [tx], 1))
  {
    assert Applied(env, data, [tx], 0) == data;
    if key in data {
      StoredSurvives(env, data, tx, key, value);
    }
  }

  /** A transaction with data `key:value` writes that value under that key, and nothing else. */
  lemma KeyedApplied(env: Env<Bytes>, data: map<Bytes, Bytes>, tx: Transaction, id: Bytes, key: Bytes, value: Bytes)
    requires tx.id == Some(id) && tx.data == key + [58] + value && 58 !in key
    ensures IsWritten(env, data, id, key, value, Applied(env, data, [tx], 1))
  {
    KeyedWrite(tx, key, value);
    WrittenOnce(env, data, tx, key, value);
  }

  /** One without a colon writes its data under its ID. */
  lemma PlainApplied(env: Env<Bytes>, data: map<Bytes, Bytes>, tx: Transaction, id: Bytes)
    requires tx.id == Some(id) && 58 !in tx.data
    ensures IsWritten(env, data, id, id, tx.data, Applied(env, data, [tx], 1))
  {
    PlainWrite(tx, id);
    WrittenOnce(env, data, tx, id, tx.data);
  }

  /** A block is its transactions one after the other, in order. */
  lemma AppliedInOrder(env: Env<Bytes>, data: map<Bytes, Bytes>, txs: seq<Transaction>, k: nat)
    requires k < |txs|
    ensures Applied(env, data, txs, 0) == data
    ensures Applied(env, data, txs, k + 1) == Applied(env, Applied(env, data, txs, k), [txs[k]], 1)
  {
    var before := Applied(env, data, txs, k);
    assert Applied(env, before, [txs[k]], 0) == before;
  }

  // ---------------------------------------------------------------- the root

  /** Every key with its value, from the first key to the last. */
  function Entries(data: map<Bytes, Bytes>, keys: seq<Bytes>): Bytes
    requires forall i :: 0 <= i < |keys| ==> keys[i] in data
  {
    if keys == [] then [] else keys[0] + data[keys[0]] + Entries(data, keys[1..])
  }

  lemma {:induction false} EntriesOn(data: map<Bytes, Bytes>, keys: seq<Bytes>, key: Bytes)
    requires (forall i :: 0 <= i < |keys| ==> keys[i] in data) && key in data
    ensures Entries(data, keys + [key]) == Entries(data, keys) + key + data[key]
    decreases |keys|
  {
    if keys == [] {
      assert ([] + [key])[1..] == [];
    } else {
      assert (keys + [key])[1..] == keys[1..] + [key];
      EntriesOn(data, keys[1..], key);
    }
  }

  lemma {:induction false} ImageEntries(data: map<Bytes, Bytes>, keys: seq<Bytes>, k: nat)
    requires k <= |keys| && forall i :: 0 <= i < |keys| ==> keys[i] in data
    ensures Image(data, keys, k) == Entries(data, keys[..k])
  {
    if k > 0 {
      ImageEntries(data, keys, k - 1);
      assert keys[..k] == keys[..k - 1] + [keys[k - 1]];
      EntriesOn(data, keys[..k - 1], keys[k - 1]);
    }
  }

  /** The keys of a state, each once, in ascending order. */
  ghost predicate Ascending(keys: seq<Bytes>, data: map<Bytes, Bytes>) {
    && (forall k :: k in keys <==> k in data)
    && forall i, j :: 0 <= i < j < |keys| ==> Less(keys[i], keys[j])
  }

  lemma AscendingEnumerates(keys: seq<Bytes>, data: map<Bytes, Bytes>)
    requires Ascending(keys, data)
    ensures Enumerates(keys, data.Keys)
    ensures forall i :: 0 <= i < |keys| ==> keys[i] in data
  {
    AllLess(keys);
    assert forall i :: 0 <= i < |keys| ==> keys[i] in keys;
  }

  lemma AllLess(keys: seq<Bytes>)
    requires forall i, j :: 0 <= i < j < |keys| ==> Less(keys[i], keys[j])
    ensures SortedBy((k: Bytes) => k, Less, keys) && DistinctKeys((k: Bytes) => k, keys)
  {
    forall i, j | 0 <= i < j < |keys| ensures !Less(keys[j], keys[i]) && keys[i] != keys[j] {
      LessTotal(keys[i], keys[j]);
    }
  }

  /** The root is the hash of the entries in ascending order of their keys. */
  lemma RootOfEntries(h: Hash, data: map<Bytes, Bytes>, keys: seq<Bytes>, root: Digest)
    requires Ascending(keys, data) && forall i :: 0 <= i < |keys| ==> keys[i] in data
    ensures IsStateRoot(h, data, root) <==> root == h(Entries(data, keys))
  {
    AscendingEnumerates(keys, data);
    ImageEntries(data, keys, |keys|);
    assert keys[..|keys|] == keys;
    if IsStateRoot(h, data, root) {
      RootIs(h, data, keys, root);
    }
  }

  /** Go's string order: the first difference decides, and a proper prefix comes first. */
  lemma {:induction false} LessExactly(a: Bytes, b: Bytes, n: nat)
    requires n <= |a| && n <= |b| && a[..n] == b[..n]
    requires n == |a| || n == |b| || a[n] != b[n]
    ensures Less(a, b) <==> (n == |a| && n < |b|) || (n < |a| && n < |b| && a[n] < b[n])
    decreases n
  {
    if n > 0 {
      assert a[0] == a[..n][0] == b[..n][0] == b[0];
      assert a[1..][..n - 1] == a[..n][1..] == b[..n][1..] == b[1..][..n - 1];
      LessExactly(a[1..], b[1..], n - 1);
    }
  }
}
