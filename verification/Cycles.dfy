/** Exactly when a management cycle splits, when it merges and which pair, and what either leaves behind. */
module Cycles {
  import opened Basics
  import opened Order
  import opened ShardSpec

  /** Over a threshold that is switched on. */
  ghost predicate Overloaded<T>(cfg: Config, s: ShardState<T>) {
    || (cfg.splitStateSize > 0 && s.stateSize > cfg.splitStateSize)
    || (cfg.splitTxPool > 0 && |s.pool| > cfg.splitTxPool)
  }

  /** The blockchain is there, so is room for one more shard, and some shard is overloaded. */
  ghost predicate SplitDue<T>(cfg: Config, linked: bool, m: Manager<T>) {
    && linked
    && (cfg.maxShards <= 0 || |m.shards| < cfg.maxShards)
    && exists id :: id in m.shards && Overloaded(cfg, m.shards[id])
  }

  /** The shards at positions i and i + 1 are both small. */
  ghost predicate SmallPair<T>(cfg: Config, m: Manager<T>, i: int)
    requires IdsLive(m) && 0 <= i && i + 1 < |m.ids|
  {
    && cfg.mergeStateSize > 0 && m.shards[m.ids[i]].stateSize < cfg.mergeStateSize
    && cfg.mergeTargetSize > 0 && m.shards[m.ids[i + 1]].stateSize < cfg.mergeTargetSize
  }

  ghost predicate SmallPairAt<T>(cfg: Config, m: Manager<T>, i: int)
    requires IdsLive(m)
  {
    0 <= i && i + 1 < |m.ids| && SmallPair(cfg, m, i)
  }

  /** More shards than required, and two small neighbours. */
  ghost predicate MergeDue<T>(cfg: Config, m: Manager<T>)
    requires IdsLive(m)
  {
    |m.shards| > cfg.minShards && exists i :: SmallPairAt(cfg, m, i)
  }

  lemma {:induction false} WantedExactly<T>(cfg: Config, m: Manager<T>, i: nat)
    requires IdsLive(m) && PendingInStep(m)
    ensures SplitWanted(cfg, m, i) <==> exists k :: i <= k < |m.ids| && Overloaded(cfg, m.shards[m.ids[k]])
    decreases |m.ids| - i
  {
    if i < |m.ids| {
      WantedExactly(cfg, m, i + 1);
    }
  }

  lemma SplitDueExactly<T>(cfg: Config, linked: bool, m: Manager<T>)
    requires InStep(cfg, m)
    ensures OutcomeOf(cfg, linked, m) == Splits <==> SplitDue(cfg, linked, m)
  {
    WantedExactly(cfg, m, 0);
    if id :| id in m.shards && Overloaded(cfg, m.shards[id]) {
      assert id in m.ids;
      var k :| 0 <= k < |m.ids| && m.ids[k] == id;
    }
  }

  lemma {:induction false} FirstSmallPair<T>(cfg: Config, m: Manager<T>, i: nat)
    requires IdsLive(m)
    ensures
      match FirstMerge(cfg, m, i)
      case None => forall k :: i <= k ==> !SmallPairAt(cfg, m, k)
      case Some(at) => i <= at && SmallPairAt(cfg, m, at) && forall k :: i <= k < at ==> !SmallPairAt(cfg, m, k)
    decreases |m.ids| - i
  {
    if i + 1 < |m.ids| {
      FirstSmallPair(cfg, m, i + 1);
    }
  }

  /** One cycle makes exactly one shard more if a split is due. */
  lemma SplitsExactly<T>(cfg: Config, linked: bool, m: Manager<T>)
    requires InStep(cfg, m)
    ensures |Manage(cfg, linked, m).ids| == |m.ids| + 1 <==> SplitDue(cfg, linked, m)
  {
    SplitDueExactly(cfg, linked, m);
    CountAfter(cfg, linked, m);
  }

  /** Exactly one less if no split but a merge is due. */
  lemma MergesExactly<T>(cfg: Config, linked: bool, m: Manager<T>)
    requires InStep(cfg, m)
    ensures |Manage(cfg, linked, m).ids| == |m.ids| - 1 <==> !SplitDue(cfg, linked, m) && MergeDue(cfg, m)
  {
    SplitDueExactly(cfg, linked, m);
    FirstSmallPair(cfg, m, 0);
    CountAfter(cfg, linked, m);
  }

  lemma CountAfter<T>(cfg: Config, linked: bool, m: Manager<T>)
    requires InStep(cfg, m)
    ensures
      var n := |Manage(cfg, linked, m).ids|;
      match OutcomeOf(cfg, linked, m)
      case Stays => n == |m.ids|
      case Splits => n == |m.ids| + 1
      case Merges(_) => n == |m.ids| - 1
  {
    var o := OutcomeOf(cfg, linked, m);
    if o.Merges? {
      RemoveNext(m.ids, o.at);
    }
  }

  /** Otherwise everything stays as it is. */
  lemma StaysExactly<T>(cfg: Config, linked: bool, m: Manager<T>)
    requires InStep(cfg, m) && !SplitDue(cfg, linked, m) && !MergeDue(cfg, m)
    ensures Manage(cfg, linked, m) == m
  {
    SplitDueExactly(cfg, linked, m);
    FirstSmallPair(cfg, m, 0);
  }

  /** A split adds an empty shard under the next ID, at the end, and changes nothing else. */
  lemma SplitLeaves<T>(cfg: Config, linked: bool, m: Manager<T>)
    requires InStep(cfg, m) && SplitDue(cfg, linked, m)
    ensures
      var v := Manage(cfg, linked, m);
      && v.ids == m.ids + [m.next] && v.next == m.next + 1 && v.shards.Keys == m.shards.Keys + {m.next}
      && v.ring == m.ring + {Decimal(m.next)}
      && v.shards[m.next].pool == [] && v.shards[m.next].data == map[]
      && v.shards[m.next].pending == 0 && v.shards[m.next].stateSize == 0
      && forall id :: id in m.shards ==> v.shards[id] == m.shards[id]
  {
    SplitDueExactly(cfg, linked, m);
    assert m.next !in m.shards;
  }

  /** The merged shard: b's transactions behind a's, b's values over a's. */
  ghost predicate IsUnion<T>(a: ShardState<T>, b: ShardState<T>, s: ShardState<T>) {
    && s.pool == a.pool + b.pool && s.pending == |a.pool| + |b.pool| && s.stateSize == |s.data|
    && s.data.Keys == a.data.Keys + b.data.Keys
    && forall k :: k in s.data ==> s.data[k] == if k in b.data then b.data[k] else a.data[k]
  }

  /** The pair at i became one shard, under the first one's ID. */
  ghost predicate IsPairMerged<T>(m: Manager<T>, i: nat, v: Manager<T>)
    requires i + 1 < |m.ids| && IdsLive(m)
  {
    var a, b := m.ids[i], m.ids[i + 1];
    && v.ids == m.ids[..i + 1] + m.ids[i + 2..] && v.next == m.next
    && v.ring == m.ring - {Decimal(b)} && v.shards.Keys == m.shards.Keys - {b} && a in v.shards
    && IsUnion(m.shards[a], m.shards[b], v.shards[a])
    && forall id :: id in v.shards && id != a ==> v.shards[id] == m.shards[id]
  }

  /** A merge takes the first two small neighbours. */
  lemma MergeLeaves<T>(cfg: Config, linked: bool, m: Manager<T>) returns (i: nat)
    requires InStep(cfg, m) && !SplitDue(cfg, linked, m) && MergeDue(cfg, m)
    ensures SmallPairAt(cfg, m, i) && forall k :: 0 <= k < i ==> !SmallPairAt(cfg, m, k)
    ensures IsPairMerged(m, i, Manage(cfg, linked, m))
  {
    SplitDueExactly(cfg, linked, m);
    FirstSmallPair(cfg, m, 0);
    i := FirstMerge(cfg, m, 0).value;
    PairMerged(m, i);
  }

  lemma PairMerged<T>(m: Manager<T>, i: nat)
    requires IdsInStep(m) && i + 1 < |m.ids|
    ensures IsPairMerged(m, i, MergedAt(m, i))
  {
    assert m.ids[i] < m.ids[i + 1];
    IdsMerged(m.ids, i);
    ShardsMerged(m.shards, m.ids[i], m.ids[i + 1]);
  }

  lemma IdsMerged(ids: seq<nat>, i: nat)
    requires StrictlySorted(ids) && i + 1 < |ids|
    ensures Remove(ids, ids[i + 1]) == ids[..i + 1] + ids[i + 2..]
  {
    RemoveAt(ids, i + 1);
  }

  lemma ShardsMerged<T>(shards: map<nat, ShardState<T>>, a: nat, b: nat)
    requires a in shards && b in shards && a != b
    ensures
      var after := (shards - {b})[a := MergeShards(shards[a], shards[b])];
      && after.Keys == shards.Keys - {b} && IsUnion(shards[a], shards[b], after[a])
      && forall id :: id in after && id != a ==> after[id] == shards[id]
  {
  }

  /** Shards 0 to n - 1, all of them empty and on the ring. */
  ghost predicate IsNew<T>(n: nat, m: Manager<T>) {
    && |m.ids| == n && m.next == n && (forall i :: 0 <= i < n ==> m.ids[i] == i)
    && (forall id: nat :: id in m.shards <==> id < n) && (forall id: nat :: id < n ==> Decimal(id) in m.ring)
    && forall id :: id in m.shards ==> m.shards[id] == ShardState([], map[], 0, 0)
  }

  lemma NewNext<T>(n: nat, m: Manager<T>, s: Manager<T>)
    requires n > 0 && IsNew(n - 1, m) && s == Split(m)
    ensures IsNew(n, s)
  {
  }

  lemma {:induction false} InitialInFull<T>(n: nat)
    ensures IsNew(n, Initial<T>(n))
  {
    if n > 0 {
      InitialInFull<T>(n - 1);
      NewNext(n, Initial<T>(n - 1), Initial<T>(n));
    }
  }
}
