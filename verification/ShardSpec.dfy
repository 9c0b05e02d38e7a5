/**
 * The shard manager as a value: routing ring, sorted IDs, pools and state, and what splits, merges
 * and management cycles do to them.  `T` is the type of pooled transactions.
 */
module ShardSpec {
  import opened Basics
  import opened Order

  /** A shard: its pool and state, and the two metrics management looks at. */
  datatype ShardState<T> = ShardState(pool: seq<T>, data: map<Bytes, Bytes>, pending: int, stateSize: int)

  datatype Config = Config(
    splitStateSize: int,
    splitTxPool: int,
    mergeStateSize: int,
    mergeTargetSize: int,
    maxShards: int,
    minShards: int)

  datatype Manager<T> = Manager(shards: map<nat, ShardState<T>>, ids: seq<nat>, ring: set<Bytes>, next: nat)

  function EmptyShard<T>(): ShardState<T> {
    ShardState([], map[], 0, 0)
  }

  // ---------------------------------------------------------------- operations

  /** The new shard starts empty and gets the next ID. */
  function Split<T>(m: Manager<T>): Manager<T> {
    Manager(m.shards[m.next := EmptyShard()], m.ids + [m.next], m.ring + {Decimal(m.next)}, m.next + 1)
  }

  /** Shard b's content goes to a, b's values overriding and b's pool queueing behind; b is gone. */
  function MergeShards<T>(a: ShardState<T>, b: ShardState<T>): ShardState<T> {
    ShardState(a.pool + b.pool, a.data + b.data, |a.pool + b.pool|, |a.data + b.data|)
  }

  function Remove(ids: seq<nat>, id: nat): (rest: seq<nat>)
    ensures forall x :: x in rest <==> x in ids && x != id
  {
    if ids == [] then []
    else (if ids[0] == id then [] else [ids[0]]) + Remove(ids[1..], id)
  }

  function Merge<T>(m: Manager<T>, a: nat, b: nat): Manager<T>
    requires a in m.shards && b in m.shards
  {
    Manager(
      (m.shards - {b})[a := MergeShards(m.shards[a], m.shards[b])],
      Remove(m.ids, b),
      m.ring - {Decimal(b)},
      m.next)
  }

  predicate NeedsSplit<T>(cfg: Config, s: ShardState<T>) {
    || (cfg.splitStateSize > 0 && s.stateSize > cfg.splitStateSize)
    || (cfg.splitTxPool > 0 && s.pending > cfg.splitTxPool)
  }

  predicate MaySplit<T>(cfg: Config, m: Manager<T>) {
    !(cfg.maxShards > 0 && |m.shards| >= cfg.maxShards)
  }

  predicate MayMerge<T>(cfg: Config, a: ShardState<T>, b: ShardState<T>) {
    && cfg.mergeStateSize > 0 && a.stateSize < cfg.mergeStateSize
    && cfg.mergeTargetSize > 0 && b.stateSize < cfg.mergeTargetSize
  }

  predicate IdsLive<T>(m: Manager<T>) {
    forall id :: id in m.ids ==> id in m.shards
  }

  /** Some shard from position i on is over a split threshold. */
  predicate SplitWanted<T>(cfg: Config, m: Manager<T>, i: nat)
    requires IdsLive(m)
    decreases |m.ids| - i
  {
    i < |m.ids| && (NeedsSplit(cfg, m.shards[m.ids[i]]) || SplitWanted(cfg, m, i + 1))
  }

  /** The first pair of neighbours, from position i on, that may merge. */
  function FirstMerge<T>(cfg: Config, m: Manager<T>, i: nat): (at: Option<nat>)
    requires IdsLive(m)
    ensures at.Some? ==> i <= at.value && at.value + 1 < |m.ids|
    decreases |m.ids| - i
  {
    if i + 1 >= |m.ids| then None
    else if MayMerge(cfg, m.shards[m.ids[i]], m.shards[m.ids[i + 1]]) then Some(i)
    else FirstMerge(cfg, m, i + 1)
  }

  /** What a management cycle comes to. */
  datatype Outcome = Stays | Splits | Merges(at: nat)

  function OutcomeOf<T>(cfg: Config, linked: bool, m: Manager<T>): (o: Outcome)
    requires IdsLive(m)
    ensures o.Merges? ==> o.at + 1 < |m.ids|
  {
    if linked && MaySplit(cfg, m) && SplitWanted(cfg, m, 0) then Splits
    else if |m.shards| > cfg.minShards then
      match FirstMerge(cfg, m, 0)
      case None => Stays
      case Some(i) => Merges(i)
    else Stays
  }

  /** One management cycle: at most one split, else at most one merge. */
  function Manage<T>(cfg: Config, linked: bool, m: Manager<T>): Manager<T>
    requires IdsLive(m)
  {
    match OutcomeOf(cfg, linked, m)
    case Stays => m
    case Splits => Split(m)
    case Merges(i) => MergedAt(m, i)
  }

  /** The neighbours at i and i + 1 made one. */
  function MergedAt<T>(m: Manager<T>, i: nat): Manager<T>
    requires IdsLive(m) && i + 1 < |m.ids|
  {
    Merge(m, m.ids[i], m.ids[i + 1])
  }

  // ---------------------------------------------------------------- the invariant

  predicate StrictlySorted(ids: seq<nat>) {
    forall i, j :: 0 <= i < j < |ids| ==> ids[i] < ids[j]
  }

  ghost predicate IdsInStep<T>(m: Manager<T>) {
    && StrictlySorted(m.ids)
    && (forall id :: id in m.ids <==> id in m.shards)
    && |m.shards| == |m.ids|
    && (forall id :: id in m.shards ==> id < m.next)
  }

  /** The ring's members: the IDs, written out. */
  ghost function RingOf(ids: set<nat>): set<Bytes> {
    set id | id in ids :: Decimal(id)
  }

  ghost predicate PendingInStep<T>(m: Manager<T>) {
    forall id :: id in m.shards ==> m.shards[id].pending == |m.shards[id].pool|
  }

  ghost predicate CountInBounds(cfg: Config, count: int) {
    && count >= 1 && count >= cfg.minShards
    && (cfg.maxShards > 0 ==> count <= cfg.maxShards)
  }

  /** Map, ID slice, ring, counter, pools and pending metrics in step; the shard count within bounds. */
  ghost predicate InStep<T>(cfg: Config, m: Manager<T>) {
    && IdsInStep(m)
    && m.ring == RingOf(m.shards.Keys)
    && PendingInStep(m)
    && CountInBounds(cfg, |m.ids|)
  }

  lemma RingMember(ids: set<nat>, id: nat)
    ensures Decimal(id) in RingOf(ids) <==> id in ids
  {
    if Decimal(id) in RingOf(ids) {
      var other :| other in ids && Decimal(id) == Decimal(other);
      DecimalInjective(id, other);
    }
  }

  lemma RingAdd(ids: set<nat>, id: nat)
    ensures RingOf(ids + {id}) == RingOf(ids) + {Decimal(id)}
  {
    assert id in ids + {id};
  }

  lemma RingRemove(ids: set<nat>, id: nat)
    ensures RingOf(ids - {id}) == RingOf(ids) - {Decimal(id)}
  {
    forall s | s in RingOf(ids - {id}) ensures s in RingOf(ids) - {Decimal(id)} {
      var other :| other in ids - {id} && s == Decimal(other);
      if s == Decimal(id) {
        DecimalInjective(other, id);
      }
    }
  }

  lemma SplitIds<T>(m: Manager<T>)
    requires IdsInStep(m)
    ensures IdsInStep(Split(m))
  {
    IdsBelowNext(m);
    SortedWith(m.ids, m.next);
    SplitListed(m, Split(m));
  }

  lemma IdsBelowNext<T>(m: Manager<T>)
    requires IdsInStep(m)
    ensures m.next !in m.shards && forall i :: 0 <= i < |m.ids| ==> m.ids[i] < m.next
  {
    forall i | 0 <= i < |m.ids| ensures m.ids[i] < m.next {
      assert m.ids[i] in m.ids;
    }
  }

  lemma SortedWith(ids: seq<nat>, last: nat)
    requires StrictlySorted(ids) && forall i :: 0 <= i < |ids| ==> ids[i] < last
    ensures StrictlySorted(ids + [last])
  {
  }

  lemma SplitListed<T>(m: Manager<T>, n: Manager<T>)
    requires IdsInStep(m) && m.next !in m.shards && n == Split(m)
    ensures (forall id :: id in n.ids <==> id in n.shards) && |n.shards| == |n.ids|
    ensures forall id :: id in n.shards ==> id < n.next
  {
    forall id ensures id in n.ids <==> id in n.shards {
      assert id in n.ids <==> id in m.ids || id == m.next;
    }
  }

  /** All of `InStep` but the bounds on the count. */
  ghost predicate PartsInStep<T>(m: Manager<T>) {
    IdsInStep(m) && m.ring == RingOf(m.shards.Keys) && PendingInStep(m)
  }

  lemma SplitParts<T>(m: Manager<T>)
    requires PartsInStep(m)
    ensures PartsInStep(Split(m)) && |Split(m).ids| == |m.ids| + 1
  {
    SplitIds(m);
    SplitRing(m, Split(m));
    SplitPending(m, Split(m));
  }

  lemma SplitRing<T>(m: Manager<T>, s: Manager<T>)
    requires m.ring == RingOf(m.shards.Keys) && s == Split(m)
    ensures s.ring == RingOf(s.shards.Keys)
  {
    RingAdd(m.shards.Keys, m.next);
    assert s.shards.Keys == m.shards.Keys + {m.next};
  }

  lemma SplitPending<T>(m: Manager<T>, s: Manager<T>)
    requires PendingInStep(m) && s == Split(m)
    ensures PendingInStep(s)
  {
  }

  /** The same, of a manager that is known to come from a split. */
  lemma AfterSplit<T>(m: Manager<T>, s: Manager<T>)
    requires PartsInStep(m) && s == Split(m)
    ensures PartsInStep(s) && |s.ids| == |m.ids| + 1 && s.next == m.next + 1
  {
    SplitParts(m);
  }

  lemma SplitInStep<T>(cfg: Config, m: Manager<T>)
    requires InStep(cfg, m) && MaySplit(cfg, m)
    ensures InStep(cfg, Split(m))
    ensures |Split(m).ids| == |m.ids| + 1
  {
    AfterSplit(m, Split(m));
  }

  lemma {:induction false} RemoveSorted(ids: seq<nat>, id: nat)
    requires StrictlySorted(ids) && id in ids
    ensures StrictlySorted(Remove(ids, id)) && |Remove(ids, id)| == |ids| - 1
  {
    if ids[0] == id {
      RemoveAbsent(ids[1..], id);
    } else {
      RemoveSorted(ids[1..], id);
      var rest := Remove(ids[1..], id);
      forall j | 0 <= j < |rest| ensures ids[0] < rest[j] {
        assert rest[j] in rest && rest[j] in ids[1..];
      }
    }
  }

  lemma {:induction false} RemoveAbsent(ids: seq<nat>, id: nat)
    requires id !in ids
    ensures Remove(ids, id) == ids
  {
    if ids != [] {
      RemoveAbsent(ids[1..], id);
    }
  }

  lemma MergeIds<T>(m: Manager<T>, a: nat, b: nat)
    requires IdsInStep(m) && a in m.shards && b in m.shards && a != b
    ensures IdsInStep(Merge(m, a, b))
    ensures Merge(m, a, b).shards.Keys == m.shards.Keys - {b}
    ensures |Merge(m, a, b).ids| == |m.ids| - 1
  {
    RemoveSorted(m.ids, b);
    var n := Merge(m, a, b);
    assert n.shards.Keys == m.shards.Keys - {b};
    assert |n.shards.Keys| == |m.shards.Keys| - 1;
  }

  lemma MergeInStep<T>(cfg: Config, m: Manager<T>, a: nat, b: nat)
    requires InStep(cfg, m) && a in m.shards && b in m.shards && a != b
    requires |m.ids| > cfg.minShards
    ensures InStep(cfg, Merge(m, a, b))
    ensures |Merge(m, a, b).ids| == |m.ids| - 1
  {
    MergeIds(m, a, b);
    RingRemove(m.shards.Keys, b);
    MergePending(m, a, b);
    assert a in Merge(m, a, b).ids;
  }

  lemma MergePending<T>(m: Manager<T>, a: nat, b: nat)
    requires PendingInStep(m) && a in m.shards && b in m.shards
    ensures PendingInStep(Merge(m, a, b))
  {
  }

  lemma MergedAtInStep<T>(cfg: Config, m: Manager<T>, i: nat)
    requires InStep(cfg, m) && i + 1 < |m.ids| && |m.ids| > cfg.minShards
    ensures InStep(cfg, MergedAt(m, i))
    ensures |MergedAt(m, i).ids| == |m.ids| - 1 && MergedAt(m, i).next == m.next
  {
    MergeInStep(cfg, m, m.ids[i], m.ids[i + 1]);
  }

  ghost predicate IsOutcome<T>(cfg: Config, m: Manager<T>, o: Outcome, v: Manager<T>)
    requires IdsLive(m)
  {
    match o
    case Stays => v == m
    case Splits => MaySplit(cfg, m) && v == Split(m)
    case Merges(i) => i + 1 < |m.ids| && |m.shards| > cfg.minShards && v == MergedAt(m, i)
  }

  lemma ManageOutcome<T>(cfg: Config, linked: bool, m: Manager<T>)
    requires IdsLive(m)
    ensures IsOutcome(cfg, m, OutcomeOf(cfg, linked, m), Manage(cfg, linked, m))
  {
  }

  lemma OutcomeInStep<T>(cfg: Config, m: Manager<T>, o: Outcome, v: Manager<T>)
    requires InStep(cfg, m) && IsOutcome(cfg, m, o, v)
    ensures InStep(cfg, v) && -1 <= |v.ids| - |m.ids| <= 1 && m.next <= v.next
  {
    match o
    case Stays =>
    case Splits =>
      SplitInStep(cfg, m);
    case Merges(i) =>
      MergedAtInStep(cfg, m, i);
  }

  /**
   * A management cycle keeps everything in step and changes the shard count by at most one.
   */
  lemma ManageInStep<T>(cfg: Config, linked: bool, m: Manager<T>)
    requires InStep(cfg, m)
    ensures InStep(cfg, Manage(cfg, linked, m))
    ensures -1 <= |Manage(cfg, linked, m).ids| - |m.ids| <= 1
    ensures m.next <= Manage(cfg, linked, m).next
  {
    ManageOutcome(cfg, linked, m);
    OutcomeInStep(cfg, m, OutcomeOf(cfg, linked, m), Manage(cfg, linked, m));
  }

  /** A new manager: n shards, numbered from 0, each split off the ones before. */
  function Initial<T>(n: nat): Manager<T> {
    if n == 0 then Manager(map[], [], {}, 0) else Split(Initial(n - 1))
  }

  /** In step, n shards so far, and nothing in their pools. */
  ghost predicate Fresh<T>(n: nat, m: Manager<T>) {
    PartsInStep(m) && |m.ids| == n && m.next == n && Pools(m.shards, m.ids) == []
  }

  lemma FreshStart<T>(m: Manager<T>)
    requires m == Manager(map[], [], {}, 0)
    ensures Fresh(0, m)
  {
    assert RingOf({}) == {};
  }

  lemma FreshNext<T>(n: nat, m: Manager<T>, s: Manager<T>)
    requires n > 0 && s == Split(m) && Fresh(n - 1, m)
    ensures Fresh(n, s)
  {
    AfterSplit(m, s);
    PoolsAfterSplit(m, s);
  }

  lemma {:induction false} InitialParts<T>(n: nat)
    ensures Fresh(n, Initial<T>(n))
  {
    if n == 0 {
      FreshStart(Initial<T>(0));
    } else {
      InitialParts<T>(n - 1);
      FreshNext(n, Initial<T>(n - 1), Initial<T>(n));
    }
  }

  lemma InitialInStep<T>(cfg: Config, n: nat)
    requires CountInBounds(cfg, n)
    ensures InStep(cfg, Initial<T>(n)) && Pools(Initial<T>(n).shards, Initial<T>(n).ids) == []
  {
    InitialParts<T>(n);
  }

  // ---------------------------------------------------------------- pools

  /** All pools, in ID order. */
  function Pools<T>(shards: map<nat, ShardState<T>>, ids: seq<nat>): seq<T>
    requires forall id :: id in ids ==> id in shards
  {
    if ids == [] then [] else shards[ids[0]].pool + Pools(shards, ids[1..])
  }

  lemma {:induction false} PoolsConcat<T>(shards: map<nat, ShardState<T>>, x: seq<nat>, y: seq<nat>)
    requires forall id :: id in x + y ==> id in shards
    ensures forall id :: id in x || id in y ==> id in shards
    ensures Pools(shards, x + y) == Pools(shards, x) + Pools(shards, y)
  {
    forall id | id in x || id in y ensures id in shards {
      assert id in x + y;
    }
    if x == [] {
      assert x + y == y;
    } else {
      assert (x + y)[1..] == x[1..] + y;
      PoolsConcat(shards, x[1..], y);
    }
  }

  lemma {:induction false} PoolsAgree<T>(s: map<nat, ShardState<T>>, t: map<nat, ShardState<T>>, ids: seq<nat>)
    requires forall id :: id in ids ==> id in s && id in t && s[id].pool == t[id].pool
    ensures Pools(s, ids) == Pools(t, ids)
  {
    if ids != [] {
      PoolsAgree(s, t, ids[1..]);
    }
  }

  lemma PoolsOne<T>(shards: map<nat, ShardState<T>>, id: nat)
    requires id in shards
    ensures Pools(shards, [id]) == shards[id].pool
  {
    assert Pools(shards, [id]) == shards[id].pool + Pools(shards, []);
  }

  /** The pools around position i. */
  lemma PoolsAround<T>(shards: map<nat, ShardState<T>>, ids: seq<nat>, i: nat)
    requires i < |ids| && forall id :: id in ids ==> id in shards
    ensures Pools(shards, ids) == Pools(shards, ids[..i]) + shards[ids[i]].pool + Pools(shards, ids[i + 1..])
  {
    assert ids == ids[..i] + ([ids[i]] + ids[i + 1..]);
    PoolsConcat(shards, ids[..i], [ids[i]] + ids[i + 1..]);
    PoolsConcat(shards, [ids[i]], ids[i + 1..]);
    PoolsOne(shards, ids[i]);
  }

  lemma {:induction false} RemoveAt(ids: seq<nat>, k: nat)
    requires StrictlySorted(ids) && k < |ids|
    ensures Remove(ids, ids[k]) == ids[..k] + ids[k + 1..]
  {
    var tail := ids[1..];
    if k == 0 {
      RemoveAbsent(tail, ids[0]);
    } else {
      RemoveAt(tail, k - 1);
      assert ids[0] != ids[k] && tail[k - 1] == ids[k];
      TailAround(ids, k);
    }
  }

  lemma TailAround(ids: seq<nat>, k: nat)
    requires 0 < k < |ids|
    ensures [ids[0]] + (ids[1..][..k - 1] + ids[1..][k..]) == ids[..k] + ids[k + 1..]
  {
  }

  lemma SplitKeepsPools<T>(m: Manager<T>)
    requires IdsInStep(m)
    ensures Pools(Split(m).shards, Split(m).ids) == Pools(m.shards, m.ids)
  {
    var n := Split(m);
    PoolsConcat(n.shards, m.ids, [m.next]);
    PoolsOne(n.shards, m.next);
    PoolsAgree(n.shards, m.shards, m.ids);
  }

  lemma PoolsAfterSplit<T>(m: Manager<T>, s: Manager<T>)
    requires IdsInStep(m) && s == Split(m)
    ensures IdsLive(s) && Pools(s.shards, s.ids) == Pools(m.shards, m.ids)
  {
    SplitIds(m);
    SplitKeepsPools(m);
  }

  lemma RemoveNext(ids: seq<nat>, i: nat)
    requires StrictlySorted(ids) && i + 1 < |ids|
    ensures
      var r := Remove(ids, ids[i + 1]);
      |r| == |ids| - 1 && r[..i] == ids[..i] && r[i] == ids[i] && r[i + 1..] == ids[i + 2..]
  {
    RemoveAt(ids, i + 1);
  }

  lemma PoolsFrom<T>(shards: map<nat, ShardState<T>>, ids: seq<nat>, k: nat)
    requires k < |ids| && forall id :: id in ids ==> id in shards
    ensures Pools(shards, ids[k..]) == shards[ids[k]].pool + Pools(shards, ids[k + 1..])
  {
    assert ids[k..][0] == ids[k] && ids[k..][1..] == ids[k + 1..];
  }

  lemma Reassociate<T>(l: seq<T>, x: seq<T>, y: seq<T>, r: seq<T>)
    ensures l + x + (y + r) == l + (x + y) + r
  {
  }

  lemma PoolsAroundTwo<T>(shards: map<nat, ShardState<T>>, ids: seq<nat>, i: nat)
    requires i + 1 < |ids| && forall id :: id in ids ==> id in shards
    ensures Pools(shards, ids) ==
      Pools(shards, ids[..i]) + (shards[ids[i]].pool + shards[ids[i + 1]].pool) + Pools(shards, ids[i + 2..])
  {
    PoolsAround(shards, ids, i);
    PoolsFrom(shards, ids, i + 1);
    Reassociate(Pools(shards, ids[..i]), shards[ids[i]].pool, shards[ids[i + 1]].pool, Pools(shards, ids[i + 2..]));
  }

  lemma ElsewhereAt(ids: seq<nat>, i: nat, k: nat)
    requires StrictlySorted(ids) && i + 1 < |ids| && k < |ids| && k != i && k != i + 1
    ensures ids[k] in ids && ids[k] != ids[i] && ids[k] != ids[i + 1]
  {
  }

  /** Away from the two neighbours a merge changes no shard. */
  lemma MergeSpares<T>(m: Manager<T>, i: nat, k: nat)
    requires IdsInStep(m) && i + 1 < |m.ids| && k < |m.ids| && k != i && k != i + 1
    ensures m.ids[k] in m.shards && m.ids[k] in MergedAt(m, i).shards
    ensures MergedAt(m, i).shards[m.ids[k]] == m.shards[m.ids[k]]
  {
    ElsewhereAt(m.ids, i, k);
  }

  lemma MergeElsewhere<T>(m: Manager<T>, i: nat, ids: seq<nat>)
    requires IdsInStep(m) && i + 1 < |m.ids|
    requires ids == m.ids[..i] || ids == m.ids[i + 2..]
    ensures
      var n := MergedAt(m, i);
      (forall id :: id in ids ==> id in n.shards && id in m.shards) && Pools(n.shards, ids) == Pools(m.shards, ids)
  {
    var n := MergedAt(m, i);
    forall id | id in ids ensures id in m.shards && id in n.shards && n.shards[id] == m.shards[id] {
      MergeSparesID(m, i, ids, id);
    }
    PoolsAgree(n.shards, m.shards, ids);
  }

  lemma MergeSparesID<T>(m: Manager<T>, i: nat, ids: seq<nat>, id: nat)
    requires IdsInStep(m) && i + 1 < |m.ids| && id in ids
    requires ids == m.ids[..i] || ids == m.ids[i + 2..]
    ensures id in m.shards && id in MergedAt(m, i).shards && MergedAt(m, i).shards[id] == m.shards[id]
  {
    var k :| 0 <= k < |ids| && ids[k] == id;
    MergeSpares(m, i, if ids == m.ids[..i] then k else i + 2 + k);
  }

  lemma NeighbourMergeKeepsPools<T>(m: Manager<T>, i: nat)
    requires IdsInStep(m) && i + 1 < |m.ids|
    ensures IdsInStep(Merge(m, m.ids[i], m.ids[i + 1]))
    ensures Pools(Merge(m, m.ids[i], m.ids[i + 1]).shards, Merge(m, m.ids[i], m.ids[i + 1]).ids) == Pools(m.shards, m.ids)
  {
    var n := Merge(m, m.ids[i], m.ids[i + 1]);
    MergeIds(m, m.ids[i], m.ids[i + 1]);
    RemoveNext(m.ids, i);
    MergeElsewhere(m, i, m.ids[..i]);
    MergeElsewhere(m, i, m.ids[i + 2..]);
    PoolsAroundTwo(m.shards, m.ids, i);
    PoolsAround(n.shards, n.ids, i);
  }

  lemma OutcomeKeepsPools<T>(cfg: Config, m: Manager<T>, o: Outcome, v: Manager<T>)
    requires InStep(cfg, m) && IsOutcome(cfg, m, o, v) && InStep(cfg, v)
    ensures Pools(v.shards, v.ids) == Pools(m.shards, m.ids)
  {
    match o
    case Stays =>
    case Splits =>
      PoolsAfterSplit(m, v);
    case Merges(i) =>
      PoolsAfterMerge(m, i, v);
  }

  lemma PoolsAfterMerge<T>(m: Manager<T>, i: nat, v: Manager<T>)
    requires IdsInStep(m) && i + 1 < |m.ids| && v == MergedAt(m, i)
    ensures IdsLive(v) && Pools(v.shards, v.ids) == Pools(m.shards, m.ids)
  {
    NeighbourMergeKeepsPools(m, i);
  }

  /** A management cycle leaves the transactions in ID order exactly as they were: only the cuts between pools move. */
  lemma ManageKeepsPools<T>(cfg: Config, linked: bool, m: Manager<T>)
    requires InStep(cfg, m)
    ensures InStep(cfg, Manage(cfg, linked, m))
    ensures Pools(Manage(cfg, linked, m).shards, Manage(cfg, linked, m).ids) == Pools(m.shards, m.ids)
  {
    ManageInStep(cfg, linked, m);
    ManageOutcome(cfg, linked, m);
    OutcomeKeepsPools(cfg, m, OutcomeOf(cfg, linked, m), Manage(cfg, linked, m));
  }
}
