/**
 * Runs of the sharded system: transactions arrive, are drained into blocks, state changes, and
 * management cycles split and merge shards in between.
 */
module ShardRuns {
  import opened Basics
  import opened Order
  import opened ShardSpec

  /** `accepted` and `drained` record every transaction taken in and handed to a block, in order. */
  datatype World<T> = World(m: Manager<T>, accepted: seq<T>, drained: seq<T>)

  /**
   * Routing and enqueueing is one step; `to` is whatever live shard the ring answered.  Draining is
   * for one block of at most `max`.  `Execute` is any change to a shard's state and state metric.
   */
  datatype Step<T> =
    | Add(tx: T, to: nat)
    | Drain(from: nat, max: nat)
    | Execute(on: nat, data: map<Bytes, Bytes>, stateSize: int)
    | Cycle(linked: bool)

  function Min(a: nat, b: nat): nat {
    if a <= b then a else b
  }

  function Enqueue<T>(s: ShardState<T>, tx: T): ShardState<T> {
    s.(pool := s.pool + [tx], pending := |s.pool + [tx]|)
  }

  /** Nothing is written when nothing is taken. */
  function Dequeue<T>(s: ShardState<T>, max: nat): ShardState<T> {
    var count := Min(|s.pool|, max);
    if count == 0 then s else s.(pool := s.pool[count..], pending := |s.pool[count..]|)
  }

  predicate Enabled<T>(w: World<T>, step: Step<T>) {
    match step
    case Add(_, to) => Decimal(to) in w.m.ring
    case Drain(from, _) => from in w.m.shards
    case Execute(on, _, _) => on in w.m.shards
    case Cycle(_) => true
  }

  ghost function Next<T>(cfg: Config, w: World<T>, step: Step<T>): World<T>
    requires InStep(cfg, w.m) && Enabled(w, step)
  {
    match step
    case Add(tx, to) =>
      RingMember(w.m.shards.Keys, to);
      World(w.m.(shards := w.m.shards[to := Enqueue(w.m.shards[to], tx)]), w.accepted + [tx], w.drained)
    case Drain(from, max) =>
      var s := w.m.shards[from];
      World(w.m.(shards := w.m.shards[from := Dequeue(s, max)]), w.accepted, w.drained + s.pool[..Min(|s.pool|, max)])
    case Execute(on, data, stateSize) =>
      World(w.m.(shards := w.m.shards[on := w.m.shards[on].(data := data, stateSize := stateSize)]), w.accepted, w.drained)
    case Cycle(linked) =>
      World(Manage(cfg, linked, w.m), w.accepted, w.drained)
  }

  /** A run: the worlds it passes through, from a world in step. */
  ghost predicate IsRun<T>(cfg: Config, worlds: seq<World<T>>, steps: seq<Step<T>>) {
    && |worlds| == |steps| + 1
    && InStep(cfg, worlds[0].m)
    && forall i :: 0 <= i < |steps| ==> GoesAt(cfg, worlds, steps, i)
  }

  ghost predicate GoesAt<T>(cfg: Config, worlds: seq<World<T>>, steps: seq<Step<T>>, i: int)
    requires 0 <= i < |steps| && i + 1 < |worlds|
  {
    Goes(cfg, worlds[i], steps[i], worlds[i + 1])
  }

  /** What a step does is defined for worlds in step; that a run never leaves these is proved below. */
  ghost predicate Goes<T>(cfg: Config, w: World<T>, step: Step<T>, v: World<T>) {
    Enabled(w, step) && (InStep(cfg, w.m) ==> v == Next(cfg, w, step))
  }

  // ---------------------------------------------------------------- the invariant holds throughout

  /** Changing one live shard's content, pool and pending together, keeps everything in step. */
  lemma UpdateInStep<T>(cfg: Config, m: Manager<T>, id: nat, s: ShardState<T>)
    requires InStep(cfg, m) && id in m.shards && s.pending == |s.pool|
    ensures InStep(cfg, m.(shards := m.shards[id := s]))
  {
    assert m.shards[id := s].Keys == m.shards.Keys;
  }

  lemma StepInStep<T>(cfg: Config, w: World<T>, step: Step<T>)
    requires InStep(cfg, w.m) && Enabled(w, step)
    ensures InStep(cfg, Next(cfg, w, step).m)
    ensures w.m.next <= Next(cfg, w, step).m.next
    ensures -1 <= |Next(cfg, w, step).m.ids| - |w.m.ids| <= 1
  {
    match step
    case Add(tx, to) =>
      RingMember(w.m.shards.Keys, to);
      UpdateInStep(cfg, w.m, to, Enqueue(w.m.shards[to], tx));
    case Drain(from, max) =>
      UpdateInStep(cfg, w.m, from, Dequeue(w.m.shards[from], max));
    case Execute(on, data, stateSize) =>
      UpdateInStep(cfg, w.m, on, w.m.shards[on].(data := data, stateSize := stateSize));
    case Cycle(linked) =>
      ManageInStep(cfg, linked, w.m);
  }

  /** An ID once issued and no longer live is never live again. */
  lemma DeadStaysDead<T>(cfg: Config, w: World<T>, step: Step<T>, id: nat)
    requires InStep(cfg, w.m) && Enabled(w, step)
    requires id < w.m.next && id !in w.m.shards
    ensures id < Next(cfg, w, step).m.next && id !in Next(cfg, w, step).m.shards
  {
    StepInStep(cfg, w, step);
    if step.Add? {
      RingMember(w.m.shards.Keys, step.to);
    }
  }

  lemma GoesInStep<T>(cfg: Config, worlds: seq<World<T>>, steps: seq<Step<T>>, i: nat)
    requires |worlds| == |steps| + 1 && i < |steps|
    requires GoesAt(cfg, worlds, steps, i) && InStep(cfg, worlds[i].m)
    ensures Enabled(worlds[i], steps[i]) && worlds[i + 1] == Next(cfg, worlds[i], steps[i])
    ensures InStep(cfg, worlds[i + 1].m) && worlds[i].m.next <= worlds[i + 1].m.next
  {
    StepInStep(cfg, worlds[i], steps[i]);
  }

  lemma KeepsInStep<T>(cfg: Config, worlds: seq<World<T>>, steps: seq<Step<T>>, i: nat)
    requires IsRun(cfg, worlds, steps) && i < |steps| && InStep(cfg, worlds[i].m)
    ensures InStep(cfg, worlds[i + 1].m)
  {
    assert GoesAt(cfg, worlds, steps, i);
    GoesInStep(cfg, worlds, steps, i);
  }

  /** Every world of a run is in step. */
  lemma {:induction false} RunInStep<T>(cfg: Config, worlds: seq<World<T>>, steps: seq<Step<T>>, i: nat)
    requires IsRun(cfg, worlds, steps) && i < |worlds|
    ensures InStep(cfg, worlds[i].m)
  {
    if i > 0 {
      RunInStep(cfg, worlds, steps, i - 1);
      KeepsInStep(cfg, worlds, steps, i - 1);
    }
  }

  /** What the i-th step of a run keeps. */
  lemma StepAt<T>(cfg: Config, worlds: seq<World<T>>, steps: seq<Step<T>>, i: nat)
    requires IsRun(cfg, worlds, steps) && i < |steps|
    ensures InStep(cfg, worlds[i].m) && Enabled(worlds[i], steps[i])
    ensures worlds[i + 1] == Next(cfg, worlds[i], steps[i])
    ensures InStep(cfg, worlds[i + 1].m)
    ensures worlds[i].m.next <= worlds[i + 1].m.next
  {
    RunInStep(cfg, worlds, steps, i);
    assert GoesAt(cfg, worlds, steps, i);
    GoesInStep(cfg, worlds, steps, i);
  }

  lemma DeadAt<T>(cfg: Config, worlds: seq<World<T>>, steps: seq<Step<T>>, i: nat, id: nat)
    requires IsRun(cfg, worlds, steps) && i < |steps|
    requires id < worlds[i].m.next && id !in worlds[i].m.shards
    ensures id < worlds[i + 1].m.next && id !in worlds[i + 1].m.shards
  {
    StepAt(cfg, worlds, steps, i);
    DeadStaysDead(cfg, worlds[i], steps[i], id);
  }

  lemma {:induction false} IdsNeverReused<T>(cfg: Config, worlds: seq<World<T>>, steps: seq<Step<T>>, i: nat, j: nat, id: nat)
    requires IsRun(cfg, worlds, steps) && i <= j < |worlds|
    requires id < worlds[i].m.next && id !in worlds[i].m.shards
    ensures id < worlds[j].m.next && id !in worlds[j].m.shards
    decreases j
  {
    if i < j {
      IdsNeverReused(cfg, worlds, steps, i, j - 1, id);
      DeadAt(cfg, worlds, steps, j - 1, id);
    }
  }

  /** A shard live at two points of a run was live all the time between. */
  lemma {:induction false} LiveThroughout<T>(cfg: Config, worlds: seq<World<T>>, steps: seq<Step<T>>, i: nat, k: nat, j: nat, id: nat)
    requires IsRun(cfg, worlds, steps) && i <= k <= j < |worlds|
    requires id in worlds[i].m.shards && id in worlds[j].m.shards
    ensures id in worlds[k].m.shards
  {
    if id !in worlds[k].m.shards {
      IssuedThroughout(cfg, worlds, steps, i, k, id);
      IdsNeverReused(cfg, worlds, steps, k, j, id);
    }
  }

  lemma LiveIssued<T>(cfg: Config, m: Manager<T>, id: nat)
    requires InStep(cfg, m) && id in m.shards
    ensures id < m.next
  {
  }

  lemma CounterGrows<T>(cfg: Config, worlds: seq<World<T>>, steps: seq<Step<T>>, i: nat)
    requires IsRun(cfg, worlds, steps) && i < |steps|
    ensures worlds[i].m.next <= worlds[i + 1].m.next
  {
    StepAt(cfg, worlds, steps, i);
  }

  lemma {:induction false} IssuedThroughout<T>(cfg: Config, worlds: seq<World<T>>, steps: seq<Step<T>>, i: nat, k: nat, id: nat)
    requires IsRun(cfg, worlds, steps) && i <= k < |worlds| && id in worlds[i].m.shards
    ensures id < worlds[k].m.next
    decreases k
  {
    if i == k {
      RunInStep(cfg, worlds, steps, i);
      LiveIssued(cfg, worlds[i].m, id);
    } else {
      IssuedThroughout(cfg, worlds, steps, i, k - 1, id);
      CounterGrows(cfg, worlds, steps, k - 1);
    }
  }

  // ---------------------------------------------------------------- conservation

  /** Nothing is lost and nothing duplicated: accepted is pooled plus drained. */
  ghost predicate Conserved<T>(w: World<T>)
    requires IdsLive(w.m)
  {
    multiset(w.accepted) == multiset(w.drained) + multiset(Pools(w.m.shards, w.m.ids))
  }

  /** Replacing one pool replaces it in the row of pools. */
  lemma PoolsReplaced<T>(cfg: Config, m: Manager<T>, id: nat, s: ShardState<T>)
    returns (before: seq<T>, after: seq<T>)
    requires InStep(cfg, m) && id in m.shards
    ensures Pools(m.shards, m.ids) == before + m.shards[id].pool + after
    ensures Pools(m.shards[id := s], m.ids) == before + s.pool + after
  {
    var i :| 0 <= i < |m.ids| && m.ids[i] == id;
    var updated := m.shards[id := s];
    PoolsAround(m.shards, m.ids, i);
    PoolsAround(updated, m.ids, i);
    UpdateElsewhere(m, i, s, m.ids[..i]);
    UpdateElsewhere(m, i, s, m.ids[i + 1..]);
    before, after := Pools(m.shards, m.ids[..i]), Pools(m.shards, m.ids[i + 1..]);
  }

  /** Changing one shard changes no pool before or behind it. */
  lemma UpdateElsewhere<T>(m: Manager<T>, i: nat, s: ShardState<T>, ids: seq<nat>)
    requires IdsInStep(m) && i < |m.ids| && (ids == m.ids[..i] || ids == m.ids[i + 1..])
    ensures forall id :: id in ids ==> id in m.shards
    ensures Pools(m.shards[m.ids[i] := s], ids) == Pools(m.shards, ids)
  {
    forall id | id in ids ensures id in m.shards && id != m.ids[i] {
      var k :| 0 <= k < |ids| && ids[k] == id;
      assert id == m.ids[if ids == m.ids[..i] then k else i + 1 + k];
    }
    PoolsAgree(m.shards[m.ids[i] := s], m.shards, ids);
  }

  lemma AddConserves<T>(cfg: Config, w: World<T>, tx: T, to: nat)
    requires InStep(cfg, w.m) && Enabled(w, Add(tx, to)) && Conserved(w)
    ensures InStep(cfg, Next(cfg, w, Add(tx, to)).m) && Conserved(Next(cfg, w, Add(tx, to)))
  {
    StepInStep(cfg, w, Add(tx, to));
    RingMember(w.m.shards.Keys, to);
    var before, after := PoolsReplaced(cfg, w.m, to, Enqueue(w.m.shards[to], tx));
  }

  lemma TakenMoves<T>(before: seq<T>, pool: seq<T>, after: seq<T>, count: nat)
    requires count <= |pool|
    ensures multiset(before + pool + after) == multiset(pool[..count]) + multiset(before + pool[count..] + after)
  {
    assert pool == pool[..count] + pool[count..];
  }

  lemma DrainConserves<T>(cfg: Config, w: World<T>, from: nat, max: nat)
    requires InStep(cfg, w.m) && Enabled(w, Drain(from, max)) && Conserved(w)
    ensures InStep(cfg, Next(cfg, w, Drain(from, max)).m) && Conserved(Next(cfg, w, Drain(from, max)))
  {
    StepInStep(cfg, w, Drain(from, max));
    var s := w.m.shards[from];
    var count := Min(|s.pool|, max);
    var before, after := PoolsReplaced(cfg, w.m, from, Dequeue(s, max));
    assert Dequeue(s, max).pool == s.pool[count..];
    TakenMoves(before, s.pool, after, count);
  }

  lemma StepConserves<T>(cfg: Config, w: World<T>, step: Step<T>)
    requires InStep(cfg, w.m) && Enabled(w, step) && Conserved(w)
    ensures InStep(cfg, Next(cfg, w, step).m) && Conserved(Next(cfg, w, step))
  {
    match step
    case Add(tx, to) =>
      AddConserves(cfg, w, tx, to);
    case Drain(from, max) =>
      DrainConserves(cfg, w, from, max);
    case Execute(on, data, stateSize) =>
      StepInStep(cfg, w, step);
      var before, after := PoolsReplaced(cfg, w.m, on, w.m.shards[on].(data := data, stateSize := stateSize));
    case Cycle(linked) =>
      ManageKeepsPools(cfg, linked, w.m);
  }

  lemma ConservedAt<T>(cfg: Config, worlds: seq<World<T>>, steps: seq<Step<T>>, i: nat)
    requires IsRun(cfg, worlds, steps) && i < |steps|
    requires IdsLive(worlds[i].m) && Conserved(worlds[i])
    ensures IdsLive(worlds[i + 1].m) && Conserved(worlds[i + 1])
  {
    StepAt(cfg, worlds, steps, i);
    StepConserves(cfg, worlds[i], steps[i]);
  }

  /** At every point of a run, accepted is pooled plus drained, if it was so at the start. */
  lemma {:induction false} RunConserves<T>(cfg: Config, worlds: seq<World<T>>, steps: seq<Step<T>>, i: nat)
    requires IsRun(cfg, worlds, steps) && Conserved(worlds[0]) && i < |worlds|
    ensures IdsLive(worlds[i].m) && Conserved(worlds[i])
  {
    if i > 0 {
      RunConserves(cfg, worlds, steps, i - 1);
      ConservedAt(cfg, worlds, steps, i - 1);
    }
  }

  // ---------------------------------------------------------------- order

  /** x comes before y in s. */
  ghost predicate Precedes<T>(s: seq<T>, x: T, y: T) {
    exists i, j :: 0 <= i < j < |s| && s[i] == x && s[j] == y
  }

  /** The way out for shard id: what has left, then what waits there. */
  function Line<T>(w: World<T>, id: nat): seq<T>
    requires id in w.m.shards
  {
    w.drained + w.m.shards[id].pool
  }

  /** x is ahead of y on some way out. */
  ghost predicate Ahead<T>(w: World<T>, x: T, y: T) {
    exists id :: id in w.m.shards && Precedes(Line(w, id), x, y)
  }

  lemma PrecedesInserted<T>(a: seq<T>, b: seq<T>, c: seq<T>, x: T, y: T)
    requires Precedes(a + c, x, y)
    ensures Precedes(a + b + c, x, y)
  {
    var i, j :| 0 <= i < j < |a + c| && (a + c)[i] == x && (a + c)[j] == y;
    var i', j' := if i < |a| then i else i + |b|, if j < |a| then j else j + |b|;
    assert (a + b + c)[i'] == x && (a + b + c)[j'] == y;
  }

  lemma PrecedesExtended<T>(a: seq<T>, b: seq<T>, x: T, y: T)
    requires Precedes(a, x, y)
    ensures Precedes(a + b, x, y)
  {
    var i, j :| 0 <= i < j < |a| && a[i] == x && a[j] == y;
    assert (a + b)[i] == x && (a + b)[j] == y;
  }

  /** A step only lengthens ways out or inserts into them. */
  lemma LineSurvives<T>(cfg: Config, w: World<T>, step: Step<T>, id: nat, x: T, y: T)
    requires InStep(cfg, w.m) && Enabled(w, step) && id in w.m.shards
    requires Precedes(Line(w, id), x, y)
    ensures Ahead(Next(cfg, w, step), x, y)
  {
    var v := Next(cfg, w, step);
    match step
    case Add(tx, to) =>
      RingMember(w.m.shards.Keys, to);
      PrecedesExtended(Line(w, id), [tx], x, y);
      assert Line(v, id) == if id == to then Line(w, id) + [tx] else Line(w, id);
    case Drain(from, max) =>
      DrainLine(cfg, w, from, max, id);
      PrecedesInserted(w.drained, w.m.shards[from].pool[..Min(|w.m.shards[from].pool|, max)], w.m.shards[id].pool, x, y);
    case Execute(on, data, stateSize) =>
      assert Line(v, id) == Line(w, id);
    case Cycle(linked) =>
      CycleLine(cfg, w, linked, id, x, y);
  }

  lemma DrainLine<T>(cfg: Config, w: World<T>, from: nat, max: nat, id: nat)
    requires InStep(cfg, w.m) && from in w.m.shards && id in w.m.shards
    ensures
      var v, taken := Next(cfg, w, Drain(from, max)), w.m.shards[from].pool[..Min(|w.m.shards[from].pool|, max)];
      Line(v, id) == if id == from then Line(w, id) else w.drained + taken + w.m.shards[id].pool
  {
    var pool := w.m.shards[from].pool;
    var count := Min(|pool|, max);
    assert w.drained + pool == w.drained + pool[..count] + pool[count..];
  }

  lemma CycleLine<T>(cfg: Config, w: World<T>, linked: bool, id: nat, x: T, y: T)
    requires InStep(cfg, w.m) && id in w.m.shards
    requires Precedes(Line(w, id), x, y)
    ensures Ahead(Next(cfg, w, Cycle(linked)), x, y)
  {
    ManageOutcome(cfg, linked, w.m);
    OutcomeLine(cfg, w, OutcomeOf(cfg, linked, w.m), Next(cfg, w, Cycle(linked)), id, x, y);
  }

  lemma OutcomeLine<T>(cfg: Config, w: World<T>, o: Outcome, v: World<T>, id: nat, x: T, y: T)
    requires InStep(cfg, w.m) && id in w.m.shards && Precedes(Line(w, id), x, y)
    requires IsOutcome(cfg, w.m, o, v.m) && v.drained == w.drained
    ensures Ahead(v, x, y)
  {
    match o
    case Merges(i) =>
      MergeLine(w, v, w.m.ids[i], w.m.ids[i + 1], id, x, y);
    case _ =>
      assert Line(v, id) == Line(w, id);
  }

  /** A way out survives a merge, behind the pool it is queued after. */
  lemma MergeLine<T>(w: World<T>, v: World<T>, a: nat, b: nat, id: nat, x: T, y: T)
    requires a in w.m.shards && b in w.m.shards && a != b && id in w.m.shards
    requires v.m == Merge(w.m, a, b) && v.drained == w.drained
    requires Precedes(Line(w, id), x, y)
    ensures Ahead(v, x, y)
  {
    assert Line(v, a) == w.drained + w.m.shards[a].pool + w.m.shards[b].pool;
    if id == a {
      PrecedesExtended(Line(w, a), w.m.shards[b].pool, x, y);
    } else if id == b {
      PrecedesInserted(w.drained, w.m.shards[a].pool, w.m.shards[b].pool, x, y);
    } else {
      assert Line(v, id) == Line(w, id);
    }
  }

  lemma AheadAt<T>(cfg: Config, worlds: seq<World<T>>, steps: seq<Step<T>>, i: nat, x: T, y: T)
    requires IsRun(cfg, worlds, steps) && i < |steps| && Ahead(worlds[i], x, y)
    ensures Ahead(worlds[i + 1], x, y)
  {
    StepAt(cfg, worlds, steps, i);
    var id :| id in worlds[i].m.shards && Precedes(Line(worlds[i], id), x, y);
    LineSurvives(cfg, worlds[i], steps[i], id, x, y);
  }

  lemma {:induction false} AheadStays<T>(cfg: Config, worlds: seq<World<T>>, steps: seq<Step<T>>, i: nat, j: nat, x: T, y: T)
    requires IsRun(cfg, worlds, steps) && i <= j < |worlds|
    requires Ahead(worlds[i], x, y)
    ensures Ahead(worlds[j], x, y)
    decreases j
  {
    if i < j {
      AheadStays(cfg, worlds, steps, i, j - 1, x, y);
      AheadAt(cfg, worlds, steps, j - 1, x, y);
    }
  }

  lemma InLineAt<T>(cfg: Config, worlds: seq<World<T>>, steps: seq<Step<T>>, i: nat, id: nat, x: T)
    requires IsRun(cfg, worlds, steps) && i < |steps|
    requires id in worlds[i].m.shards && x in Line(worlds[i], id) && id in worlds[i + 1].m.shards
    ensures x in Line(worlds[i + 1], id)
  {
    StepAt(cfg, worlds, steps, i);
    InLineStep(cfg, worlds[i], steps[i], id, x);
  }

  /** A transaction stays on the way out of its shard for as long as that shard lives. */
  lemma {:induction false} StaysInLine<T>(cfg: Config, worlds: seq<World<T>>, steps: seq<Step<T>>, i: nat, j: nat, id: nat, x: T)
    requires IsRun(cfg, worlds, steps) && i <= j < |worlds|
    requires id in worlds[i].m.shards && x in Line(worlds[i], id) && id in worlds[j].m.shards
    ensures x in Line(worlds[j], id)
    decreases j
  {
    if i < j {
      LiveThroughout(cfg, worlds, steps, i, j - 1, j, id);
      StaysInLine(cfg, worlds, steps, i, j - 1, id, x);
      InLineAt(cfg, worlds, steps, j - 1, id, x);
    }
  }

  lemma InLineStep<T>(cfg: Config, w: World<T>, step: Step<T>, id: nat, x: T)
    requires InStep(cfg, w.m) && Enabled(w, step)
    requires id in w.m.shards && x in Line(w, id) && id in Next(cfg, w, step).m.shards
    ensures x in Line(Next(cfg, w, step), id)
  {
    var v := Next(cfg, w, step);
    match step
    case Add(tx, to) =>
      RingMember(w.m.shards.Keys, to);
      assert Line(v, id) == if id == to then Line(w, id) + [tx] else Line(w, id);
    case Drain(from, max) =>
      DrainLine(cfg, w, from, max, id);
    case Execute(_, _, _) =>
      assert Line(v, id) == Line(w, id);
    case Cycle(linked) =>
      ManageOutcome(cfg, linked, w.m);
      OutcomeExtends(cfg, w.m, OutcomeOf(cfg, linked, w.m), v.m, id);
  }

  /** A cycle only lengthens the pools of the shards it leaves. */
  lemma OutcomeExtends<T>(cfg: Config, m: Manager<T>, o: Outcome, v: Manager<T>, id: nat)
    requires InStep(cfg, m) && IsOutcome(cfg, m, o, v) && id in m.shards && id in v.shards
    ensures m.shards[id].pool <= v.shards[id].pool
  {
  }

  /**
   * First in, first out per shard, through any number of splits and merges: of two transactions
   * added to the same shard, the one added later is never in a block before the earlier one.
   */
  lemma SameShardOrder<T>(cfg: Config, worlds: seq<World<T>>, steps: seq<Step<T>>, i: nat, j: nat, x: T, y: T)
    requires IsRun(cfg, worlds, steps) && Conserved(worlds[0])
    requires i < j < |steps| && steps[i].Add? && steps[j].Add?
    requires steps[i].tx == x && steps[j].tx == y && steps[i].to == steps[j].to
    requires multiset(Last(worlds).accepted)[y] == 1
    requires y in Last(worlds).drained
    ensures Precedes(Last(worlds).drained, x, y)
  {
    var id, end := steps[i].to, |worlds| - 1;
    AddedBehind(cfg, worlds, steps, i, id, x);
    AddedBehind(cfg, worlds, steps, j, id, y);
    StaysInLine(cfg, worlds, steps, i + 1, j, id, x);
    AddBehind(worlds[j], worlds[j + 1], id, x, y);
    AheadStays(cfg, worlds, steps, j + 1, end, x, y);
    RunConserves(cfg, worlds, steps, end);
    RunInStep(cfg, worlds, steps, end);
    DrainedInOrder(cfg, worlds[end], x, y);
  }

  // ---------------------------------------------------------------- arrivals

  /** A transaction with the number of the step that brought it: no step looks at a transaction. */
  datatype Arrival<T> = Arrival(at: nat, tx: T)

  ghost predicate Stamped<T>(steps: seq<Step<Arrival<T>>>) {
    forall i :: 0 <= i < |steps| && steps[i].Add? ==> steps[i].tx.at == i
  }

  lemma AcceptedAt<T>(cfg: Config, worlds: seq<World<Arrival<T>>>, steps: seq<Step<Arrival<T>>>, i: nat)
    requires IsRun(cfg, worlds, steps) && i < |steps|
    ensures worlds[i + 1].accepted ==
      if steps[i].Add? then worlds[i].accepted + [steps[i].tx] else worlds[i].accepted
  {
    StepAt(cfg, worlds, steps, i);
  }

  lemma CountAppended<T>(s: seq<T>, x: T, a: T)
    ensures multiset(s + [x])[a] == multiset(s)[a] + if x == a then 1 else 0
  {
  }

  /** What is known of the arrivals accepted before step i. */
  ghost predicate CountedTo<T>(steps: seq<Step<Arrival<T>>>, accepted: seq<Arrival<T>>, i: nat, a: Arrival<T>) {
    multiset(accepted)[a] ==
      if a.at < i && a.at < |steps| && steps[a.at].Add? && steps[a.at].tx == a then 1 else 0
  }

  /** Arrivals are all different. */
  lemma {:induction false} ArrivedOnce<T>(cfg: Config, worlds: seq<World<Arrival<T>>>, steps: seq<Step<Arrival<T>>>, i: nat, a: Arrival<T>)
    requires IsRun(cfg, worlds, steps) && Stamped(steps) && worlds[0].accepted == [] && i < |worlds|
    ensures CountedTo(steps, worlds[i].accepted, i, a)
  {
    if i > 0 {
      ArrivedOnce(cfg, worlds, steps, i - 1, a);
      ArrivedStep(cfg, worlds, steps, i, a);
    }
  }

  lemma ArrivedStep<T>(cfg: Config, worlds: seq<World<Arrival<T>>>, steps: seq<Step<Arrival<T>>>, i: nat, a: Arrival<T>)
    requires IsRun(cfg, worlds, steps) && Stamped(steps) && 0 < i < |worlds|
    requires CountedTo(steps, worlds[i - 1].accepted, i - 1, a)
    ensures CountedTo(steps, worlds[i].accepted, i, a)
  {
    AcceptedAt(cfg, worlds, steps, i - 1);
    ArrivedNext(steps, worlds[i - 1].accepted, worlds[i].accepted, i, a);
  }

  lemma ArrivedNext<T>(steps: seq<Step<Arrival<T>>>, before: seq<Arrival<T>>, after: seq<Arrival<T>>, i: nat, a: Arrival<T>)
    requires 0 < i <= |steps| && CountedTo(steps, before, i - 1, a)
    requires steps[i - 1].Add? ==> steps[i - 1].tx.at == i - 1
    requires after == if steps[i - 1].Add? then before + [steps[i - 1].tx] else before
    ensures CountedTo(steps, after, i, a)
  {
    if steps[i - 1].Add? {
      CountAppended(before, steps[i - 1].tx, a);
    }
  }

  /**
   * First in, first out per shard, for arrivals: of two transactions, equal or not, that came to the
   * same shard, the later arrival is never in a block before the earlier one.
   */
  lemma ArrivalOrder<T>(cfg: Config, worlds: seq<World<Arrival<T>>>, steps: seq<Step<Arrival<T>>>, i: nat, j: nat)
    requires IsRun(cfg, worlds, steps) && Stamped(steps)
    requires worlds[0].accepted == [] && Conserved(worlds[0])
    requires i < j < |steps| && steps[i].Add? && steps[j].Add? && steps[i].to == steps[j].to
    requires steps[j].tx in Last(worlds).drained
    ensures Precedes(Last(worlds).drained, steps[i].tx, steps[j].tx)
  {
    ArrivedOnce(cfg, worlds, steps, |worlds| - 1, steps[j].tx);
    SameShardOrder(cfg, worlds, steps, i, j, steps[i].tx, steps[j].tx);
  }

  lemma AddedBehind<T>(cfg: Config, worlds: seq<World<T>>, steps: seq<Step<T>>, i: nat, id: nat, x: T)
    requires IsRun(cfg, worlds, steps) && i < |steps| && steps[i] == Add(x, id)
    ensures id in worlds[i].m.shards && id in worlds[i + 1].m.shards
    ensures Line(worlds[i + 1], id) == Line(worlds[i], id) + [x]
  {
    StepAt(cfg, worlds, steps, i);
    RingMember(worlds[i].m.shards.Keys, id);
  }

  lemma AddBehind<T>(w: World<T>, v: World<T>, id: nat, x: T, y: T)
    requires id in w.m.shards && id in v.m.shards && x in Line(w, id)
    requires Line(v, id) == Line(w, id) + [y]
    ensures Ahead(v, x, y)
  {
    var k :| 0 <= k < |Line(w, id)| && Line(w, id)[k] == x;
    assert Line(v, id)[k] == x && Line(v, id)[|Line(w, id)|] == y;
    assert Precedes(Line(v, id), x, y);
  }

  /** Once y has left, being ahead of it means having left before. */
  lemma DrainedInOrder<T>(cfg: Config, w: World<T>, x: T, y: T)
    requires InStep(cfg, w.m) && Conserved(w) && Ahead(w, x, y)
    requires multiset(w.accepted)[y] == 1 && y in w.drained
    ensures Precedes(w.drained, x, y)
  {
    var id :| id in w.m.shards && Precedes(Line(w, id), x, y);
    var i, j :| 0 <= i < j < |Line(w, id)| && Line(w, id)[i] == x && Line(w, id)[j] == y;
    assert multiset(w.drained)[y] > 0;
    if j >= |w.drained| {
      assert w.m.shards[id].pool[j - |w.drained|] == y;
      PoolInPools(cfg, w.m, id, y);
      assert false;
    }
    assert w.drained[i] == x && w.drained[j] == y;
  }

  lemma PoolInPools<T>(cfg: Config, m: Manager<T>, id: nat, y: T)
    requires InStep(cfg, m) && id in m.shards && y in m.shards[id].pool
    ensures multiset(Pools(m.shards, m.ids))[y] > 0
  {
    var i :| 0 <= i < |m.ids| && m.ids[i] == id;
    PoolsAround(m.shards, m.ids, i);
    assert y in Pools(m.shards, m.ids);
  }
}
