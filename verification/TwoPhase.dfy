/** Two-phase commit of cross-shard transactions, one store operation at a time. */
module TwoPhase {
  import opened Basics
  import opened StateStore

  datatype CrossTx = CrossTx(id: Bytes, data: Bytes, from: nat, to: nat)

  const PREPARED: Bytes := Ascii("prepared")
  const COMMITTED: Bytes := Ascii("committed")

  type Stores = map<nat, map<Bytes, Bytes>>

  /** How far a transaction has come; the last three are final. */
  datatype Phase =
    | Start
    | SourceHeld
    | BothHeld
    | HalfCommitted
    | Aborting
    | SourceFreed
    | Rejected
    | Committed
    | Aborted

  /** The stores, and the phase of every transaction. */
  datatype World = World(stores: Stores, phases: seq<Phase>)

  function Put(stores: Stores, shard: nat, key: Bytes, value: Bytes): Stores {
    if shard in stores then stores[shard := stores[shard][key := value]] else stores
  }

  function Delete(stores: Stores, shard: nat, key: Bytes): Stores {
    if shard in stores then stores[shard := stores[shard] - {key}] else stores
  }

  /** The next store operation of one transaction.  A missing shard on the way leads to the abort. */
  function Advance(stores: Stores, tx: CrossTx, p: Phase): (Stores, Phase) {
    match p
    case Start =>
      if tx.from == tx.to then (stores, Rejected)
      else if tx.from !in stores then (stores, Aborting)
      else (Put(stores, tx.from, tx.id, tx.data), SourceHeld)
    case SourceHeld =>
      if tx.to !in stores then (stores, Aborting) else (Put(stores, tx.to, tx.id, PREPARED), BothHeld)
    case BothHeld => (Put(stores, tx.from, tx.id, COMMITTED), HalfCommitted)
    case HalfCommitted => (Put(stores, tx.to, tx.id, COMMITTED), Committed)
    case Aborting => (Delete(stores, tx.from, tx.id), SourceFreed)
    case SourceFreed => (Delete(stores, tx.to, tx.id), Aborted)
    case _ => (stores, p)
  }

  predicate Finished(p: Phase) {
    p.Rejected? || p.Committed? || p.Aborted?
  }

  /** A step: the k-th transaction does its next operation. */
  function Next(txs: seq<CrossTx>, w: World, k: nat): World
    requires |w.phases| == |txs| && k < |txs|
  {
    var (stores, p) := Advance(w.stores, txs[k], w.phases[k]);
    World(stores, w.phases[k := p])
  }

  ghost predicate DistinctIDs(txs: seq<CrossTx>) {
    forall i, j :: 0 <= i < j < |txs| ==> txs[i].id != txs[j].id
  }

  ghost predicate GoesAt(txs: seq<CrossTx>, worlds: seq<World>, steps: seq<nat>, i: int)
    requires 0 <= i < |steps| && i + 1 < |worlds|
  {
    steps[i] < |txs| && |worlds[i].phases| == |txs| && worlds[i + 1] == Next(txs, worlds[i], steps[i])
  }

  /** Any interleaving of any transactions, from any contents of the stores. */
  ghost predicate IsRun(txs: seq<CrossTx>, worlds: seq<World>, steps: seq<nat>) {
    && |worlds| == |steps| + 1
    && |worlds[0].phases| == |txs| && (forall k :: 0 <= k < |txs| ==> worlds[0].phases[k] == Start)
    && forall i :: 0 <= i < |steps| ==> GoesAt(txs, worlds, steps, i)
  }

  // ---------------------------------------------------------------- what each phase means

  predicate Holds(stores: Stores, shard: nat, key: Bytes, value: Bytes) {
    shard in stores && key in stores[shard] && stores[shard][key] == value
  }

  /** A missing shard holds nothing. */
  predicate Absent(stores: Stores, shard: nat, key: Bytes) {
    shard in stores ==> key !in stores[shard]
  }

  /** Both participants hold what the phase says. */
  ghost predicate Meant(stores: Stores, tx: CrossTx, p: Phase) {
    match p
    case Start => true
    case SourceHeld => tx.from != tx.to && Holds(stores, tx.from, tx.id, tx.data)
    case BothHeld => tx.from != tx.to && Holds(stores, tx.from, tx.id, tx.data) && Holds(stores, tx.to, tx.id, PREPARED)
    case HalfCommitted =>
      tx.from != tx.to && Holds(stores, tx.from, tx.id, COMMITTED) && Holds(stores, tx.to, tx.id, PREPARED)
    case Committed =>
      tx.from != tx.to && Holds(stores, tx.from, tx.id, COMMITTED) && Holds(stores, tx.to, tx.id, COMMITTED)
    case Aborting => tx.from != tx.to && (tx.from !in stores || tx.to !in stores)
    case SourceFreed => tx.from != tx.to && (tx.from !in stores || tx.to !in stores) && Absent(stores, tx.from, tx.id)
    case Aborted =>
      && tx.from != tx.to && (tx.from !in stores || tx.to !in stores)
      && Absent(stores, tx.from, tx.id) && Absent(stores, tx.to, tx.id)
    case Rejected => tx.from == tx.to
  }

  /** A key of a shard that no transaction between two shards uses there. */
  ghost predicate Foreign(txs: seq<CrossTx>, shard: nat, key: Bytes) {
    forall k :: 0 <= k < |txs| && txs[k].from != txs[k].to && txs[k].id == key ==> txs[k].from != shard && txs[k].to != shard
  }

  ghost predicate Untouched(txs: seq<CrossTx>, before: Stores, after: Stores) {
    && before.Keys == after.Keys
    && forall shard, key :: shard in before && Foreign(txs, shard, key) ==> SameAt(before, after, shard, key)
  }

  ghost predicate SameAt(before: Stores, after: Stores, shard: nat, key: Bytes)
    requires shard in before && shard in after
  {
    (key in before[shard] <==> key in after[shard]) && (key in before[shard] ==> before[shard][key] == after[shard][key])
  }

  ghost predicate AllMeant(txs: seq<CrossTx>, w: World) {
    |w.phases| == |txs| && forall k :: 0 <= k < |txs| ==> Meant(w.stores, txs[k], w.phases[k])
  }

  // ---------------------------------------------------------------- proofs

  /** An operation keeps the shards, and every entry under another key or in no participant. */
  lemma AdvanceLocal(stores: Stores, tx: CrossTx, p: Phase, shard: nat, key: Bytes)
    requires shard in stores && (key != tx.id || tx.from == tx.to || (shard != tx.from && shard != tx.to))
    requires tx.from == tx.to ==> p.Start? || p.Rejected?
    ensures Advance(stores, tx, p).0.Keys == stores.Keys
    ensures SameAt(stores, Advance(stores, tx, p).0, shard, key)
  {
  }

  lemma AdvanceMeant(stores: Stores, tx: CrossTx, p: Phase)
    requires Meant(stores, tx, p)
    ensures Advance(stores, tx, p).0.Keys == stores.Keys
    ensures Meant(Advance(stores, tx, p).0, tx, Advance(stores, tx, p).1)
  {
  }

  /** Another transaction's phase goes on meaning what it did. */
  lemma OthersMeant(before: Stores, after: Stores, tx: CrossTx, p: Phase)
    requires Meant(before, tx, p) && before.Keys == after.Keys
    requires forall shard :: shard in before ==> SameAt(before, after, shard, tx.id)
    ensures Meant(after, tx, p)
  {
  }

  lemma StepMeant(txs: seq<CrossTx>, w: World, k: nat)
    requires AllMeant(txs, w) && DistinctIDs(txs) && k < |txs|
    ensures AllMeant(txs, Next(txs, w, k)) && Untouched(txs, w.stores, Next(txs, w, k).stores)
  {
    var v := Next(txs, w, k);
    assert Meant(w.stores, txs[k], w.phases[k]);
    AdvanceMeant(w.stores, txs[k], w.phases[k]);
    forall j | 0 <= j < |txs| ensures Meant(v.stores, txs[j], v.phases[j]) {
      if j != k {
        assert txs[j].id != txs[k].id;
        forall shard | shard in w.stores ensures SameAt(w.stores, v.stores, shard, txs[j].id) {
          AdvanceLocal(w.stores, txs[k], w.phases[k], shard, txs[j].id);
        }
        OthersMeant(w.stores, v.stores, txs[j], w.phases[j]);
      }
    }
    forall shard, key | shard in w.stores && Foreign(txs, shard, key) ensures SameAt(w.stores, v.stores, shard, key) {
      AdvanceLocal(w.stores, txs[k], w.phases[k], shard, key);
    }
  }

  lemma UntouchedTransitive(txs: seq<CrossTx>, a: Stores, b: Stores, c: Stores)
    requires Untouched(txs, a, b) && Untouched(txs, b, c)
    ensures Untouched(txs, a, c)
  {
    forall shard, key | shard in a && Foreign(txs, shard, key) ensures SameAt(a, c, shard, key) {
      assert SameAt(a, b, shard, key) && SameAt(b, c, shard, key);
    }
  }

  lemma {:induction false} RunMeant(txs: seq<CrossTx>, worlds: seq<World>, steps: seq<nat>, i: nat)
    requires IsRun(txs, worlds, steps) && DistinctIDs(txs) && i < |worlds|
    ensures AllMeant(txs, worlds[i]) && Untouched(txs, worlds[0].stores, worlds[i].stores)
  {
    if i > 0 {
      RunMeant(txs, worlds, steps, i - 1);
      assert GoesAt(txs, worlds, steps, i - 1);
      StepMeant(txs, worlds[i - 1], steps[i - 1]);
      UntouchedTransitive(txs, worlds[0].stores, worlds[i - 1].stores, worlds[i].stores);
    }
  }

  /**
   * Atomicity over every interleaving: a finished transaction between two shards is "committed" in
   * both if both exist, and absent from whichever exists otherwise; one within a shard wrote
   * nothing; and no other key of any shard has changed.
   */
  lemma Atomicity(txs: seq<CrossTx>, worlds: seq<World>, steps: seq<nat>, i: nat, k: nat)
    requires IsRun(txs, worlds, steps) && DistinctIDs(txs) && i < |worlds| && k < |txs|
    ensures |worlds[i].phases| == |txs| && Untouched(txs, worlds[0].stores, worlds[i].stores)
    ensures Finished(worlds[i].phases[k]) && txs[k].from != txs[k].to ==>
      if txs[k].from in worlds[0].stores && txs[k].to in worlds[0].stores then
        && Holds(worlds[i].stores, txs[k].from, txs[k].id, COMMITTED)
        && Holds(worlds[i].stores, txs[k].to, txs[k].id, COMMITTED)
      else
        Absent(worlds[i].stores, txs[k].from, txs[k].id) && Absent(worlds[i].stores, txs[k].to, txs[k].id)
    ensures txs[k].from == txs[k].to ==> worlds[i].phases[k].Start? || worlds[i].phases[k].Rejected?
  {
    RunMeant(txs, worlds, steps, i);
    assert Meant(worlds[i].stores, txs[k], worlds[i].phases[k]);
  }

  /** The operations a transaction may still need. */
  function Remaining(p: Phase): nat {
    match p
    case Start => 4
    case SourceHeld => 3
    case BothHeld => 2
    case HalfCommitted => 1
    case Aborting => 2
    case SourceFreed => 1
    case _ => 0
  }

  /** How many of the first i steps were transaction k's. */
  function Turns(steps: seq<nat>, k: nat, i: nat): (n: nat)
    requires i <= |steps|
    ensures n <= i
  {
    if i == 0 then 0 else Turns(steps, k, i - 1) + if steps[i - 1] == k then 1 else 0
  }

  lemma TurnAdvances(txs: seq<CrossTx>, w: World, k: nat, j: nat)
    requires |w.phases| == |txs| && k < |txs| && j < |txs|
    ensures |Next(txs, w, j).phases| == |txs|
    ensures Remaining(Next(txs, w, j).phases[k]) <= Remaining(w.phases[k])
    ensures j == k && !Finished(w.phases[k]) ==> Remaining(Next(txs, w, j).phases[k]) < Remaining(w.phases[k])
  {
  }

  lemma {:induction false} TurnsCount(txs: seq<CrossTx>, worlds: seq<World>, steps: seq<nat>, i: nat, k: nat)
    requires IsRun(txs, worlds, steps) && i < |worlds| && k < |txs|
    ensures |worlds[i].phases| == |txs|
    ensures Finished(worlds[i].phases[k]) || Remaining(worlds[i].phases[k]) + Turns(steps, k, i) <= 4
  {
    if i > 0 {
      TurnsCount(txs, worlds, steps, i - 1, k);
      assert GoesAt(txs, worlds, steps, i - 1);
      TurnAdvances(txs, worlds[i - 1], k, steps[i - 1]);
    }
  }

  /** Nothing stays undecided: after four turns of its own a transaction is finished. */
  lemma FinishedAfterFour(txs: seq<CrossTx>, worlds: seq<World>, steps: seq<nat>, i: nat, k: nat)
    requires IsRun(txs, worlds, steps) && i < |worlds| && k < |txs| && Turns(steps, k, i) >= 4
    ensures |worlds[i].phases| == |txs| && Finished(worlds[i].phases[k])
  {
    TurnsCount(txs, worlds, steps, i, k);
  }

  // ---------------------------------------------------------------- the methods

  predicate Separate(shards: map<nat, InMemoryStateDB>) {
    forall i, j :: i in shards && j in shards && i != j ==> shards[i] != shards[j]
  }

  /** What the stores hold. */
  ghost function Contents(shards: map<nat, InMemoryStateDB>): Stores
    reads shards.Values
  {
    map s | s in shards :: shards[s].data
  }

  /** One transaction's next n operations with nobody else in between. */
  function Undisturbed(stores: Stores, tx: CrossTx, p: Phase, n: nat): (Stores, Phase)
    decreases n
  {
    if n == 0 then (stores, p)
    else
      var (after, q) := Advance(stores, tx, p);
      Undisturbed(after, tx, q, n - 1)
  }

  lemma UndisturbedTwice(stores: Stores, tx: CrossTx, p: Phase)
    ensures
      var (after, q) := Advance(stores, tx, p);
      Undisturbed(stores, tx, p, 2) == Advance(after, tx, q)
  {
    var (after, q) := Advance(stores, tx, p);
    assert Undisturbed(after, tx, q, 1) == Undisturbed(Advance(after, tx, q).0, tx, Advance(after, tx, q).1, 0);
  }

  lemma {:induction false} UndisturbedSplit(stores: Stores, tx: CrossTx, p: Phase, m: nat, n: nat)
    ensures
      var (after, q) := Undisturbed(stores, tx, p, m);
      Undisturbed(stores, tx, p, m + n) == Undisturbed(after, tx, q, n)
    decreases m
  {
    if m > 0 {
      var (after, q) := Advance(stores, tx, p);
      UndisturbedSplit(after, tx, q, m - 1, n);
    }
  }

  method PutIn(shards: map<nat, InMemoryStateDB>, shard: nat, key: Bytes, value: Bytes)
    requires Separate(shards) && shard in shards
    modifies shards[shard]
    ensures Contents(shards) == Put(old(Contents(shards)), shard, key, value)
  {
    shards[shard].Put(key, value);
  }

  method DeleteFrom(shards: map<nat, InMemoryStateDB>, shard: nat, key: Bytes)
    requires Separate(shards)
    modifies if shard in shards then {shards[shard]} else {}
    ensures Contents(shards) == Delete(old(Contents(shards)), shard, key)
  {
    if shard in shards {
      var _ := shards[shard].Delete(key);
    }
  }

  /** False when a shard is missing; what was written to the source by then stays. */
  method PrepareTransaction(shards: map<nat, InMemoryStateDB>, tx: CrossTx) returns (prepared: bool)
    requires Separate(shards) && tx.from != tx.to
    modifies shards.Values
    ensures Contents(shards) == Undisturbed(old(Contents(shards)), tx, Start, 2).0
    ensures prepared <==> Undisturbed(old(Contents(shards)), tx, Start, 2).1 == BothHeld
    ensures prepared <==> tx.from in shards && tx.to in shards
  {
    UndisturbedTwice(Contents(shards), tx, Start);
    if tx.from !in shards {
      return false;
    }
    PutIn(shards, tx.from, tx.id, tx.data);
    if tx.to !in shards {
      return false;
    }
    PutIn(shards, tx.to, tx.id, PREPARED);
    return true;
  }

  method CommitTransaction(shards: map<nat, InMemoryStateDB>, tx: CrossTx) returns (ok: bool)
    requires Separate(shards) && tx.from != tx.to
    modifies shards.Values
    ensures ok <==> tx.from in shards && tx.to in shards
    ensures Contents(shards) == if ok then Undisturbed(old(Contents(shards)), tx, BothHeld, 2).0 else old(Contents(shards))
  {
    UndisturbedTwice(Contents(shards), tx, BothHeld);
    if tx.from !in shards || tx.to !in shards {
      return false;
    }
    PutIn(shards, tx.from, tx.id, COMMITTED);
    PutIn(shards, tx.to, tx.id, COMMITTED);
    return true;
  }

  method AbortTransaction(shards: map<nat, InMemoryStateDB>, tx: CrossTx)
    requires Separate(shards) && tx.from != tx.to
    modifies shards.Values
    ensures Contents(shards) == Undisturbed(old(Contents(shards)), tx, Aborting, 2).0
  {
    UndisturbedTwice(Contents(shards), tx, Aborting);
    DeleteFrom(shards, tx.from, tx.id);
    DeleteFrom(shards, tx.to, tx.id);
  }

  /**
   * Undisturbed, the methods do the transaction's four operations one after the other: it commits in
   * both shards or clears the key from whichever exists.  An abort reports no error: only a missing
   * or one-shard transaction is an error.
   */
  method TwoPhaseCommit(shards: map<nat, InMemoryStateDB>, tx: Option<CrossTx>) returns (ok: bool)
    requires Separate(shards)
    modifies shards.Values
    ensures ok <==> tx.Some? && tx.value.from != tx.value.to
    ensures tx.None? ==> Contents(shards) == old(Contents(shards))
    ensures tx.Some? ==> Contents(shards) == Undisturbed(old(Contents(shards)), tx.value, Start, 4).0
    ensures tx.Some? ==> Finished(Undisturbed(old(Contents(shards)), tx.value, Start, 4).1)
  {
    if tx.None? {
      return false;
    }
    FourFinish(Contents(shards), tx.value);
    if tx.value.from == tx.value.to {
      return false;
    }
    ghost var before := Contents(shards);
    var prepared := PrepareTransaction(shards, tx.value);
    if prepared {
      ok := CommitTransaction(shards, tx.value);
    } else {
      AbortAfterFailure(before, tx.value);
      AbortTransaction(shards, tx.value);
      ok := true;
    }
  }

  lemma FourFinish(stores: Stores, tx: CrossTx)
    ensures Finished(Undisturbed(stores, tx, Start, 4).1)
    ensures tx.from == tx.to ==> Undisturbed(stores, tx, Start, 4).0 == stores
    ensures
      var (after, q) := Undisturbed(stores, tx, Start, 2);
      Undisturbed(stores, tx, Start, 4) == Undisturbed(after, tx, q, 2)
  {
    UndisturbedTwice(stores, tx, Start);
    var (after, q) := Undisturbed(stores, tx, Start, 2);
    UndisturbedTwice(after, tx, q);
    UndisturbedSplit(stores, tx, Start, 2, 2);
  }

  /** After a failed prepare, the two deletions of an abort are all that is left, wherever it failed. */
  lemma AbortAfterFailure(stores: Stores, tx: CrossTx)
    requires tx.from != tx.to && (tx.from !in stores || tx.to !in stores)
    ensures
      var (after, q) := Undisturbed(stores, tx, Start, 2);
      Undisturbed(after, tx, q, 2).0 == Undisturbed(after, tx, Aborting, 2).0
  {
    UndisturbedTwice(stores, tx, Start);
    var (after, q) := Undisturbed(stores, tx, Start, 2);
    UndisturbedTwice(after, tx, q);
    UndisturbedTwice(after, tx, Aborting);
  }

  // ---------------------------------------------------------------- in full

  /** "prepared" and "committed" in ASCII. */
  lemma Marks()
    ensures PREPARED == [112, 114, 101, 112, 97, 114, 101, 100]
    ensures COMMITTED == [99, 111, 109, 109, 105, 116, 116, 101, 100]
  {
  }

  /** A prepared transaction: its data in the source, the mark in the destination, nothing else changed. */
  lemma PreparedInFull(stores: Stores, tx: CrossTx)
    requires tx.from != tx.to
    ensures
      Undisturbed(stores, tx, Start, 2).0 ==
        if tx.from !in stores then stores
        else if tx.to !in stores then stores[tx.from := stores[tx.from][tx.id := tx.data]]
        else stores[tx.from := stores[tx.from][tx.id := tx.data]][
          tx.to := stores[tx.to][tx.id := [112, 114, 101, 112, 97, 114, 101, 100]]]
  {
    Marks();
    UndisturbedTwice(stores, tx, Start);
    if tx.from !in stores && tx.to in stores {
      assert stores[tx.to := stores[tx.to]] == stores;
    }
  }

  /** The key of the transaction in one shard, after all four operations. */
  ghost predicate IsConcluded(stores: Stores, tx: CrossTx, shard: nat, after: map<Bytes, Bytes>)
    requires shard in stores
  {
    if shard != tx.from && shard != tx.to then after == stores[shard]
    else if tx.from in stores && tx.to in stores then
      after == stores[shard][tx.id := [99, 111, 109, 109, 105, 116, 116, 101, 100]]
    else after == stores[shard] - {tx.id}
  }

  /** Committed in both shards, or removed from whichever exists; no other shard is touched. */
  lemma ConcludedInFull(stores: Stores, tx: CrossTx, shard: nat)
    requires tx.from != tx.to && shard in stores
    ensures
      var v := Undisturbed(stores, tx, Start, 4).0;
      v.Keys == stores.Keys && IsConcluded(stores, tx, shard, v[shard])
  {
    Marks();
    FourFinish(stores, tx);
    PreparedInFull(stores, tx);
    var (after, q) := Undisturbed(stores, tx, Start, 2);
    UndisturbedTwice(stores, tx, Start);
    UndisturbedTwice(after, tx, q);
    if tx.from in stores && tx.to in stores {
      assert stores[shard][tx.id := tx.data][tx.id := COMMITTED] == stores[shard][tx.id := COMMITTED];
      assert stores[shard][tx.id := PREPARED][tx.id := COMMITTED] == stores[shard][tx.id := COMMITTED];
    } else {
      assert stores[shard][tx.id := tx.data] - {tx.id} == stores[shard] - {tx.id};
    }
  }
}
