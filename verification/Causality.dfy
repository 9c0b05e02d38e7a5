/**
 * A system of nodes, each stepping its own clock, and the causality theorem: on a run, the clocks
 * decide happened-before exactly, as long as no node counts 2^64 events.
 */
module Causality {
  import opened Basics
  import opened ClockLattice
  import opened NodeVectorClocks

  /** A send is a local event whose timestamp travels; a receive names the event it came from. */
  datatype Event =
    | Local(node: NodeID)
    | Receive(node: NodeID, from: nat)

  type Run = seq<Event>

  /** Messages come from earlier events; nodes have an ID (the code panics without one). */
  ghost predicate WellFormed(run: Run) {
    forall i :: 0 <= i < |run| ==>
      run[i].node != [] && (run[i].Receive? ==> run[i].from < i)
  }

  /** Every node's clock, and the timestamps handed out so far. */
  datatype System = System(clocks: map<NodeID, Clock<NodeID>>, log: seq<Clock<NodeID>>)

  ghost function ClockOf(sys: System, n: NodeID): Clock<NodeID> {
    if n in sys.clocks then sys.clocks[n] else map[]
  }

  ghost function Step(sys: System, event: Event): System
    requires event.Receive? ==> event.from < |sys.log|
  {
    var before := ClockOf(sys, event.node);
    var after := match event
      case Local(n) => Tick(before, n)
      case Receive(n, from) => Absorb(before, sys.log[from], n);
    System(sys.clocks[event.node := after], sys.log + [after])
  }

  ghost function Execute(run: Run): (sys: System)
    requires WellFormed(run)
    ensures |sys.log| == |run|
  {
    if run == [] then System(map[], [])
    else Step(Execute(run[..|run| - 1]), run[|run| - 1])
  }

  ghost function Timestamp(run: Run, e: nat): Clock<NodeID>
    requires WellFormed(run) && e < |run|
  {
    Execute(run).log[e]
  }

  /** Lamport's direct precedence: program order at one node, or a message. */
  ghost predicate Edge(run: Run, a: nat, b: nat) {
    && a < b < |run|
    && (run[a].node == run[b].node || (run[b].Receive? && run[b].from == a))
  }

  /** The transitive closure of `Edge`. */
  ghost predicate HappenedBefore(run: Run, e: nat, f: nat)
    decreases f
  {
    exists g: nat | g < f :: Edge(run, g, f) && (g == e || HappenedBefore(run, e, g))
  }

  /** How many of the first k events are at node n. */
  ghost function Count(run: Run, k: nat, n: NodeID): nat
    requires k <= |run|
  {
    if k == 0 then 0
    else Count(run, k - 1, n) + if run[k - 1].node == n then 1 else 0
  }

  /** No node has 2^64 events or more. */
  ghost predicate NoWrap(run: Run) {
    forall n :: Count(run, |run|, n) < WORD
  }

  // ---------------------------------------------------------------- counting

  lemma {:induction false} CountMonotone(run: Run, i: nat, j: nat, n: NodeID)
    requires i <= j <= |run|
    ensures Count(run, i, n) <= Count(run, j, n)
    decreases j
  {
    if i < j {
      CountMonotone(run, i, j - 1, n);
    }
  }

  lemma {:induction false} CountPrefix(run: Run, k: nat, p: nat, n: NodeID)
    requires k <= p <= |run|
    ensures Count(run[..p], k, n) == Count(run, k, n)
  {
    if k > 0 {
      CountPrefix(run, k - 1, p, n);
    }
  }

  // ---------------------------------------------------------------- logs

  lemma LogGrows(run: Run)
    requires WellFormed(run) && run != []
    ensures Execute(run[..|run| - 1]).log == Execute(run).log[..|run| - 1]
  {
  }

  lemma TakeTwice<T>(s: seq<T>, m: nat, p: nat)
    requires p <= m <= |s|
    ensures s[..m][..p] == s[..p]
  {
  }

  /** Earlier timestamps never change. */
  lemma {:induction false} LogPrefix(run: Run, p: nat)
    requires WellFormed(run) && p <= |run|
    ensures Execute(run[..p]).log == Execute(run).log[..p]
  {
    if p < |run| {
      var last := |run| - 1;
      LogGrows(run);
      LogPrefix(run[..last], p);
      TakeTwice(run, last, p);
      TakeTwice(Execute(run).log, last, p);
    } else {
      assert run[..p] == run;
    }
  }

  /** The latest event at node n among the first k, if any. */
  ghost function Latest(run: Run, k: nat, n: NodeID): Option<nat>
    requires k <= |run|
    ensures Latest(run, k, n).Some? ==> Latest(run, k, n).value < k && run[Latest(run, k, n).value].node == n
    ensures forall i :: 0 <= i < k && run[i].node == n ==>
      Latest(run, k, n).Some? && i <= Latest(run, k, n).value
  {
    if k == 0 then None
    else if run[k - 1].node == n then Some(k - 1)
    else Latest(run, k - 1, n)
  }

  lemma {:induction false} LatestPrefix(run: Run, k: nat, p: nat, n: NodeID)
    requires k <= p <= |run|
    ensures Latest(run[..p], k, n) == Latest(run, k, n)
  {
    if k > 0 {
      LatestPrefix(run, k - 1, p, n);
    }
  }

  /** A node's clock is the timestamp of its latest event. */
  lemma {:induction false} ClockIsLatest(run: Run, n: NodeID)
    requires WellFormed(run)
    ensures ClockOf(Execute(run), n) == match Latest(run, |run|, n)
      case None => map[]
      case Some(e) => Timestamp(run, e)
  {
    if run != [] {
      var last := |run| - 1;
      ClockIsLatest(run[..last], n);
      LatestPrefix(run, last, last, n);
    }
  }

  /** What the node's clock was just before event f. */
  ghost function Base(run: Run, f: nat): Clock<NodeID>
    requires WellFormed(run) && f < |run|
  {
    match Latest(run, f, run[f].node)
    case None => map[]
    case Some(e) => Timestamp(run, e)
  }

  /** What event f starts counting from. */
  ghost function Merged(run: Run, f: nat): Clock<NodeID>
    requires WellFormed(run) && f < |run|
  {
    match run[f]
    case Local(_) => Base(run, f)
    case Receive(_, from) => Join(Base(run, f), Timestamp(run, from))
  }

  lemma ExecuteNext(run: Run, f: nat)
    requires WellFormed(run) && f < |run|
    ensures Execute(run[..f + 1]) == Step(Execute(run[..f]), run[f])
  {
    assert run[..f + 1][..f] == run[..f];
  }

  lemma StampIsLast(run: Run, f: nat)
    requires WellFormed(run) && f < |run|
    ensures Timestamp(run, f) == Execute(run[..f + 1]).log[f]
  {
    LogPrefix(run, f + 1);
  }

  lemma BaseIsClock(run: Run, f: nat)
    requires WellFormed(run) && f < |run|
    ensures ClockOf(Execute(run[..f]), run[f].node) == Base(run, f)
  {
    ClockIsLatest(run[..f], run[f].node);
    LatestPrefix(run, f, f, run[f].node);
    LogPrefix(run, f);
  }

  /** What a step stamps, from the node's clock and the received stamp. */
  lemma StampOf(sys: System, event: Event)
    requires event.Receive? ==> event.from < |sys.log|
    ensures
      var before := ClockOf(sys, event.node);
      Step(sys, event).log[|sys.log|]
        == Bump(if event.Receive? then Join(before, sys.log[event.from]) else before, event.node)
  {
  }

  /** Each timestamp from the clocks it is made of. */
  lemma TimestampShape(run: Run, f: nat)
    requires WellFormed(run) && f < |run|
    ensures Timestamp(run, f) == Bump(Merged(run, f), run[f].node)
  {
    var sys := Execute(run[..f]);
    StampIsLast(run, f);
    ExecuteNext(run, f);
    BaseIsClock(run, f);
    StampOf(sys, run[f]);
    LogPrefix(run, f);
  }

  // ---------------------------------------------------------------- the invariant

  /** An entry is missing when nothing was counted, and otherwise between 1 and the count. */
  ghost predicate EntryUpTo(clock: Clock<NodeID>, n: NodeID, count: nat) {
    n in clock ==> 1 <= clock[n] <= count
  }

  ghost predicate EntryIs(clock: Clock<NodeID>, n: NodeID, count: nat) {
    if count == 0 then n !in clock else n in clock && clock[n] == count
  }

  lemma BaseCounts(run: Run, f: nat, n: NodeID)
    requires WellFormed(run) && NoWrap(run) && f < |run|
    ensures EntryUpTo(Base(run, f), n, Count(run, f, n))
    ensures n == run[f].node ==> EntryIs(Base(run, f), n, Count(run, f, n))
    decreases f, 0
  {
    match Latest(run, f, run[f].node) {
      case None =>
        NoneMeansZero(run, f, run[f].node);
      case Some(e) =>
        EntriesAreCounts(run, e, n);
        CountMonotone(run, e + 1, f, n);
        LatestCount(run, f, run[f].node);
    }
  }

  lemma MergedCounts(run: Run, f: nat, n: NodeID)
    requires WellFormed(run) && NoWrap(run) && f < |run|
    ensures EntryUpTo(Merged(run, f), n, Count(run, f, n))
    ensures n == run[f].node ==> EntryIs(Merged(run, f), n, Count(run, f, n))
    decreases f, 1
  {
    BaseCounts(run, f, n);
    if run[f].Receive? {
      EntriesAreCounts(run, run[f].from, n);
      CountMonotone(run, run[f].from + 1, f, n);
    }
  }

  /**
   * No entry of a timestamp exceeds the number of events seen at that node, and a node's own entry
   * equals it.
   */
  lemma EntriesAreCounts(run: Run, f: nat, n: NodeID)
    requires WellFormed(run) && NoWrap(run) && f < |run|
    ensures EntryUpTo(Timestamp(run, f), n, Count(run, f + 1, n))
    ensures n == run[f].node ==> EntryIs(Timestamp(run, f), n, Count(run, f + 1, n)) && Count(run, f + 1, n) > 0
    decreases f, 2
  {
    TimestampShape(run, f);
    MergedCounts(run, f, n);
    CountMonotone(run, f + 1, |run|, n);
  }

  lemma {:induction false} NoneMeansZero(run: Run, k: nat, n: NodeID)
    requires k <= |run| && Latest(run, k, n).None?
    ensures Count(run, k, n) == 0
  {
    if k > 0 {
      NoneMeansZero(run, k - 1, n);
    }
  }

  lemma {:induction false} LatestCount(run: Run, k: nat, n: NodeID)
    requires k <= |run| && Latest(run, k, n).Some?
    ensures Count(run, k, n) == Count(run, Latest(run, k, n).value + 1, n)
  {
    if run[k - 1].node != n {
      LatestCount(run, k - 1, n);
    }
  }

  /** The step never lowers what it starts from. */
  lemma StepRaises(run: Run, f: nat)
    requires WellFormed(run) && NoWrap(run) && f < |run|
    ensures Leq(Base(run, f), Timestamp(run, f))
    ensures run[f].Receive? ==> Leq(Timestamp(run, run[f].from), Timestamp(run, f))
  {
    var n := run[f].node;
    TimestampShape(run, f);
    MergedCounts(run, f, n);
    CountMonotone(run, f + 1, |run|, n);
    BumpAdvances(Merged(run, f), n);
    VerdictLaws(Merged(run, f), Timestamp(run, f));
    if run[f].Receive? {
      JoinIsLeastUpperBound(Base(run, f), Timestamp(run, run[f].from), Timestamp(run, f));
    }
  }

  lemma {:induction false} EdgeRaisesClock(run: Run, g: nat, f: nat)
    requires WellFormed(run) && NoWrap(run)
    requires Edge(run, g, f)
    ensures Leq(Timestamp(run, g), Timestamp(run, f))
    decreases f
  {
    StepRaises(run, f);
    if run[g].node == run[f].node {
      var p := Latest(run, f, run[f].node).value;
      if g < p {
        EdgeRaisesClock(run, g, p);
        LeqPartialOrder(Timestamp(run, g), Timestamp(run, p), Timestamp(run, f));
      }
    }
  }

  lemma {:induction false} HappenedBeforeRaisesClock(run: Run, e: nat, f: nat)
    requires WellFormed(run) && NoWrap(run)
    requires HappenedBefore(run, e, f)
    ensures e < f < |run|
    ensures Leq(Timestamp(run, e), Timestamp(run, f))
    decreases f
  {
    var g: nat :| g < f && Edge(run, g, f) && (g == e || HappenedBefore(run, e, g));
    EdgeRaisesClock(run, g, f);
    if g != e {
      HappenedBeforeRaisesClock(run, e, g);
      LeqPartialOrder(Timestamp(run, e), Timestamp(run, g), Timestamp(run, f));
    }
  }

  /**
   * The key fact: f's timestamp has caught up with e's own entry exactly when f is e or comes
   * causally after it.
   */
  lemma {:induction false} SeenIffHappenedBefore(run: Run, e: nat, f: nat)
    requires WellFormed(run) && NoWrap(run)
    requires e < |run| && f < |run|
    ensures Entry(Timestamp(run, f), run[e].node) >= Entry(Timestamp(run, e), run[e].node)
      <==> e == f || HappenedBefore(run, e, f)
  {
    if HappenedBefore(run, e, f) {
      HappenedBeforeRaisesClock(run, e, f);
      EntriesAreCounts(run, e, run[e].node);
    }
    if Entry(Timestamp(run, f), run[e].node) >= Entry(Timestamp(run, e), run[e].node) {
      SeenMeansHappenedBefore(run, e, f);
    }
  }

  lemma {:induction false} SeenMeansHappenedBefore(run: Run, e: nat, f: nat)
    requires WellFormed(run) && NoWrap(run)
    requires e < |run| && f < |run|
    requires Entry(Timestamp(run, f), run[e].node) >= Entry(Timestamp(run, e), run[e].node)
    ensures e == f || HappenedBefore(run, e, f)
    decreases f
  {
    var m := run[e].node;
    EntriesAreCounts(run, e, m);
    EntriesAreCounts(run, f, m);
    if m == run[f].node {
      if f < e {
        CountMonotone(run, f + 1, e, m);
        assert false;
      }
      assert e == f || Edge(run, e, f);
    } else {
      TimestampShape(run, f);
      assert Latest(run, f, run[f].node).Some? || run[f].Receive?;
      if run[f].Receive? && Entry(Timestamp(run, run[f].from), m) >= Entry(Timestamp(run, f), m) {
        SeenMeansHappenedBefore(run, e, run[f].from);
        assert Edge(run, run[f].from, f);
      } else {
        var p := Latest(run, f, run[f].node).value;
        SeenMeansHappenedBefore(run, e, p);
        assert Edge(run, p, f);
      }
    }
  }

  // ---------------------------------------------------------------- the theorem

  /** The verdict happened-before calls for. */
  ghost function CausalVerdict(run: Run, e: nat, f: nat): Causality {
    if e == f then Equal
    else if HappenedBefore(run, e, f) then Before
    else if HappenedBefore(run, f, e) then After
    else Concurrent
  }

  lemma CausalityTheorem(run: Run, e: nat, f: nat)
    requires WellFormed(run) && NoWrap(run)
    requires e < |run| && f < |run|
    ensures Verdict(Timestamp(run, e), Timestamp(run, f)) == CausalVerdict(run, e, f)
  {
    LeqIffSeen(run, e, f);
    LeqIffSeen(run, f, e);
    if HappenedBefore(run, e, f) && HappenedBefore(run, f, e) {
      HappenedBeforeRaisesClock(run, e, f);
      HappenedBeforeRaisesClock(run, f, e);
      assert false;
    }
    if e != f && HappenedBefore(run, e, f) {
      assert Leq(Timestamp(run, e), Timestamp(run, f)) && !Leq(Timestamp(run, f), Timestamp(run, e));
    }
  }

  lemma LeqIffSeen(run: Run, e: nat, f: nat)
    requires WellFormed(run) && NoWrap(run)
    requires e < |run| && f < |run|
    ensures Leq(Timestamp(run, e), Timestamp(run, f)) <==> e == f || HappenedBefore(run, e, f)
  {
    SeenIffHappenedBefore(run, e, f);
    EntriesAreCounts(run, e, run[e].node);
    if HappenedBefore(run, e, f) {
      HappenedBeforeRaisesClock(run, e, f);
    }
  }

  /** Clocks tell the truth about every pair of events. */
  ghost predicate ClocksAreCausal(run: Run)
    requires WellFormed(run)
  {
    forall e: nat, f: nat :: e < |run| && f < |run| ==>
      Verdict(Timestamp(run, e), Timestamp(run, f)) == CausalVerdict(run, e, f)
  }

  /** The bound on the counters is exact: one wrapped counter and some pair is misjudged. */
  lemma CausalExactlyWithoutWrap(run: Run)
    requires WellFormed(run)
    ensures ClocksAreCausal(run) <==> NoWrap(run)
  {
    if NoWrap(run) {
      forall e: nat, f: nat | e < |run| && f < |run|
        ensures Verdict(Timestamp(run, e), Timestamp(run, f)) == CausalVerdict(run, e, f)
      {
        CausalityTheorem(run, e, f);
      }
    } else {
      var e, f := FirstWrapMisjudged(run);
    }
  }

  lemma {:induction false} FirstWrapMisjudged(run: Run) returns (e: nat, f: nat)
    requires WellFormed(run) && !NoWrap(run)
    ensures e < |run| && f < |run|
    ensures Verdict(Timestamp(run, e), Timestamp(run, f)) != CausalVerdict(run, e, f)
  {
    var last := |run| - 1;
    var shorter := run[..last];
    if NoWrap(shorter) {
      e, f := WrapMisjudged(run);
    } else {
      e, f := FirstWrapMisjudged(shorter);
      LogPrefix(run, last);
      CausalVerdictPrefix(run, last, e, f);
    }
  }

  lemma {:induction false} HappenedBeforePrefix(run: Run, p: nat, e: nat, f: nat)
    requires p <= |run| && f < p
    ensures HappenedBefore(run[..p], e, f) <==> HappenedBefore(run, e, f)
    decreases f
  {
    forall g: nat | g < f
      ensures Edge(run[..p], g, f) <==> Edge(run, g, f)
      ensures HappenedBefore(run[..p], e, g) <==> HappenedBefore(run, e, g)
    {
      HappenedBeforePrefix(run, p, e, g);
    }
  }

  lemma CausalVerdictPrefix(run: Run, p: nat, e: nat, f: nat)
    requires p <= |run| && e < p && f < p
    ensures CausalVerdict(run[..p], e, f) == CausalVerdict(run, e, f)
  {
    HappenedBeforePrefix(run, p, e, f);
    HappenedBeforePrefix(run, p, f, e);
  }

  /** The event that wraps a counter is misjudged against its predecessor at the same node. */
  lemma WrapMisjudged(run: Run) returns (e: nat, f: nat)
    requires WellFormed(run) && run != []
    requires NoWrap(run[..|run| - 1]) && !NoWrap(run)
    ensures e < |run| && f < |run|
    ensures Verdict(Timestamp(run, e), Timestamp(run, f)) != CausalVerdict(run, e, f)
  {
    f := |run| - 1;
    var n :| Count(run, |run|, n) >= WORD;
    CountPrefix(run, f, f, n);
    assert Count(run[..f], f, n) < WORD;
    e := WrappedEntry(run, n);
    assert !Leq(Timestamp(run, e), Timestamp(run, f));
    assert Edge(run, e, f);
  }

  /** The 2^64-th event at a node stamps 0 where its predecessor there had the largest uint64. */
  lemma WrappedEntry(run: Run, n: NodeID) returns (e: nat)
    requires WellFormed(run) && run != []
    requires NoWrap(run[..|run| - 1])
    requires run[|run| - 1].node == n && Count(run, |run| - 1, n) == WORD - 1
    ensures e < |run| - 1 && run[e].node == n
    ensures n in Timestamp(run, e) && Timestamp(run, e)[n] == WORD - 1
    ensures Entry(Timestamp(run, |run| - 1), n) == 0
  {
    var f := |run| - 1;
    if Latest(run, f, n).None? {
      NoneMeansZero(run, f, n);
      assert false;
    }
    e := Latest(run, f, n).value;
    LatestCount(run, f, n);
    EntriesAreCountsBefore(run, f, e, n);
    TimestampShape(run, f);
    if run[f].Receive? {
      EntriesAreCountsBefore(run, f, run[f].from, n);
      CountMonotone(run, run[f].from + 1, f, n);
    }
  }

  lemma EntriesAreCountsBefore(run: Run, p: nat, f: nat, n: NodeID)
    requires WellFormed(run) && f < p <= |run| && NoWrap(run[..p])
    ensures EntryUpTo(Timestamp(run, f), n, Count(run, f + 1, n))
    ensures n == run[f].node ==> EntryIs(Timestamp(run, f), n, Count(run, f + 1, n)) && Count(run, f + 1, n) > 0
  {
    EntriesAreCounts(run[..p], f, n);
    LogPrefix(run, p);
    CountPrefix(run, f + 1, p, n);
  }

  /** Happened-before is a strict partial order, so the verdict above is never ambiguous. */
  lemma {:induction false} HappenedBeforeStrictOrder(run: Run, e: nat, f: nat, g: nat)
    ensures !HappenedBefore(run, e, e)
    ensures HappenedBefore(run, e, f) ==> e < f
    ensures HappenedBefore(run, e, f) && HappenedBefore(run, f, g) ==> HappenedBefore(run, e, g)
    decreases g, f, e
  {
    HappenedBeforeForward(run, e, e);
    HappenedBeforeForward(run, e, f);
    if HappenedBefore(run, e, f) && HappenedBefore(run, f, g) {
      HappenedBeforeTransitive(run, e, f, g);
    }
  }

  lemma {:induction false} HappenedBeforeForward(run: Run, e: nat, f: nat)
    ensures HappenedBefore(run, e, f) ==> e < f
    decreases f
  {
    if HappenedBefore(run, e, f) {
      var g: nat :| g < f && Edge(run, g, f) && (g == e || HappenedBefore(run, e, g));
      HappenedBeforeForward(run, e, g);
    }
  }

  lemma {:induction false} HappenedBeforeTransitive(run: Run, e: nat, f: nat, g: nat)
    requires HappenedBefore(run, e, f) && HappenedBefore(run, f, g)
    ensures HappenedBefore(run, e, g)
    decreases g
  {
    var d: nat :| d < g && Edge(run, d, g) && (d == f || HappenedBefore(run, f, d));
    if d != f {
      HappenedBeforeTransitive(run, e, f, d);
    }
  }
}
