/** `NodeVectorClock` (node-level clocks) and the clock each node keeps. */
module NodeVectorClocks {
  import opened Basics
  import opened ClockLattice

  /** A Go map value is a reference: methods write through it, and it may be nil. */
  class NodeVectorClock {
    var entries: Clock<NodeID>

    constructor ()
      ensures entries == map[]
    {
      entries := map[];
    }

    method Increment(nodeID: NodeID)
      modifies this
      ensures entries == Bump(old(entries), nodeID)
    {
      entries := entries[nodeID := (Entry(entries, nodeID) + 1) % WORD];
    }

    /** The keys of `other` come in any order; `other` may be this very clock. */
    method Merge(other: NodeVectorClock?)
      modifies this
      ensures entries == Join(old(entries), old(Read(other)))
    {
      if other == null {
        assert Join(entries, map[]) == entries;
        return;
      }
      var todo := other.entries.Keys;
      while todo != {}
        invariant todo <= old(other.entries).Keys
        invariant other != this ==> other.entries == old(other.entries)
        invariant entries.Keys == old(entries).Keys + (old(other.entries).Keys - todo)
        invariant forall k :: k in todo ==> k in other.entries && other.entries[k] == old(other.entries)[k]
        invariant forall k :: k in entries ==>
          entries[k] == if k in todo then old(entries)[k] else Join(old(entries), old(other.entries))[k]
        decreases todo
      {
        var nodeID :| nodeID in todo;
        var timestamp := other.entries[nodeID];
        if nodeID !in entries || timestamp > entries[nodeID] {
          entries := entries[nodeID := timestamp];
        }
        todo := todo - {nodeID};
      }
    }

    method Copy() returns (copy: NodeVectorClock)
      ensures fresh(copy) && copy.entries == entries
    {
      copy := new NodeVectorClock();
      var todo := entries.Keys;
      while todo != {}
        invariant fresh(copy)
        invariant todo <= entries.Keys
        invariant copy.entries == map k | k in entries && k !in todo :: entries[k]
        decreases todo
      {
        var k :| k in todo;
        copy.entries := copy.entries[k := entries[k]];
        todo := todo - {k};
      }
    }

    /** Either clock may be nil; nil counts as empty.  The ids are visited in any order. */
    static method Compare(vc: NodeVectorClock?, other: NodeVectorClock?) returns (verdict: Causality)
      ensures verdict == Verdict(Read(vc), Read(other))
    {
      var mine: Clock<NodeID> := if vc == null then map[] else vc.entries;
      var theirs: Clock<NodeID> := if other == null then map[] else other.entries;
      var vcLessEqOther, otherLessEqVc := true, true;
      var vcStrictlyLess, otherStrictlyLess := false, false;
      var allNodeIDs := mine.Keys + theirs.Keys;
      var todo := allNodeIDs;
      while todo != {}
        invariant todo <= allNodeIDs
        invariant vcLessEqOther <==> forall k :: k in mine && k !in todo ==> k in theirs && mine[k] <= theirs[k]
        invariant otherLessEqVc <==> forall k :: k in theirs && k !in todo ==> k in mine && theirs[k] <= mine[k]
        invariant vcLessEqOther || otherLessEqVc
        decreases todo
      {
        var id :| id in todo;
        var vcOk, otherOk := id in mine, id in theirs;
        if vcOk && (!otherOk || mine[id] > theirs[id]) {
          vcLessEqOther := false;
        }
        if otherOk && (!vcOk || theirs[id] > mine[id]) {
          otherLessEqVc := false;
        }
        if vcOk && otherOk {
          if mine[id] < theirs[id] { vcStrictlyLess := true; }
          if theirs[id] < mine[id] { otherStrictlyLess := true; }
        } else if !vcOk && otherOk {
          vcStrictlyLess := true;
        } else if vcOk && !otherOk {
          otherStrictlyLess := true;
        }
        todo := todo - {id};
        if !vcLessEqOther && !otherLessEqVc {
          assert !Leq(mine, theirs) && !Leq(theirs, mine);
          return Concurrent;
        }
      }
      assert vcLessEqOther <==> Leq(mine, theirs);
      assert otherLessEqVc <==> Leq(theirs, mine);
      if vcLessEqOther && otherLessEqVc {
        return Equal;
      } else if vcLessEqOther && vcStrictlyLess {
        return Before;
      } else if otherLessEqVc && otherStrictlyLess {
        return After;
      } else if vcLessEqOther {
        return Before;
      } else if otherLessEqVc {
        return After;
      } else {
        return Concurrent;
      }
    }

    static method IsCausallyBefore(vc: NodeVectorClock?, other: NodeVectorClock?) returns (before: bool)
      ensures before <==> Leq(Read(vc), Read(other)) && Read(vc) != Read(other)
    {
      var verdict := Compare(vc, other);
      VerdictLaws(Read(vc), Read(other));
      before := verdict == Before;
    }

    static method IsConcurrent(vc: NodeVectorClock?, other: NodeVectorClock?) returns (concurrent: bool)
      ensures concurrent <==> !Leq(Read(vc), Read(other)) && !Leq(Read(other), Read(vc))
    {
      var verdict := Compare(vc, other);
      concurrent := verdict == Concurrent;
    }
  }

  /** What a possibly nil clock reads as. */
  function Read(vc: NodeVectorClock?): Clock<NodeID>
    reads vc
  {
    if vc == null then map[] else vc.entries
  }

  /** A node's step on a local or send event. */
  function Tick(clock: Clock<NodeID>, self: NodeID): Clock<NodeID> {
    Bump(clock, self)
  }

  /** A node's step on receiving a timestamp. */
  function Absorb(clock: Clock<NodeID>, external: Clock<NodeID>, self: NodeID): Clock<NodeID> {
    Bump(Join(clock, external), self)
  }

  /** One node: its ID and its clock (`localNodeID` and `globalClock`). */
  class LocalClock {
    var localNodeID: NodeID
    const globalClock: NodeVectorClock

    constructor ()
      ensures localNodeID == [] && fresh(globalClock) && globalClock.entries == map[]
    {
      localNodeID := [];
      globalClock := new NodeVectorClock();
    }

    method SetLocalNodeID(id: NodeID)
      modifies this
      ensures localNodeID == id
    {
      localNodeID := id;
    }

    /** Panics while the node has no ID; the timestamp handed out is a copy. */
    method IncrementGlobalClock() returns (timestamp: Result<NodeVectorClock>)
      modifies globalClock
      ensures timestamp.Err? <==> localNodeID == []
      ensures timestamp.Err? ==> globalClock.entries == old(globalClock.entries)
      ensures timestamp.Ok? ==>
        && globalClock.entries == Tick(old(globalClock.entries), localNodeID)
        && fresh(timestamp.value) && timestamp.value.entries == globalClock.entries
    {
      if localNodeID == [] {
        return Err("Local Node ID not set for global vector clock");
      }
      globalClock.Increment(localNodeID);
      var copy := globalClock.Copy();
      return Ok(copy);
    }

    /** A node without an ID merges but does not count the event. */
    method MergeIntoGlobalClock(externalClock: NodeVectorClock?) returns (timestamp: NodeVectorClock)
      modifies globalClock
      ensures localNodeID != [] ==>
        globalClock.entries == Absorb(old(globalClock.entries), old(Read(externalClock)), localNodeID)
      ensures localNodeID == [] ==>
        globalClock.entries == Join(old(globalClock.entries), old(Read(externalClock)))
      ensures fresh(timestamp) && timestamp.entries == globalClock.entries
    {
      globalClock.Merge(externalClock);
      if localNodeID != [] {
        globalClock.Increment(localNodeID);
      }
      timestamp := globalClock.Copy();
    }
  }
}
