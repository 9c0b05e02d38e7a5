/** `VectorClock` (shard-level clocks): the second, separately written implementation. */
module VectorClocks {
  import opened Basics
  import opened ClockLattice

  class VectorClock {
    var entries: Clock<uint64>

    constructor ()
      ensures entries == map[]
    {
      entries := map[];
    }

    method Increment(nodeID: uint64)
      modifies this
      ensures entries == Bump(old(entries), nodeID)
    {
      entries := entries[nodeID := (Entry(entries, nodeID) + 1) % WORD];
    }

    /** A nil clock copies to a new empty one. */
    static method Copy(vc: VectorClock?) returns (copy: VectorClock)
      ensures fresh(copy) && copy.entries == Read(vc)
    {
      copy := new VectorClock();
      if vc == null {
        return;
      }
      var todo := vc.entries.Keys;
      while todo != {}
        invariant fresh(copy)
        invariant todo <= vc.entries.Keys
        invariant copy.entries == map k | k in vc.entries && k !in todo :: vc.entries[k]
        decreases todo
      {
        var k :| k in todo;
        copy.entries := copy.entries[k := vc.entries[k]];
        todo := todo - {k};
      }
    }

    /** Merging with a nil clock on either side is skipped. */
    static method Merge(vc: VectorClock?, other: VectorClock?)
      modifies vc
      ensures vc != null ==> vc.entries == Join(old(vc.entries), old(Read(other)))
    {
      if vc == null || other == null {
        assert vc != null ==> Join(vc.entries, map[]) == vc.entries;
        return;
      }
      var todo := other.entries.Keys;
      while todo != {}
        invariant todo <= old(other.entries).Keys
        invariant other != vc ==> other.entries == old(other.entries)
        invariant vc.entries.Keys == old(vc.entries).Keys + (old(other.entries).Keys - todo)
        invariant forall k :: k in todo ==> k in other.entries && other.entries[k] == old(other.entries)[k]
        invariant forall k :: k in vc.entries ==>
          vc.entries[k] == if k in todo then old(vc.entries)[k] else Join(old(vc.entries), old(other.entries))[k]
        decreases todo
      {
        var k :| k in todo;
        var vOther := other.entries[k];
        if k !in vc.entries || vOther > vc.entries[k] {
          vc.entries := vc.entries[k := vOther];
        }
        todo := todo - {k};
      }
    }

    static method LessEq(a: Clock<uint64>, b: Clock<uint64>) returns (lessEq: bool)
      ensures lessEq <==> Leq(a, b)
    {
      lessEq := true;
      var todo := a.Keys;
      while todo != {}
        invariant todo <= a.Keys
        invariant lessEq <==> forall k :: k in a && k !in todo ==> k in b && a[k] <= b[k]
        decreases todo
      {
        var k :| k in todo;
        todo := todo - {k};
        if k !in b || a[k] > b[k] {
          lessEq := false;
          break;
        }
      }
    }

    /** -1, 0, 1 and 2 for before, equal, after and concurrent. */
    static method Compare(vc: VectorClock?, other: VectorClock?) returns (verdict: int)
      ensures verdict == -1 <==> Verdict(Read(vc), Read(other)) == Before
      ensures verdict == 0 <==> Verdict(Read(vc), Read(other)) == Equal
      ensures verdict == 1 <==> Verdict(Read(vc), Read(other)) == After
      ensures verdict == 2 <==> Verdict(Read(vc), Read(other)) == Concurrent
    {
      if vc == null && other == null {
        return 0;
      }
      if vc == null {
        assert Leq(map[], other.entries);
        assert |other.entries| == 0 <==> other.entries == map[];
        if |other.entries| == 0 {
          return 0;
        }
        var k :| k in other.entries;
        assert !Leq(other.entries, map[]);
        return -1;
      }
      if other == null {
        if |vc.entries| == 0 {
          assert vc.entries == map[];
          return 0;
        }
        assert vc.entries != map[];
        var k :| k in vc.entries;
        assert !Leq(vc.entries, map[]);
        return 1;
      }
      var vcLessEqOther := LessEq(vc.entries, other.entries);
      var otherLessEqVc := LessEq(other.entries, vc.entries);
      if vcLessEqOther && otherLessEqVc {
        return 0;
      } else if vcLessEqOther {
        return -1;
      } else if otherLessEqVc {
        return 1;
      } else {
        return 2;
      }
    }
  }

  function Read(vc: VectorClock?): Clock<uint64>
    reads vc
  {
    if vc == null then map[] else vc.entries
  }
}
