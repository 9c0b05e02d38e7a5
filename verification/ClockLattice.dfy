/**
 * Vector clocks as values: the order, the join, and the laws both clock implementations rest on.
 * A missing entry is strictly below an explicit 0, so `a <= b` means that b has every entry of a,
 * each at least as large.
 */
module ClockLattice {
  import opened Basics

  type Clock<K> = map<K, uint64>

  datatype Causality = Equal | Before | After | Concurrent {
    function Flip(): Causality {
      match this
      case Before => After
      case After => Before
      case other => other
    }
  }

  predicate Leq<K>(a: Clock<K>, b: Clock<K>) {
    forall k :: k in a ==> k in b && a[k] <= b[k]
  }

  function Join<K>(a: Clock<K>, b: Clock<K>): Clock<K> {
    map k | k in a.Keys + b.Keys ::
      if k !in b then a[k] else if k !in a || a[k] < b[k] then b[k] else a[k]
  }

  /** The entry of `k`, a missing one read as 0. */
  function Entry<K>(a: Clock<K>, k: K): uint64 {
    if k in a then a[k] else 0
  }

  /** `vc[k]++` on uint64 entries. */
  function Bump<K>(a: Clock<K>, k: K): Clock<K> {
    a[k := (Entry(a, k) + 1) % WORD]
  }

  /** The relation of two clocks, read off the order alone. */
  function Verdict<K>(a: Clock<K>, b: Clock<K>): Causality {
    if Leq(a, b) then (if Leq(b, a) then Equal else Before)
    else if Leq(b, a) then After
    else Concurrent
  }

  lemma LeqPartialOrder<K>(a: Clock<K>, b: Clock<K>, c: Clock<K>)
    ensures Leq(a, a)
    ensures Leq(a, b) && Leq(b, c) ==> Leq(a, c)
    ensures Leq(a, b) && Leq(b, a) ==> a == b
  {
    if Leq(a, b) && Leq(b, a) {
      assert a.Keys == b.Keys;
    }
  }

  /** `Join` is the least upper bound. */
  lemma JoinIsLeastUpperBound<K>(a: Clock<K>, b: Clock<K>, c: Clock<K>)
    ensures Leq(a, Join(a, b)) && Leq(b, Join(a, b))
    ensures Leq(Join(a, b), c) <==> Leq(a, c) && Leq(b, c)
  {
    var j := Join(a, b);
    assert forall k :: k in a ==> k in j && a[k] <= j[k];
    assert forall k :: k in b ==> k in j && b[k] <= j[k];
    if Leq(j, c) {
      LeqPartialOrder(a, j, c);
      LeqPartialOrder(b, j, c);
    }
  }

  lemma JoinAlgebra<K>(a: Clock<K>, b: Clock<K>, c: Clock<K>)
    ensures Join(a, b) == Join(b, a)
    ensures Join(Join(a, b), c) == Join(a, Join(b, c))
    ensures Join(a, a) == a
    ensures Leq(a, b) <==> Join(a, b) == b
  {
    JoinIsLeastUpperBound(a, b, b);
    LeqPartialOrder(Join(a, b), b, b);
    assert Join(a, b).Keys == Join(b, a).Keys;
  }

  lemma VerdictLaws<K>(a: Clock<K>, b: Clock<K>)
    ensures Verdict(b, a) == Verdict(a, b).Flip()
    ensures Verdict(a, b) == Equal <==> a == b
    ensures Verdict(a, b) == Before <==> Leq(a, b) && a != b
  {
    LeqPartialOrder(a, b, a);
  }

  /**
   * Incrementing an entry moves a clock strictly forward exactly when that entry is not already at
   * the largest uint64, where it wraps to 0.
   */
  lemma BumpAdvances<K>(a: Clock<K>, k: K)
    ensures Verdict(a, Bump(a, k)) == Before <==> Entry(a, k) < WORD - 1
    ensures Entry(a, k) == WORD - 1 ==> Verdict(a, Bump(a, k)) == After
  {
    var b := Bump(a, k);
    if Entry(a, k) < WORD - 1 {
      assert Leq(a, b);
      assert k in b && (k in a ==> a[k] < b[k]);
    } else {
      assert k in a && b[k] == 0;
      assert Leq(b, a);
    }
  }

  /** The same clock under other key names. */
  function Rename<K, L>(f: K -> L, a: Clock<K>): Clock<L>
    requires forall x, y :: x in a && y in a && f(x) == f(y) ==> x == y
  {
    map k | k in a :: f(k) := a[k]
  }

  /** The verdict does not depend on the key type, only on which entries are the same entry. */
  lemma RenameKeepsVerdict<K, L>(f: K -> L, a: Clock<K>, b: Clock<K>)
    requires forall x, y :: x in a.Keys + b.Keys && y in a.Keys + b.Keys && f(x) == f(y) ==> x == y
    ensures Verdict(Rename(f, a), Rename(f, b)) == Verdict(a, b)
  {
    RenameKeepsLeq(f, a, b);
    RenameKeepsLeq(f, b, a);
  }

  lemma RenameKeepsLeq<K, L>(f: K -> L, a: Clock<K>, b: Clock<K>)
    requires forall x, y :: x in a.Keys + b.Keys && y in a.Keys + b.Keys && f(x) == f(y) ==> x == y
    ensures Leq(Rename(f, a), Rename(f, b)) <==> Leq(a, b)
  {
    var ra, rb := Rename(f, a), Rename(f, b);
    if Leq(a, b) {
      forall l | l in ra ensures l in rb && ra[l] <= rb[l] {
        var k :| k in a && f(k) == l && ra[l] == a[k];
        assert f(k) in rb && rb[f(k)] == b[k];
      }
    }
    if Leq(ra, rb) {
      forall k | k in a ensures k in b && a[k] <= b[k] {
        assert f(k) in ra && ra[f(k)] == a[k];
        var k' :| k' in b && f(k') == f(k) && rb[f(k)] == b[k'];
      }
    }
  }
}
