/** Which versions survive a fold whatever the draws, and which may be lost. */
module Survivors {
  import opened Basics
  import opened Order
  import opened ClockLattice
  import opened Conflict
  import opened Draws

  // ---------------------------------------------------------------- draws at will

  function High(): Digest {
    [1] + Zeros(30) + [1]
  }

  predicate Marked(x: Bytes) {
    x != [] && x[0] == 1
  }

  /** An environment in which the first byte of the context decides every draw between two. */
  function Rigged<V>(): Env<V> {
    Env(x => if Marked(x) then High() else LOW, (v: V) => [], c => [])
  }

  lemma {:induction false} DrawInputStart<V>(env: Env<V>, context: Bytes, vs: seq<Version<V>>, k: nat)
    requires k <= |vs| && context != []
    ensures DrawInput(env, context, vs, k) != [] && DrawInput(env, context, vs, k)[0] == context[0]
  {
    if k > 0 {
      DrawInputStart(env, context, vs, k - 1);
    }
  }

  lemma Parity(s: Bytes)
    requires s != []
    ensures BigEndian(s) % 2 == s[|s| - 1] % 2
  {
    EvenAndOne(BigEndian(s[..|s| - 1]), s[|s| - 1]);
  }

  lemma EvenAndOne(n: nat, x: byte)
    ensures (256 * n + x) % 2 == x % 2
  {
    var half, rest := x / 2, x % 2;
    assert 256 * n + x == 2 * (128 * n + half) + rest;
    Remainder(128 * n + half, rest);
  }

  lemma Remainder(q: nat, r: nat)
    requires r < 2
    ensures (2 * q + r) % 2 == r
  {
  }

  lemma RiggedDraw<V>(context: Bytes, vs: seq<Version<V>>)
    requires |vs| == 2 && context != []
    ensures Draw(Rigged<V>(), context, vs) == if context[0] == 1 then 1 else 0
  {
    var env := Rigged<V>();
    DrawInputStart(env, context, vs, 2);
    Parity(High());
    Parity(LOW);
    assert !Marked(LOW) && Marked(High());
  }

  /** The context on which the draw between the two falls on a. */
  function For<V>(a: Version<V>, b: Version<V>): (context: Bytes)
    ensures context != []
  {
    if Less(b.source, a.source) then [1] else [0]
  }

  /** On that context a survives against any b that is not strictly later. */
  lemma RiggedFor<V(!new)>(a: Version<V>, b: Version<V>)
    requires a.key == b.key && a.source != b.source && Verdict(Known(a.clock), Known(b.clock)) != Before
    ensures Resolved(Rigged<V>(), a, b, For(a, b), Merged(a, a, b))
  {
    RiggedDraw(For(a, b), InOrder(a, b));
    InOrderWinner(Rigged<V>(), a, b, For(a, b), a);
    assert Picked(Rigged<V>(), a, b, For(a, b), a);
  }

  lemma RiggedForLater<V(!new)>(a: Version<V>, b: Version<V>)
    requires a.key == b.key && a.source != b.source && Verdict(Known(a.clock), Known(b.clock)) != After
    ensures Resolved(Rigged<V>(), a, b, For(b, a), Merged(b, a, b))
  {
    LessTotal(a.source, b.source);
    RiggedDraw(For(b, a), InOrder(a, b));
    InOrderWinner(Rigged<V>(), a, b, For(b, a), b);
    assert Picked(Rigged<V>(), a, b, For(b, a), b);
  }

  // ---------------------------------------------------------------- the converse of `LatestWins`

  /** Every version has a source and a value of its own. */
  ghost predicate Apart<V>(vs: seq<Version<V>>) {
    forall i, j :: 0 <= i < |vs| && 0 <= j < |vs| && i != j ==> vs[i].source != vs[j].source && vs[i].value != vs[j].value
  }

  /** Draws exist: some run of the fold takes place. */
  lemma {:induction false} SomeFold<V(!new)>(vs: seq<Version<V>>) returns (contexts: seq<Bytes>, held: seq<Version<V>>)
    requires vs != [] && SameKey(vs) && Apart(vs)
    ensures Folds(Rigged<V>(), vs, contexts, held)
  {
    if |vs| == 1 {
      contexts, held := [], vs;
    } else {
      var front, last := vs[..|vs| - 1], vs[|vs| - 1];
      contexts, held := SomeFold(front);
      assert front + [last] == vs;
      FinalApart(Rigged<V>(), front, contexts, held, last);
      var next, r := SomeStep(Final(held), last);
      FoldOn(Rigged<V>(), front, contexts, held, last, next, r);
      contexts, held := contexts + [next], held + [r];
    }
  }

  ghost predicate ApartFrom<V>(vs: seq<Version<V>>, v: Version<V>) {
    forall i :: 0 <= i < |vs| ==> vs[i].key == v.key && vs[i].source != v.source && vs[i].value != v.value
  }

  /** What a replica holds is apart from a version that is apart from all it has seen. */
  lemma FinalApart<V(!new)>(env: Env<V>, vs: seq<Version<V>>, contexts: seq<Bytes>, held: seq<Version<V>>, v: Version<V>)
    requires Folds(env, vs, contexts, held) && SameKey(vs) && ApartFrom(vs, v)
    ensures Final(held).key == v.key && Final(held).source != v.source && Final(held).value != v.value
    ensures Known(Final(held).clock) == JoinAll(vs, |vs|)
  {
    HeldSoFar(env, vs, contexts, held, |vs| - 1);
  }

  lemma SomeStep<V(!new)>(a: Version<V>, b: Version<V>) returns (context: Bytes, r: Version<V>)
    requires a.key == b.key && a.source != b.source
    ensures Resolved(Rigged<V>(), a, b, context, r)
  {
    if Verdict(Known(a.clock), Known(b.clock)) != Before {
      RiggedFor(a, b);
      context, r := For(a, b), Merged(a, a, b);
    } else {
      RiggedForLater(a, b);
      context, r := For(b, a), Merged(b, a, b);
    }
  }

  lemma FoldOn<V(!new)>(env: Env<V>, vs: seq<Version<V>>, contexts: seq<Bytes>, held: seq<Version<V>>,
    v: Version<V>, context: Bytes, r: Version<V>)
    requires Folds(env, vs, contexts, held) && Resolved(env, Final(held), v, context, r)
    ensures Folds(env, vs + [v], contexts + [context], held + [r])
  {
    var us, cs, hs := vs + [v], contexts + [context], held + [r];
    forall i | 0 <= i < |us| - 1 ensures Resolved(env, hs[i], us[i + 1], cs[i], hs[i + 1]) {
      if i < |vs| - 1 {
        assert Resolved(env, held[i], vs[i + 1], contexts[i], held[i + 1]);
      }
    }
  }

  lemma WithoutAndBack<T>(s: seq<T>, j: nat)
    requires j < |s|
    ensures multiset(Without(s, j) + [s[j]]) == multiset(s)
  {
    assert s == s[..j] + [s[j]] + s[j + 1..];
  }

  lemma WithoutApart<V>(vs: seq<Version<V>>, j: nat)
    requires j < |vs| && SameKey(vs) && Apart(vs)
    ensures SameKey(Without(vs, j)) && Apart(Without(vs, j)) && ApartFrom(Without(vs, j), vs[j])
  {
    var ws := Without(vs, j);
    assert forall i :: 0 <= i < |ws| ==> ws[i] == vs[if i < j then i else i + 1];
  }

  /** Put last, a version that is not the latest can lose. */
  lemma NotLatestMayLose<V(!new)>(vs: seq<Version<V>>, j: nat)
    returns (order: seq<Version<V>>, contexts: seq<Bytes>, held: seq<Version<V>>)
    requires |vs| > 1 && j < |vs| && SameKey(vs) && Apart(vs) && !Latest(vs, j)
    ensures IsReplica(Rigged<V>(), vs, order, contexts, held)
    ensures Final(held).value != vs[j].value
  {
    var others := Without(vs, j);
    WithoutAndBack(vs, j);
    WithoutApart(vs, j);
    contexts, held := SomeFold(others);
    var a := Final(held);
    FinalApart(Rigged<V>(), others, contexts, held, vs[j]);
    RiggedFor(a, vs[j]);
    var context, r := For(a, vs[j]), Merged(a, a, vs[j]);
    FoldOn(Rigged<V>(), others, contexts, held, vs[j], context, r);
    order, contexts, held := others + [vs[j]], contexts + [context], held + [r];
  }

  lemma MultisetWithout<T>(s: seq<T>, j: nat)
    requires j < |s|
    ensures multiset(Without(s, j)) == multiset(s) - multiset{s[j]}
  {
    WithoutAndBack(s, j);
    assert multiset(Without(s, j) + [s[j]]) == multiset(Without(s, j)) + multiset{s[j]};
  }

  /** Being the latest does not depend on the order. */
  lemma LatestAnywhere<V>(vs: seq<Version<V>>, j: nat, order: seq<Version<V>>, k: nat)
    requires multiset(vs) == multiset(order) && j < |vs| && k < |order| && vs[j] == order[k]
    ensures Latest(vs, j) <==> Latest(order, k)
  {
    OthersAnywhere(vs, j, order, k);
  }

  lemma OthersAnywhere<V>(vs: seq<Version<V>>, j: nat, order: seq<Version<V>>, k: nat)
    requires multiset(vs) == multiset(order) && j < |vs| && k < |order| && vs[j] == order[k]
    ensures KnownByOthers(vs, j) == KnownByOthers(order, k)
  {
    WithoutPermuted(vs, j, order, k);
    SameJoin(Without(vs, j), |vs| - 1, Without(order, k), |order| - 1);
  }

  lemma SameJoin<V>(a: seq<Version<V>>, m: nat, b: seq<Version<V>>, n: nat)
    requires multiset(a) == multiset(b) && |a| == m && |b| == n
    ensures JoinAll(a, m) == JoinAll(b, n)
  {
    JoinAllOrderIndependent(a, b);
  }

  lemma WithoutPermuted<T>(s: seq<T>, j: nat, t: seq<T>, k: nat)
    requires multiset(s) == multiset(t) && j < |s| && k < |t| && s[j] == t[k]
    ensures multiset(Without(s, j)) == multiset(Without(t, k))
    ensures |Without(s, j)| == |s| - 1 && |Without(t, k)| == |t| - 1
  {
    MultisetWithout(s, j);
    MultisetWithout(t, k);
  }

  lemma SameKeyAnywhere<V>(vs: seq<Version<V>>, order: seq<Version<V>>)
    requires multiset(vs) == multiset(order) && SameKey(vs)
    ensures SameKey(order)
  {
    forall a, b | 0 <= a < |order| && 0 <= b < |order| ensures order[a].key == order[b].key {
      var i := MultisetMember(order, vs, a);
      var j := MultisetMember(order, vs, b);
    }
  }

  lemma LatestAlwaysHeld<V(!new)>(env: Env<V>, vs: seq<Version<V>>, j: nat, order: seq<Version<V>>, contexts: seq<Bytes>, held: seq<Version<V>>)
    requires j < |vs| && SameKey(vs) && Latest(vs, j)
    requires IsReplica(env, vs, order, contexts, held)
    ensures HoldsContent(Final(held), vs[j])
  {
    var k := MultisetMember(vs, order, j);
    LatestAnywhere(vs, j, order, k);
    SameKeyAnywhere(vs, order);
    LatestWins(env, order, contexts, held, k);
  }

  /**
   * The versions that no order and no draw can lose are exactly the causally latest ones; a single
   * version has nothing to lose against.
   */
  lemma AlwaysHeldExactly<V(!new)>(vs: seq<Version<V>>, j: nat)
    requires |vs| > 1 && j < |vs| && SameKey(vs) && Apart(vs)
    ensures Latest(vs, j) <==>
      forall env: Env<V>, order: seq<Version<V>>, contexts: seq<Bytes>, held: seq<Version<V>> ::
        IsReplica(env, vs, order, contexts, held) ==> Final(held).value == vs[j].value
  {
    if Latest(vs, j) {
      forall env: Env<V>, order: seq<Version<V>>, contexts: seq<Bytes>, held: seq<Version<V>> |
        IsReplica(env, vs, order, contexts, held)
        ensures Final(held).value == vs[j].value
      {
        LatestAlwaysHeld(env, vs, j, order, contexts, held);
      }
    } else {
      var order, contexts, held := NotLatestMayLose(vs, j);
    }
  }

  /**
   * Replicas that see the versions in orders of their own end with one value, whatever the hash and
   * the contexts, if and only if one of the versions is the latest.
   */
  lemma AgreementExactly<V(!new)>(vs: seq<Version<V>>)
    requires |vs| > 1 && SameKey(vs) && Apart(vs)
    ensures (exists j :: 0 <= j < |vs| && Latest(vs, j)) <==>
      forall env: Env<V>, a: seq<Version<V>>, cs: seq<Bytes>, held: seq<Version<V>>, b: seq<Version<V>>, ds: seq<Bytes>, kept: seq<Version<V>> ::
        IsReplica(env, vs, a, cs, held) && IsReplica(env, vs, b, ds, kept) ==> Final(held).value == Final(kept).value
  {
    if j :| 0 <= j < |vs| && Latest(vs, j) {
      forall env: Env<V>, a: seq<Version<V>>, cs: seq<Bytes>, held: seq<Version<V>>, b: seq<Version<V>>, ds: seq<Bytes>, kept: seq<Version<V>> |
        IsReplica(env, vs, a, cs, held) && IsReplica(env, vs, b, ds, kept)
        ensures Final(held).value == Final(kept).value
      {
        LatestAlwaysHeld(env, vs, j, a, cs, held);
        LatestAlwaysHeld(env, vs, j, b, ds, kept);
      }
    } else {
      var cs, held := SomeFold(vs);
      HeldSoFar(Rigged<V>(), vs, cs, held, |vs| - 1);
      var i :| 0 <= i < |vs| && Final(held).value == vs[i].value;
      var order, ds, kept := NotLatestMayLose(vs, i);
      assert IsReplica(Rigged<V>(), vs, vs, cs, held) && IsReplica(Rigged<V>(), vs, order, ds, kept);
    }
  }

  /** A replica that sees the versions in this order. */
  ghost predicate IsReplica<V(!new)>(env: Env<V>, vs: seq<Version<V>>, order: seq<Version<V>>, contexts: seq<Bytes>, held: seq<Version<V>>) {
    multiset(order) == multiset(vs) && Folds(env, order, contexts, held)
  }

  /**
   * A version can even outlive one that strictly overwrites it: y first wins against an x that z
   * knows nothing of, and z then meets the joined clock, to which it is no longer later.
   */
  lemma OverwrittenMayStay<V(!new)>(x: Version<V>, y: Version<V>, z: Version<V>)
    returns (contexts: seq<Bytes>, held: seq<Version<V>>)
    requires SameKey([x, y, z]) && Apart([x, y, z])
    requires Verdict(Known(y.clock), Known(z.clock)) == Before
    requires Verdict(Known(x.clock), Known(y.clock)) == Concurrent && !Leq(Known(x.clock), Known(z.clock))
    ensures Folds(Rigged<V>(), [x, y, z], contexts, held)
    ensures Final(held).value == y.value && Final(held).source == y.source
  {
    var vs := [x, y, z];
    assert vs[0].key == vs[1].key == vs[2].key && vs[0].source != vs[1].source && vs[1].source != vs[2].source;
    RiggedForLater(x, y);
    var a := Merged(y, x, y);
    JoinIsLeastUpperBound(Known(x.clock), Known(y.clock), Known(z.clock));
    VerdictLaws(Known(a.clock), Known(z.clock));
    RiggedFor(a, z);
    var r := Merged(a, a, z);
    FoldThree(Rigged<V>(), x, y, z, For(y, x), For(a, z), a, r);
    contexts, held := [For(y, x), For(a, z)], [x, a, r];
  }

  lemma FoldThree<V(!new)>(env: Env<V>, x: Version<V>, y: Version<V>, z: Version<V>, c: Bytes, d: Bytes, a: Version<V>, r: Version<V>)
    requires Resolved(env, x, y, c, a) && Resolved(env, a, z, d, r)
    ensures Folds(env, [x, y, z], [c, d], [x, a, r])
  {
    FoldOn(env, [x], [], [x], y, c, a);
    assert [x] + [y] == [x, y] && [] + [c] == [c] && [x] + [a] == [x, a];
    FoldOn(env, [x, y], [c], [x, a], z, d, r);
    assert [x, y] + [z] == [x, y, z] && [c] + [d] == [c, d] && [x, a] + [r] == [x, a, r];
  }

  /** Such versions exist: clocks with entries {2: 1}, {1: 1} and {1: 2}. */
  lemma OverwrittenExample()
    ensures
      var x, y, z: Clock<uint64> := map[2 := 1], map[1 := 1], map[1 := 2];
      Verdict(y, z) == Before && Verdict(x, y) == Concurrent && !Leq(x, z)
  {
    var x, y, z: Clock<uint64> := map[2 := 1], map[1 := 1], map[1 := 2];
    assert 2 in x && 2 !in z && 2 !in y && 1 in y && 1 !in x;
    VerdictLaws(x, y);
    VerdictLaws(y, z);
    assert y[1] != z[1];
  }
}
