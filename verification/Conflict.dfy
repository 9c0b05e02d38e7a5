/** Detecting and resolving conflicting versions of one piece of state. */
module Conflict {
  import opened Basics
  import opened Order
  import opened ClockLattice
  import opened VectorClocks

  /** A version as the code passes it: the clock is a reference and may be nil. */
  datatype StateVersion<V> = StateVersion(key: Bytes, value: V, clock: VectorClock?, source: NodeID)

  /** The same with the clock read out. */
  datatype Version<V> = Version(key: Bytes, value: V, clock: Option<Clock<uint64>>, source: NodeID)

  function View<V>(v: StateVersion<V>): Version<V>
    reads v.clock
  {
    Version(v.key, v.value, if v.clock == null then None else Some(v.clock.entries), v.source)
  }

  /** A nil clock counts as empty. */
  function Known(clock: Option<Clock<uint64>>): Clock<uint64> {
    match clock
    case None => map[]
    case Some(c) => c
  }

  /** What resolution depends on beyond the versions: the hash, `%v`, and clock serialization. */
  datatype Env<!V> = Env(hash: Hash, render: V -> Bytes, serialize: Clock<uint64> -> Bytes)

  // ---------------------------------------------------------------- the simulated draw

  /** What one version adds to the hash; a nil clock drops the source along with the clock. */
  function Fingerprint<V>(env: Env<V>, v: Version<V>): Bytes {
    v.key + env.render(v.value) +
    match v.clock
    case None => []
    case Some(c) => env.serialize(c) + v.source
  }

  function DrawInput<V>(env: Env<V>, context: Bytes, vs: seq<Version<V>>, k: nat): Bytes
    requires k <= |vs|
  {
    if k == 0 then context else DrawInput(env, context, vs, k - 1) + Fingerprint(env, vs[k - 1])
  }

  function Draw<V>(env: Env<V>, context: Bytes, vs: seq<Version<V>>): (index: nat)
    requires vs != []
    ensures index < |vs|
  {
    BigEndian(env.hash(env.hash(DrawInput(env, context, vs, |vs|)))) % |vs|
  }

  function SourceOf<V>(): Version<V> -> NodeID {
    (v: Version<V>) => v.source
  }

  /** A possible winner: the sort may leave equal sources in any order. */
  ghost predicate IsWinner<V(!new)>(env: Env<V>, vs: seq<Version<V>>, context: Bytes, winner: Version<V>) {
    if |vs| == 1 then winner == vs[0]
    else exists sorted: seq<Version<V>> ::
      && sorted != [] && multiset(sorted) == multiset(vs)
      && SortedBy(SourceOf<V>(), Less, sorted)
      && winner == sorted[Draw(env, context, sorted)]
  }

  /** With distinct sources every permutation of the input has the same winner. */
  lemma WinnerOrderIndependent<V(!new)>(env: Env<V>, vs: seq<Version<V>>, ws: seq<Version<V>>, context: Bytes,
                                        v: Version<V>, w: Version<V>)
    requires multiset(vs) == multiset(ws) && DistinctKeys(SourceOf<V>(), vs)
    requires IsWinner(env, vs, context, v) && IsWinner(env, ws, context, w)
    ensures v == w
  {
    assert |vs| == |multiset(vs)| == |multiset(ws)| == |ws|;
    if |vs| == 1 {
      var j := MultisetMember(vs, ws, 0);
    } else {
      var s: seq<Version<V>> :| s != [] && multiset(s) == multiset(vs) && SortedBy(SourceOf<V>(), Less, s)
        && v == s[Draw(env, context, s)];
      var t: seq<Version<V>> :| t != [] && multiset(t) == multiset(ws) && SortedBy(SourceOf<V>(), Less, t)
        && w == t[Draw(env, context, t)];
      PermutationKeepsDistinct(SourceOf<V>(), vs, s);
      LessIsTotal();
      SortedUnique(SourceOf<V>(), Less, s, t);
    }
  }

  lemma WinnerIsMember<V(!new)>(env: Env<V>, vs: seq<Version<V>>, context: Bytes, w: Version<V>)
    requires vs != [] && IsWinner(env, vs, context, w)
    ensures w in vs
  {
    if |vs| > 1 {
      var s: seq<Version<V>> :| s != [] && multiset(s) == multiset(vs) && SortedBy(SourceOf<V>(), Less, s)
        && w == s[Draw(env, context, s)];
      var j := MultisetMember(s, vs, Draw(env, context, s));
    }
  }

  // ---------------------------------------------------------------- resolving two versions

  /** The version whose content survives: the later one, or the winner of a draw. */
  ghost predicate Picked<V(!new)>(env: Env<V>, local: Version<V>, remote: Version<V>, context: Bytes, w: Version<V>) {
    match Verdict(Known(local.clock), Known(remote.clock))
    case Before => w == remote
    case After => w == local
    case Equal => IsWinner(env, [local, remote], context, w)
    case Concurrent => IsWinner(env, [local, remote], context, w)
  }

  /** It leaves with both histories. */
  function Merged<V>(w: Version<V>, local: Version<V>, remote: Version<V>): Version<V> {
    w.(clock := Some(Join(Known(local.clock), Known(remote.clock))))
  }

  /** The draw decides between two versions, and w wins it. */
  ghost predicate Drawn<V(!new)>(env: Env<V>, local: Version<V>, remote: Version<V>, context: Bytes,
                                 w: Version<V>, result: Version<V>) {
    IsWinner(env, [local, remote], context, w) && result == Merged(w, local, remote)
  }

  /** The outcomes `HandlePotentialConflict` allows. */
  ghost predicate Resolved<V(!new)>(env: Env<V>, local: Version<V>, remote: Version<V>, context: Bytes, result: Version<V>) {
    if local.key != remote.key then result == local
    else exists w: Version<V> :: Picked(env, local, remote, context, w) && result == Merged(w, local, remote)
  }

  lemma PickedIsOneOfTwo<V(!new)>(env: Env<V>, a: Version<V>, b: Version<V>, context: Bytes, w: Version<V>)
    requires Picked(env, a, b, context, w)
    ensures w == a || w == b
  {
    if IsWinner(env, [a, b], context, w) {
      WinnerIsMember(env, [a, b], context, w);
    }
  }

  /** Whatever the outcome, it carries both histories and the content of one of the two versions. */
  lemma ResolvedKeepsHistory<V(!new)>(env: Env<V>, a: Version<V>, b: Version<V>, context: Bytes, r: Version<V>)
    requires a.key == b.key && Resolved(env, a, b, context, r)
    ensures r.key == a.key && r.clock == Some(Join(Known(a.clock), Known(b.clock)))
    ensures (r.value == a.value && r.source == a.source) || (r.value == b.value && r.source == b.source)
  {
    var w: Version<V> :| Picked(env, a, b, context, w) && r == Merged(w, a, b);
    PickedIsOneOfTwo(env, a, b, context, w);
  }

  lemma PickedSymmetric<V(!new)>(env: Env<V>, a: Version<V>, b: Version<V>, context: Bytes, w: Version<V>, w': Version<V>)
    requires a.source != b.source || Verdict(Known(a.clock), Known(b.clock)) in {Before, After}
    requires Picked(env, a, b, context, w) && Picked(env, b, a, context, w')
    ensures w == w'
  {
    VerdictLaws(Known(a.clock), Known(b.clock));
    if IsWinner(env, [a, b], context, w) && IsWinner(env, [b, a], context, w') && a.source != b.source {
      assert multiset([a, b]) == multiset([b, a]);
      WinnerOrderIndependent(env, [a, b], [b, a], context, w, w');
    }
  }

  /**
   * The two replicas of an exchange agree: swapping local and remote changes nothing, provided the
   * sources differ or one clock is strictly later.
   */
  lemma ResolutionSymmetric<V(!new)>(env: Env<V>, a: Version<V>, b: Version<V>, context: Bytes, r: Version<V>, r': Version<V>)
    requires a.key == b.key
    requires a.source != b.source || Verdict(Known(a.clock), Known(b.clock)) in {Before, After}
    requires Resolved(env, a, b, context, r) && Resolved(env, b, a, context, r')
    ensures r == r'
  {
    var w: Version<V> :| Picked(env, a, b, context, w) && r == Merged(w, a, b);
    var w': Version<V> :| Picked(env, b, a, context, w') && r' == Merged(w', b, a);
    PickedSymmetric(env, a, b, context, w, w');
    JoinAlgebra(Known(a.clock), Known(b.clock), map[]);
  }

  /** Both replicas of an exchange come to the same result, however their sorts treat ties. */
  ghost predicate Unambiguous<V(!new)>(env: Env<V>, a: Version<V>, b: Version<V>, context: Bytes) {
    forall r: Version<V>, r': Version<V> :: Resolved(env, a, b, context, r) && Resolved(env, b, a, context, r') ==> r == r'
  }

  /** With one source, the two arrangements of a draw leave the same version exactly if they draw different places. */
  lemma SameSourceWinners<V(!new)>(env: Env<V>, a: Version<V>, b: Version<V>, context: Bytes, w: Version<V>)
    requires a.source == b.source
    ensures IsWinner(env, [a, b], context, w) <==>
      w == [a, b][Draw(env, context, [a, b])] || w == [b, a][Draw(env, context, [b, a])]
  {
    EitherWins(env, a, b, context);
    if IsWinner(env, [a, b], context, w) {
      var s: seq<Version<V>> :| s != [] && multiset(s) == multiset([a, b]) && SortedBy(SourceOf<V>(), Less, s)
        && w == s[Draw(env, context, s)];
      TwoArrangements(a, b, s);
    }
  }

  /** Both arrangements of versions of one source are sorted. */
  lemma EitherWins<V(!new)>(env: Env<V>, a: Version<V>, b: Version<V>, context: Bytes)
    requires a.source == b.source
    ensures IsWinner(env, [a, b], context, [a, b][Draw(env, context, [a, b])])
    ensures IsWinner(env, [a, b], context, [b, a][Draw(env, context, [b, a])])
  {
    TwoSorted(a, b);
    TwoSorted(b, a);
    SortedWins(env, [a, b], [a, b], context);
    assert multiset([a, b]) == multiset([b, a]);
    SortedWins(env, [a, b], [b, a], context);
  }

  lemma SortedWins<V(!new)>(env: Env<V>, versions: seq<Version<V>>, s: seq<Version<V>>, context: Bytes)
    requires s != [] && multiset(s) == multiset(versions) && SortedBy(SourceOf<V>(), Less, s)
    requires |versions| > 1
    ensures IsWinner(env, versions, context, s[Draw(env, context, s)])
  {
  }

  lemma TwoSorted<V>(a: Version<V>, b: Version<V>)
    requires a.source == b.source || Less(a.source, b.source)
    ensures SortedBy(SourceOf<V>(), Less, [a, b])
  {
    LessTotal(a.source, b.source);
  }

  lemma TwoArrangements<T>(a: T, b: T, s: seq<T>)
    requires multiset(s) == multiset([a, b])
    ensures s == [a, b] || s == [b, a]
  {
    assert |s| == |multiset(s)| == 2;
    assert s == [s[0], s[1]];
    assert multiset(s) == multiset{s[0], s[1]};
    assert s[0] in multiset([a, b]) && s[1] in multiset([a, b]);
    assert a in multiset(s) && b in multiset(s);
  }

  /**
   * Exactly when replicas agree.  One source writing two versions with unordered clocks and
   * different values is the failing case, if the draw gives both arrangements the same place.
   */
  lemma UnambiguousExactly<V(!new)>(env: Env<V>, a: Version<V>, b: Version<V>, context: Bytes)
    requires a.key == b.key
    ensures Unambiguous(env, a, b, context) <==>
      || a.source != b.source
      || Verdict(Known(a.clock), Known(b.clock)) in {Before, After}
      || a.value == b.value
      || Draw(env, context, [a, b]) != Draw(env, context, [b, a])
  {
    if a.source != b.source || Verdict(Known(a.clock), Known(b.clock)) in {Before, After} {
      forall r, r' | Resolved(env, a, b, context, r) && Resolved(env, b, a, context, r') ensures r == r' {
        ResolutionSymmetric(env, a, b, context, r, r');
      }
    } else {
      SameSourceUnambiguous(env, a, b, context);
    }
  }

  lemma SameSourceUnambiguous<V(!new)>(env: Env<V>, a: Version<V>, b: Version<V>, context: Bytes)
    requires a.key == b.key && a.source == b.source
    requires Verdict(Known(a.clock), Known(b.clock)) in {Equal, Concurrent}
    ensures Unambiguous(env, a, b, context) <==>
      a.value == b.value || Draw(env, context, [a, b]) != Draw(env, context, [b, a])
  {
    VerdictLaws(Known(a.clock), Known(b.clock));
    if Draw(env, context, [a, b]) == Draw(env, context, [b, a]) && a.value != b.value {
      SamePlaceDiffers(env, a, b, context);
    } else {
      forall r, r' | Resolved(env, a, b, context, r) && Resolved(env, b, a, context, r') ensures r == r' {
        OtherPlaceAgrees(env, a, b, context, r, r');
      }
    }
  }

  lemma SamePlaceDiffers<V(!new)>(env: Env<V>, a: Version<V>, b: Version<V>, context: Bytes)
    requires a.key == b.key && a.source == b.source && a.value != b.value
    requires Verdict(Known(a.clock), Known(b.clock)) in {Equal, Concurrent}
    requires Verdict(Known(b.clock), Known(a.clock)) in {Equal, Concurrent}
    requires Draw(env, context, [a, b]) == Draw(env, context, [b, a])
    ensures !Unambiguous(env, a, b, context)
  {
    var i := Draw(env, context, [a, b]);
    PlaceWins(env, a, b, context, i);
    PlaceWins(env, b, a, context, i);
    WinnersDiffer(env, a, b, context, if i == 0 then a else b, if i == 0 then b else a);
  }

  lemma PlaceWins<V(!new)>(env: Env<V>, a: Version<V>, b: Version<V>, context: Bytes, i: nat)
    requires a.source == b.source && i == Draw(env, context, [a, b])
    ensures i < 2 && IsWinner(env, [a, b], context, if i == 0 then a else b)
  {
    EitherWins(env, a, b, context);
  }

  lemma WinnersDiffer<V(!new)>(env: Env<V>, a: Version<V>, b: Version<V>, context: Bytes, w: Version<V>, w': Version<V>)
    requires a.key == b.key && w.value != w'.value
    requires Verdict(Known(a.clock), Known(b.clock)) in {Equal, Concurrent}
    requires Verdict(Known(b.clock), Known(a.clock)) in {Equal, Concurrent}
    requires IsWinner(env, [a, b], context, w) && IsWinner(env, [b, a], context, w')
    ensures !Unambiguous(env, a, b, context)
  {
    WinnerResolves(env, a, b, context, w);
    WinnerResolves(env, b, a, context, w');
    assert Merged(w, a, b).value != Merged(w', b, a).value;
  }

  lemma WinnerResolves<V(!new)>(env: Env<V>, a: Version<V>, b: Version<V>, context: Bytes, w: Version<V>)
    requires a.key == b.key && Verdict(Known(a.clock), Known(b.clock)) in {Equal, Concurrent}
    requires IsWinner(env, [a, b], context, w)
    ensures Resolved(env, a, b, context, Merged(w, a, b))
  {
    assert Picked(env, a, b, context, w);
  }

  lemma OtherPlaceAgrees<V(!new)>(env: Env<V>, a: Version<V>, b: Version<V>, context: Bytes, r: Version<V>, r': Version<V>)
    requires a.key == b.key && a.source == b.source
    requires Verdict(Known(a.clock), Known(b.clock)) in {Equal, Concurrent}
    requires Verdict(Known(b.clock), Known(a.clock)) in {Equal, Concurrent}
    requires a.value == b.value || Draw(env, context, [a, b]) != Draw(env, context, [b, a])
    requires Resolved(env, a, b, context, r) && Resolved(env, b, a, context, r')
    ensures r == r'
  {
    var w: Version<V> :| Picked(env, a, b, context, w) && r == Merged(w, a, b);
    var w': Version<V> :| Picked(env, b, a, context, w') && r' == Merged(w', b, a);
    SameContent(env, a, b, context, w, w');
    JoinAlgebra(Known(a.clock), Known(b.clock), map[]);
  }

  lemma SameContent<V(!new)>(env: Env<V>, a: Version<V>, b: Version<V>, context: Bytes, w: Version<V>, w': Version<V>)
    requires a.key == b.key && a.source == b.source
    requires a.value == b.value || Draw(env, context, [a, b]) != Draw(env, context, [b, a])
    requires IsWinner(env, [a, b], context, w) && IsWinner(env, [b, a], context, w')
    ensures w.key == w'.key && w.value == w'.value && w.source == w'.source
  {
    SameSourceWinners(env, a, b, context, w);
    SameSourceWinners(env, b, a, context, w');
  }

  // ---------------------------------------------------------------- many versions

  /** The join of the first k clocks. */
  function JoinAll<V>(vs: seq<Version<V>>, k: nat): Clock<uint64>
    requires k <= |vs|
  {
    if k == 0 then map[] else Join(JoinAll(vs, k - 1), Known(vs[k - 1].clock))
  }

  /** A replica starts from the first version and resolves each further one against what it holds. */
  ghost predicate Folds<V(!new)>(env: Env<V>, vs: seq<Version<V>>, contexts: seq<Bytes>, held: seq<Version<V>>) {
    && vs != [] && |held| == |vs| && |contexts| == |vs| - 1
    && held[0] == vs[0]
    && forall i :: 0 <= i < |vs| - 1 ==> Resolved(env, held[i], vs[i + 1], contexts[i], held[i + 1])
  }

  ghost predicate SameKey<V>(vs: seq<Version<V>>) {
    forall i, j :: 0 <= i < |vs| && 0 <= j < |vs| ==> vs[i].key == vs[j].key
  }

  function Final<V>(held: seq<Version<V>>): Version<V>
    requires held != []
  {
    held[|held| - 1]
  }

  lemma {:induction false} JoinAllAbove<V>(vs: seq<Version<V>>, k: nat, i: nat)
    requires i < k <= |vs|
    ensures Leq(Known(vs[i].clock), JoinAll(vs, k))
  {
    var before, last := JoinAll(vs, k - 1), Known(vs[k - 1].clock);
    JoinIsLeastUpperBound(before, last, JoinAll(vs, k));
    if i < k - 1 {
      JoinAllAbove(vs, k - 1, i);
      LeqPartialOrder(Known(vs[i].clock), before, JoinAll(vs, k));
    }
  }

  lemma {:induction false} JoinAllLeast<V>(vs: seq<Version<V>>, k: nat, c: Clock<uint64>)
    requires k <= |vs| && forall i :: 0 <= i < k ==> Leq(Known(vs[i].clock), c)
    ensures Leq(JoinAll(vs, k), c)
  {
    if k > 0 {
      JoinAllLeast(vs, k - 1, c);
      JoinIsLeastUpperBound(JoinAll(vs, k - 1), Known(vs[k - 1].clock), c);
    }
  }

  lemma MemberBelowJoin<V>(vs: seq<Version<V>>, i: nat)
    requires i < |vs|
    ensures Leq(Known(vs[i].clock), JoinAll(vs, |vs|))
  {
    JoinAllAbove(vs, |vs|, i);
  }

  lemma JoinAllBelow<V>(vs: seq<Version<V>>, ws: seq<Version<V>>)
    requires multiset(vs) == multiset(ws)
    ensures Leq(JoinAll(vs, |vs|), JoinAll(ws, |ws|))
  {
    forall i | 0 <= i < |vs| ensures Leq(Known(vs[i].clock), JoinAll(ws, |ws|)) {
      var j := MultisetMember(vs, ws, i);
      MemberBelowJoin(ws, j);
    }
    JoinAllLeast(vs, |vs|, JoinAll(ws, |ws|));
  }

  lemma JoinAllOrderIndependent<V>(vs: seq<Version<V>>, ws: seq<Version<V>>)
    requires multiset(vs) == multiset(ws)
    ensures JoinAll(vs, |vs|) == JoinAll(ws, |ws|)
  {
    JoinAllBelow(vs, ws);
    JoinAllBelow(ws, vs);
    LeqPartialOrder(JoinAll(vs, |vs|), JoinAll(ws, |ws|), map[]);
  }

  lemma {:induction false} HeldSoFar<V(!new)>(env: Env<V>, vs: seq<Version<V>>, contexts: seq<Bytes>, held: seq<Version<V>>, k: nat)
    requires Folds(env, vs, contexts, held) && SameKey(vs) && k < |vs|
    ensures held[k].key == vs[0].key && Known(held[k].clock) == JoinAll(vs, k + 1)
    ensures exists i :: 0 <= i <= k && held[k].value == vs[i].value && held[k].source == vs[i].source
  {
    if k == 0 {
      assert Join(map[], Known(vs[0].clock)) == Known(vs[0].clock);
      assert JoinAll(vs, 1) == Join(JoinAll(vs, 0), Known(vs[0].clock));
    } else {
      HeldSoFar(env, vs, contexts, held, k - 1);
      assert Resolved(env, held[k - 1], vs[k], contexts[k - 1], held[k]);
      ResolvedKeepsHistory(env, held[k - 1], vs[k], contexts[k - 1], held[k]);
    }
  }

  /**
   * In any order and whatever the draws: the final clock is the join of all clocks, and the final
   * content is that of one of the versions.
   */
  lemma ReplicasConverge<V(!new)>(env: Env<V>, vs: seq<Version<V>>, ws: seq<Version<V>>,
                                  cs: seq<Bytes>, ds: seq<Bytes>, held: seq<Version<V>>, kept: seq<Version<V>>)
    requires multiset(vs) == multiset(ws) && SameKey(vs) && SameKey(ws)
    requires Folds(env, vs, cs, held) && Folds(env, ws, ds, kept)
    ensures Known(Final(held).clock) == Known(Final(kept).clock) == JoinAll(vs, |vs|)
    ensures exists i :: 0 <= i < |vs| && Final(held).value == vs[i].value && Final(held).source == vs[i].source
  {
    HeldSoFar(env, vs, cs, held, |vs| - 1);
    HeldSoFar(env, ws, ds, kept, |ws| - 1);
    JoinAllOrderIndependent(vs, ws);
  }

  /** What all versions but the j-th know together. */
  function KnownByOthers<V>(vs: seq<Version<V>>, j: nat): Clock<uint64>
    requires j < |vs|
  {
    JoinAll(Without(vs, j), |vs| - 1)
  }

  /** Version j is strictly later than everything the other versions know together. */
  ghost predicate Latest<V>(vs: seq<Version<V>>, j: nat)
    requires j < |vs|
  {
    Verdict(KnownByOthers(vs, j), Known(vs[j].clock)) == Before
  }

  lemma OtherBelowLatest<V>(vs: seq<Version<V>>, j: nat, i: nat)
    requires j < |vs| && i < |vs| && i != j
    ensures Leq(Known(vs[i].clock), KnownByOthers(vs, j))
  {
    var k := WithoutIndex(vs, j, i);
    MemberBelowJoin(Without(vs, j), k);
  }

  lemma WithoutIndex<T>(s: seq<T>, j: nat, i: nat) returns (k: nat)
    requires j < |s| && i < |s| && i != j
    ensures k < |Without(s, j)| == |s| - 1 && Without(s, j)[k] == s[i]
  {
    k := if i < j then i else i - 1;
  }

  /** Below the others' join is strictly before the latest. */
  lemma StrictlyBefore<V>(vs: seq<Version<V>>, j: nat, c: Clock<uint64>)
    requires j < |vs| && Latest(vs, j)
    requires Leq(c, KnownByOthers(vs, j))
    ensures Verdict(c, Known(vs[j].clock)) == Before && Verdict(Known(vs[j].clock), c) == After
    ensures Join(c, Known(vs[j].clock)) == Join(Known(vs[j].clock), c) == Known(vs[j].clock)
  {
    var b, w := KnownByOthers(vs, j), Known(vs[j].clock);
    LeqPartialOrder(c, b, w);
    LeqPartialOrder(w, c, b);
    VerdictLaws(c, w);
    JoinAlgebra(c, w, c);
  }

  ghost predicate HoldsContent<V>(held: Version<V>, v: Version<V>) {
    held.key == v.key && held.value == v.value && held.source == v.source && Known(held.clock) == Known(v.clock)
  }

  /** What came before the latest version lies strictly below it. */
  lemma EarlierBelowLatest<V>(vs: seq<Version<V>>, j: nat)
    requires j < |vs| && Latest(vs, j)
    ensures Leq(JoinAll(vs, j), KnownByOthers(vs, j))
  {
    forall i | 0 <= i < j ensures Leq(Known(vs[i].clock), KnownByOthers(vs, j)) {
      OtherBelowLatest(vs, j, i);
    }
    JoinAllLeast(vs, j, KnownByOthers(vs, j));
  }

  lemma LaterSurvives<V(!new)>(env: Env<V>, a: Version<V>, b: Version<V>, context: Bytes, r: Version<V>)
    requires a.key == b.key && Resolved(env, a, b, context, r)
    ensures Verdict(Known(a.clock), Known(b.clock)) == Before ==> HoldsContent(r, b)
    ensures Verdict(Known(a.clock), Known(b.clock)) == After ==> HoldsContent(r, a)
  {
    JoinAlgebra(Known(a.clock), Known(b.clock), map[]);
    JoinAlgebra(Known(b.clock), Known(a.clock), map[]);
    VerdictLaws(Known(a.clock), Known(b.clock));
  }

  /** The latest version takes over from whatever came before it. */
  lemma LatestTakesOver<V(!new)>(env: Env<V>, vs: seq<Version<V>>, j: nat, a: Version<V>, context: Bytes, r: Version<V>)
    requires j < |vs| && Latest(vs, j) && a.key == vs[j].key && Known(a.clock) == JoinAll(vs, j)
    requires Resolved(env, a, vs[j], context, r)
    ensures HoldsContent(r, vs[j])
  {
    EarlierBelowLatest(vs, j);
    StrictlyBefore(vs, j, JoinAll(vs, j));
    LaterSurvives(env, a, vs[j], context, r);
  }

  /** And no other version takes over from it. */
  lemma LatestStays<V(!new)>(env: Env<V>, vs: seq<Version<V>>, j: nat, k: nat, a: Version<V>, context: Bytes, r: Version<V>)
    requires j < |vs| && k < |vs| && j != k && Latest(vs, j) && vs[k].key == vs[j].key
    requires HoldsContent(a, vs[j]) && Resolved(env, a, vs[k], context, r)
    ensures HoldsContent(r, vs[j])
  {
    OtherBelowLatest(vs, j, k);
    StrictlyBefore(vs, j, Known(vs[k].clock));
    LaterSurvives(env, a, vs[k], context, r);
  }

  lemma {:induction false} LatestHeld<V(!new)>(env: Env<V>, vs: seq<Version<V>>, contexts: seq<Bytes>, held: seq<Version<V>>, j: nat, k: nat)
    requires Folds(env, vs, contexts, held) && SameKey(vs)
    requires j <= k < |vs| && Latest(vs, j)
    ensures HoldsContent(held[k], vs[j])
  {
    if k > 0 {
      HeldSoFar(env, vs, contexts, held, k - 1);
      assert Resolved(env, held[k - 1], vs[k], contexts[k - 1], held[k]);
      if k == j {
        LatestTakesOver(env, vs, j, held[k - 1], contexts[k - 1], held[k]);
      } else {
        LatestHeld(env, vs, contexts, held, j, k - 1);
        LatestStays(env, vs, j, k, held[k - 1], contexts[k - 1], held[k]);
      }
    }
  }

  /** The causally latest version wins in every order, with its own clock and without any draw deciding it. */
  lemma LatestWins<V(!new)>(env: Env<V>, vs: seq<Version<V>>, contexts: seq<Bytes>, held: seq<Version<V>>, j: nat)
    requires Folds(env, vs, contexts, held) && SameKey(vs)
    requires j < |vs| && Latest(vs, j)
    ensures HoldsContent(Final(held), vs[j])
  {
    LatestHeld(env, vs, contexts, held, j, |vs| - 1);
  }

  lemma {:induction false} JoinAllPrefix<V>(vs: seq<Version<V>>, ws: seq<Version<V>>, k: nat)
    requires k <= |vs| && k <= |ws| && forall i :: 0 <= i < k ==> vs[i] == ws[i]
    ensures JoinAll(vs, k) == JoinAll(ws, k)
  {
    if k > 0 {
      JoinAllPrefix(vs, ws, k - 1);
    }
  }

  /** A version that comes last is taken without a draw exactly if it is the causally latest. */
  lemma LastTakenExactly<V(!new)>(env: Env<V>, vs: seq<Version<V>>, contexts: seq<Bytes>, held: seq<Version<V>>)
    requires Folds(env, vs, contexts, held) && SameKey(vs) && |vs| > 1
    ensures Verdict(Known(held[|vs| - 2].clock), Known(vs[|vs| - 1].clock)) == Before <==> Latest(vs, |vs| - 1)
  {
    var k := |vs| - 1;
    HeldSoFar(env, vs, contexts, held, k - 1);
    JoinAllPrefix(vs, Without(vs, k), k);
  }

  /**
   * Strictly above each other version is not enough: when the others together know as much as j
   * does and come first, version j meets an equal clock and is left to the draw.
   */
  lemma TieGoesToDraw<V(!new)>(env: Env<V>, vs: seq<Version<V>>, contexts: seq<Bytes>, held: seq<Version<V>>)
    returns (w: Version<V>)
    requires Folds(env, vs, contexts, held) && SameKey(vs) && |vs| > 1
    requires JoinAll(vs, |vs| - 1) == Known(vs[|vs| - 1].clock)
    ensures Drawn(env, held[|vs| - 2], vs[|vs| - 1], contexts[|vs| - 2], w, Final(held))
  {
    var k := |vs| - 1;
    HeldSoFar(env, vs, contexts, held, k - 1);
    assert Resolved(env, held[k - 1], vs[k], contexts[k - 1], held[k]);
    VerdictLaws(Known(held[k - 1].clock), Known(vs[k].clock));
    w :| Picked(env, held[k - 1], vs[k], contexts[k - 1], w) && held[k] == Merged(w, held[k - 1], vs[k]);
  }

  /** And it loses if the draw over the two, put in order of their sources, falls on the other one. */
  lemma TiedVersionMayLose<V(!new)>(env: Env<V>, vs: seq<Version<V>>, contexts: seq<Bytes>, held: seq<Version<V>>)
    requires Folds(env, vs, contexts, held) && SameKey(vs) && |vs| > 1
    requires JoinAll(vs, |vs| - 1) == Known(vs[|vs| - 1].clock)
    requires held[|vs| - 2].source != vs[|vs| - 1].source
    ensures
      var inOrder := InOrder(held[|vs| - 2], vs[|vs| - 1]);
      var w := inOrder[Draw(env, contexts[|vs| - 2], inOrder)];
      Final(held).value == w.value && Final(held).source == w.source
  {
    var w := TieGoesToDraw(env, vs, contexts, held);
    InOrderWinner(env, held[|vs| - 2], vs[|vs| - 1], contexts[|vs| - 2], w);
  }

  /** The two versions by source. */
  function InOrder<V>(a: Version<V>, b: Version<V>): (s: seq<Version<V>>)
    ensures |s| == 2
  {
    if Less(b.source, a.source) then [b, a] else [a, b]
  }

  lemma InOrderWins<V(!new)>(env: Env<V>, a: Version<V>, b: Version<V>, context: Bytes)
    requires a.source != b.source
    ensures IsWinner(env, [a, b], context, InOrder(a, b)[Draw(env, context, InOrder(a, b))])
  {
    LessTotal(a.source, b.source);
    assert multiset([a, b]) == multiset([b, a]);
    var s := InOrder(a, b);
    TwoSorted(s[0], s[1]);
    SortedWins(env, [a, b], s, context);
  }

  /** With different sources, the draw over the two in order names the one winner. */
  lemma InOrderWinner<V(!new)>(env: Env<V>, a: Version<V>, b: Version<V>, context: Bytes, w: Version<V>)
    requires a.source != b.source
    ensures IsWinner(env, [a, b], context, w) <==> w == InOrder(a, b)[Draw(env, context, InOrder(a, b))]
  {
    var s := InOrder(a, b);
    InOrderWins(env, a, b, context);
    if IsWinner(env, [a, b], context, w) {
      WinnerOrderIndependent(env, [a, b], [a, b], context, w, s[Draw(env, context, s)]);
    }
  }

  // ---------------------------------------------------------------- the resolver

  method DetectCausalConflict<V>(v1: StateVersion<V>, v2: StateVersion<V>) returns (conflict: bool)
    ensures conflict <==> Verdict(Known(View(v1).clock), Known(View(v2).clock)) == Concurrent
  {
    var comparison := VectorClock.Compare(v1.clock, v2.clock);
    conflict := comparison == 2;
  }

  /**
   * Sorts the caller's slice in place, hashes it, and picks by the hash.  Clocks are only read here,
   * so they are passed by value.
   */
  method ResolveConflictVRF<V(!new)>(env: Env<V>, conflicting: array<Version<V>>, context: Bytes)
    returns (winner: Result<Version<V>>)
    modifies conflicting
    ensures winner.Err? <==> conflicting.Length == 0
    ensures multiset(conflicting[..]) == multiset(old(conflicting[..]))
    ensures conflicting.Length > 1 ==> SortedBy(SourceOf<V>(), Less, conflicting[..])
    ensures winner.Ok? ==> IsWinner(env, old(conflicting[..]), context, winner.value)
  {
    if conflicting.Length == 0 {
      return Err("no conflicting versions provided");
    }
    if conflicting.Length == 1 {
      return Ok(conflicting[0]);
    }
    LessIsTotal();
    SortSlice(conflicting, SourceOf<V>(), Less);
    var written := context;
    for i := 0 to conflicting.Length
      invariant written == DrawInput(env, context, conflicting[..], i)
    {
      var v := conflicting[i];
      written := written + Fingerprint(env, v);
    }
    var vrfInput := env.hash(written);
    var randomValue := BigEndian(env.hash(vrfInput));
    var winnerIndex := randomValue % conflicting.Length;
    assert winnerIndex == Draw(env, context, conflicting[..]);
    return Ok(conflicting[winnerIndex]);
  }

  /** A new clock joining the two, nil counting as empty. */
  method MergedClock(first: VectorClock?, second: VectorClock?) returns (merged: VectorClock)
    ensures fresh(merged) && merged.entries == Join(Read(first), Read(second))
  {
    merged := VectorClock.Copy(first);
    VectorClock.Merge(merged, second);
  }

  method DrawBetween<V(!new)>(env: Env<V>, local: Version<V>, remote: Version<V>, context: Bytes)
    returns (winner: Version<V>)
    ensures IsWinner(env, [local, remote], context, winner)
  {
    var conflicting := new Version<V>[2](i => if i == 0 then local else remote);
    assert conflicting[..] == [local, remote];
    var resolved := ResolveConflictVRF(env, conflicting, context);
    winner := resolved.value;
  }

  /** Neither input clock is written: the result carries a clock of its own. */
  method HandlePotentialConflict<V(!new)>(env: Env<V>, local: StateVersion<V>, remote: StateVersion<V>, context: Bytes)
    returns (result: StateVersion<V>)
    ensures Resolved(env, View(local), View(remote), context, View(result))
    ensures local.key != remote.key ==> result == local
    ensures local.key == remote.key ==> result.clock != null && fresh(result.clock)
  {
    if local.key != remote.key {
      return local;
    }
    ghost var a, b := View(local), View(remote);
    var isConflict := DetectCausalConflict(local, remote);
    var comparison := VectorClock.Compare(local.clock, remote.clock);
    var mergedClock: VectorClock;
    if !isConflict {
      if comparison == -1 {
        mergedClock := MergedClock(remote.clock, local.clock);
        JoinAlgebra(Known(b.clock), Known(a.clock), map[]);
        result := remote.(clock := mergedClock);
        assert Picked(env, a, b, context, b) && View(result) == Merged(b, a, b);
        return;
      } else if comparison == 1 {
        mergedClock := MergedClock(local.clock, remote.clock);
        result := local.(clock := mergedClock);
        assert Picked(env, a, b, context, a) && View(result) == Merged(a, a, b);
        return;
      } else if comparison == 0 {
        isConflict := true;
      }
    }
    assert isConflict;
    var w := DrawBetween(env, View(local), View(remote), context);
    mergedClock := MergedClock(local.clock, remote.clock);
    result := StateVersion(w.key, w.value, mergedClock, w.source);
    assert Picked(env, a, b, context, w) && View(result) == Merged(w, a, b);
  }
}
