/** What a draw between versions hashes, byte for byte, and that every part of it counts. */
module Draws {
  import opened Basics
  import opened Order
  import opened ClockLattice
  import opened Conflict

  /** What one version contributes; a nil clock drops the source along with the clock. */
  function Contribution<V>(env: Env<V>, v: Version<V>): Bytes {
    if v.clock.None? then v.key + env.render(v.value)
    else v.key + env.render(v.value) + env.serialize(v.clock.value) + v.source
  }

  /** The context and then the versions, from the first to the last. */
  function Written<V>(env: Env<V>, context: Bytes, vs: seq<Version<V>>): Bytes
    decreases |vs|
  {
    if vs == [] then context else Written(env, context + Contribution(env, vs[0]), vs[1..])
  }

  lemma {:induction false} WrittenOn<V>(env: Env<V>, context: Bytes, vs: seq<Version<V>>, v: Version<V>)
    ensures Written(env, context, vs + [v]) == Written(env, context, vs) + Contribution(env, v)
    decreases |vs|
  {
    if vs == [] {
      assert ([] + [v])[1..] == [];
    } else {
      assert (vs + [v])[1..] == vs[1..] + [v];
      WrittenOn(env, context + Contribution(env, vs[0]), vs[1..], v);
    }
  }

  lemma SameContribution<V>(env: Env<V>, v: Version<V>)
    ensures Fingerprint(env, v) == Contribution(env, v)
  {
  }

  lemma {:induction false} InputWritten<V>(env: Env<V>, context: Bytes, vs: seq<Version<V>>, k: nat)
    requires k <= |vs|
    ensures DrawInput(env, context, vs, k) == Written(env, context, vs[..k])
  {
    if k > 0 {
      var v := vs[k - 1];
      InputWritten(env, context, vs, k - 1);
      assert vs[..k] == vs[..k - 1] + [v];
      WrittenOn(env, context, vs[..k - 1], v);
      SameContribution(env, v);
    }
  }

  /** The place drawn among any number of versions. */
  lemma DrawWritten<V>(env: Env<V>, context: Bytes, vs: seq<Version<V>>)
    requires vs != []
    ensures Draw(env, context, vs) == BigEndian(env.hash(env.hash(Written(env, context, vs)))) % |vs|
  {
    InputWritten(env, context, vs, |vs|);
    assert vs[..|vs|] == vs;
  }

  /** Between two versions from different sources: the smaller source comes first, and the parity of the double hash decides. */
  lemma WinnerWritten<V(!new)>(env: Env<V>, a: Version<V>, b: Version<V>, context: Bytes, w: Version<V>)
    requires a.clock.Some? && b.clock.Some? && Less(a.source, b.source)
    ensures
      var x := context + a.key + env.render(a.value) + env.serialize(a.clock.value) + a.source
        + b.key + env.render(b.value) + env.serialize(b.clock.value) + b.source;
      IsWinner(env, [a, b], context, w) <==> w == if BigEndian(env.hash(env.hash(x))) % 2 == 0 then a else b
  {
    LessTotal(a.source, b.source);
    InOrderWinner(env, a, b, context, w);
    DrawWritten(env, context, [a, b]);
    TwoWritten(env, context, a, b);
    Regrouped(context, a.key, env.render(a.value), env.serialize(a.clock.value), a.source,
              b.key, env.render(b.value), env.serialize(b.clock.value), b.source);
  }

  lemma TwoWritten<V>(env: Env<V>, context: Bytes, a: Version<V>, b: Version<V>)
    ensures Written(env, context, [a, b]) == context + Contribution(env, a) + Contribution(env, b)
  {
    WrittenOn(env, context, [a], b);
    assert [a] + [b] == [a, b];
    WrittenOn(env, context, [], a);
    assert [] + [a] == [a];
  }

  lemma Regrouped(c: Bytes, k: Bytes, v: Bytes, t: Bytes, s: Bytes, k': Bytes, v': Bytes, t': Bytes, s': Bytes)
    ensures c + (k + v + t + s) + (k' + v' + t' + s') == c + k + v + t + s + k' + v' + t' + s'
  {
  }

  // ---------------------------------------------------------------- every part counts

  /** Two versions whose parts have the same lengths. */
  ghost predicate SameLengths<V>(env: Env<V>, v: Version<V>, w: Version<V>) {
    && v.clock.Some? && w.clock.Some? && |v.key| == |w.key| && |env.render(v.value)| == |env.render(w.value)|
    && |env.serialize(v.clock.value)| == |env.serialize(w.clock.value)| && |v.source| == |w.source|
  }

  ghost predicate SameParts<V>(env: Env<V>, v: Version<V>, w: Version<V>) {
    && v.clock.Some? && w.clock.Some? && v.key == w.key && env.render(v.value) == env.render(w.value)
    && env.serialize(v.clock.value) == env.serialize(w.clock.value) && v.source == w.source
  }

  ghost predicate SameShape<V>(env: Env<V>, vs: seq<Version<V>>, ws: seq<Version<V>>) {
    |vs| == |ws| && forall i :: 0 <= i < |vs| ==> SameLengths(env, vs[i], ws[i])
  }

  lemma PartsSeparate(k: Bytes, v: Bytes, t: Bytes, s: Bytes, k': Bytes, v': Bytes, t': Bytes, s': Bytes)
    requires |k| == |k'| && |v| == |v'| && |t| == |t'| && |s| == |s'|
    requires k + v + t + s == k' + v' + t' + s'
    ensures k == k' && v == v' && t == t' && s == s'
  {
    TailsSeparate(k + v + t, s, k' + v' + t', s');
    TailsSeparate(k + v, t, k' + v', t');
    TailsSeparate(k, v, k', v');
  }

  lemma TailsSeparate(a: Bytes, b: Bytes, a': Bytes, b': Bytes)
    requires |b| == |b'| && a + b == a' + b'
    ensures a == a' && b == b'
  {
    assert |a + b| == |a' + b'|;
    assert a == (a + b)[..|a|] && a' == (a' + b')[..|a'|];
    assert b == (a + b)[|a|..] && b' == (a' + b')[|a'|..];
  }

  lemma {:induction false} InputSeparates<V>(env: Env<V>, context: Bytes, vs: seq<Version<V>>, ws: seq<Version<V>>, k: nat, i: nat)
    requires SameShape(env, vs, ws) && i < k <= |vs|
    requires DrawInput(env, context, vs, k) == DrawInput(env, context, ws, k)
    ensures SameParts(env, vs[i], ws[i])
  {
    LastSeparates(env, DrawInput(env, context, vs, k - 1), vs[k - 1], DrawInput(env, context, ws, k - 1), ws[k - 1]);
    if i < k - 1 {
      InputSeparates(env, context, vs, ws, k - 1, i);
    }
  }

  lemma LastSeparates<V>(env: Env<V>, x: Bytes, v: Version<V>, y: Bytes, w: Version<V>)
    requires SameLengths(env, v, w) && x + Fingerprint(env, v) == y + Fingerprint(env, w)
    ensures x == y && SameParts(env, v, w)
  {
    SameContribution(env, v);
    SameContribution(env, w);
    TailsSeparate(x, Contribution(env, v), y, Contribution(env, w));
    PartsSeparate(v.key, env.render(v.value), env.serialize(v.clock.value), v.source,
                  w.key, env.render(w.value), env.serialize(w.clock.value), w.source);
  }

  function Zeros(n: nat): (s: Bytes)
    ensures |s| == n && forall i :: 0 <= i < n ==> s[i] == 0
  {
    if n == 0 then [] else Zeros(n - 1) + [0]
  }

  lemma {:induction false} ZerosAreZero(n: nat)
    ensures BigEndian(Zeros(n)) == 0
  {
    if n > 0 {
      ZerosAreZero(n - 1);
      assert Zeros(n)[..n - 1] == Zeros(n - 1);
    }
  }

  const LOW: Digest := Zeros(32)
  const ONE: Digest := Zeros(31) + [1]

  lemma LowAndOne()
    ensures BigEndian(LOW) == 0 && BigEndian(ONE) == 1 && LOW != ONE
  {
    ZerosAreZero(32);
    ZerosAreZero(31);
    assert ONE[..31] == Zeros(31);
    assert Zeros(32)[31] == 0;
  }

  /** A hash that tells x, and only x, apart. */
  function Telling(x: Bytes): Hash {
    y => if y == x || y == ONE then ONE else LOW
  }

  /** Some hash gives the numbers 1 and 0 to the double hashes of two different inputs. */
  lemma SomeHashTells(x: Bytes, y: Bytes) returns (h: Hash)
    requires x != y
    ensures {BigEndian(h(h(x))), BigEndian(h(h(y)))} == {0, 1}
  {
    LowAndOne();
    h := Telling(if x == LOW || y == ONE then y else x);
    assert h(ONE) == ONE && h(LOW) == LOW;
  }

  /**
   * Lists of one shape that differ in a key, a rendered value, a clock's encoding or a source draw
   * different places under some hash.
   */
  lemma EveryPartCounts<V>(env: Env<V>, context: Bytes, vs: seq<Version<V>>, ws: seq<Version<V>>, i: nat) returns (h: Hash)
    requires SameShape(env, vs, ws) && |vs| > 1 && i < |vs| && !SameParts(env, vs[i], ws[i])
    ensures Draw(env.(hash := h), context, vs) != Draw(env.(hash := h), context, ws)
  {
    var x, y := Written(env, context, vs), Written(env, context, ws);
    InputWritten(env, context, vs, |vs|);
    InputWritten(env, context, ws, |ws|);
    assert vs[..|vs|] == vs && ws[..|ws|] == ws;
    if x == y {
      InputSeparates(env, context, vs, ws, |vs|, i);
    }
    h := SomeHashTells(x, y);
    DrawWritten(env.(hash := h), context, vs);
    DrawWritten(env.(hash := h), context, ws);
    SameWriting(env, h, context, vs);
    SameWriting(env, h, context, ws);
    SmallModulo(|vs|);
  }

  lemma SmallModulo(n: nat)
    requires n > 1
    ensures 0 % n == 0 && 1 % n == 1
  {
  }

  /** What is hashed does not depend on the hash. */
  lemma {:induction false} SameWriting<V>(env: Env<V>, h: Hash, context: Bytes, vs: seq<Version<V>>)
    ensures Written(env.(hash := h), context, vs) == Written(env, context, vs)
    decreases |vs|
  {
    if vs != [] {
      assert Contribution(env.(hash := h), vs[0]) == Contribution(env, vs[0]);
      SameWriting(env, h, context + Contribution(env, vs[0]), vs[1..]);
    }
  }
}
