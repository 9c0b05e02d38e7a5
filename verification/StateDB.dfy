/** The in-memory state store of a shard and its root. */
module StateStore {
  import opened Basics
  import opened Order

  /** The bytes hashed for a root: each of the first k keys followed by its value, with nothing between. */
  function Image(data: map<Bytes, Bytes>, keys: seq<Bytes>, k: nat): Bytes
    requires k <= |keys| && forall i :: 0 <= i < |keys| ==> keys[i] in data
  {
    if k == 0 then [] else Image(data, keys, k - 1) + keys[k - 1] + data[keys[k - 1]]
  }

  /** The root of a state, whatever order its map is iterated in. */
  ghost predicate IsStateRoot(h: Hash, data: map<Bytes, Bytes>, root: Digest) {
    exists keys: seq<Bytes> :: Enumerates(keys, data.Keys) && root == h(Image(data, keys, |keys|))
  }

  /** A state has one root only: nothing of the put and delete history or the map order is left in it. */
  lemma StateRootUnique(h: Hash, data: map<Bytes, Bytes>, r1: Digest, r2: Digest)
    requires IsStateRoot(h, data, r1) && IsStateRoot(h, data, r2)
    ensures r1 == r2
  {
    var k1: seq<Bytes> :| Enumerates(k1, data.Keys) && r1 == h(Image(data, k1, |k1|));
    var k2: seq<Bytes> :| Enumerates(k2, data.Keys) && r2 == h(Image(data, k2, |k2|));
    EnumerationUnique(k1, k2, data.Keys);
  }

  lemma RootIs(h: Hash, data: map<Bytes, Bytes>, keys: seq<Bytes>, root: Digest)
    requires Enumerates(keys, data.Keys) && IsStateRoot(h, data, root)
    ensures root == h(Image(data, keys, |keys|))
  {
    StateRootUnique(h, data, root, h(Image(data, keys, |keys|)));
  }

  /** Roots are equal exactly when the sorted entries, written one after the other, are, up to a collision. */
  lemma RootsEqualExactly(h: Hash, d1: map<Bytes, Bytes>, k1: seq<Bytes>, r1: Digest, d2: map<Bytes, Bytes>, k2: seq<Bytes>, r2: Digest)
    requires Enumerates(k1, d1.Keys) && Enumerates(k2, d2.Keys)
    requires IsStateRoot(h, d1, r1) && IsStateRoot(h, d2, r2)
    ensures r1 == r2 <==>
      Image(d1, k1, |k1|) == Image(d2, k2, |k2|) || Collides(h, Image(d1, k1, |k1|), Image(d2, k2, |k2|))
  {
    RootIs(h, d1, k1, r1);
    RootIs(h, d2, k2, r2);
  }

  ghost predicate AllIn(keys: seq<Bytes>, data: map<Bytes, Bytes>) {
    forall i :: 0 <= i < |keys| ==> keys[i] in data
  }

  lemma EnumeratedAllIn(keys: seq<Bytes>, data: map<Bytes, Bytes>)
    requires Enumerates(keys, data.Keys)
    ensures AllIn(keys, data)
  {
  }

  /** As many keys, and key by key in order as long keys and as long values. */
  ghost predicate SameShape(d1: map<Bytes, Bytes>, k1: seq<Bytes>, d2: map<Bytes, Bytes>, k2: seq<Bytes>)
    requires AllIn(k1, d1) && AllIn(k2, d2)
  {
    |k1| == |k2| && forall i :: 0 <= i < |k1| ==> |k1[i]| == |k2[i]| && |d1[k1[i]]| == |d2[k2[i]]|
  }

  lemma SplitEntry(x: Bytes, k: Bytes, v: Bytes, y: Bytes, l: Bytes, u: Bytes)
    requires x + k + v == y + l + u && |k| == |l| && |v| == |u|
    ensures x == y && k == l && v == u
  {
    var s, t := x + k + v, y + l + u;
    assert s[..|x|] == x && s[|x|..|x| + |k|] == k && s[|x| + |k|..] == v;
    assert t[..|y|] == y && t[|y|..|y| + |l|] == l && t[|y| + |l|..] == u;
  }

  ghost predicate SameAt(d1: map<Bytes, Bytes>, k1: seq<Bytes>, d2: map<Bytes, Bytes>, k2: seq<Bytes>, i: nat)
    requires AllIn(k1, d1) && AllIn(k2, d2) && i < |k1| && i < |k2|
  {
    k1[i] == k2[i] && d1[k1[i]] == d2[k2[i]]
  }

  lemma {:induction false} ImageBinds(d1: map<Bytes, Bytes>, k1: seq<Bytes>, d2: map<Bytes, Bytes>, k2: seq<Bytes>, n: nat, i: nat)
    requires AllIn(k1, d1) && AllIn(k2, d2) && SameShape(d1, k1, d2, k2) && i < n <= |k1|
    requires Image(d1, k1, n) == Image(d2, k2, n)
    ensures SameAt(d1, k1, d2, k2, i)
  {
    var k, l := k1[n - 1], k2[n - 1];
    SplitEntry(Image(d1, k1, n - 1), k, d1[k], Image(d2, k2, n - 1), l, d2[l]);
    if i < n - 1 {
      ImageBinds(d1, k1, d2, k2, n - 1, i);
    }
  }

  lemma ShapeBinds(d1: map<Bytes, Bytes>, k1: seq<Bytes>, d2: map<Bytes, Bytes>, k2: seq<Bytes>)
    requires AllIn(k1, d1) && AllIn(k2, d2) && SameShape(d1, k1, d2, k2)
    requires Image(d1, k1, |k1|) == Image(d2, k2, |k2|)
    ensures k1 == k2 && forall i :: 0 <= i < |k1| ==> d1[k1[i]] == d2[k1[i]]
  {
    forall i | 0 <= i < |k1| ensures k1[i] == k2[i] && d1[k1[i]] == d2[k2[i]] {
      ImageBinds(d1, k1, d2, k2, |k1|, i);
    }
  }

  /** States of one shape with one root are the same state, or their entries collide. */
  lemma RootBindsShape(h: Hash, d1: map<Bytes, Bytes>, k1: seq<Bytes>, d2: map<Bytes, Bytes>, k2: seq<Bytes>, root: Digest)
    requires Enumerates(k1, d1.Keys) && Enumerates(k2, d2.Keys)
    requires AllIn(k1, d1) && AllIn(k2, d2) && SameShape(d1, k1, d2, k2)
    requires IsStateRoot(h, d1, root) && IsStateRoot(h, d2, root)
    ensures d1 == d2 || Collides(h, Image(d1, k1, |k1|), Image(d2, k2, |k2|))
  {
    RootsEqualExactly(h, d1, k1, root, d2, k2, root);
    if Image(d1, k1, |k1|) == Image(d2, k2, |k2|) {
      ShapeBinds(d1, k1, d2, k2);
      SameEntries(d1, d2, k1);
    }
  }

  lemma SameEntries(d1: map<Bytes, Bytes>, d2: map<Bytes, Bytes>, keys: seq<Bytes>)
    requires Enumerates(keys, d1.Keys) && Enumerates(keys, d2.Keys)
    requires forall i :: 0 <= i < |keys| ==> d1[keys[i]] == d2[keys[i]]
    ensures d1 == d2
  {
    assert d1.Keys == d2.Keys;
    forall k | k in d1 ensures d1[k] == d2[k] {
      assert k in keys;
      var i :| 0 <= i < |keys| && keys[i] == k;
    }
  }

  /** In particular, updating values in place by values of the same length cannot go unnoticed. */
  lemma RootBindsSameKeys(h: Hash, d1: map<Bytes, Bytes>, d2: map<Bytes, Bytes>, keys: seq<Bytes>, root: Digest)
    requires d1.Keys == d2.Keys && Enumerates(keys, d1.Keys)
    requires forall k :: k in d1 ==> |d1[k]| == |d2[k]|
    requires IsStateRoot(h, d1, root) && IsStateRoot(h, d2, root)
    ensures d1 == d2 || Collides(h, Image(d1, keys, |keys|), Image(d2, keys, |keys|))
  {
    EnumeratedAllIn(keys, d1);
    RootBindsShape(h, d1, keys, d2, keys, root);
  }

  /** Every key has m bytes and every value n. */
  ghost predicate FixedWidth(data: map<Bytes, Bytes>, m: nat, n: nat) {
    forall k :: k in data ==> |k| == m && |data[k]| == n
  }

  lemma OneMore(k: nat, width: nat)
    ensures k * width + width == (k + 1) * width
  {
  }

  lemma {:induction false} ImageLength(data: map<Bytes, Bytes>, keys: seq<Bytes>, m: nat, n: nat, k: nat)
    requires FixedWidth(data, m, n) && k <= |keys| && forall i :: 0 <= i < |keys| ==> keys[i] in data
    ensures |Image(data, keys, k)| == k * (m + n)
  {
    if k > 0 {
      ImageLength(data, keys, m, n, k - 1);
      OneMore(k - 1, m + n);
    }
  }

  lemma MoreIsLonger(a: nat, b: nat, width: nat)
    requires a < b && width > 0
    ensures a * width < b * width
  {
    assert b * width == a * width + (b - a) * width;
  }

  lemma WidthGivesShape(d1: map<Bytes, Bytes>, k1: seq<Bytes>, d2: map<Bytes, Bytes>, k2: seq<Bytes>, m: nat, n: nat)
    requires AllIn(k1, d1) && AllIn(k2, d2)
    requires FixedWidth(d1, m, n) && FixedWidth(d2, m, n) && m + n > 0
    requires Image(d1, k1, |k1|) == Image(d2, k2, |k2|)
    ensures SameShape(d1, k1, d2, k2)
  {
    ImageLength(d1, k1, m, n, |k1|);
    ImageLength(d2, k2, m, n, |k2|);
    if |k1| < |k2| {
      MoreIsLonger(|k1|, |k2|, m + n);
    } else if |k2| < |k1| {
      MoreIsLonger(|k2|, |k1|, m + n);
    }
  }

  /** And on keys and values of fixed widths, not both 0, roots bind states with any keys. */
  lemma RootBindsFixedWidth(h: Hash, d1: map<Bytes, Bytes>, k1: seq<Bytes>, d2: map<Bytes, Bytes>, k2: seq<Bytes>, m: nat, n: nat, root: Digest)
    requires Enumerates(k1, d1.Keys) && Enumerates(k2, d2.Keys)
    requires FixedWidth(d1, m, n) && FixedWidth(d2, m, n) && m + n > 0
    requires IsStateRoot(h, d1, root) && IsStateRoot(h, d2, root)
    ensures d1 == d2 || Collides(h, Image(d1, k1, |k1|), Image(d2, k2, |k2|))
  {
    EnumeratedAllIn(k1, d1);
    EnumeratedAllIn(k2, d2);
    RootIs(h, d1, k1, root);
    RootIs(h, d2, k2, root);
    if Image(d1, k1, |k1|) == Image(d2, k2, |k2|) {
      WidthGivesShape(d1, k1, d2, k2, m, n);
      RootBindsShape(h, d1, k1, d2, k2, root);
    }
  }

  /**
   * The root does not mark where a key ends: moving a byte from value to key changes the state but
   * no root.
   */
  lemma RootForgetsBoundaries(h: Hash, key: Bytes, b: byte, value: Bytes, root: Digest)
    ensures map[key := [b] + value] != map[key + [b] := value]
    ensures IsStateRoot(h, map[key := [b] + value], root) <==> IsStateRoot(h, map[key + [b] := value], root)
  {
    var one, other := map[key := [b] + value], map[key + [b] := value];
    assert |key + [b]| != |key|;
    assert key in one && key !in other;
    SingletonRoot(h, key, [b] + value, root);
    SingletonRoot(h, key + [b], value, root);
    assert key + ([b] + value) == (key + [b]) + value;
  }

  lemma SingletonRoot(h: Hash, key: Bytes, value: Bytes, root: Digest)
    ensures IsStateRoot(h, map[key := value], root) <==> root == h(key + value)
  {
    var data := map[key := value];
    var keys := [key];
    assert Enumerates(keys, data.Keys);
    assert Image(data, keys, 1) == [] + key + value == key + value;
    if IsStateRoot(h, data, root) {
      StateRootUnique(h, data, root, h(key + value));
    }
  }

  lemma EmptyRoot(h: Hash, data: map<Bytes, Bytes>)
    requires |data| == 0
    ensures IsStateRoot(h, data, h([]))
  {
    assert Enumerates([], data.Keys);
    assert Image(data, [], 0) == [];
  }

  class InMemoryStateDB {
    var data: map<Bytes, Bytes>

    constructor ()
      ensures data == map[]
    {
      data := map[];
    }

    method Get(key: Bytes) returns (value: Result<Bytes>)
      ensures value == if key in data then Ok(data[key]) else Err("key not found")
    {
      if key !in data {
        return Err("key not found");
      }
      return Ok(data[key]);
    }

    method Put(key: Bytes, value: Bytes)
      modifies this
      ensures data == old(data)[key := value]
    {
      data := data[key := value];
    }

    method Delete(key: Bytes) returns (found: bool)
      modifies this
      ensures found <==> key in old(data)
      ensures data == old(data) - {key}
    {
      if key !in data {
        return false;
      }
      data := data - {key};
      return true;
    }

    /** All keys, sorted. */
    method GetKeys() returns (keys: seq<Bytes>)
      ensures Enumerates(keys, data.Keys)
    {
      keys := SortedList(data.Keys);
    }

    method Clear()
      modifies this
      ensures data == map[]
    {
      data := map[];
    }

    method Size() returns (n: nat)
      ensures n == |data|
    {
      n := |data|;
    }

    /** The empty state takes a branch of its own, to the same effect. */
    method GetStateRoot(h: Hash) returns (root: Digest)
      ensures IsStateRoot(h, data, root)
    {
      if |data| == 0 {
        EmptyRoot(h, data);
        return h([]);
      }
      var keys := GetKeys();
      var written := WriteEntries(data, keys);
      return h(written);
    }
  }

  method WriteEntries(data: map<Bytes, Bytes>, keys: seq<Bytes>) returns (written: Bytes)
    requires forall i :: 0 <= i < |keys| ==> keys[i] in data
    ensures written == Image(data, keys, |keys|)
  {
    written := [];
    for i := 0 to |keys|
      invariant written == Image(data, keys, i)
    {
      written := written + keys[i] + data[keys[i]];
    }
  }
}
