/** Byte-wise string order, decimal formatting, and what Go's `sort.Slice` guarantees. */
module Order {
  import opened Basics

  /** `a < b` on Go strings. */
  predicate Less(a: Bytes, b: Bytes) {
    b != [] && (a == [] || a[0] < b[0] || (a[0] == b[0] && Less(a[1..], b[1..])))
  }

  lemma {:induction false} LessTotal(a: Bytes, b: Bytes)
    ensures a == b || Less(a, b) || Less(b, a)
    ensures !(Less(a, b) && Less(b, a))
    ensures !Less(a, a)
  {
    if a != [] {
      LessTotal(a[1..], a[1..]);
      if b != [] {
        LessTotal(a[1..], b[1..]);
        assert a[0] == b[0] && a[1..] == b[1..] ==> a == [a[0]] + a[1..] == b;
      }
    }
  }

  lemma {:induction false} LessTransitive(a: Bytes, b: Bytes, c: Bytes)
    requires Less(a, b) && Less(b, c)
    ensures Less(a, c)
  {
    if a != [] && a[0] == b[0] == c[0] {
      LessTransitive(a[1..], b[1..], c[1..]);
    }
  }

  /** The shape of comparator a sort accepts: "not less" is transitive and something is not less than itself. */
  ghost predicate StrictWeak<K(!new)>(less: (K, K) -> bool) {
    && (forall x, y :: !(less(x, y) && less(y, x)))
    && (forall x, y, z :: !less(y, x) && !less(z, y) ==> !less(z, x))
  }

  /** Different keys are ordered one way or the other. */
  ghost predicate Connected<K(!new)>(less: (K, K) -> bool) {
    forall x, y :: x == y || less(x, y) || less(y, x)
  }

  lemma LessIsTotal()
    ensures StrictWeak(Less) && Connected(Less)
  {
    forall x, y ensures x == y || Less(x, y) || Less(y, x) {
      LessTotal(x, y);
    }
    forall x, y ensures !(Less(x, y) && Less(y, x)) {
      LessTotal(x, y);
    }
    forall x: Bytes, y: Bytes, z: Bytes | !Less(y, x) && !Less(z, y) ensures !Less(z, x) {
      LessTotal(x, y);
      LessTotal(y, z);
      LessTotal(x, z);
      if Less(x, y) && Less(y, z) {
        LessTransitive(x, y, z);
      }
    }
  }

  predicate NumLess(a: nat, b: nat) {
    a < b
  }

  /** No later element is strictly less than an earlier one. */
  predicate SortedBy<T, K>(key: T -> K, less: (K, K) -> bool, s: seq<T>) {
    forall i, j :: 0 <= i < j < |s| ==> !less(key(s[j]), key(s[i]))
  }

  predicate DistinctKeys<T, K(==)>(key: T -> K, s: seq<T>) {
    forall i, j :: 0 <= i < j < |s| ==> key(s[i]) != key(s[j])
  }

  /** Two sorted arrangements start with the same element. */
  lemma SortedHeads<T, K(!new)>(key: T -> K, less: (K, K) -> bool, s: seq<T>, t: seq<T>)
    requires Connected(less) && s != []
    requires multiset(s) == multiset(t)
    requires SortedBy(key, less, s) && SortedBy(key, less, t)
    requires DistinctKeys(key, s)
    ensures t != [] && s[0] == t[0]
  {
    assert |multiset(t)| > 0;
    var j := MultisetMember(s, t, 0);
    var i := MultisetMember(t, s, 0);
    assert less(key(s[0]), key(t[0])) || key(s[0]) == key(t[0]);
    assert i == 0;
  }

  lemma SameTails<T>(s: seq<T>, t: seq<T>)
    requires s != [] && t != [] && s[0] == t[0] && multiset(s) == multiset(t)
    ensures multiset(s[1..]) == multiset(t[1..])
  {
    assert s == [s[0]] + s[1..] && t == [t[0]] + t[1..];
    assert multiset(s[1..]) == multiset(s) - multiset{s[0]};
    assert multiset(t[1..]) == multiset(t) - multiset{t[0]};
  }

  /**
   * With distinct keys there is only one sorted order, whatever the sort does with ties.
   */
  lemma {:induction false} SortedUnique<T, K(!new)>(key: T -> K, less: (K, K) -> bool, s: seq<T>, t: seq<T>)
    requires Connected(less)
    requires multiset(s) == multiset(t)
    requires SortedBy(key, less, s) && SortedBy(key, less, t)
    requires DistinctKeys(key, s)
    ensures s == t
  {
    if s == [] {
      assert |multiset(t)| == 0;
    } else {
      SortedHeads(key, less, s, t);
      SameTails(s, t);
      SortedUnique(key, less, s[1..], t[1..]);
      assert s == [s[0]] + s[1..] && t == [t[0]] + t[1..];
    }
  }

  /**
   * `sort.Slice`: in place, not promised to be stable.  Callers learn only that the result is a
   * permutation in comparator order.
   */
  method SortSlice<T, K(!new)>(a: array<T>, key: T -> K, less: (K, K) -> bool)
    requires StrictWeak(less)
    modifies a
    ensures multiset(a[..]) == multiset(old(a[..]))
    ensures SortedBy(key, less, a[..])
  {
    var i := 0;
    while i < a.Length
      invariant 0 <= i <= a.Length
      invariant SortedBy(key, less, a[..i])
      invariant multiset(a[..]) == multiset(old(a[..]))
    {
      var j := i;
      while j > 0 && less(key(a[j]), key(a[j - 1]))
        invariant 0 <= j <= i
        invariant forall p, q :: 0 <= p < q <= i && q != j ==> !less(key(a[q]), key(a[p]))
        invariant multiset(a[..]) == multiset(old(a[..]))
      {
        a[j - 1], a[j] := a[j], a[j - 1];
        j := j - 1;
      }
      i := i + 1;
      assert forall p, q :: 0 <= p < q < i && q == j ==> !less(key(a[q]), key(a[p])) by {
        if j > 0 {
          forall p | 0 <= p < j ensures !less(key(a[j]), key(a[p])) {
            assert p == j - 1 || !less(key(a[j - 1]), key(a[p]));
          }
        }
      }
    }
    assert a[..i] == a[..];
  }

  /** All but the k-th element. */
  function Without<T>(s: seq<T>, k: nat): seq<T>
    requires k < |s|
  {
    s[..k] + s[k + 1..]
  }

  /** A strictly sorted enumeration of a set of strings, and its uniqueness. */
  ghost predicate Enumerates(keys: seq<Bytes>, s: set<Bytes>) {
    && SortedBy((k: Bytes) => k, Less, keys)
    && DistinctKeys((k: Bytes) => k, keys)
    && (forall k :: k in keys <==> k in s)
  }

  lemma DistinctMultiset<T>(s: seq<T>, t: seq<T>)
    requires forall i, j :: 0 <= i < j < |s| ==> s[i] != s[j]
    requires forall i, j :: 0 <= i < j < |t| ==> t[i] != t[j]
    requires forall k :: k in s <==> k in t
    ensures multiset(s) == multiset(t)
  {
    forall x ensures multiset(s)[x] == multiset(t)[x] {
      CountAtMostOne(s, x);
      CountAtMostOne(t, x);
    }
  }

  lemma {:induction false} CountAtMostOne<T>(s: seq<T>, x: T)
    requires forall i, j :: 0 <= i < j < |s| ==> s[i] != s[j]
    ensures multiset(s)[x] == if x in s then 1 else 0
  {
    if s != [] {
      assert s == [s[0]] + s[1..];
      CountAtMostOne(s[1..], x);
    }
  }

  lemma CountTwo<T>(s: seq<T>, i: nat, j: nat)
    requires i < j < |s| && s[i] == s[j]
    ensures multiset(s)[s[i]] >= 2
  {
    assert s == s[..i] + [s[i]] + s[i + 1..j] + [s[j]] + s[j + 1..];
  }

  lemma PermutationKeepsDistinct<T, K>(key: T -> K, s: seq<T>, t: seq<T>)
    requires multiset(s) == multiset(t) && DistinctKeys(key, s)
    ensures DistinctKeys(key, t)
  {
    forall i, j | 0 <= i < j < |t| ensures key(t[i]) != key(t[j]) {
      var p := MultisetMember(t, s, i);
      var q := MultisetMember(t, s, j);
      if t[i] == t[j] {
        CountTwo(t, i, j);
        CountAtMostOne(s, t[i]);
      }
    }
  }

  lemma EnumerationUnique(k1: seq<Bytes>, k2: seq<Bytes>, s: set<Bytes>)
    requires Enumerates(k1, s) && Enumerates(k2, s)
    ensures k1 == k2
  {
    var id := (k: Bytes) => k;
    assert forall i, j :: 0 <= i < j < |k1| ==> id(k1[i]) != id(k1[j]);
    assert forall i, j :: 0 <= i < j < |k2| ==> id(k2[i]) != id(k2[j]);
    DistinctMultiset(k1, k2);
    LessIsTotal();
    SortedUnique(id, Less, k1, k2);
  }

  /** A map's keys, collected in whatever order and then sorted. */
  method SortedList(ids: set<Bytes>) returns (sorted: seq<Bytes>)
    ensures Enumerates(sorted, ids)
  {
    var listed := [];
    var todo := ids;
    while todo != {}
      invariant todo <= ids
      invariant forall k :: k in listed <==> k in ids - todo
      invariant forall i, j :: 0 <= i < j < |listed| ==> listed[i] != listed[j]
      decreases todo
    {
      var k :| k in todo;
      assert k !in listed;
      listed := listed + [k];
      todo := todo - {k};
    }
    var slice := new Bytes[|listed|](i requires 0 <= i < |listed| => listed[i]);
    assert slice[..] == listed;
    LessIsTotal();
    SortSlice(slice, (k: Bytes) => k, Less);
    PermutationKeepsDistinct((k: Bytes) => k, listed, slice[..]);
    assert forall k :: k in slice[..] <==> k in multiset(slice[..]);
    assert forall k :: k in listed <==> k in multiset(listed);
    sorted := slice[..];
  }

  /** `%d` of a non-negative number. */
  function Decimal(n: nat): (s: Bytes)
    ensures s != []
  {
    var digit: Bytes := [48 + n % 10];
    if n < 10 then digit else Decimal(n / 10) + digit
  }

  lemma {:induction false} DecimalIsDigits(n: nat, i: nat)
    requires i < |Decimal(n)|
    ensures 48 <= Decimal(n)[i] <= 57
  {
    if n >= 10 && i < |Decimal(n / 10)| {
      DecimalIsDigits(n / 10, i);
    }
  }

  /** `strconv.ParseUint(s, 10, _)` without the range check. */
  function ParseDecimal(s: Bytes): Option<nat> {
    if s == [] || !(48 <= s[|s| - 1] <= 57) then None
    else if |s| == 1 then Some(s[0] - 48)
    else match ParseDecimal(s[..|s| - 1])
      case None => None
      case Some(high) => Some(10 * high + s[|s| - 1] - 48)
  }

  lemma {:induction false} DecimalRoundTrip(n: nat)
    ensures ParseDecimal(Decimal(n)) == Some(n)
  {
    if n >= 10 {
      DecimalRoundTrip(n / 10);
      assert Decimal(n)[..|Decimal(n)| - 1] == Decimal(n / 10);
    }
  }

  lemma DecimalInjective(a: nat, b: nat)
    requires Decimal(a) == Decimal(b)
    ensures a == b
  {
    DecimalRoundTrip(a);
    DecimalRoundTrip(b);
  }
}
