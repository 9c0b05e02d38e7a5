/** Reputation-weighted voting: sums over sets of voters in 64-bit arithmetic, and the threshold. */
module Quorum {
  import opened Basics

  const HALF := 0x8000_0000_0000_0000

  /** Go's `int64`. */
  type int64 = x: int | -HALF <= x < HALF

  /** What is left of a number in an int64. */
  function Int64(x: int): int64 {
    (x + HALF) % WORD - HALF
  }

  lemma Int64Small(x: int)
    ensures -HALF <= x < HALF ==> Int64(x) == x
    ensures HALF <= x < WORD ==> Int64(x) == x - WORD
  {
  }

  /** A wrapped running sum is the sum wrapped. */
  lemma Int64Sum(x: int, y: int)
    ensures Int64(Int64(x) + y) == Int64(x + y)
  {
    var q := (x + HALF) / WORD;
    assert Int64(x) == x - q * WORD;
    SameRemainder(x + y + HALF, Int64(x) + y + HALF, q);
  }

  lemma SameRemainder(a: int, b: int, q: int)
    requires a == b + q * WORD
    ensures a % WORD == b % WORD
  {
    var qa, qb := a / WORD, b / WORD;
    assert a == qa * WORD + a % WORD && b == qb * WORD + b % WORD;
    assert (qa - qb - q) * WORD == b % WORD - a % WORD;
  }

  /** Counting on from a wrapped count is counting on and wrapping. */
  lemma NextWraps(n: nat)
    ensures (n % WORD + 1) % WORD == (n + 1) % WORD
  {
    SameRemainder(n + 1, n % WORD + 1, n / WORD);
  }

  // ---------------------------------------------------------------- weights

  /** The true sum of the weights of a set, in whatever order it is taken. */
  ghost function Weight<K>(w: map<K, int>, s: set<K>): int
    requires s <= w.Keys
  {
    if s == {} then 0
    else
      var x :| x in s;
      w[x] + Weight(w, s - {x})
  }

  lemma {:induction false} WeightSplit<K>(w: map<K, int>, s: set<K>, x: K)
    requires s <= w.Keys && x in s
    ensures Weight(w, s) == w[x] + Weight(w, s - {x})
    decreases |s|
  {
    var y :| y in s && Weight(w, s) == w[y] + Weight(w, s - {y});
    if y != x {
      WeightSplit(w, s - {y}, x);
      WeightSplit(w, s - {x}, y);
      assert s - {y} - {x} == s - {x} - {y};
    }
  }

  lemma WeightAdd<K>(w: map<K, int>, s: set<K>, x: K)
    requires s <= w.Keys && x in w && x !in s
    ensures Weight(w, s + {x}) == Weight(w, s) + w[x]
  {
    WeightSplit(w, s + {x}, x);
    assert s + {x} - {x} == s;
  }

  lemma {:induction false} WeightAgree<K>(v: map<K, int>, w: map<K, int>, s: set<K>)
    requires s <= v.Keys && s <= w.Keys
    requires forall x :: x in s ==> v[x] == w[x]
    ensures Weight(v, s) == Weight(w, s)
    decreases |s|
  {
    if s != {} {
      var x :| x in s;
      WeightSplit(v, s, x);
      WeightSplit(w, s, x);
      WeightAgree(v, w, s - {x});
    }
  }

  ghost predicate AllPositive<K>(w: map<K, int>, s: set<K>)
    requires s <= w.Keys
  {
    forall x :: x in s ==> w[x] >= 1
  }

  lemma {:induction false} WeightBounds<K>(w: map<K, int>, s: set<K>)
    requires s <= w.Keys && AllPositive(w, s)
    ensures Weight(w, s) >= |s|
    decreases |s|
  {
    if s != {} {
      var x :| x in s;
      WeightSplit(w, s, x);
      WeightBounds(w, s - {x});
    }
  }

  lemma {:induction false} WeightUnion<K>(w: map<K, int>, a: set<K>, b: set<K>)
    requires a <= w.Keys && b <= w.Keys
    ensures Weight(w, a) + Weight(w, b) == Weight(w, a + b) + Weight(w, a * b)
    decreases |b|
  {
    if b == {} {
      assert a + b == a && a * b == {};
    } else {
      var x :| x in b;
      WeightUnion(w, a, b - {x});
      WeightSplit(w, b, x);
      if x in a {
        assert a + (b - {x}) == a + b && a * (b - {x}) == a * b - {x};
        WeightSplit(w, a * b, x);
      } else {
        assert a + (b - {x}) == a + b - {x} && a * (b - {x}) == a * b;
        WeightSplit(w, a + b, x);
      }
    }
  }

  lemma WeightMonotone<K>(w: map<K, int>, a: set<K>, b: set<K>)
    requires a <= b <= w.Keys && AllPositive(w, b)
    ensures 0 <= Weight(w, a) <= Weight(w, b)
  {
    WeightUnion(w, a, b - a);
    assert a + (b - a) == b && a * (b - a) == {};
    WeightBounds(w, a);
    WeightBounds(w, b - a);
  }

  // ---------------------------------------------------------------- the threshold

  /** Two thirds of the total, doubled in 64 bits and divided toward zero. */
  function Threshold(total: int64): int {
    if total == 0 then 0 else TruncDiv(Int64(total * 2), 3)
  }

  /** More votes than the threshold. */
  ghost predicate MeansTwoThirds(total: int64) {
    forall votes: int :: votes > Threshold(total) <==> 3 * votes > 2 * total
  }

  /**
   * "Above the threshold" means "more than two thirds" exactly for totals below 2^62: beyond that
   * the doubling overflows.
   */
  lemma ThresholdMeaning(total: int64)
    requires total >= 0
    ensures MeansTwoThirds(total) <==> total < 0x4000_0000_0000_0000
  {
    Int64Small(total * 2);
    if total >= 0x4000_0000_0000_0000 {
      assert Threshold(total) <= 0;
      assert 1 > Threshold(total) && !(3 * 1 > 2 * total);
    } else {
      forall votes: int ensures votes > Threshold(total) <==> 3 * votes > 2 * total {
      }
    }
  }

  /** The vote: the signers' weight against the threshold of the eligible weight. */
  ghost predicate Reached<K>(w: map<K, int>, eligible: set<K>, signers: set<K>)
    requires signers <= eligible <= w.Keys
  {
    Int64(Weight(w, signers)) > Threshold(Int64(Weight(w, eligible)))
  }

  /** On weights of at least 1 with a sum below 2^62, the rule is more than two thirds of the true sums. */
  lemma QuorumRule<K>(w: map<K, int>, eligible: set<K>, signers: set<K>)
    requires signers <= eligible <= w.Keys && AllPositive(w, eligible)
    requires Weight(w, eligible) < 0x4000_0000_0000_0000
    ensures Reached(w, eligible, signers) <==> 3 * Weight(w, signers) > 2 * Weight(w, eligible)
  {
    WeightMonotone(w, signers, eligible);
    Int64Small(Weight(w, signers));
    Int64Small(Weight(w, eligible));
    ThresholdMeaning(Weight(w, eligible));
  }

  /** The totals whose threshold is negative. */
  predicate Mute(total: int) {
    0x4000_0000_0000_0000 <= total % HALF < HALF - 1
  }

  /** No signature at all is a quorum exactly for those totals, whatever the weights. */
  lemma NoVotesNeededExactly<K>(w: map<K, int>, eligible: set<K>)
    requires eligible <= w.Keys
    ensures Reached(w, eligible, {}) <==> Mute(Weight(w, eligible))
  {
    NegativeThreshold(Weight(w, eligible));
  }

  lemma NegativeThreshold(total: int)
    ensures Threshold(Int64(total)) < 0 <==> Mute(total)
  {
    var t: int := Int64(total);
    Int64Small(t * 2);
    HalfRemainder(total, t);
  }

  /** Modulo 2^63 a number and its int64 are the same. */
  lemma HalfRemainder(total: int, t: int64)
    requires t == Int64(total)
    ensures total % HALF == if t >= 0 then t else t + HALF
  {
    var q := (total + HALF) / WORD;
    assert total == t + q * WORD == t + (2 * q) * HALF;
    HalfOf(t, 2 * q);
  }

  lemma HalfOf(t: int64, q: int)
    ensures (t + q * HALF) % HALF == if t >= 0 then t else t + HALF
  {
    var s := if t >= 0 then t else t + HALF;
    var p := if t >= 0 then q else q - 1;
    assert t + q * HALF == s + p * HALF && 0 <= s < HALF;
    var d := (t + q * HALF) / HALF;
    assert (d - p) * HALF == s - (t + q * HALF) % HALF;
  }

  /** Otherwise a quorum holds at least one signer. */
  lemma QuorumNotEmpty<K>(w: map<K, int>, eligible: set<K>, signers: set<K>)
    requires signers <= eligible <= w.Keys && !Mute(Weight(w, eligible))
    requires Reached(w, eligible, signers)
    ensures signers != {}
  {
    NoVotesNeededExactly(w, eligible);
  }

  /** Any two quorums share more than a third of the weight. */
  lemma QuorumsOverlap<K>(w: map<K, int>, eligible: set<K>, a: set<K>, b: set<K>)
    requires a <= eligible <= w.Keys && b <= eligible && AllPositive(w, eligible)
    requires Weight(w, eligible) < 0x4000_0000_0000_0000
    requires Reached(w, eligible, a) && Reached(w, eligible, b)
    ensures 3 * Weight(w, a * b) > Weight(w, eligible) && a * b != {}
  {
    QuorumRule(w, eligible, a);
    QuorumRule(w, eligible, b);
    WeightUnion(w, a, b);
    WeightMonotone(w, a + b, eligible);
    WeightBounds(w, eligible);
  }
}
