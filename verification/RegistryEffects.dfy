/** What each operation on validators does to every single one of them, in numbers. */
module RegistryEffects {
  import opened Basics
  import opened Quorum
  import opened ValidatorSpec
  import opened ValidatorRuns

  /** An int64 holds a number up to a multiple of 2^64. */
  lemma Int64Exact(x: int)
    ensures -0x8000_0000_0000_0000 <= Int64(x) < 0x8000_0000_0000_0000
    ensures (x - Int64(x)) % 0x1_0000_0000_0000_0000 == 0
  {
    var q := (x + HALF) / WORD;
    assert x - Int64(x) == q * WORD;
    MultipleOfWord(q);
  }

  lemma MultipleOfWord(q: int)
    ensures (q * WORD) % WORD == 0
  {
    SameRemainder(q * WORD, 0, q);
  }

  // ---------------------------------------------------------------- single changes

  /** Reputation plus the change, at least 1; only a penalty that leaves less than 10 takes the vote away. */
  ghost predicate IsAdjusted(before: Standing, change: int64, after: Standing) {
    var sum := Int64(before.reputation + change);
    && after.reputation == (if sum >= 1 then sum else 1)
    && (after.active <==> before.active && (change >= 0 || after.reputation >= 10))
    && after.authenticated == before.authenticated && after.nonce == before.nonce
  }

  /** Nobody but `id` is touched. */
  ghost predicate OthersStay(r: Registry, id: NodeID, v: Registry) {
    && v.standings.Keys == r.standings.Keys
    && (forall other :: other in r.standings && other != id ==> v.standings[other] == r.standings[other])
    && (forall other :: other != id ==> (other in v.scores <==> other in r.scores))
    && (forall other :: other in r.scores && other != id ==> v.scores[other] == r.scores[other])
  }

  lemma AdjustEffect(r: Registry, id: NodeID, change: int64)
    ensures
      var v := Adjust(r, id, change);
      && OthersStay(r, id, v) && v.pending == r.pending
      && (id !in r.standings ==> v == r)
      && (id in r.standings ==>
          IsAdjusted(r.standings[id], change, v.standings[id]) && id in v.scores && v.scores[id] == v.standings[id].reputation)
  {
  }

  lemma SlashEffect(r: Registry, id: NodeID)
    ensures
      var v := Slash(r, id);
      && OthersStay(r, id, v) && v.pending == r.pending && v.scores == r.scores
      && (id in r.standings ==>
          && v.standings[id].reputation == Int64(r.standings[id].reputation - 20)
          && (v.standings[id].active <==> r.standings[id].active && v.standings[id].reputation >= 10)
          && v.standings[id].authenticated == r.standings[id].authenticated && v.standings[id].nonce == r.standings[id].nonce)
  {
  }

  lemma AddEffect(r: Registry, id: NodeID, reputation: int64, authenticated: bool, nonce: uint64)
    ensures
      var v := Add(r, id, reputation, authenticated, nonce);
      && v.pending == r.pending
      && (id in r.standings ==> v == r)
      && (id !in r.standings ==>
          && v.standings == r.standings[id := Standing(reputation, true, authenticated, nonce)]
          && v.scores == r.scores[id := reputation])
  {
  }

  lemma AuthenticatedEffect(r: Registry, id: NodeID)
    ensures
      var v := Authenticated(r, id);
      && OthersStay(r, id, v) && v.scores == r.scores && v.pending == r.pending
      && (id in r.standings ==>
          && v.standings[id].authenticated && v.standings[id].reputation == r.standings[id].reputation
          && v.standings[id].active == r.standings[id].active && v.standings[id].nonce == r.standings[id].nonce)
  {
  }

  /** Exactly those in `bad` lose 5. */
  lemma PenalizedEffect(r: Registry, bad: set<NodeID>, id: NodeID)
    ensures
      var v := Penalized(r, bad);
      && v.pending == r.pending && v.standings.Keys == r.standings.Keys
      && (id in r.standings && id !in bad ==> v.standings[id] == r.standings[id])
      && (id in r.standings && id in bad ==>
          IsAdjusted(r.standings[id], -5, v.standings[id]) && id in v.scores && v.scores[id] == v.standings[id].reputation)
      && (id !in bad || id !in r.standings ==> (id in v.scores <==> id in r.scores))
      && (id in r.scores && (id !in bad || id !in r.standings) ==> v.scores[id] == r.scores[id])
  {
  }

  // ---------------------------------------------------------------- settling a vote

  /** Signing pays 1 under consensus and nothing else; staying silent costs 2 under consensus, 1 otherwise. */
  ghost predicate IsSettled(score: int64, reached: bool, signed: bool, after: int64) {
    && (reached && signed ==> after == AtLeastOne(Int64(score + 1)))
    && (reached && !signed ==> after == AtLeastOne(Int64(score - 2)))
    && (!reached && signed ==> after == AtLeastOne(score))
    && (!reached && !signed ==> after == AtLeastOne(Int64(score - 1)))
  }

  function AtLeastOne(x: int64): (y: int64)
    ensures y >= 1 && (y == x || (y == 1 && x < 1))
  {
    if x >= 1 then x else 1
  }

  ghost predicate Distinct(voters: seq<NodeID>) {
    forall i, j :: 0 <= i < j < |voters| ==> voters[i] != voters[j]
  }

  /** A voter has the score its vote earns, and its reputation follows if it is still registered. */
  ghost predicate VoterSettled(r: Registry, id: NodeID, reached: bool, signed: bool, v: Registry) {
    && id in v.scores && IsSettled(if id in r.scores then r.scores[id] else 0, reached, signed, v.scores[id])
    && (id in r.standings ==>
        && id in v.standings && v.standings[id].reputation == v.scores[id]
        && v.standings[id].active == r.standings[id].active
        && v.standings[id].authenticated == r.standings[id].authenticated && v.standings[id].nonce == r.standings[id].nonce)
  }

  ghost predicate Same(r: Registry, id: NodeID, v: Registry) {
    && (id in v.standings <==> id in r.standings) && (id in r.standings ==> v.standings[id] == r.standings[id])
    && (id in v.scores <==> id in r.scores) && (id in r.scores ==> v.scores[id] == r.scores[id])
  }

  lemma SettleEffect(r: Registry, voter: NodeID, reached: bool, signed: bool, id: NodeID)
    ensures
      var v := Settle(r, voter, Reward(reached, signed));
      && v.pending == r.pending
      && (id == voter ==> VoterSettled(r, id, reached, signed, v))
      && (id != voter ==> Same(r, id, v))
  {
    Int64Small(if voter in r.scores then r.scores[voter] else 0);
  }

  lemma SettledThen(r: Registry, b: Registry, id: NodeID, reached: bool, signed: bool, v: Registry)
    requires VoterSettled(r, id, reached, signed, b) && Same(b, id, v)
    ensures VoterSettled(r, id, reached, signed, v)
  {
  }

  lemma SameThen(r: Registry, b: Registry, id: NodeID, reached: bool, signed: bool, v: Registry)
    requires Same(r, id, b)
    ensures Same(b, id, v) ==> Same(r, id, v)
    ensures VoterSettled(b, id, reached, signed, v) ==> VoterSettled(r, id, reached, signed, v)
  {
  }

  /** After the vote each of k distinct voters is settled on its own, and everyone else is as before. */
  lemma {:induction false} SettledEffect(r: Registry, voters: seq<NodeID>, reached: bool, agreeing: set<NodeID>, k: nat, id: NodeID)
    requires Distinct(voters) && k <= |voters|
    ensures
      var v := Settled(r, voters, reached, agreeing, k);
      && v.pending == r.pending
      && (id in voters[..k] ==> VoterSettled(r, id, reached, id in agreeing, v))
      && (id !in voters[..k] ==> Same(r, id, v))
  {
    if k > 0 {
      var voter := voters[k - 1];
      var b := Settled(r, voters, reached, agreeing, k - 1);
      var v := Settled(r, voters, reached, agreeing, k);
      SettledEffect(r, voters, reached, agreeing, k - 1, id);
      SettleEffect(b, voter, reached, voter in agreeing, id);
      assert voters[..k] == voters[..k - 1] + [voter];
      if id in voters[..k - 1] {
        SettledThen(r, b, id, reached, id in agreeing, v);
      } else {
        SameThen(r, b, id, reached, id in agreeing, v);
      }
    }
  }

  // ---------------------------------------------------------------- challenges

  /** A challenge carries the current nonce and expires after a second, in nanoseconds. */
  lemma ChallengeEffect(r: Registry, id: NodeID, data: Bytes, now: int)
    ensures MayChallenge(r, id) <==> id in r.standings && id !in r.pending
    ensures
      var v := Challenge(r, id, data, now);
      && v.standings == r.standings && v.scores == r.scores
      && v.pending == if id in r.standings && id !in r.pending
        then r.pending[id := Pending(data, r.standings[id].nonce, now + 1_000_000_000)] else r.pending
  {
  }

  lemma ExpireEffect(r: Registry, now: int, id: NodeID)
    ensures
      var v := Expire(r, now);
      && v.standings == r.standings && v.scores == r.scores
      && (id in v.pending <==> id in r.pending && now <= r.pending[id].expiry)
      && (id in v.pending ==> v.pending[id] == r.pending[id])
  {
  }

  /** Bytes of one length are told apart by the number they stand for. */
  lemma {:induction false} BytesFromNumber(a: Bytes, b: Bytes)
    requires |a| == |b| && BigEndian(a) == BigEndian(b)
    ensures a == b
  {
    if a != [] {
      var n := |a| - 1;
      DigitsFromNumber(BigEndian(a[..n]), a[n], BigEndian(b[..n]), b[n]);
      BytesFromNumber(a[..n], b[..n]);
      assert a == a[..n] + [a[n]] && b == b[..n] + [b[n]];
    }
  }

  lemma DigitsFromNumber(m: nat, x: byte, n: nat, y: byte)
    requires 256 * m + x == 256 * n + y
    ensures m == n && x == y
  {
  }

  /** The first k bytes of the encoding stand for the number without its lower ones. */
  lemma NumberOf(n: uint64)
    ensures BigEndian(BigEndian64(n)) == n
  {
    var b := BigEndian64(n);
    FrontNumber(n, b, 0, 0x100_0000_0000_0000);
    FrontNumber(n, b, 1, 0x1_0000_0000_0000);
    FrontNumber(n, b, 2, 0x100_0000_0000);
    FrontNumber(n, b, 3, 0x1_0000_0000);
    FrontNumber(n, b, 4, 0x100_0000);
    FrontNumber(n, b, 5, 0x1_0000);
    FrontNumber(n, b, 6, 0x100);
    FrontNumber(n, b, 7, 1);
    assert b[..8] == b;
  }

  lemma FrontNumber(n: uint64, b: Bytes, k: nat, unit: nat)
    requires k < |b| && IsUnit(unit) && b[k] == Octet(n, unit)
    requires BigEndian(b[..k]) == n / (0x100 * unit)
    ensures BigEndian(b[..k + 1]) == n / unit
  {
    assert b[..k + 1][..k] == b[..k];
    OctetStep(n, unit);
  }

  /** The eight bytes of the nonce, most significant first, follow the challenge. */
  lemma SignedBytes(p: Pending, b: Bytes)
    requires |b| == 8 && BigEndian(b) == p.expectedNonce
    ensures Signed(p) == p.data + b
  {
    NumberOf(p.expectedNonce);
    BytesFromNumber(b, BigEndian64(p.expectedNonce));
  }

  /** Accepted exactly if there is a challenge, not expired, for a known validator, and the hash of challenge and nonce is signed. */
  lemma AcceptedExactly(s: Signing, r: Registry, id: NodeID, response: Bytes, now: int, b: Bytes)
    requires |b| == 8 && (id in r.pending ==> BigEndian(b) == r.pending[id].expectedNonce)
    ensures Accepts(s, r, id, response, now) <==>
      && id in r.pending && id in r.standings && now <= r.pending[id].expiry
      && s.verifies(id, s.hash(r.pending[id].data + b), response)
  {
    if id in r.pending {
      SignedBytes(r.pending[id], b);
    }
  }

  /** Rewarded by 2, active, authenticated, its nonce used up. */
  ghost predicate IsWelcomed(before: Standing, after: Standing) {
    && after.reputation == AtLeastOne(Int64(before.reputation + 2))
    && after.active && after.authenticated
    && after.nonce == (if before.nonce == 0xFFFF_FFFF_FFFF_FFFF then 0 else before.nonce + 1)
  }

  /** Everything an answer can come to. */
  lemma AnswerEffect(s: Signing, r: Registry, id: NodeID, response: Bytes, now: int, b: Bytes)
    requires |b| == 8 && (id in r.pending ==> BigEndian(b) == r.pending[id].expectedNonce)
    ensures
      var v := Answer(s, r, id, response, now);
      if id !in r.pending then v == r
      else
        var signed := s.verifies(id, s.hash(r.pending[id].data + b), response);
        var late := now > r.pending[id].expiry;
        && OthersStay(r, id, v)
        && v.pending == (if late || id in r.standings then r.pending - {id} else r.pending)
        && (id !in r.standings ==> v.standings == r.standings && v.scores == r.scores)
        && (id in r.standings ==>
            && id in v.scores && v.scores[id] == v.standings[id].reputation
            && (late ==> IsAdjusted(r.standings[id], -5, v.standings[id]))
            && (!late && !signed ==> IsAdjusted(r.standings[id], -10, v.standings[id]))
            && (!late && signed ==> IsWelcomed(r.standings[id], v.standings[id])))
  {
    if id in r.pending {
      SignedBytes(r.pending[id], b);
    }
  }
}
