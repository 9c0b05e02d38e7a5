/** Validators as values: reputations, activity, authentication and pending challenges. */
module ValidatorSpec {
  import opened Basics
  import opened Quorum

  datatype Standing = Standing(reputation: int64, active: bool, authenticated: bool, nonce: uint64)

  datatype Pending = Pending(data: Bytes, expectedNonce: uint64, expiry: int)

  /** `scores` is the second copy of the reputations, which slashing does not touch. */
  datatype Registry = Registry(
    standings: map<NodeID, Standing>,
    scores: map<NodeID, int64>,
    pending: map<NodeID, Pending>)

  /** The hash, and which signatures verify for which node and signed bytes. */
  datatype Signing = Signing(hash: Hash, verifies: (NodeID, Bytes, Bytes) -> bool)

  const CHALLENGE_TIMEOUT := 1_000_000_000

  // ---------------------------------------------------------------- reputation

  /** Reputations adjusted by amounts never fall below 1. */
  function Floor(reputation: int64): int64 {
    if reputation < 1 then 1 else reputation
  }

  function Adjusted(s: Standing, change: int64): Standing {
    var reputation := Floor(Int64(s.reputation + change));
    s.(reputation := reputation, active := s.active && !(change < 0 && reputation < 10))
  }

  function Adjust(r: Registry, id: NodeID, change: int64): Registry {
    if id !in r.standings then r
    else
      var s := Adjusted(r.standings[id], change);
      r.(standings := r.standings[id := s], scores := r.scores[id := s.reputation])
  }

  /** Slashing has no floor, and leaves the scores alone. */
  function Slashed(s: Standing): Standing {
    var reputation := Int64(s.reputation - 20);
    s.(reputation := reputation, active := s.active && reputation >= 10)
  }

  function Slash(r: Registry, id: NodeID): Registry {
    if id !in r.standings then r else r.(standings := r.standings[id := Slashed(r.standings[id])])
  }

  /** A known ID keeps what it has. */
  function Add(r: Registry, id: NodeID, reputation: int64, authenticated: bool, nonce: uint64): Registry {
    if id in r.standings then r
    else r.(
      standings := r.standings[id := Standing(reputation, true, authenticated, nonce)],
      scores := r.scores[id := reputation])
  }

  function Reward(reached: bool, agreed: bool): int64 {
    if reached then (if agreed then 1 else -2) else if agreed then 0 else -1
  }

  /** A voter's new reputation, from its score. */
  function NewScore(scores: map<NodeID, int64>, id: NodeID, change: int64): int64 {
    Floor(Int64((if id in scores then scores[id] else 0) + change))
  }

  /** Activity is not touched. */
  function WithReputation(standings: map<NodeID, Standing>, id: NodeID, reputation: int64): map<NodeID, Standing> {
    if id in standings then standings[id := standings[id].(reputation := reputation)] else standings
  }

  function Settle(r: Registry, id: NodeID, change: int64): Registry {
    var reputation := NewScore(r.scores, id, change);
    r.(standings := WithReputation(r.standings, id, reputation), scores := r.scores[id := reputation])
  }

  /** The first k voters settled. */
  function Settled(r: Registry, voters: seq<NodeID>, reached: bool, agreeing: set<NodeID>, k: nat): Registry
    requires k <= |voters|
  {
    if k == 0 then r
    else Settle(Settled(r, voters, reached, agreeing, k - 1), voters[k - 1], Reward(reached, voters[k - 1] in agreeing))
  }

  function Authenticated(r: Registry, id: NodeID): Registry {
    if id !in r.standings then r else r.(standings := r.standings[id := r.standings[id].(authenticated := true)])
  }

  // ---------------------------------------------------------------- challenges

  /** Eight bytes, most significant first. */
  function BigEndian64(n: uint64): (b: Bytes)
    ensures |b| == 8
  {
    [Octet(n, 0x100_0000_0000_0000), Octet(n, 0x1_0000_0000_0000), Octet(n, 0x100_0000_0000), Octet(n, 0x1_0000_0000),
     Octet(n, 0x100_0000), Octet(n, 0x1_0000), Octet(n, 0x100), Octet(n, 1)]
  }

  function Octet(n: uint64, unit: nat): byte
    requires unit > 0
  {
    n / unit % 256
  }

  /** What a response must sign. */
  function Signed(p: Pending): Bytes {
    p.data + BigEndian64(p.expectedNonce)
  }

  /** Refused for an unknown validator or while a challenge, expired or not, is pending. */
  predicate MayChallenge(r: Registry, id: NodeID) {
    id in r.standings && id !in r.pending
  }

  function Challenge(r: Registry, id: NodeID, data: Bytes, now: int): Registry {
    if !MayChallenge(r, id) then r
    else r.(pending := r.pending[id := Pending(data, r.standings[id].nonce, now + CHALLENGE_TIMEOUT)])
  }

  /** The response carries the right signature for the pending challenge. */
  predicate Proves(s: Signing, r: Registry, id: NodeID, response: Bytes) {
    id in r.pending && s.verifies(id, s.hash(Signed(r.pending[id])), response)
  }

  predicate InTime(r: Registry, id: NodeID, now: int) {
    id in r.pending && id in r.standings && now <= r.pending[id].expiry
  }

  predicate Accepts(s: Signing, r: Registry, id: NodeID, response: Bytes, now: int) {
    InTime(r, id, now) && Proves(s, r, id, response)
  }

  /** A success reactivates, authenticates and uses the nonce up; a failure costs reputation. */
  function Welcomed(s: Standing): Standing {
    Standing(Adjusted(s, 2).reputation, true, true, (s.nonce + 1) % WORD)
  }

  function Answered(r: Registry, id: NodeID, proved: bool, now: int): Registry {
    if id !in r.pending then r
    else if now > r.pending[id].expiry then Adjust(r.(pending := r.pending - {id}), id, -5)
    else if id !in r.standings then r
    else if !proved then Adjust(r.(pending := r.pending - {id}), id, -10)
    else
      var welcomed := Welcomed(r.standings[id]);
      Registry(r.standings[id := welcomed], r.scores[id := welcomed.reputation], r.pending - {id})
  }

  function Answer(s: Signing, r: Registry, id: NodeID, response: Bytes, now: int): Registry {
    Answered(r, id, Proves(s, r, id, response), now)
  }

  /** Expired challenges go; the penalties follow later, each on its own. */
  function Expire(r: Registry, now: int): Registry {
    r.(pending := map id | id in r.pending && now <= r.pending[id].expiry :: r.pending[id])
  }

  // ---------------------------------------------------------------- the invariants

  /** Whoever may vote has a vote that counts. */
  ghost predicate ActivePositive(r: Registry) {
    forall id :: id in r.standings && r.standings[id].active ==> r.standings[id].reputation >= 1
  }

  /** A pending challenge belongs to a validator and expects that validator's current nonce. */
  ghost predicate PendingCurrent(r: Registry) {
    forall id :: id in r.pending ==>
      id in r.standings && r.pending[id].expectedNonce == r.standings[id].nonce && |r.pending[id].data| == 32
  }

  ghost predicate Sound(r: Registry) {
    ActivePositive(r) && PendingCurrent(r)
  }

  /** An adjusted reputation is at least 1 even where the sum overflows. */
  lemma AdjustedPositive(s: Standing, change: int64)
    ensures Adjusted(s, change).reputation >= 1
    ensures change < 0 && Adjusted(s, change).active ==> Adjusted(s, change).reputation >= 10
  {
  }

  lemma SlashedPositive(s: Standing)
    requires s.active ==> s.reputation >= 1
    ensures Slashed(s).active ==> Slashed(s).reputation >= 10
  {
  }

  lemma AdjustSound(r: Registry, id: NodeID, change: int64)
    requires Sound(r)
    ensures Sound(Adjust(r, id, change))
  {
    if id in r.standings {
      AdjustedPositive(r.standings[id], change);
    }
  }

  lemma SettleSound(r: Registry, id: NodeID, change: int64)
    requires Sound(r)
    ensures Sound(Settle(r, id, change))
  {
  }

  lemma {:induction false} SettledSound(r: Registry, voters: seq<NodeID>, reached: bool, agreeing: set<NodeID>, k: nat)
    requires Sound(r) && k <= |voters|
    ensures Sound(Settled(r, voters, reached, agreeing, k))
    ensures Settled(r, voters, reached, agreeing, k).pending == r.pending
    ensures Settled(r, voters, reached, agreeing, k).standings.Keys == r.standings.Keys
    ensures forall id :: id in r.standings ==>
      Settled(r, voters, reached, agreeing, k).standings[id].nonce == r.standings[id].nonce
  {
    if k > 0 {
      SettledSound(r, voters, reached, agreeing, k - 1);
      var before := Settled(r, voters, reached, agreeing, k - 1);
      SettleSound(before, voters[k - 1], Reward(reached, voters[k - 1] in agreeing));
    }
  }

  lemma AnswerSound(s: Signing, r: Registry, id: NodeID, response: Bytes, now: int)
    requires Sound(r)
    ensures Sound(Answer(s, r, id, response, now))
  {
    if id in r.pending {
      var without := r.(pending := r.pending - {id});
      assert Sound(without);
      AdjustSound(without, id, -5);
      AdjustSound(without, id, -10);
      AdjustedPositive(r.standings[id], 2);
    }
  }

  // ---------------------------------------------------------------- penalties during a vote

  /** Everyone in `bad` adjusted by -5. */
  function Penalized(r: Registry, bad: set<NodeID>): Registry {
    Registry(
      map id | id in r.standings :: if id in bad then Adjusted(r.standings[id], -5) else r.standings[id],
      map id | id in r.scores.Keys + bad * r.standings.Keys ::
        if id in bad && id in r.standings then Adjusted(r.standings[id], -5).reputation else r.scores[id],
      r.pending)
  }

  lemma PenalizeOne(r: Registry, bad: set<NodeID>, id: NodeID)
    requires id !in bad
    ensures Adjust(Penalized(r, bad), id, -5) == Penalized(r, bad + {id})
  {
    if id in r.standings {
      PenalizeKnown(r, bad, id);
    } else {
      PenalizeStranger(r, bad, id);
    }
  }

  lemma PenalizeKnown(r: Registry, bad: set<NodeID>, id: NodeID)
    requires id in r.standings && id !in bad
    ensures Adjust(Penalized(r, bad), id, -5) == Penalized(r, bad + {id})
  {
    var x, y := Adjust(Penalized(r, bad), id, -5), Penalized(r, bad + {id});
    assert x.standings == y.standings;
    assert x.scores.Keys == y.scores.Keys;
    assert x.scores == y.scores;
  }

  lemma PenalizeStranger(r: Registry, bad: set<NodeID>, id: NodeID)
    requires id !in r.standings
    ensures Adjust(Penalized(r, bad), id, -5) == Penalized(r, bad + {id})
  {
    var x, y := Penalized(r, bad), Penalized(r, bad + {id});
    assert (bad + {id}) * r.standings.Keys == bad * r.standings.Keys;
    assert x.standings == y.standings;
    assert x.scores == y.scores;
  }

  lemma PenalizeNobody(r: Registry)
    ensures Penalized(r, {}) == r
  {
    assert Penalized(r, {}).standings == r.standings;
    assert Penalized(r, {}).scores == r.scores;
  }
}
