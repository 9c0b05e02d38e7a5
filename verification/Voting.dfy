/** The vote on a block as values: who signs, what it comes to, and what a final block is known to be. */
module Voting {
  import opened Basics
  import opened Order
  import opened Quorum
  import opened ProofsOfWork
  import opened ValidatorSpec

  /** What a validator does when asked to vote for a block it finds valid. */
  datatype Vote = No | SignFails | SignsWell | SignsBadly

  /** Who does not answer has voted no. */
  function VoteOf(votes: map<NodeID, Vote>, id: NodeID): Vote {
    if id in votes then votes[id] else No
  }

  datatype Outcome = NoEligible | HashMismatch | Voted(agreeing: set<NodeID>, reached: bool)

  /** Nobody signs an invalid block. */
  function Signers(eligible: set<NodeID>, valid: bool, votes: map<NodeID, Vote>): set<NodeID> {
    set id | id in eligible && valid && VoteOf(votes, id) == SignsWell
  }

  function BadSigners(eligible: set<NodeID>, valid: bool, votes: map<NodeID, Vote>): set<NodeID> {
    set id | id in eligible && valid && VoteOf(votes, id) == SignsBadly
  }

  function Reputations(standings: map<NodeID, Standing>): map<NodeID, int> {
    map id | id in standings :: standings[id].reputation
  }

  function Eligible(standings: map<NodeID, Standing>): set<NodeID> {
    set id | id in standings && standings[id].active && standings[id].authenticated
  }

  /**
   * The proposer: the eligible validator whose random value is least.  Those whose evaluation or
   * proof fails have none; equal values may go either way.
   */
  ghost predicate IsDelegate(eligible: set<NodeID>, values: map<NodeID, nat>, best: Option<NodeID>) {
    match best
    case None => forall id :: id in eligible ==> id !in values
    case Some(b) => b in eligible && b in values && forall id :: id in eligible && id in values ==> values[b] <= values[id]
  }

  /** What a vote comes to: no voters is noticed before a hash that is not the header's own. */
  ghost function VerdictOf(standings: map<NodeID, Standing>, valid: bool, matches: bool, votes: map<NodeID, Vote>): Outcome {
    var eligible := Eligible(standings);
    var agreeing := Signers(eligible, valid, votes);
    if eligible == {} then NoEligible
    else if !matches then HashMismatch
    else Voted(agreeing, Reached(Reputations(standings), eligible, agreeing))
  }

  ghost function OutcomeOf(c: Codec, standings: map<NodeID, Standing>, hd: Header, hash: Bytes, votes: map<NodeID, Vote>): Outcome
    requires hd.difficulty <= 256
  {
    VerdictOf(standings, Seals(c, hd, hash), OwnsHash(c, hd, hash), votes)
  }

  /** A block that reached consensus carries its signers, sorted; nothing else changes. */
  ghost predicate IsSignedOff(outcome: Outcome, before: Header, after: Header) {
    if outcome.Voted? && outcome.reached then
      Enumerates(after.finalitySignatures, outcome.agreeing)
      && after == before.(finalitySignatures := after.finalitySignatures)
    else after == before
  }

  /** Voters whose signatures do not verify are penalized, if it comes to a vote. */
  ghost function AfterVote(r: Registry, valid: bool, matches: bool, votes: map<NodeID, Vote>): Registry {
    if VerdictOf(r.standings, valid, matches, votes).Voted? then
      Penalized(r, BadSigners(Eligible(r.standings), valid, votes))
    else r
  }

  ghost function AfterBlockVote(c: Codec, r: Registry, hd: Header, hash: Bytes, votes: map<NodeID, Vote>): Registry
    requires hd.difficulty <= 256
  {
    AfterVote(r, Seals(c, hd, hash), OwnsHash(c, hd, hash), votes)
  }

  /** The sum a vote measures signers against. */
  ghost function EligibleWeight(standings: map<NodeID, Standing>): int {
    Weight(Reputations(standings), Eligible(standings))
  }

  ghost predicate IsFinal(c: Codec, standings: map<NodeID, Standing>, hd: Header, hash: Bytes, votes: map<NodeID, Vote>)
    requires hd.difficulty <= 256
  {
    var outcome := OutcomeOf(c, standings, hd, hash, votes);
    outcome.Voted? && outcome.reached
  }

  /** Writing the signatures of a vote does not change its outcome, nor what becomes of the voters. */
  lemma SignaturesKeepVote(c: Codec, r: Registry, hd: Header, ids: seq<NodeID>, hash: Bytes, votes: map<NodeID, Vote>)
    requires hd.difficulty <= 256
    ensures OutcomeOf(c, r.standings, hd.(finalitySignatures := ids), hash, votes) == OutcomeOf(c, r.standings, hd, hash, votes)
    ensures AfterBlockVote(c, r, hd.(finalitySignatures := ids), hash, votes) == AfterBlockVote(c, r, hd, hash, votes)
  {
    FinalityKeepsSeal(c, hd, ids, hash);
  }

  /** A final block carries its own hash, whatever the reputations. */
  lemma FinalOwnsHash(c: Codec, standings: map<NodeID, Standing>, hd: Header, hash: Bytes, votes: map<NodeID, Vote>)
    requires hd.difficulty <= 256 && IsFinal(c, standings, hd, hash, votes)
    ensures OwnsHash(c, hd, hash)
  {
  }

  /**
   * A final block whose nonce and hash come from the search passes `Validate`, whatever the
   * reputations: the hash of an exhausted search is not its own, or here is a collision.
   */
  lemma SearchedFinalIsSealed(c: Codec, standings: map<NodeID, Standing>, hd: Header, hash: Bytes, votes: map<NodeID, Vote>)
    requires hd.difficulty <= 256 && IsFinal(c, standings, hd, hash, votes) && Searched(c, hd, hash)
    ensures Seals(c, hd, hash) || CapClash(c, hd)
  {
    FinalOwnsHash(c, standings, hd, hash, votes);
    FoundSeals(c, hd, hash);
  }

  /**
   * Any final block passes `Validate`, wherever it comes from: unless the threshold is negative a quorum holds a real
   * signature, and nobody signs anything else.
   */
  lemma FinalIsSealed(c: Codec, standings: map<NodeID, Standing>, hd: Header, hash: Bytes, votes: map<NodeID, Vote>)
    requires hd.difficulty <= 256 && IsFinal(c, standings, hd, hash, votes)
    requires !Mute(EligibleWeight(standings))
    ensures Seals(c, hd, hash)
  {
    if !Seals(c, hd, hash) {
      UnsealedFinalExactly(c, standings, hd, hash, votes);
      assert false;
    }
  }

  /**
   * The guard is exact: an invalid block whose hash is its own gathers no signature, and becomes
   * final if and only if the eligible reputations make the threshold negative.
   */
  lemma UnsealedFinalExactly(c: Codec, standings: map<NodeID, Standing>, hd: Header, hash: Bytes, votes: map<NodeID, Vote>)
    requires hd.difficulty <= 256 && Eligible(standings) != {}
    requires !Seals(c, hd, hash) && OwnsHash(c, hd, hash)
    ensures OutcomeOf(c, standings, hd, hash, votes) == Voted({}, Mute(EligibleWeight(standings)))
  {
    assert Signers(Eligible(standings), false, votes) == {};
    NoVotesNeededExactly(Reputations(standings), Eligible(standings));
  }

  /** Active reputations of at least 1, as every run keeps them, satisfy it while they add up to less than 2^62. */
  lemma SmallTotalsHeard(r: Registry)
    requires ActivePositive(r) && EligibleWeight(r.standings) < 0x4000_0000_0000_0000
    ensures !Mute(EligibleWeight(r.standings))
  {
    WeightBounds(Reputations(r.standings), Eligible(r.standings));
  }
}
