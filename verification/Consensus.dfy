/** What a vote comes to, in numbers of reputation and names of signers. */
module Consensus {
  import opened Basics
  import opened Order
  import opened Blockchains
  import opened LedgerRuns
  import opened Merkle
  import opened ProofsOfWork
  import opened Quorum
  import opened ValidatorSpec
  import opened Voting

  /** The reputations of those who may vote are positive and add up to less than 2^62. */
  ghost predicate Countable(standings: map<NodeID, Standing>, eligible: set<NodeID>) {
    && (forall id :: id in eligible <==> id in standings && standings[id].active && standings[id].authenticated)
    && (forall id :: id in eligible ==> standings[id].reputation >= 1)
    && Total(standings, eligible) < 0x4000_0000_0000_0000
  }

  ghost function Total(standings: map<NodeID, Standing>, ids: set<NodeID>): int {
    if exists id :: id in ids && id in standings then
      var id :| id in ids && id in standings;
      standings[id].reputation + Total(standings, ids - {id})
    else 0
  }

  lemma {:induction false} TotalIsWeight(standings: map<NodeID, Standing>, ids: set<NodeID>)
    requires ids <= standings.Keys
    ensures Total(standings, ids) == Weight(Reputations(standings), ids)
    decreases |ids|
  {
    if ids != {} {
      assert exists id :: id in ids && id in standings;
      var id :| id in ids && id in standings && Total(standings, ids) == standings[id].reputation + Total(standings, ids - {id});
      TotalIsWeight(standings, ids - {id});
      WeightSplit(Reputations(standings), ids, id);
    }
  }

  /** A block becomes final exactly if it is valid and its signers hold more than two thirds of the reputation. */
  lemma FinalExactly(c: Codec, standings: map<NodeID, Standing>, hd: Header, hash: Bytes, votes: map<NodeID, Vote>,
    eligible: set<NodeID>, signers: set<NodeID>)
    requires hd.difficulty <= 256 && Countable(standings, eligible)
    requires forall id :: id in signers <==> id in eligible && id in votes && votes[id] == SignsWell
    ensures IsFinal(c, standings, hd, hash, votes) <==>
      Seals(c, hd, hash) && 3 * Total(standings, signers) > 2 * Total(standings, eligible)
  {
    TotalIsWeight(standings, eligible);
    TotalIsWeight(standings, signers);
    assert eligible == Eligible(standings);
    if eligible == {} {
      assert signers == {};
    } else if Seals(c, hd, hash) {
      assert signers == Signers(eligible, true, votes);
      QuorumRule(Reputations(standings), eligible, signers);
    } else {
      InvalidLoses(c, standings, hd, hash, votes);
    }
  }

  lemma InvalidLoses(c: Codec, standings: map<NodeID, Standing>, hd: Header, hash: Bytes, votes: map<NodeID, Vote>)
    requires hd.difficulty <= 256 && Countable(standings, Eligible(standings)) && !Seals(c, hd, hash)
    ensures !IsFinal(c, standings, hd, hash, votes)
  {
    CountableHeard(standings);
    if IsFinal(c, standings, hd, hash, votes) {
      FinalIsSealed(c, standings, hd, hash, votes);
      assert false;
    }
  }

  lemma CountableHeard(standings: map<NodeID, Standing>)
    requires Countable(standings, Eligible(standings))
    ensures !Mute(EligibleWeight(standings))
  {
    TotalIsWeight(standings, Eligible(standings));
    WeightBounds(Reputations(standings), Eligible(standings));
    SmallNotMute(EligibleWeight(standings));
  }

  lemma SmallNotMute(total: int)
    requires 0 <= total < 0x4000_0000_0000_0000
    ensures !Mute(total)
  {
  }

  /** The three answers of a vote: nobody to ask, a hash that is not the header's, or who signed. */
  lemma OutcomeExactly(c: Codec, standings: map<NodeID, Standing>, hd: Header, hash: Bytes, votes: map<NodeID, Vote>, eligible: set<NodeID>)
    requires hd.difficulty <= 256
    requires forall id :: id in eligible <==> id in standings && standings[id].active && standings[id].authenticated
    ensures
      var o := OutcomeOf(c, standings, hd, hash, votes);
      if eligible == {} then o == NoEligible
      else if hash != c.hash(PrepareData(c, hd, hd.nonce)) then o == HashMismatch
      else o.Voted? && forall id :: id in o.agreeing <==>
        id in eligible && Seals(c, hd, hash) && id in votes && votes[id] == SignsWell
  {
    assert eligible == Eligible(standings);
  }

  lemma InOrder(ids: seq<NodeID>)
    requires SortedBy((k: Bytes) => k, Less, ids) && DistinctKeys((k: Bytes) => k, ids)
    ensures forall i, j :: 0 <= i < j < |ids| ==> Less(ids[i], ids[j])
  {
    forall i, j | 0 <= i < j < |ids| ensures Less(ids[i], ids[j]) {
      LessTotal(ids[i], ids[j]);
    }
  }

  /** Who stands in the signature list: in ascending order, whoever may vote and signed a valid block well. */
  ghost predicate HasSigned(c: Codec, standings: map<NodeID, Standing>, a: Sealed, b: Sealed, votes: map<NodeID, Vote>, who: NodeID)
    requires a.header.difficulty <= 256
  {
    var signers := b.header.finalitySignatures;
    && (forall i, j :: 0 <= i < j < |signers| ==> Less(signers[i], signers[j]))
    && (who in signers <==>
        && who in standings && standings[who].active && standings[who].authenticated
        && who in votes && votes[who] == SignsWell && Seals(c, a.header, a.hash))
  }

  lemma SignersListed(c: Codec, standings: map<NodeID, Standing>, a: Sealed, b: Sealed, votes: map<NodeID, Vote>, who: NodeID)
    requires a.header.difficulty <= 256 && IsSigned(c, standings, a, b, votes)
    requires IsFinal(c, standings, a.header, a.hash, votes)
    ensures HasSigned(c, standings, a, b, votes, who)
  {
    InOrder(b.header.finalitySignatures);
  }
}
