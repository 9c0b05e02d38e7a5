/** The validator manager: nodes, validators and challenges updated in place, against `ValidatorSpec`. */
module Validators {
  import opened Basics
  import opened Order
  import opened Quorum
  import opened ProofsOfWork
  import opened ValidatorSpec
  import opened Voting

  class Node {
    const ID: NodeID
    var IsAuthenticated: bool
    var AuthNonce: uint64

    constructor (id: NodeID)
      ensures ID == id && !IsAuthenticated && AuthNonce == 0
    {
      ID, IsAuthenticated, AuthNonce := id, false, 0;
    }

    method Authenticate()
      modifies this`IsAuthenticated
      ensures IsAuthenticated
    {
      IsAuthenticated := true;
    }

    method IncrementAuthNonce()
      modifies this`AuthNonce
      ensures AuthNonce == (old(AuthNonce) + 1) % WORD
    {
      AuthNonce := (AuthNonce + 1) % WORD;
    }
  }

  class Validator {
    const Node: Node
    var Reputation: int64
    var IsActive: bool

    constructor (node: Node, initialReputation: int64)
      ensures Node == node && Reputation == initialReputation && IsActive
    {
      Node, Reputation, IsActive := node, initialReputation, true;
    }

    function Standing(): Standing
      reads this, Node
    {
      ValidatorSpec.Standing.Standing(Reputation, IsActive, Node.IsAuthenticated, Node.AuthNonce)
    }
  }

  /** What the voters find, and whether the stored hash is the header's own. */
  method CheckBlock(c: Codec, header: Header, hash: Bytes) returns (valid: bool, matches: bool)
    requires header.difficulty <= 256
    ensures valid == Seals(c, header, hash) && matches == OwnsHash(c, header, hash)
  {
    var hashToSign := c.hash(PrepareData(c, header, header.nonce));
    matches := hash == hashToSign;
    valid := Validate(c, header, hash);
  }

  method SignOff(c: Codec, block: Block, outcome: Outcome)
    requires block.Header.difficulty <= 256
    modifies block`Header
    ensures IsSignedOff(outcome, old(block.Header), block.Header)
  {
    if outcome.Voted? && outcome.reached {
      var ids := SortedList(outcome.agreeing);
      block.Finalize(c, ids);
    }
  }

  class ValidatorManager {
    var Validators: map<NodeID, Validator>
    var ReputationScores: map<NodeID, int64>
    var PendingChallenges: map<NodeID, Pending>

    /** Every validator's standing, kept equal to the objects by `Wired`, and all objects ever held. */
    ghost var standings: map<NodeID, Standing>
    ghost var owned: set<Validator>
    ghost var members: set<Node>

    /** Validators sit under their nodes' IDs and stand as `standings` says. */
    ghost predicate Wired()
      reads this`Validators, this`standings, this`owned, this`members, owned, members
    {
      && standings.Keys == Validators.Keys
      && forall id :: id in Validators ==> WiredAt(id)
    }

    ghost predicate WiredAt(id: NodeID)
      requires id in Validators
      reads this`Validators, this`standings, this`owned, this`members, owned, members
    {
      && HeldAt(id)
      && id in standings && standings[id] == Validators[id].Standing()
    }

    ghost predicate HeldAt(id: NodeID)
      requires id in Validators
      reads this`Validators, this`owned, this`members
    {
      Validators[id] in owned && Validators[id].Node in members && Validators[id].Node.ID == id
    }

    ghost function Abs(): Registry
      reads this
    {
      Registry(standings, ReputationScores, PendingChallenges)
    }

    constructor ()
      ensures Wired() && Abs() == Registry(map[], map[], map[]) && owned == {} && members == {}
    {
      Validators, ReputationScores, PendingChallenges := map[], map[], map[];
      standings, owned, members := map[], {}, {};
    }

    /** Brings the ghost copy of one validator up to date after its object was written. */
    ghost method Sync(id: NodeID)
      requires id in Validators && standings.Keys == Validators.Keys && HeldAt(id)
      requires forall other :: other in Validators && other != id ==> WiredAt(other)
      modifies this`standings
      ensures Wired() && standings == old(standings)[id := Validators[id].Standing()]
    {
      standings := standings[id := Validators[id].Standing()];
      forall other | other in Validators ensures WiredAt(other) {
        if other != id {
          assert old(WiredAt(other));
        }
      }
    }

    /** A node whose ID is taken is turned away. */
    method AddValidator(node: Node, initialReputation: int64)
      requires Wired()
      modifies this`Validators, this`ReputationScores, this`standings, this`owned, this`members
      ensures Wired()
      ensures Abs() == Add(old(Abs()), node.ID, initialReputation, node.IsAuthenticated, node.AuthNonce)
      ensures members <= old(members) + {node} && forall v :: v in owned ==> v in old(owned) || fresh(v)
    {
      if node.ID in Validators {
        return;
      }
      var validator := new Validator(node, initialReputation);
      Insert(validator);
      ReputationScores := ReputationScores[node.ID := initialReputation];
    }

    method Insert(validator: Validator)
      requires Wired() && validator.Node.ID !in Validators
      modifies this`Validators, this`standings, this`owned, this`members
      ensures Wired() && standings == old(standings)[validator.Node.ID := validator.Standing()]
      ensures owned == old(owned) + {validator} && members == old(members) + {validator.Node}
    {
      var id := validator.Node.ID;
      Validators := Validators[id := validator];
      owned, members := owned + {validator}, members + {validator.Node};
      standings := standings[id := validator.Standing()];
      forall other | other in Validators ensures WiredAt(other) {
        if other != id {
          assert old(WiredAt(other));
        }
      }
    }

    /** Adjusts the validator object alone: floor 1, and a penalty that leaves less than 10 deactivates. */
    static method AdjustObject(v: Validator, change: int64)
      modifies v
      ensures v.Standing() == Adjusted(old(v.Standing()), change)
    {
      var newRep := Int64(v.Reputation + change);
      if newRep < 1 {
        newRep := 1;
      }
      v.Reputation := newRep;
      if change < 0 {
        if newRep < 10 {
          v.IsActive := false;
        }
      }
    }

    method UpdateReputation(id: NodeID, change: int64)
      requires Wired()
      modifies this`ReputationScores, this`standings, owned
      ensures Wired() && Abs() == Adjust(old(Abs()), id, change)
    {
      if id !in Validators {
        return;
      }
      var v := Validators[id];
      assert WiredAt(id);
      AdjustObject(v, change);
      KeepOthers(id);
      Sync(id);
      ReputationScores := ReputationScores[id := v.Reputation];
    }

    /** Writing one validator and its node leaves the others as they were. */
    twostate lemma KeepOthers(id: NodeID)
      requires old(Wired()) && id in Validators
      requires unchanged(`Validators) && unchanged(`standings) && unchanged(`owned) && unchanged(`members)
      requires unchanged(owned - {Validators[id]}) && unchanged(members - {Validators[id].Node})
      ensures standings.Keys == Validators.Keys && HeldAt(id)
      ensures forall other :: other in Validators && other != id ==> WiredAt(other)
    {
      assert old(WiredAt(id));
      forall other | other in Validators && other != id ensures WiredAt(other) {
        assert old(WiredAt(other));
      }
    }

    method SlashValidator(id: NodeID)
      requires Wired()
      modifies this`standings, owned
      ensures Wired() && Abs() == Slash(old(Abs()), id)
    {
      if id !in Validators {
        return;
      }
      assert WiredAt(id);
      SlashObject(Validators[id]);
      KeepOthers(id);
      Sync(id);
    }

    static method SlashObject(v: Validator)
      modifies v`Reputation, v`IsActive
      ensures v.Standing() == Slashed(old(v.Standing()))
    {
      v.Reputation := Int64(v.Reputation - 20);
      if v.Reputation < 10 {
        v.IsActive := false;
      }
    }

    // -------------------------------------------------------------- voting

    /** Active and authenticated validators, in any order. */
    method GetActiveValidatorsForShard() returns (active: seq<NodeID>)
      requires Wired()
      ensures ListsOnce(active, Eligible(standings))
    {
      active := [];
      var todo := Validators.Keys;
      while todo != {}
        invariant todo <= Validators.Keys
        invariant ListsOnce(active, Eligible(standings) - todo)
        decreases todo
      {
        var id :| id in todo;
        todo := todo - {id};
        assert WiredAt(id);
        var v := Validators[id];
        if v.IsActive && v.Node.IsAuthenticated {
          ListOne(active, Eligible(standings) - todo - {id}, id);
          active := active + [id];
          assert Eligible(standings) - todo - {id} + {id} == Eligible(standings) - todo;
          assert Eligible(standings) - (todo + {id}) == Eligible(standings) - todo - {id};
        } else {
          assert Eligible(standings) - (todo + {id}) == Eligible(standings) - todo;
        }
      }
      assert Eligible(standings) - todo == Eligible(standings);
    }

    /** The proposer by random values, whatever the order they come in. */
    method SelectDelegateWithVRF(values: map<NodeID, nat>) returns (best: Option<NodeID>)
      requires Wired()
      ensures IsDelegate(Eligible(standings), values, best)
    {
      var eligible := GetActiveValidatorsForShard();
      best := None;
      if |eligible| == 0 {
        assert Eligible(standings) == {};
        return;
      }
      ghost var done: set<NodeID> := {};
      var todo := set id | id in eligible;
      while todo != {}
        invariant todo + done == Eligible(standings)
        invariant IsDelegate(done, values, best)
        decreases todo
      {
        var id :| id in todo;
        todo, done := todo - {id}, done + {id};
        if id in values && (best.None? || values[id] < values[best.value]) {
          best := Some(id);
        }
      }
      assert done == Eligible(standings);
    }

    method AddReputation(total: int64, id: NodeID, ghost done: set<NodeID>) returns (sum: int64)
      requires Wired() && done <= standings.Keys && id in standings && id !in done
      requires total == Int64(Weight(Reputations(standings), done))
      ensures sum == Int64(Weight(Reputations(standings), done + {id}))
    {
      assert WiredAt(id);
      SumOneMore(standings, done, id);
      sum := Int64(total + Validators[id].Reputation);
    }

    method CalculateAdaptiveThreshold(eligible: seq<NodeID>, ghost ids: set<NodeID>) returns (threshold: int)
      requires Wired() && ListsOnce(eligible, ids) && ids <= standings.Keys
      ensures threshold == Threshold(Int64(Weight(Reputations(standings), ids)))
    {
      if |eligible| == 0 {
        assert ids == {};
        return 0;
      }
      var total: int64 := 0;
      ghost var done: set<NodeID> := {};
      for i := 0 to |eligible|
        invariant ListedTo(eligible, ids, i, done)
        invariant total == Int64(Weight(Reputations(standings), done))
      {
        ListedNext(eligible, ids, i, done);
        total := AddReputation(total, eligible[i], done);
        done := done + {eligible[i]};
      }
      AllListed(eligible, ids, done);
      if total == 0 {
        return 0;
      }
      threshold := TruncDiv(Int64(total * 2), 3);
    }

    /** One voter's turn: its signature counts, costs it reputation, or is missing. */
    method CastVote(id: NodeID, valid: bool, vote: Vote, agreeing: set<NodeID>, votesReputation: int64)
      returns (agreeing': set<NodeID>, votesReputation': int64)
      requires Wired() && id in Validators
      modifies this`ReputationScores, this`standings, owned
      ensures Wired()
      ensures Tally(agreeing', votesReputation', Abs()) ==
        Cast(Tally(agreeing, votesReputation, old(Abs())), id, old(standings)[id].reputation, valid, vote)
    {
      assert WiredAt(id);
      agreeing', votesReputation' := agreeing, votesReputation;
      if !valid {
        return;
      }
      match vote
      case No =>
      case SignFails =>
      case SignsWell =>
        agreeing' := agreeing + {id};
        votesReputation' := Int64(votesReputation + Validators[id].Reputation);
      case SignsBadly =>
        UpdateReputation(id, -5);
    }

    /** The next voter, whichever it is, while those in `todo` have not voted. */
    method TakeTurn(valid: bool, id: NodeID, votes: map<NodeID, Vote>, agreeing: set<NodeID>, votesReputation: int64,
      ghost r: Registry, ghost eligible: set<NodeID>, ghost todo: set<NodeID>)
      returns (agreeing': set<NodeID>, votesReputation': int64)
      requires Wired() && id in todo && todo <= eligible <= r.standings.Keys
      requires Tally(agreeing, votesReputation, Abs()) == TallyOf(r, eligible - todo, valid, votes)
      modifies this`ReputationScores, this`standings, owned
      ensures Wired()
      ensures Tally(agreeing', votesReputation', Abs()) == TallyOf(r, eligible - (todo - {id}), valid, votes)
    {
      TallyOne(r, eligible - todo, id, valid, votes);
      assert eligible - (todo - {id}) == eligible - todo + {id};
      agreeing', votesReputation' := CastVote(id, valid, VoteOf(votes, id), agreeing, votesReputation);
    }

    /** Everyone votes, in whatever order the votes come in; all of them check the same block. */
    method CollectVotes(valid: bool, eligible: set<NodeID>, votes: map<NodeID, Vote>)
      returns (agreeing: set<NodeID>, votesReputation: int64)
      requires Wired() && eligible <= standings.Keys
      modifies this`ReputationScores, this`standings, owned
      ensures Wired()
      ensures Tally(agreeing, votesReputation, Abs()) == TallyOf(old(Abs()), eligible, valid, votes)
    {
      ghost var r := Abs();
      agreeing, votesReputation := {}, 0;
      var todo := eligible;
      TallyNobody(r, valid, votes);
      assert eligible - todo == {};
      while todo != {}
        invariant todo <= eligible && Wired()
        invariant Tally(agreeing, votesReputation, Abs()) == TallyOf(r, eligible - todo, valid, votes)
        decreases todo
      {
        var id :| id in todo;
        agreeing, votesReputation := TakeTurn(valid, id, votes, agreeing, votesReputation, r, eligible, todo);
        todo := todo - {id};
      }
      assert eligible - todo == eligible;
    }

    /** The whole vote on the reputations of its start. */
    method Ballot(eligible: seq<NodeID>, ghost ids: set<NodeID>, valid: bool, votes: map<NodeID, Vote>)
      returns (agreeing: set<NodeID>, reached: bool)
      requires Wired() && ListsOnce(eligible, ids) && ids <= standings.Keys
      modifies this`ReputationScores, this`standings, owned
      ensures Wired() && agreeing == Signers(ids, valid, votes)
      ensures reached == Reached(Reputations(old(standings)), ids, agreeing)
      ensures Abs() == Penalized(old(Abs()), BadSigners(ids, valid, votes))
    {
      var threshold := CalculateAdaptiveThreshold(eligible, ids);
      var voters := set id | id in eligible;
      assert voters == ids;
      var votesReputation;
      agreeing, votesReputation := CollectVotes(valid, voters, votes);
      reached := votesReputation > threshold;
    }

    method Decide(valid: bool, matches: bool, votes: map<NodeID, Vote>)
      returns (outcome: Outcome, eligible: seq<NodeID>)
      requires Wired()
      modifies this`ReputationScores, this`standings, owned
      ensures Wired() && ListsOnce(eligible, Eligible(old(standings)))
      ensures outcome == VerdictOf(old(standings), valid, matches, votes)
      ensures Abs() == AfterVote(old(Abs()), valid, matches, votes)
    {
      eligible := GetActiveValidatorsForShard();
      if |eligible| == 0 {
        assert Eligible(standings) == {};
        return NoEligible, eligible;
      }
      assert eligible[0] in Eligible(standings);
      if !matches {
        return HashMismatch, eligible;
      }
      var agreeing, reached := Ballot(eligible, Eligible(standings), valid, votes);
      return Voted(agreeing, reached), eligible;
    }

    method HoldVote(c: Codec, header: Header, hash: Bytes, votes: map<NodeID, Vote>)
      returns (outcome: Outcome, eligible: seq<NodeID>)
      requires Wired() && header.difficulty <= 256
      modifies this`ReputationScores, this`standings, owned
      ensures Wired() && ListsOnce(eligible, Eligible(old(standings)))
      ensures outcome == OutcomeOf(c, old(standings), header, hash, votes)
      ensures Abs() == AfterBlockVote(c, old(Abs()), header, hash, votes)
    {
      var valid, matches := CheckBlock(c, header, hash);
      outcome, eligible := Decide(valid, matches, votes);
    }

    /** Writing the signatures touches no validator. */
    method RecordSigners(c: Codec, block: Block, outcome: Outcome)
      requires Wired() && block.Header.difficulty <= 256
      modifies block`Header
      ensures Wired()
      ensures IsSignedOff(outcome, old(block.Header), block.Header)
    {
      SignOff(c, block, outcome);
    }

    /**
     * The vote on a block.  Only a block that reached consensus is written to, and only its
     * signature list: the signers, sorted.
     */
    method FinalizeBlockDBFT(c: Codec, block: Block, votes: map<NodeID, Vote>)
      returns (outcome: Outcome, eligible: seq<NodeID>)
      requires Wired() && block.Header.difficulty <= 256
      modifies this`ReputationScores, this`standings, owned, block`Header
      ensures Wired() && ListsOnce(eligible, Eligible(old(standings)))
      ensures outcome == OutcomeOf(c, old(standings), old(block.Header), block.Hash, votes)
      ensures Abs() == AfterBlockVote(c, old(Abs()), old(block.Header), block.Hash, votes)
      ensures IsSignedOff(outcome, old(block.Header), block.Header)
    {
      outcome, eligible := HoldVote(c, block.Header, block.Hash, votes);
      RecordSigners(c, block, outcome);
    }

    // -------------------------------------------------------------- settlement

    method ScoreOne(id: NodeID, change: int64) returns (newRep: int64)
      modifies this`ReputationScores
      ensures newRep == NewScore(old(ReputationScores), id, change)
      ensures ReputationScores == old(ReputationScores)[id := newRep]
    {
      var currentRep := if id in ReputationScores then ReputationScores[id] else 0;
      newRep := Int64(currentRep + change);
      if newRep < 1 {
        newRep := 1;
      }
      ReputationScores := ReputationScores[id := newRep];
    }

    method StoreReputation(id: NodeID, reputation: int64)
      requires Wired()
      modifies this`standings, owned
      ensures Wired() && standings == WithReputation(old(standings), id, reputation)
    {
      if id in Validators {
        assert WiredAt(id);
        Validators[id].Reputation := reputation;
        KeepOthers(id);
        Sync(id);
      }
    }

    /** One voter's new reputation, from its score. */
    method SettleOne(id: NodeID, change: int64)
      requires Wired()
      modifies this`ReputationScores, this`standings, owned
      ensures Wired() && Abs() == Settle(old(Abs()), id, change)
    {
      var newRep := ScoreOne(id, change);
      StoreReputation(id, newRep);
    }

    /** After the vote: everyone who was eligible, one after the other. */
    method SettleVote(voters: seq<NodeID>, reached: bool, agreeing: set<NodeID>)
      requires Wired()
      modifies this`ReputationScores, this`standings, owned
      ensures Wired() && Abs() == Settled(old(Abs()), voters, reached, agreeing, |voters|)
    {
      for i := 0 to |voters|
        invariant Wired() && Abs() == Settled(old(Abs()), voters, reached, agreeing, i)
      {
        var agreed := voters[i] in agreeing;
        var change := 0;
        if reached {
          change := if agreed then 1 else -2;
        } else if !agreed {
          change := -1;
        }
        SettleOne(voters[i], change);
      }
    }

    // -------------------------------------------------------------- challenges

    method AuthenticateNode(id: NodeID)
      requires Wired()
      modifies this`standings, members
      ensures Wired() && Abs() == Authenticated(old(Abs()), id)
    {
      if id in Validators {
        assert WiredAt(id);
        Validators[id].Node.Authenticate();
        KeepOthers(id);
        Sync(id);
      }
    }

    /** The challenge expects the node's current nonce. */
    method ChallengeValidator(id: NodeID, data: Bytes, now: int) returns (ok: bool)
      requires Wired()
      modifies this`PendingChallenges
      ensures Wired() && ok == MayChallenge(old(Abs()), id) && Abs() == Challenge(old(Abs()), id, data, now)
    {
      if id !in Validators {
        return false;
      }
      if id in PendingChallenges {
        return false;
      }
      assert WiredAt(id);
      var nonce := Validators[id].Node.AuthNonce;
      PendingChallenges := PendingChallenges[id := Pending(data, nonce, now + CHALLENGE_TIMEOUT)];
      return true;
    }

    /** A validator that proved its key: rewarded, active, authenticated, its nonce used up. */
    static method WelcomeObject(v: Validator)
      modifies v, v.Node
      ensures v.Standing() == Welcomed(old(v.Standing()))
    {
      AdjustObject(v, 2);
      if !v.IsActive {
        v.IsActive := true;
      }
      v.Node.Authenticate();
      v.Node.IncrementAuthNonce();
    }

    method Welcome(id: NodeID)
      requires Wired() && id in Validators
      modifies this`ReputationScores, this`standings, owned, members
      ensures Wired() && standings == old(standings)[id := Welcomed(old(standings)[id])]
      ensures ReputationScores == old(ReputationScores)[id := Welcomed(old(standings)[id]).reputation]
    {
      assert WiredAt(id);
      var v := Validators[id];
      WelcomeObject(v);
      KeepOthers(id);
      Sync(id);
      ReputationScores := ReputationScores[id := v.Reputation];
    }

    /** The challenge is gone and the validator penalized. */
    method Fail(id: NodeID, penalty: int64)
      requires Wired()
      modifies this`PendingChallenges, this`ReputationScores, this`standings, owned
      ensures Wired() && Abs() == Adjust(old(Abs()).(pending := old(PendingChallenges) - {id}), id, penalty)
    {
      PendingChallenges := PendingChallenges - {id};
      UpdateReputation(id, penalty);
    }

    /**
     * Expiry is checked first.  The challenge is used up by the first answer, right or wrong, but
     * stays when the validator is gone.
     */
    method Conclude(id: NodeID, proved: bool, now: int) returns (ok: bool)
      requires Wired()
      modifies this`PendingChallenges, this`ReputationScores, this`standings, owned, members
      ensures Wired() && ok == (InTime(old(Abs()), id, now) && proved)
      ensures Abs() == Answered(old(Abs()), id, proved, now)
    {
      if id !in PendingChallenges {
        return false;
      }
      if now > PendingChallenges[id].expiry {
        Fail(id, -5);
        return false;
      }
      if id !in Validators {
        return false;
      }
      if !proved {
        Fail(id, -10);
        return false;
      }
      PendingChallenges := PendingChallenges - {id};
      Welcome(id);
      return true;
    }

    method VerifyResponse(s: Signing, id: NodeID, response: Bytes, now: int) returns (ok: bool)
      requires Wired()
      modifies this`PendingChallenges, this`ReputationScores, this`standings, owned, members
      ensures Wired() && ok == Accepts(s, old(Abs()), id, response, now)
      ensures Abs() == Answer(s, old(Abs()), id, response, now)
    {
      var proved := false;
      if id in PendingChallenges {
        var pending := PendingChallenges[id];
        var expectedHash := s.hash(pending.data + BigEndian64(pending.expectedNonce));
        proved := s.verifies(id, expectedHash, response);
      }
      ok := Conclude(id, proved, now);
    }

    /** Drops what has expired and says whom to penalize. */
    method CleanupExpiredChallenges(now: int) returns (late: set<NodeID>)
      requires Wired()
      modifies this`PendingChallenges
      ensures Wired() && Abs() == Expire(old(Abs()), now)
      ensures late == old(PendingChallenges).Keys - PendingChallenges.Keys
    {
      late := {};
      var all := PendingChallenges;
      var todo := all.Keys;
      while todo != {}
        invariant todo <= all.Keys
        invariant forall id :: id in late <==> id in all.Keys - todo && now > all[id].expiry
        invariant PendingChallenges == all - late
        decreases todo
      {
        var id :| id in todo;
        if now > all[id].expiry {
          PendingChallenges := PendingChallenges - {id};
          late := late + {id};
        }
        todo := todo - {id};
      }
      assert PendingChallenges == Expire(old(Abs()), now).pending;
    }

    /** The penalties for them, in whatever order they come. */
    method PenalizeLate(late: set<NodeID>)
      requires Wired()
      modifies this`ReputationScores, this`standings, owned
      ensures Wired() && Abs() == Penalized(old(Abs()), late)
    {
      ghost var r, done := Abs(), {};
      PenalizeNobody(r);
      var todo := late;
      while todo != {}
        invariant Wired() && done + todo == late && done !! todo
        invariant Abs() == Penalized(r, done)
        decreases todo
      {
        var id :| id in todo;
        PenalizeOne(r, done, id);
        UpdateReputation(id, -5);
        todo, done := todo - {id}, done + {id};
      }
      assert done == late;
    }
  }

  /** Who signed, what their signatures weigh, and the registry with the penalties so far. */
  datatype Tally = Tally(agreeing: set<NodeID>, weight: int, now: Registry)

  /** The votes of `done` are in. */
  ghost function TallyOf(r: Registry, done: set<NodeID>, valid: bool, votes: map<NodeID, Vote>): Tally
    requires done <= r.standings.Keys
  {
    var agreeing := Signers(done, valid, votes);
    Tally(agreeing, Int64(Weight(Reputations(r.standings), agreeing)), Penalized(r, BadSigners(done, valid, votes)))
  }

  /** One more vote. */
  ghost function Cast(t: Tally, id: NodeID, reputation: int64, valid: bool, vote: Vote): Tally {
    if valid && vote == SignsWell then t.(agreeing := t.agreeing + {id}, weight := Int64(t.weight + reputation))
    else if valid && vote == SignsBadly then t.(now := Adjust(t.now, id, -5))
    else t
  }

  lemma TallyNobody(r: Registry, valid: bool, votes: map<NodeID, Vote>)
    ensures TallyOf(r, {}, valid, votes) == Tally({}, 0, r)
  {
    PenalizeNobody(r);
    assert BadSigners({}, valid, votes) == {};
  }

  lemma TallyOne(r: Registry, done: set<NodeID>, id: NodeID, valid: bool, votes: map<NodeID, Vote>)
    requires id in r.standings && id !in done && done <= r.standings.Keys
    ensures
      var t := TallyOf(r, done, valid, votes);
      && id in t.now.standings && t.now.standings[id] == r.standings[id]
      && TallyOf(r, done + {id}, valid, votes) == Cast(t, id, r.standings[id].reputation, valid, VoteOf(votes, id))
  {
    VoteCounted(r, Reputations(r.standings), done, id, valid, votes);
  }

  /** What one more vote does to the signers, to their weight and to the penalties. */
  lemma VoteCounted(r: Registry, w: map<NodeID, int>, done: set<NodeID>, id: NodeID, valid: bool, votes: map<NodeID, Vote>)
    requires w == Reputations(r.standings) && id in r.standings && done <= r.standings.Keys && id !in done
    ensures id in Penalized(r, BadSigners(done, valid, votes)).standings
    ensures Penalized(r, BadSigners(done, valid, votes)).standings[id] == r.standings[id]
    ensures
      var signs := valid && VoteOf(votes, id) == SignsWell;
      && Signers(done + {id}, valid, votes) == (if signs then Signers(done, valid, votes) + {id} else Signers(done, valid, votes))
      && Int64(Weight(w, Signers(done + {id}, valid, votes))) ==
        if signs then Int64(Int64(Weight(w, Signers(done, valid, votes))) + r.standings[id].reputation)
        else Int64(Weight(w, Signers(done, valid, votes)))
    ensures
      var before, after := BadSigners(done, valid, votes), BadSigners(done + {id}, valid, votes);
      Penalized(r, after) ==
        if valid && VoteOf(votes, id) == SignsBadly then Adjust(Penalized(r, before), id, -5) else Penalized(r, before)
  {
    var signers, bad := Signers(done, valid, votes), BadSigners(done, valid, votes);
    if valid && VoteOf(votes, id) == SignsWell {
      assert Signers(done + {id}, valid, votes) == signers + {id};
      WeightAdd(w, signers, id);
      Int64Sum(Weight(w, signers), w[id]);
    } else {
      assert Signers(done + {id}, valid, votes) == signers;
    }
    if valid && VoteOf(votes, id) == SignsBadly {
      assert BadSigners(done + {id}, valid, votes) == bad + {id};
      PenalizeOne(r, bad, id);
    } else {
      assert BadSigners(done + {id}, valid, votes) == bad;
    }
  }

  /** The first i of the list. */
  ghost predicate ListedTo(list: seq<NodeID>, ids: set<NodeID>, i: nat, done: set<NodeID>)
    requires i <= |list|
  {
    done <= ids && forall id :: id in done <==> id in list[..i]
  }

  lemma ListedNext(list: seq<NodeID>, ids: set<NodeID>, i: nat, done: set<NodeID>)
    requires i < |list| && ListsOnce(list, ids) && ListedTo(list, ids, i, done)
    ensures list[i] in ids && list[i] !in done && ListedTo(list, ids, i + 1, done + {list[i]})
  {
    assert list[..i + 1] == list[..i] + [list[i]];
  }

  lemma AllListed(list: seq<NodeID>, ids: set<NodeID>, done: set<NodeID>)
    requires ListsOnce(list, ids) && ListedTo(list, ids, |list|, done)
    ensures done == ids
  {
    assert list[..|list|] == list;
  }

  lemma SumOneMore(standings: map<NodeID, Standing>, done: set<NodeID>, id: NodeID)
    requires done <= standings.Keys && id in standings && id !in done
    ensures Int64(Int64(Weight(Reputations(standings), done)) + standings[id].reputation)
      == Int64(Weight(Reputations(standings), done + {id}))
  {
    WeightAdd(Reputations(standings), done, id);
    Int64Sum(Weight(Reputations(standings), done), standings[id].reputation);
  }

  /** The sequence names every member of the set, each once. */
  ghost predicate ListsOnce(ids: seq<NodeID>, s: set<NodeID>) {
    && (forall id :: id in ids <==> id in s)
    && forall i, j :: 0 <= i < j < |ids| ==> ids[i] != ids[j]
  }

  lemma ListOne(ids: seq<NodeID>, s: set<NodeID>, id: NodeID)
    requires ListsOnce(ids, s) && id !in s
    ensures ListsOnce(ids + [id], s + {id})
  {
  }
}
