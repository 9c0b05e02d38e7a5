/** Runs of the validator manager: every interleaving of its atomic operations. */
module ValidatorRuns {
  import opened Basics
  import opened Quorum
  import opened ValidatorSpec

  /** A response that was accepted, with the challenge it answered. */
  datatype Acceptance = Acceptance(id: NodeID, challenge: Pending, response: Bytes)

  /** The registry and, in order, everything it ever accepted. */
  datatype World = World(r: Registry, log: seq<Acceptance>)

  datatype Step =
    | AddValidator(id: NodeID, reputation: int64, authenticated: bool)
    | UpdateReputation(id: NodeID, change: int64)
    | SlashValidator(id: NodeID)
    | SettleVote(voters: seq<NodeID>, reached: bool, agreeing: set<NodeID>)
    | Authenticate(id: NodeID)
    | ChallengeValidator(id: NodeID, data: Bytes, now: int)
    | VerifyResponse(id: NodeID, response: Bytes, now: int)
    | CleanupExpired(now: int)

  /** Validators join with a reputation of at least 1; challenges are 32 random bytes. */
  predicate Enabled(step: Step) {
    match step
    case AddValidator(_, reputation, _) => reputation >= 1
    case ChallengeValidator(_, data, _) => |data| == 32
    case _ => true
  }

  function NextRegistry(s: Signing, r: Registry, step: Step): Registry {
    match step
    case AddValidator(id, reputation, authenticated) => Add(r, id, reputation, authenticated, 0)
    case UpdateReputation(id, change) => Adjust(r, id, change)
    case SlashValidator(id) => Slash(r, id)
    case SettleVote(voters, reached, agreeing) => Settled(r, voters, reached, agreeing, |voters|)
    case Authenticate(id) => Authenticated(r, id)
    case ChallengeValidator(id, data, now) => Challenge(r, id, data, now)
    case VerifyResponse(id, response, now) => Answer(s, r, id, response, now)
    case CleanupExpired(now) => Expire(r, now)
  }

  function NextLog(s: Signing, w: World, step: Step): seq<Acceptance> {
    if step.VerifyResponse? && Accepts(s, w.r, step.id, step.response, step.now) then
      w.log + [Acceptance(step.id, w.r.pending[step.id], step.response)]
    else w.log
  }

  function Next(s: Signing, w: World, step: Step): World {
    World(NextRegistry(s, w.r, step), NextLog(s, w, step))
  }

  const START := World(Registry(map[], map[], map[]), [])

  ghost predicate IsRun(s: Signing, worlds: seq<World>, steps: seq<Step>) {
    && |worlds| == |steps| + 1 && worlds[0] == START
    && forall i :: 0 <= i < |steps| ==> GoesAt(s, worlds, steps, i)
  }

  ghost predicate GoesAt(s: Signing, worlds: seq<World>, steps: seq<Step>, i: int)
    requires 0 <= i < |steps| && i + 1 < |worlds|
  {
    Enabled(steps[i]) && worlds[i + 1] == Next(s, worlds[i], steps[i])
  }

  // ---------------------------------------------------------------- what every run keeps

  /** How many responses of a node the first k entries hold. */
  function Count(log: seq<Acceptance>, id: NodeID, k: nat): (n: nat)
    requires k <= |log|
    ensures n <= k
  {
    if k == 0 then 0 else Count(log, id, k - 1) + if log[k - 1].id == id then 1 else 0
  }

  lemma {:induction false} CountPrefix(log: seq<Acceptance>, more: seq<Acceptance>, id: NodeID, k: nat)
    requires k <= |log| && log <= more
    ensures Count(log, id, k) == Count(more, id, k)
  {
    if k > 0 {
      CountPrefix(log, more, id, k - 1);
    }
  }

  /** A node's nonce is the number of its accepted responses, in 64 bits. */
  ghost predicate NoncesCount(w: World) {
    && (forall id :: id in w.r.standings ==> w.r.standings[id].nonce == Count(w.log, id, |w.log|) % WORD)
    && (forall k :: 0 <= k < |w.log| ==> w.log[k].id in w.r.standings)
  }

  /** The k-th acceptance verified, under a nonce that counts those before it. */
  ghost predicate ProperAt(s: Signing, log: seq<Acceptance>, k: int)
    requires 0 <= k < |log|
  {
    var a := log[k];
    && s.verifies(a.id, s.hash(Signed(a.challenge)), a.response)
    && |a.challenge.data| == 32
    && a.challenge.expectedNonce == Count(log, a.id, k) % WORD
  }

  ghost predicate Proper(s: Signing, log: seq<Acceptance>) {
    forall k :: 0 <= k < |log| ==> ProperAt(s, log, k)
  }

  ghost predicate Kept(s: Signing, w: World) {
    Sound(w.r) && NoncesCount(w) && Proper(s, w.log)
  }

  lemma {:induction false} CountAbsent(log: seq<Acceptance>, id: NodeID, k: nat)
    requires k <= |log| && forall i :: 0 <= i < k ==> log[i].id != id
    ensures Count(log, id, k) == 0
  {
    if k > 0 {
      CountAbsent(log, id, k - 1);
    }
  }

  lemma AddKeeps(s: Signing, w: World, id: NodeID, reputation: int64, authenticated: bool)
    requires Kept(s, w) && reputation >= 1
    ensures Kept(s, Next(s, w, AddValidator(id, reputation, authenticated)))
  {
    if id !in w.r.standings {
      CountAbsent(w.log, id, |w.log|);
    }
  }

  /** A step that accepts nothing and changes no nonce. */
  lemma QuietKeeps(s: Signing, w: World, r: Registry)
    requires Kept(s, w) && Sound(r) && r.standings.Keys == w.r.standings.Keys
    requires forall id :: id in r.standings ==> r.standings[id].nonce == w.r.standings[id].nonce
    ensures Kept(s, World(r, w.log))
  {
  }

  lemma CountNext(log: seq<Acceptance>, a: Acceptance, id: NodeID)
    ensures Count(log + [a], id, |log| + 1) == Count(log, id, |log|) + if a.id == id then 1 else 0
  {
    CountPrefix(log, log + [a], id, |log|);
  }

  lemma ProperNext(s: Signing, log: seq<Acceptance>, a: Acceptance)
    requires Proper(s, log) && |a.challenge.data| == 32
    requires s.verifies(a.id, s.hash(Signed(a.challenge)), a.response)
    requires a.challenge.expectedNonce == Count(log, a.id, |log|) % WORD
    ensures Proper(s, log + [a])
  {
    var more := log + [a];
    forall k | 0 <= k < |more| ensures ProperAt(s, more, k) {
      CountPrefix(log, more, more[k].id, k);
      if k < |log| {
        assert ProperAt(s, log, k);
      }
    }
  }

  lemma AcceptCounts(s: Signing, w: World, id: NodeID, response: Bytes, now: int)
    requires Kept(s, w) && Accepts(s, w.r, id, response, now)
    ensures NoncesCount(Next(s, w, VerifyResponse(id, response, now)))
  {
    var a := Acceptance(id, w.r.pending[id], response);
    var v := Next(s, w, VerifyResponse(id, response, now));
    NextWraps(Count(w.log, id, |w.log|));
    forall other | other in v.r.standings ensures v.r.standings[other].nonce == Count(v.log, other, |v.log|) % WORD {
      CountNext(w.log, a, other);
    }
    assert v.r.standings.Keys == w.r.standings.Keys;
  }

  lemma AcceptKeeps(s: Signing, w: World, id: NodeID, response: Bytes, now: int)
    requires Kept(s, w) && Accepts(s, w.r, id, response, now)
    ensures Kept(s, Next(s, w, VerifyResponse(id, response, now)))
  {
    AnswerSound(s, w.r, id, response, now);
    ProperNext(s, w.log, Acceptance(id, w.r.pending[id], response));
    AcceptCounts(s, w, id, response, now);
  }

  lemma RefusalKeeps(s: Signing, w: World, id: NodeID, response: Bytes, now: int)
    requires Kept(s, w) && !Accepts(s, w.r, id, response, now)
    ensures Kept(s, Next(s, w, VerifyResponse(id, response, now)))
  {
    AnswerSound(s, w.r, id, response, now);
    QuietKeeps(s, w, Answer(s, w.r, id, response, now));
  }

  /** Reputation changes, authentication, new and expiring challenges. */
  lemma OtherKeeps(s: Signing, w: World, step: Step)
    requires Kept(s, w) && !step.AddValidator? && !step.VerifyResponse? && Enabled(step)
    ensures Kept(s, Next(s, w, step))
  {
    var r := NextRegistry(s, w.r, step);
    if step.UpdateReputation? {
      AdjustSound(w.r, step.id, step.change);
    } else if step.SlashValidator? && step.id in w.r.standings {
      SlashedPositive(w.r.standings[step.id]);
    } else if step.SettleVote? {
      SettledSound(w.r, step.voters, step.reached, step.agreeing, |step.voters|);
    }
    QuietKeeps(s, w, r);
  }

  lemma StepKeeps(s: Signing, w: World, step: Step)
    requires Kept(s, w) && Enabled(step)
    ensures Kept(s, Next(s, w, step))
  {
    match step
    case AddValidator(id, reputation, authenticated) =>
      AddKeeps(s, w, id, reputation, authenticated);
    case VerifyResponse(id, response, now) =>
      if Accepts(s, w.r, id, response, now) {
        AcceptKeeps(s, w, id, response, now);
      } else {
        RefusalKeeps(s, w, id, response, now);
      }
    case _ =>
      OtherKeeps(s, w, step);
  }

  /**
   * In every run: active validators have a reputation of at least 1, every pending challenge expects
   * its validator's current nonce, and nonces count accepted responses.
   */
  lemma {:induction false} RunKeeps(s: Signing, worlds: seq<World>, steps: seq<Step>, i: nat)
    requires IsRun(s, worlds, steps) && i < |worlds|
    ensures Kept(s, worlds[i])
  {
    if i > 0 {
      RunKeeps(s, worlds, steps, i - 1);
      assert GoesAt(s, worlds, steps, i - 1);
      StepKeeps(s, worlds[i - 1], steps[i - 1]);
    }
  }

  // ---------------------------------------------------------------- replay

  /** A signature verifies for one message of one node at most. */
  ghost predicate Ideal(s: Signing) {
    forall id, m, n, sig :: s.verifies(id, m, sig) && s.verifies(id, n, sig) ==> m == n
  }

  lemma {:induction false} CountMonotone(log: seq<Acceptance>, id: NodeID, i: nat, j: nat)
    requires i < j <= |log| && log[i].id == id
    ensures Count(log, id, i) < Count(log, id, j)
    decreases j
  {
    if i + 1 < j {
      CountMonotone(log, id, i, j - 1);
    }
  }

  /**
   * A response accepted once is refused ever after, unless the hash collides on the two signed
   * challenges or the nonce has gone all the way round in between.
   */
  lemma NoReplay(s: Signing, worlds: seq<World>, steps: seq<Step>, k: nat, i: nat, j: nat)
    requires IsRun(s, worlds, steps) && Ideal(s) && k < |worlds|
    requires i < j < |worlds[k].log|
    requires worlds[k].log[i].id == worlds[k].log[j].id && worlds[k].log[i].response == worlds[k].log[j].response
    ensures
      var log := worlds[k].log;
      || Collides(s.hash, Signed(log[i].challenge), Signed(log[j].challenge))
      || Count(log, log[i].id, j) - Count(log, log[i].id, i) >= WORD
  {
    RunKeeps(s, worlds, steps, k);
    var log := worlds[k].log;
    var a, b := log[i], log[j];
    assert ProperAt(s, log, i) && ProperAt(s, log, j);
    assert s.hash(Signed(a.challenge)) == s.hash(Signed(b.challenge));
    CountMonotone(log, a.id, i, j);
    if Signed(a.challenge) == Signed(b.challenge) {
      SignedInjective(a.challenge, b.challenge);
      SameResidue(Count(log, a.id, i), Count(log, a.id, j));
    }
  }

  lemma SameResidue(m: nat, n: nat)
    requires m < n && m % WORD == n % WORD
    ensures n - m >= WORD
  {
    var p, q := m / WORD, n / WORD;
    assert m == p * WORD + m % WORD && n == q * WORD + n % WORD;
    assert n - m == (q - p) * WORD;
  }

  lemma SignedInjective(a: Pending, b: Pending)
    requires |a.data| == |b.data| && Signed(a) == Signed(b)
    ensures a.data == b.data && a.expectedNonce == b.expectedNonce
  {
    assert a.data == Signed(a)[..|a.data|] && b.data == Signed(b)[..|b.data|];
    assert BigEndian64(a.expectedNonce) == Signed(a)[|a.data|..] && BigEndian64(b.expectedNonce) == Signed(b)[|b.data|..];
    BigEndian64Injective(a.expectedNonce, b.expectedNonce);
  }

  lemma BigEndian64Injective(m: uint64, n: uint64)
    requires BigEndian64(m) == BigEndian64(n)
    ensures m == n
  {
    var x, y := BigEndian64(m), BigEndian64(n);
    assert x[0] == y[0] && x[1] == y[1] && x[2] == y[2] && x[3] == y[3];
    assert x[4] == y[4] && x[5] == y[5] && x[6] == y[6] && x[7] == y[7];
    SameQuotient(m, n, 0x100_0000_0000_0000);
    SameQuotient(m, n, 0x1_0000_0000_0000);
    SameQuotient(m, n, 0x100_0000_0000);
    SameQuotient(m, n, 0x1_0000_0000);
    SameQuotient(m, n, 0x100_0000);
    SameQuotient(m, n, 0x1_0000);
    SameQuotient(m, n, 0x100);
    SameQuotient(m, n, 1);
  }

  predicate IsUnit(unit: nat) {
    unit in {1, 0x100, 0x1_0000, 0x100_0000, 0x1_0000_0000, 0x100_0000_0000, 0x1_0000_0000_0000,
      0x100_0000_0000_0000}
  }

  lemma SameQuotient(m: uint64, n: uint64, unit: nat)
    requires IsUnit(unit)
    requires m / (0x100 * unit) == n / (0x100 * unit) && Octet(m, unit) == Octet(n, unit)
    ensures m / unit == n / unit
  {
    OctetStep(m, unit);
    OctetStep(n, unit);
  }

  lemma OctetStep(n: uint64, unit: nat)
    requires IsUnit(unit)
    ensures n / unit == 0x100 * (n / (0x100 * unit)) + Octet(n, unit)
  {
  }

  // ---------------------------------------------------------------- attestation

  /**
   * The periodic attestation signs the challenge alone, where verification expects the hash of
   * challenge and nonce.  With ideal signatures it succeeds exactly when the two happen to be equal.
   */
  lemma AttestationRefused(s: Signing, r: Registry, id: NodeID, response: Bytes, now: int)
    requires Ideal(s) && id in r.pending && id in r.standings && now <= r.pending[id].expiry
    requires s.verifies(id, r.pending[id].data, response)
    ensures Accepts(s, r, id, response, now) <==> s.hash(Signed(r.pending[id])) == r.pending[id].data
  {
  }
}
