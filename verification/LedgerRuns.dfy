/**
 * One shard's chain: any number of miners read the head, mine on it and later try to append, while
 * the chain is pruned and validators come, go and change in between.
 */
module LedgerRuns {
  import opened Basics
  import opened ClockLattice
  import opened Merkle
  import opened Quorum
  import opened ProofsOfWork
  import opened ValidatorSpec
  import opened Voting

  /** A block as it is stored: nobody writes to it any more. */
  datatype Sealed = Sealed(header: Header, hash: Bytes)

  /** What a miner reads before mining. */
  datatype Head = Head(hash: Bytes, height: uint64)

  /** `seen` is how many blocks the chain had ever had when the head was read. */
  datatype Phase =
    | Idle
    | HasRead(head: Head, seen: nat)
    | HasBlock(block: Sealed, seen: nat)

  /** `history` holds every block the chain ever had, pruned ones included. */
  datatype World = World(chain: seq<Sealed>, history: seq<Sealed>, miners: map<nat, Phase>, r: Registry)

  /** `Elsewhere` is anything else that happens to the validators. */
  datatype Step =
    | ReadHead(miner: nat)
    | Mine(miner: nat, block: Sealed, votes: map<NodeID, Vote>)
    | Abandon(miner: nat)
    | Append(miner: nat)
    | Prune(keep: nat)
    | Elsewhere(r: Registry)

  /** An empty chain reads as height 0 with no hash. */
  function HeadOf(chain: seq<Sealed>): Head {
    if chain == [] then Head([], 0) else Head(Last(chain).hash, Last(chain).header.height)
  }

  /** The clock a miner hands on from the head. */
  function ClockOf(chain: seq<Sealed>): Option<Clock<uint64>> {
    if chain == [] then Some(map[]) else Last(chain).header.vectorClock
  }

  function HeightAbove(head: Head): uint64 {
    (head.height + 1) % WORD
  }

  predicate OnHead(head: Head, b: Sealed) {
    b.header.prevBlockHash == head.hash && b.header.height == HeightAbove(head)
  }

  /**
   * What comes out of mining on a head: proposed on it with what the nonce search found, and final by
   * the vote of the validators then.
   */
  ghost predicate IsCandidate(c: Codec, standings: map<NodeID, Standing>, head: Head, b: Sealed, votes: map<NodeID, Vote>) {
    && OnHead(head, b) && |b.header.merkleRoot| == 32
    && b.header.difficulty <= 256 && Searched(c, b.header, b.hash)
    && IsFinal(c, standings, b.header, b.hash, votes)
  }

  /** The check made when appending; above height 1 it looks at the hash only. */
  predicate Links(chain: seq<Sealed>, b: Sealed) {
    if b.header.height == 1 then
      chain != [] && Last(chain).header.height == 0 && Last(chain).hash == b.header.prevBlockHash
    else
      chain != [] && Last(chain).hash == b.header.prevBlockHash
  }

  /** The check in full: the head's hash is the parent's, and a block of height 1 sits on one of height 0. */
  lemma LinksInFull(chain: seq<Sealed>, b: Sealed)
    ensures Links(chain, b) <==>
      && chain != [] && chain[|chain| - 1].hash == b.header.prevBlockHash
      && (b.header.height == 1 ==> chain[|chain| - 1].header.height == 0)
  {
  }

  function Pruned(chain: seq<Sealed>, keep: nat): seq<Sealed> {
    if |chain| <= keep then chain else chain[|chain| - keep..]
  }

  function PhaseOf(w: World, miner: nat): Phase {
    if miner in w.miners then w.miners[miner] else Idle
  }

  ghost predicate Enabled(c: Codec, w: World, step: Step) {
    match step
    case ReadHead(_) => true
    case Mine(miner, block, votes) =>
      PhaseOf(w, miner).HasRead? && IsCandidate(c, w.r.standings, PhaseOf(w, miner).head, block, votes)
    case Abandon(_) => true
    case Append(miner) => PhaseOf(w, miner).HasBlock?
    case Prune(keep) => keep >= 1
    case Elsewhere(_) => true
  }

  ghost function Next(c: Codec, w: World, step: Step): World
    requires Enabled(c, w, step)
  {
    match step
    case ReadHead(miner) => w.(miners := w.miners[miner := HasRead(HeadOf(w.chain), |w.history|)])
    case Mine(miner, block, votes) =>
      w.(miners := w.miners[miner := HasBlock(block, PhaseOf(w, miner).seen)],
         r := AfterBlockVote(c, w.r, block.header, block.hash, votes))
    case Abandon(miner) => w.(miners := w.miners[miner := Idle])
    case Append(miner) =>
      var b := PhaseOf(w, miner).block;
      var idle := w.miners[miner := Idle];
      if Links(w.chain, b) then World(w.chain + [b], w.history + [b], idle, w.r) else w.(miners := idle)
    case Prune(keep) => w.(chain := Pruned(w.chain, keep))
    case Elsewhere(r) => w.(r := r)
  }

  ghost predicate GoesAt(c: Codec, worlds: seq<World>, steps: seq<Step>, i: int)
    requires 0 <= i < |steps| && i + 1 < |worlds|
  {
    Enabled(c, worlds[i], steps[i]) && worlds[i + 1] == Next(c, worlds[i], steps[i])
  }

  /** A shard's first block: no parent, height 0, one transaction, whether its nonce search succeeded or not. */
  ghost predicate IsGenesis(c: Codec, coinbase: Bytes, g: Sealed) {
    && g.header.prevBlockHash == [] && g.header.height == 0
    && |g.header.stateRoot| == 32 && g.header.merkleRoot == RootHash(c.hash, [coinbase])
    && g.hash == HashAt(c, g.header, Tried(g.header.nonce))
  }

  /** A run from a genesis block, or from nothing. */
  ghost predicate IsRun(c: Codec, coinbase: Bytes, worlds: seq<World>, steps: seq<Step>) {
    && |worlds| == |steps| + 1
    && Starts(c, coinbase, worlds[0])
    && forall i :: 0 <= i < |steps| ==> GoesAt(c, worlds, steps, i)
  }

  ghost predicate Starts(c: Codec, coinbase: Bytes, w: World) {
    && w.history == w.chain && |w.chain| <= 1 && w.miners == map[]
    && (w.chain != [] ==> IsGenesis(c, coinbase, w.chain[0]))
  }

  // ---------------------------------------------------------------- the invariant

  ghost predicate LinkedAt(history: seq<Sealed>, i: int)
    requires 0 < i < |history|
  {
    OnHead(Head(history[i - 1].hash, history[i - 1].header.height), history[i])
  }

  /** Each of the first n blocks names the one before it and is one higher. */
  ghost predicate LinkedTo(history: seq<Sealed>, n: nat)
    requires n <= |history|
  {
    forall i :: 0 < i < n ==> LinkedAt(history, i)
  }

  ghost predicate Owned(c: Codec, b: Sealed) {
    |b.header.merkleRoot| == 32 && OwnsHash(c, b.header, b.hash)
  }

  ghost predicate OwnedAt(c: Codec, history: seq<Sealed>, i: int)
    requires 0 <= i < |history|
  {
    Owned(c, history[i])
  }

  /** Each of the first n blocks but the genesis block carries its own hash. */
  ghost predicate OwnedTo(c: Codec, history: seq<Sealed>, n: nat)
    requires n <= |history|
  {
    forall i :: 0 < i < n ==> OwnedAt(c, history, i)
  }

  /** The chain is the history with a beginning cut off, never all of it. */
  ghost predicate IsTail(chain: seq<Sealed>, history: seq<Sealed>) {
    && |chain| <= |history|
    && (history != [] ==> chain != [])
    && chain == history[|history| - |chain|..]
  }

  ghost predicate SeenGood(history: seq<Sealed>, seen: nat) {
    seen <= |history| && (history != [] ==> seen > 0)
  }

  /** The head that a miner saw, from the history. */
  function HeadAt(history: seq<Sealed>, seen: nat): Head
    requires seen <= |history|
  {
    if seen == 0 then Head([], 0) else Head(history[seen - 1].hash, history[seen - 1].header.height)
  }

  /** What a miner holds goes back to the block that was the head when it read. */
  ghost predicate PhaseGood(c: Codec, history: seq<Sealed>, p: Phase) {
    match p
    case Idle => true
    case HasRead(head, seen) => SeenGood(history, seen) && head == HeadAt(history, seen)
    case HasBlock(b, seen) => SeenGood(history, seen) && OnHead(HeadAt(history, seen), b) && Owned(c, b)
  }

  ghost predicate MinerGoodAt(c: Codec, w: World, m: nat) {
    m in w.miners ==> PhaseGood(c, w.history, w.miners[m])
  }

  ghost predicate MinersGood(c: Codec, w: World) {
    forall m :: MinerGoodAt(c, w, m)
  }

  ghost predicate Safe(c: Codec, w: World) {
    && IsTail(w.chain, w.history)
    && LinkedTo(w.history, |w.history|) && OwnedTo(c, w.history, |w.history|)
    && MinersGood(c, w)
  }

  /** The first n blocks have distinct hashes. */
  ghost predicate DistinctTo(history: seq<Sealed>, n: nat)
    requires n <= |history|
  {
    forall i, j :: 0 <= i < j < n ==> history[i].hash != history[j].hash
  }

  lemma TailHead(chain: seq<Sealed>, history: seq<Sealed>)
    requires IsTail(chain, history)
    ensures HeadOf(chain) == HeadAt(history, |history|) && (chain == [] <==> history == [])
    ensures chain != [] ==> Last(chain) == Last(history)
  {
  }

  /** On distinct hashes, a block on an earlier head links to the last one only if they are the same. */
  lemma CandidateLinks(history: seq<Sealed>, seen: nat, b: Sealed)
    requires DistinctTo(history, |history|) && 0 < seen <= |history| && OnHead(HeadAt(history, seen), b)
    ensures Links(history, b) <==> seen == |history|
  {
    if seen < |history| {
      assert history[seen - 1].hash != history[|history| - 1].hash;
    }
  }

  /** A block is appended exactly when nothing was since its miner read the head. */
  lemma AppendedIffNotOvertaken(c: Codec, w: World, miner: nat)
    requires Safe(c, w) && DistinctTo(w.history, |w.history|) && w.history != []
    requires PhaseOf(w, miner).HasBlock?
    ensures Links(w.chain, PhaseOf(w, miner).block) <==> PhaseOf(w, miner).seen == |w.history|
  {
    var p := PhaseOf(w, miner);
    assert MinerGoodAt(c, w, miner);
    TailHead(w.chain, w.history);
    CandidateLinks(w.history, p.seen, p.block);
  }

  lemma PhaseStaysGood(c: Codec, history: seq<Sealed>, b: Sealed, p: Phase)
    requires PhaseGood(c, history, p) && history != []
    ensures PhaseGood(c, history + [b], p)
  {
  }

  lemma LinkedExtended(history: seq<Sealed>, b: Sealed)
    requires LinkedTo(history, |history|) && history != [] && OnHead(HeadAt(history, |history|), b)
    ensures LinkedTo(history + [b], |history| + 1)
  {
    var more := history + [b];
    forall i | 0 < i < |more| ensures LinkedAt(more, i) {
      if i < |history| {
        assert LinkedAt(history, i);
        assert more[i - 1] == history[i - 1] && more[i] == history[i];
      } else {
        assert more[i - 1] == history[i - 1] && more[i] == b;
      }
    }
  }

  lemma OwnedExtended(c: Codec, history: seq<Sealed>, b: Sealed)
    requires OwnedTo(c, history, |history|) && Owned(c, b)
    ensures OwnedTo(c, history + [b], |history| + 1)
  {
    var more := history + [b];
    forall i | 0 < i < |more| ensures OwnedAt(c, more, i) {
      if i < |history| {
        assert OwnedAt(c, history, i);
      }
      assert more[i] == if i < |history| then history[i] else b;
    }
  }

  lemma TailExtended(chain: seq<Sealed>, history: seq<Sealed>, b: Sealed)
    requires IsTail(chain, history)
    ensures IsTail(chain + [b], history + [b])
  {
    var more := history + [b];
    assert more[|more| - |chain + [b]|..] == history[|history| - |chain|..] + [b];
  }

  lemma AppendSafe(c: Codec, w: World, miner: nat)
    requires Safe(c, w) && DistinctTo(w.history, |w.history|) && PhaseOf(w, miner).HasBlock?
    requires Links(w.chain, PhaseOf(w, miner).block)
    ensures Safe(c, Next(c, w, Append(miner)))
  {
    var p, v := PhaseOf(w, miner), Next(c, w, Append(miner));
    AppendedIffNotOvertaken(c, w, miner);
    assert MinerGoodAt(c, w, miner);
    LinkedExtended(w.history, p.block);
    OwnedExtended(c, w.history, p.block);
    TailExtended(w.chain, w.history, p.block);
    forall m ensures MinerGoodAt(c, v, m) {
      assert MinerGoodAt(c, w, m);
      if m in w.miners && m != miner {
        PhaseStaysGood(c, w.history, p.block, w.miners[m]);
      }
    }
  }

  lemma TailOfTail(history: seq<Sealed>, m: nat, n: nat)
    requires m + n <= |history|
    ensures history[m..][n..] == history[m + n..]
  {
  }

  /** Pruning leaves an end of the history with the same head. */
  lemma PrunedTail(chain: seq<Sealed>, history: seq<Sealed>, keep: nat)
    requires IsTail(chain, history) && keep >= 1
    ensures IsTail(Pruned(chain, keep), history)
    ensures HeadOf(Pruned(chain, keep)) == HeadOf(chain)
    ensures |Pruned(chain, keep)| == keep || (|chain| < keep && Pruned(chain, keep) == chain)
  {
    if |chain| > keep {
      TailOfTail(history, |history| - |chain|, |chain| - keep);
    }
  }

  /** Changing one miner's phase to a good one keeps the world safe. */
  lemma PhaseSafe(c: Codec, w: World, v: World, miner: nat, p: Phase)
    requires Safe(c, w) && PhaseGood(c, w.history, p)
    requires v.chain == w.chain && v.history == w.history && v.miners == w.miners[miner := p]
    ensures Safe(c, v)
  {
    forall m ensures MinerGoodAt(c, v, m) {
      assert MinerGoodAt(c, w, m);
    }
  }

  lemma ReadSafe(c: Codec, w: World, miner: nat)
    requires Safe(c, w)
    ensures Safe(c, Next(c, w, ReadHead(miner)))
  {
    TailHead(w.chain, w.history);
    PhaseSafe(c, w, Next(c, w, ReadHead(miner)), miner, HasRead(HeadOf(w.chain), |w.history|));
  }

  lemma MineSafe(c: Codec, w: World, miner: nat, block: Sealed, votes: map<NodeID, Vote>)
    requires Safe(c, w) && Enabled(c, w, Mine(miner, block, votes))
    ensures Safe(c, Next(c, w, Mine(miner, block, votes)))
  {
    assert MinerGoodAt(c, w, miner);
    FinalOwnsHash(c, w.r.standings, block.header, block.hash, votes);
    PhaseSafe(c, w, Next(c, w, Mine(miner, block, votes)), miner, HasBlock(block, PhaseOf(w, miner).seen));
  }

  /** What is neither chain, history nor miners does not matter. */
  lemma SameSafe(c: Codec, w: World, v: World)
    requires Safe(c, w) && IsTail(v.chain, w.history) && v.history == w.history && v.miners == w.miners
    ensures Safe(c, v)
  {
    forall m ensures MinerGoodAt(c, v, m) {
      assert MinerGoodAt(c, w, m);
    }
  }

  lemma StepSafe(c: Codec, w: World, step: Step)
    requires Safe(c, w) && DistinctTo(w.history, |w.history|) && Enabled(c, w, step)
    ensures Safe(c, Next(c, w, step))
  {
    match step
    case ReadHead(miner) =>
      ReadSafe(c, w, miner);
    case Mine(miner, block, votes) =>
      MineSafe(c, w, miner, block, votes);
    case Abandon(miner) =>
      PhaseSafe(c, w, Next(c, w, step), miner, Idle);
    case Append(miner) =>
      if Links(w.chain, PhaseOf(w, miner).block) {
        AppendSafe(c, w, miner);
      } else {
        PhaseSafe(c, w, Next(c, w, step), miner, Idle);
      }
    case Prune(keep) =>
      PrunedTail(w.chain, w.history, keep);
      SameSafe(c, w, Next(c, w, step));
    case Elsewhere(_) =>
      SameSafe(c, w, Next(c, w, step));
  }

  lemma StartSafe(c: Codec, coinbase: Bytes, w: World)
    requires Starts(c, coinbase, w)
    ensures Safe(c, w)
  {
    assert w.history[0..] == w.chain;
  }

  /** A step appends one block at most. */
  lemma HistoryStep(c: Codec, coinbase: Bytes, worlds: seq<World>, steps: seq<Step>, i: nat)
    requires IsRun(c, coinbase, worlds, steps) && i < |steps|
    ensures worlds[i].history <= worlds[i + 1].history && |worlds[i + 1].history| <= |worlds[i].history| + 1
  {
    assert GoesAt(c, worlds, steps, i);
  }

  /** While no two blocks share a hash, every world of a run is safe. */
  lemma {:induction false} RunSafeIfDistinct(c: Codec, coinbase: Bytes, worlds: seq<World>, steps: seq<Step>, i: nat)
    requires IsRun(c, coinbase, worlds, steps) && i < |worlds|
    requires DistinctTo(worlds[i].history, |worlds[i].history|)
    ensures Safe(c, worlds[i])
  {
    if i == 0 {
      StartSafe(c, coinbase, worlds[0]);
    } else {
      HistoryStep(c, coinbase, worlds, steps, i - 1);
      DistinctPrefix(worlds[i - 1].history, worlds[i].history, |worlds[i - 1].history|);
      RunSafeIfDistinct(c, coinbase, worlds, steps, i - 1);
      assert GoesAt(c, worlds, steps, i - 1);
      StepSafe(c, worlds[i - 1], steps[i - 1]);
    }
  }

  lemma DistinctPrefix(a: seq<Sealed>, b: seq<Sealed>, n: nat)
    requires a <= b && n <= |a|
    ensures DistinctTo(b, |b|) ==> DistinctTo(b, n)
    ensures DistinctTo(a, n) <==> DistinctTo(b, n)
  {
    assert forall i :: 0 <= i < n ==> a[i] == b[i];
  }
}
