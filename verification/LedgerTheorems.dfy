/**
 * What every run of a chain keeps.  Where distinct hashes are needed, their failure hands over two
 * different inputs with the same hash.
 */
module LedgerTheorems {
  import opened Basics
  import opened ClockLattice
  import opened Merkle
  import opened Quorum
  import opened ProofsOfWork
  import opened ValidatorSpec
  import opened Voting
  import opened LedgerRuns

  // ---------------------------------------------------------------- two blocks with one hash

  /** The bytes behind block i's hash. */
  function Hashed(c: Codec, history: seq<Sealed>, i: nat): Bytes
    requires i < |history|
  {
    var hd := history[i].header;
    PrepareData(c, hd, if i == 0 then Tried(hd.nonce) else hd.nonce)
  }

  function TextOf(c: Codec, history: seq<Sealed>): nat -> Bytes {
    (i: nat) => if i < |history| then Hashed(c, history, i) else []
  }

  /** What the Merkle root of a lone transaction hashes. */
  function RootInput(h: Hash, coinbase: Bytes): Bytes {
    PairInput(h(coinbase), h(coinbase))
  }

  lemma LoneRoot(h: Hash, coinbase: Bytes)
    ensures RootHash(h, [coinbase]) == h(RootInput(h, coinbase)) && |RootInput(h, coinbase)| == 64
  {
    var leaves := LeavesOf(h, [coinbase]);
    assert Depth(1) == 1;
    assert NodeAt(h, leaves, 1, 0, 0) == leaves[Source(1, 1, 0)] && NodeAt(h, leaves, 1, 0, 1) == leaves[Source(1, 1, 1)];
    assert NodeAt(h, leaves, 1, 1, 0) == NewInner(h, leaves[0], leaves[0]);
  }

  /**
   * Two blocks with one hash either hash different bytes or have parents with one hash; at the
   * genesis block the descent ends at two inputs of different length.
   */
  function Clash(root: Bytes, text: nat -> Bytes, i: nat, j: nat): (Bytes, Bytes)
    requires i < j
  {
    if text(i) != text(j) then (text(i), text(j))
    else if i == 0 then (root, text(j - 1))
    else Clash(root, text, i - 1, j - 1)
  }

  /** Bytes that start with the right hash and go on with another. */
  ghost predicate StartsWith(t: Bytes, hash: Bytes) {
    |t| > 64 && t[..32] == hash
  }

  /** Text p has block p's hash and starts with its parent's, the first with that of a shorter input. */
  ghost predicate FollowsAt(h: Hash, root: Bytes, history: seq<Sealed>, text: nat -> Bytes, p: nat)
    requires p < |history|
  {
    h(text(p)) == history[p].hash && StartsWith(text(p), if p == 0 then h(root) else history[p - 1].hash)
  }

  lemma {:induction false} ClashCollides(h: Hash, root: Bytes, history: seq<Sealed>, text: nat -> Bytes, i: nat, j: nat)
    requires i < j < |history| && history[i].hash == history[j].hash && |root| == 64
    requires forall p: nat :: p <= j ==> FollowsAt(h, root, history, text, p)
    ensures Collides(h, Clash(root, text, i, j).0, Clash(root, text, i, j).1)
  {
    assert FollowsAt(h, root, history, text, i) && FollowsAt(h, root, history, text, j);
    assert FollowsAt(h, root, history, text, j - 1);
    if text(i) == text(j) && i > 0 {
      ClashCollides(h, root, history, text, i - 1, j - 1);
    }
  }

  /** The history up to and including block n is a chain grown from a genesis block. */
  ghost predicate Grown(c: Codec, coinbase: Bytes, history: seq<Sealed>, n: nat)
    requires n < |history|
  {
    IsGenesis(c, coinbase, history[0]) && LinkedTo(history, n + 1) && OwnedTo(c, history, n + 1)
  }

  lemma HashedHash(c: Codec, coinbase: Bytes, history: seq<Sealed>, n: nat, i: nat)
    requires n < |history| && Grown(c, coinbase, history, n) && i <= n
    ensures history[i].hash == c.hash(Hashed(c, history, i)) && |history[i].hash| == 32
    ensures |history[i].header.merkleRoot| == 32
    ensures i > 0 ==> history[i].header.prevBlockHash == history[i - 1].hash
  {
    if i == 0 {
      LoneRoot(c.hash, coinbase);
    } else {
      assert OwnedAt(c, history, i) && LinkedAt(history, i);
    }
  }

  lemma PrefixGrows(p: Bytes, x: Bytes, y: Bytes)
    requires p <= x
    ensures p <= x + y
  {
  }

  lemma TwoPrefixes(p: Bytes, m: Bytes, d: Bytes)
    requires p + m <= d
    ensures d[..|p|] == p && d[|p|..|p| + |m|] == m
  {
    assert d[..|p + m|] == p + m;
    assert d[..|p|] == d[..|p + m|][..|p|];
    assert d[|p|..|p| + |m|] == d[..|p + m|][|p|..];
  }

  /** A header's bytes start with its parent's hash and its Merkle root. */
  lemma PreparedStart(c: Codec, hd: Header, nonce: int)
    ensures hd.prevBlockHash + hd.merkleRoot <= PrepareData(c, hd, nonce)
    ensures |PrepareData(c, hd, nonce)| > |hd.prevBlockHash| + |hd.merkleRoot| + |hd.stateRoot|
  {
    var p := hd.prevBlockHash + hd.merkleRoot;
    var a := p + hd.stateRoot;
    var b := a + NumberFields(hd);
    var d := b + hd.bloomFilter;
    var e := d + hd.proposerID;
    PrefixGrows(p, p, hd.stateRoot);
    PrefixGrows(p, a, NumberFields(hd));
    PrefixGrows(p, b, hd.bloomFilter);
    PrefixGrows(p, d, hd.proposerID);
    PrefixGrows(p, e, ClockBytes(c, hd.vectorClock));
    PrefixGrows(p, BeforeNonce(c, hd), Digits(nonce));
    PrefixGrows(p, BeforeNonce(c, hd) + Digits(nonce), hd.accumulatorState);
  }

  lemma PreparedPrefix(c: Codec, hd: Header, nonce: int)
    ensures
      var d, p, m := PrepareData(c, hd, nonce), |hd.prevBlockHash|, |hd.merkleRoot|;
      && |d| > p + m + |hd.stateRoot|
      && d[..p] == hd.prevBlockHash && d[p..p + m] == hd.merkleRoot
  {
    PreparedStart(c, hd, nonce);
    TwoPrefixes(hd.prevBlockHash, hd.merkleRoot, PrepareData(c, hd, nonce));
  }

  lemma FirstStart(c: Codec, coinbase: Bytes, g: Sealed)
    requires IsGenesis(c, coinbase, g)
    ensures StartsWith(PrepareData(c, g.header, Tried(g.header.nonce)), c.hash(RootInput(c.hash, coinbase)))
  {
    LoneRoot(c.hash, coinbase);
    var t := PrepareData(c, g.header, Tried(g.header.nonce));
    PreparedPrefix(c, g.header, Tried(g.header.nonce));
    assert t[0..32] == t[..32];
  }

  lemma LaterStart(c: Codec, hd: Header)
    requires |hd.prevBlockHash| == 32 && |hd.merkleRoot| == 32
    ensures StartsWith(PrepareData(c, hd, hd.nonce), hd.prevBlockHash)
  {
    PreparedPrefix(c, hd, hd.nonce);
  }

  /** What block i hashes starts with its parent's hash, or with the genesis block's Merkle root. */
  lemma HashedStart(c: Codec, coinbase: Bytes, history: seq<Sealed>, n: nat, i: nat)
    requires n < |history| && Grown(c, coinbase, history, n) && i <= n
    ensures StartsWith(Hashed(c, history, i),
      if i == 0 then c.hash(RootInput(c.hash, coinbase)) else history[i - 1].hash)
  {
    if i == 0 {
      FirstStart(c, coinbase, history[0]);
    } else {
      HashedHash(c, coinbase, history, n, i);
      HashedHash(c, coinbase, history, n, i - 1);
      LaterStart(c, history[i].header);
    }
  }

  lemma TextAt(c: Codec, history: seq<Sealed>, i: nat)
    requires i < |history|
    ensures TextOf(c, history)(i) == Hashed(c, history, i)
  {
  }

  lemma TextFollows(c: Codec, coinbase: Bytes, history: seq<Sealed>, n: nat, i: nat)
    requires n < |history| && Grown(c, coinbase, history, n) && i <= n
    ensures FollowsAt(c.hash, RootInput(c.hash, coinbase), history, TextOf(c, history), i)
  {
    TextAt(c, history, i);
    HashedHash(c, coinbase, history, n, i);
    HashedStart(c, coinbase, history, n, i);
  }

  lemma HistoryClashes(c: Codec, coinbase: Bytes, history: seq<Sealed>, n: nat, i: nat, j: nat)
    requires n < |history| && Grown(c, coinbase, history, n) && i < j <= n
    requires history[i].hash == history[j].hash
    ensures
      var clash := Clash(RootInput(c.hash, coinbase), TextOf(c, history), i, j);
      Collides(c.hash, clash.0, clash.1)
  {
    var root, text := RootInput(c.hash, coinbase), TextOf(c, history);
    forall p: nat | p <= j ensures FollowsAt(c.hash, root, history, text, p) {
      TextFollows(c, coinbase, history, n, p);
    }
    LoneRoot(c.hash, coinbase);
    ClashCollides(c.hash, root, history, text, i, j);
  }

  // ---------------------------------------------------------------- the first two

  /** A block before j with j's hash, looking among the first i. */
  function Twin(history: seq<Sealed>, j: nat, i: nat): (t: Option<nat>)
    requires i <= j < |history|
    ensures t.Some? ==> t.value < i && history[t.value].hash == history[j].hash
    ensures t.None? ==> forall k :: 0 <= k < i ==> history[k].hash != history[j].hash
  {
    if i == 0 then None
    else if history[i - 1].hash == history[j].hash then Some(i - 1)
    else Twin(history, j, i - 1)
  }

  /** The first block of the first n that repeats a hash, with one it repeats. */
  function Twins(history: seq<Sealed>, n: nat): (t: Option<(nat, nat)>)
    requires n <= |history|
    ensures t.None? ==> DistinctTo(history, n)
    ensures t.Some? ==> t.value.0 < t.value.1 < n && history[t.value.0].hash == history[t.value.1].hash
    ensures t.Some? ==> DistinctTo(history, t.value.1)
  {
    if n == 0 then None
    else
      var earlier := Twins(history, n - 1);
      if earlier.Some? then earlier
      else
        match Twin(history, n - 1, n - 1)
        case None => None
        case Some(i) => Some((i, n - 1))
  }

  /** The two inputs a history with a repeated hash gives away. */
  function HistoryClash(c: Codec, coinbase: Bytes, history: seq<Sealed>): (Bytes, Bytes) {
    match Twins(history, |history|)
    case None => ([], [])
    case Some((i, j)) => Clash(RootInput(c.hash, coinbase), TextOf(c, history), i, j)
  }

  ghost predicate Broken(c: Codec, coinbase: Bytes, history: seq<Sealed>) {
    Collides(c.hash, HistoryClash(c, coinbase, history).0, HistoryClash(c, coinbase, history).1)
  }

  // ---------------------------------------------------------------- runs

  lemma {:induction false} FirstIsGenesis(c: Codec, coinbase: Bytes, worlds: seq<World>, steps: seq<Step>, i: nat)
    requires IsRun(c, coinbase, worlds, steps) && i < |worlds|
    ensures worlds[0].chain == [] ==> worlds[i].chain == [] && worlds[i].history == []
    ensures worlds[0].chain != [] ==> worlds[i].history != [] && IsGenesis(c, coinbase, worlds[i].history[0])
  {
    if i > 0 {
      FirstIsGenesis(c, coinbase, worlds, steps, i - 1);
      HistoryStep(c, coinbase, worlds, steps, i - 1);
      assert GoesAt(c, worlds, steps, i - 1);
    }
  }

  lemma SafeNext(c: Codec, coinbase: Bytes, worlds: seq<World>, steps: seq<Step>, k: nat)
    requires IsRun(c, coinbase, worlds, steps) && k < |steps|
    requires DistinctTo(worlds[k].history, |worlds[k].history|)
    ensures Safe(c, worlds[k + 1])
  {
    RunSafeIfDistinct(c, coinbase, worlds, steps, k);
    assert GoesAt(c, worlds, steps, k);
    StepSafe(c, worlds[k], steps[k]);
  }

  lemma SafeGrown(c: Codec, coinbase: Bytes, w: World, n: nat)
    requires Safe(c, w) && n + 1 == |w.history| && IsGenesis(c, coinbase, w.history[0])
    ensures Grown(c, coinbase, w.history, n)
  {
  }

  /** Up to and including the first repeated hash, the history is a chain. */
  lemma {:induction false} GrownWhileDistinct(c: Codec, coinbase: Bytes, worlds: seq<World>, steps: seq<Step>, k: nat, n: nat)
    requires IsRun(c, coinbase, worlds, steps) && k < |worlds|
    requires n < |worlds[k].history| && DistinctTo(worlds[k].history, n)
    ensures Grown(c, coinbase, worlds[k].history, n)
  {
    FirstIsGenesis(c, coinbase, worlds, steps, k);
    if k == 0 {
      StartSafe(c, coinbase, worlds[0]);
      SafeGrown(c, coinbase, worlds[0], n);
    } else {
      var before, after := worlds[k - 1].history, worlds[k].history;
      HistoryStep(c, coinbase, worlds, steps, k - 1);
      DistinctPrefix(before, after, if n < |before| then n else |before|);
      if n < |before| {
        GrownWhileDistinct(c, coinbase, worlds, steps, k - 1, n);
        GrownPrefix(c, coinbase, before, after, n);
      } else {
        SafeNext(c, coinbase, worlds, steps, k - 1);
        SafeGrown(c, coinbase, worlds[k], n);
      }
    }
  }

  lemma GrownPrefix(c: Codec, coinbase: Bytes, a: seq<Sealed>, b: seq<Sealed>, n: nat)
    requires a <= b && n < |a| && Grown(c, coinbase, a, n)
    ensures Grown(c, coinbase, b, n)
  {
    assert forall i :: 0 <= i <= n ==> a[i] == b[i];
    forall i | 0 < i <= n ensures LinkedAt(b, i) && OwnedAt(c, b, i) {
      assert LinkedAt(a, i) && OwnedAt(c, a, i);
    }
  }

  /** The blocks of a run have distinct hashes, or these two inputs collide. */
  lemma RunDistinct(c: Codec, coinbase: Bytes, worlds: seq<World>, steps: seq<Step>, i: nat)
    requires IsRun(c, coinbase, worlds, steps) && i < |worlds|
    ensures DistinctTo(worlds[i].history, |worlds[i].history|) || Broken(c, coinbase, worlds[i].history)
  {
    var history := worlds[i].history;
    var t := Twins(history, |history|);
    if t.Some? {
      GrownWhileDistinct(c, coinbase, worlds, steps, i, t.value.1);
      HistoryClashes(c, coinbase, history, t.value.1, t.value.0, t.value.1);
    }
  }

  /**
   * At every point of every run the blocks are hash-linked, one higher each, and carry their own
   * hashes, and the chain is an unpruned end of them, or the history hands over a collision.
   */
  lemma RunSafe(c: Codec, coinbase: Bytes, worlds: seq<World>, steps: seq<Step>, i: nat)
    requires IsRun(c, coinbase, worlds, steps) && i < |worlds|
    ensures Safe(c, worlds[i]) || Broken(c, coinbase, worlds[i].history)
  {
    RunDistinct(c, coinbase, worlds, steps, i);
    if !Broken(c, coinbase, worlds[i].history) {
      RunSafeIfDistinct(c, coinbase, worlds, steps, i);
    }
  }

  /**
   * In any run from a genesis block a candidate is appended if its parent was not overtaken, and
   * refused if it was, or the history hands over a collision.
   */
  lemma OvertakenRefused(c: Codec, coinbase: Bytes, worlds: seq<World>, steps: seq<Step>, i: nat, miner: nat)
    requires IsRun(c, coinbase, worlds, steps) && i < |steps| && steps[i] == Append(miner)
    requires worlds[0].chain != []
    ensures PhaseOf(worlds[i], miner).HasBlock?
    ensures
      var p := PhaseOf(worlds[i], miner);
      || Broken(c, coinbase, worlds[i].history)
      || worlds[i + 1].history ==
        if p.seen == |worlds[i].history| then worlds[i].history + [p.block] else worlds[i].history
  {
    assert GoesAt(c, worlds, steps, i);
    RunDistinct(c, coinbase, worlds, steps, i);
    FirstIsGenesis(c, coinbase, worlds, steps, i);
    if !Broken(c, coinbase, worlds[i].history) {
      RunSafeIfDistinct(c, coinbase, worlds, steps, i);
      AppendedIffNotOvertaken(c, worlds[i], miner);
    }
  }

  /** Stored heights are positions in the history, in 64 bits. */
  lemma {:induction false} HeightIsPosition(c: Codec, coinbase: Bytes, history: seq<Sealed>, n: nat, i: nat)
    requires n < |history| && Grown(c, coinbase, history, n) && i <= n
    ensures history[i].header.height == i % WORD
  {
    if i > 0 {
      HeightIsPosition(c, coinbase, history, n, i - 1);
      assert LinkedAt(history, i);
      NextWraps(i - 1);
    }
  }

  /** A chain without a genesis block never gains one: every candidate is refused, as split shards' are. */
  lemma NoGenesisNoBlocks(c: Codec, coinbase: Bytes, worlds: seq<World>, steps: seq<Step>, i: nat)
    requires IsRun(c, coinbase, worlds, steps) && worlds[0].chain == [] && i < |worlds|
    ensures worlds[i].chain == [] && worlds[i].history == []
  {
    FirstIsGenesis(c, coinbase, worlds, steps, i);
  }

  // ---------------------------------------------------------------- validity

  /** Step k mined the block. */
  ghost predicate MinesAt(steps: seq<Step>, k: int, b: Sealed) {
    0 <= k < |steps| && steps[k].Mine? && steps[k].block == b
  }

  ghost predicate MinedBefore(steps: seq<Step>, i: nat, b: Sealed) {
    exists k :: 0 <= k < i && MinesAt(steps, k, b)
  }

  ghost predicate BlockMinedAt(w: World, steps: seq<Step>, i: nat, p: nat) {
    0 < p < |w.history| ==> MinedBefore(steps, i, w.history[p])
  }

  ghost predicate MinerMinedAt(w: World, steps: seq<Step>, i: nat, m: nat) {
    PhaseOf(w, m).HasBlock? ==> MinedBefore(steps, i, PhaseOf(w, m).block)
  }

  /** All blocks but the genesis block, appended or being held, were mined by an earlier step. */
  ghost predicate AllMined(w: World, steps: seq<Step>, i: nat) {
    (forall p: nat :: BlockMinedAt(w, steps, i, p)) && (forall m: nat :: MinerMinedAt(w, steps, i, m))
  }

  lemma MinedNext(steps: seq<Step>, i: nat, b: Sealed)
    ensures MinedBefore(steps, i, b) || MinesAt(steps, i, b) ==> MinedBefore(steps, i + 1, b)
  {
  }

  lemma StepMined(c: Codec, w: World, steps: seq<Step>, i: nat)
    requires i < |steps| && AllMined(w, steps, i) && Enabled(c, w, steps[i])
    ensures AllMined(Next(c, w, steps[i]), steps, i + 1)
  {
    var v, next := Next(c, w, steps[i]), i + 1;
    forall p: nat ensures BlockMinedAt(v, steps, next, p) {
      assert BlockMinedAt(w, steps, i, p);
      if steps[i].Append? {
        assert MinerMinedAt(w, steps, i, steps[i].miner);
      }
      if p < |v.history| {
        MinedNext(steps, i, v.history[p]);
      }
    }
    forall m: nat ensures MinerMinedAt(v, steps, next, m) {
      assert MinerMinedAt(w, steps, i, m);
      if PhaseOf(v, m).HasBlock? {
        MinedNext(steps, i, PhaseOf(v, m).block);
      }
    }
  }

  lemma {:induction false} RunMined(c: Codec, coinbase: Bytes, worlds: seq<World>, steps: seq<Step>, i: nat)
    requires IsRun(c, coinbase, worlds, steps) && i < |worlds|
    ensures AllMined(worlds[i], steps, i)
  {
    if i > 0 {
      RunMined(c, coinbase, worlds, steps, i - 1);
      assert GoesAt(c, worlds, steps, i - 1);
      StepMined(c, worlds[i - 1], steps, i - 1);
    }
  }

  /** Block p of a run was final at an earlier step, by the vote of the validators at that time. */
  lemma VotedAt(c: Codec, coinbase: Bytes, worlds: seq<World>, steps: seq<Step>, i: nat, p: nat) returns (k: nat)
    requires IsRun(c, coinbase, worlds, steps) && i < |worlds| && 0 < p < |worlds[i].history|
    ensures k < i && steps[k].Mine? && steps[k].block == worlds[i].history[p] && PhaseOf(worlds[k], steps[k].miner).HasRead?
    ensures IsCandidate(c, worlds[k].r.standings, PhaseOf(worlds[k], steps[k].miner).head, steps[k].block, steps[k].votes)
  {
    RunMined(c, coinbase, worlds, steps, i);
    assert BlockMinedAt(worlds[i], steps, i, p);
    k :| 0 <= k < i && MinesAt(steps, k, worlds[i].history[p]);
    assert GoesAt(c, worlds, steps, k);
  }

  ghost predicate IsSealed(c: Codec, b: Sealed) {
    b.header.difficulty <= 256 && Seals(c, b.header, b.hash)
  }

  /**
   * Every block a run appends passes `Validate`, whatever the reputations and votes, or two inputs
   * that differ in the nonce only collide.
   */
  lemma RunVetted(c: Codec, coinbase: Bytes, worlds: seq<World>, steps: seq<Step>, i: nat, p: nat)
    requires IsRun(c, coinbase, worlds, steps) && i < |worlds| && 0 < p < |worlds[i].history|
    ensures IsSealed(c, worlds[i].history[p]) || CapClash(c, worlds[i].history[p].header)
  {
    var k := VotedAt(c, coinbase, worlds, steps, i, p);
    var b := steps[k].block;
    SearchedFinalIsSealed(c, worlds[k].r.standings, b.header, b.hash, steps[k].votes);
  }

  /** No vote is held on reputations that make the threshold negative. */
  ghost predicate HeardAt(worlds: seq<World>, steps: seq<Step>, i: int)
    requires 0 <= i < |steps| && i < |worlds|
  {
    steps[i].Mine? ==> !Mute(EligibleWeight(worlds[i].r.standings))
  }

  /** With every vote heard, not even a collision lets an invalid block in. */
  lemma RunVettedIfHeard(c: Codec, coinbase: Bytes, worlds: seq<World>, steps: seq<Step>, i: nat, p: nat)
    requires IsRun(c, coinbase, worlds, steps) && i < |worlds| && 0 < p < |worlds[i].history|
    requires forall k :: 0 <= k < i ==> HeardAt(worlds, steps, k)
    ensures IsSealed(c, worlds[i].history[p])
  {
    var k := VotedAt(c, coinbase, worlds, steps, i, p);
    var b := steps[k].block;
    assert HeardAt(worlds, steps, k);
    FinalIsSealed(c, worlds[k].r.standings, b.header, b.hash, steps[k].votes);
  }
}
