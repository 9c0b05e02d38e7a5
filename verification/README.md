# A verified model of the sharded blockchain core

A Dafny model of the six linked components of the Go package `core`, and proofs about them:

- **Clocks.** `NodeVectorClock` and `VectorClock`, two separately written vector clocks, and the steps by
  which each node keeps its clock. Both `Compare` functions decide the same partial order, both `Merge`
  functions compute its join, and over every run the timestamps decide Lamport's happened-before exactly,
  if and only if no counter wraps around its 64 bits.
- **Merkle tree.** The level-by-level builder, the proof generator that rebuilds the levels on its own and
  the verifier that only walks hashes all refer to one perfect tree. Generated proofs are accepted; an
  accepted proof pins the leaf down or hands over an explicit hash collision; roots bind the list.
- **Conflict resolution.** Which version survives an exchange and when both sides agree; that clocks of all
  orders join to the same clock; and that exactly a causally latest version survives every order and draw, so
  that replicas are sure to agree if and only if there is one.
- **Shards and their manager.** Pools, state, and the five structures (map, sorted ID slice, hash ring, ID
  counter, pools) that splits and merges must keep in step; over every run transactions are neither lost
  nor duplicated, and transactions added to one shard leave in that order through any number of merges.
- **Consensus and chain.** Reputation-weighted voting in 64-bit arithmetic, the nonce search, and the "read
  head, mine, check head again, append" protocol interleaved with pruning and with changes of the validators.
- **Two-phase commit and challenge/response** as protocols over all interleavings of their steps.

The repository's objects are classes whose methods update their fields; each method is proved against a
function on values, and the properties of whole runs are proved about those functions. What these functions
compute is in turn stated on its own, in plain numbers and bytes: `Draws`, `Writes`, `Cycles`, `MerkleRows`,
`WorkMeaning`, `RegistryEffects`, `Consensus` and `MinedBlocks` say what a draw hashes, what a transaction
writes, when a cycle splits or merges, which rows of hashes make a root, which hashes meet a difficulty, what
each operation does to each validator, when a block is final and what a mined block carries. `Basics` and
`Order` hold what everything shares: bytes, hashes, sorting, decimal formatting.

What is assumed:

- SHA-256 is a function parameter of which only the output length, 32 bytes, is known. Theorems that need
  more hand over two different inputs with one hash instead of assuming there are none. That includes the
  chain: blocks grown from the genesis block of core/block.go have distinct hashes, or the history itself
  gives a collision away (`RunDistinct`), although header fields are joined without separators.
- `VectorClock.Serialize` is some function of the clock, as its comment promises; the code sorts the keys
  but then encodes the map itself.
- The consistent-hash ring answers some member. Maps are iterated in any order. `sort.Slice` gives some
  sorted permutation.
- Named critical sections are atomic steps. The current time, random bytes, votes and signatures are
  parameters. A signature scheme is ideal where a lemma says so: a signature verifies for one message of one
  node at most.
- 64-bit counters, nonces, heights and reputations wrap as in Go where the model says so (`WORD`, `Int64`);
  shard IDs do not.

Findings, each with its condition in the table:

- The vote threshold is negative exactly if the eligible total, reduced modulo 2^63, is at least 2^62 and below
  2^63 - 1; no signature at all is then a quorum. `FinalizeBlockDBFT` then makes any foreign block final that
  owns its hash, valid or not; the chain's own miners never put such a block to the vote, so what runs append
  passes `Validate` at every threshold, or two inputs collide.
- The Merkle verifier does not compare the number of hashes with the depth of the tree. With fewer hashes it
  accepts the 64 bytes below an inner node as a leaf, and nothing else; with more it accepts a leaf exactly if
  the extra steps join to the element named, and since transaction IDs are hashes themselves, the record behind
  an ID passes for it with one empty sibling. Checking the number, or keeping elements below 32 bytes and leaves
  off 64, rules both out.
- A state root does not mark where a key ends: a byte can move from value to key. Between states whose sorted
  entries have the same lengths, on one key set with unchanged value lengths, or on fixed widths, it does bind.
- The periodic attestation signs the challenge where verification expects the hash of challenge and nonce, so
  it is refused unless the two happen to be equal.
- The test for an exhausted nonce search never fires; what keeps such a block from becoming final is that its
  hash belongs to the nonce tried before, so the vote finds it foreign, or two inputs collide.
- One source writing two unordered versions can leave two replicas of an exchange with different values. With
  three versions or more, distinct sources do not help: replicas that see them in different orders are sure to
  agree only if one version is strictly above the join of all others, and a version can outlive one that
  strictly overwrites it (clocks {2: 1}, {1: 1} and {1: 2} in this order, `OverwrittenExample`).
- Header numbers are hashed without separators: times whose digit counts differ by 1 to 19 can run into heights.
- A shard that comes from a split has no genesis block and never gains a block.
- An aborted two-phase commit returns no error.
- Mining that fails after the state has moved on does not put its transactions back.

Where code and comment disagree the model follows the code: `VectorClock.Compare` announces nil as concurrent
with everything but treats it as empty, and while a node has no ID `IncrementGlobalClock` panics but
`MergeIntoGlobalClock` merges without counting.

## Model

| member | source | states |
|---|---|---|
| `ClockLattice.LeqPartialOrder` | core/types.go:95-101 | the order (missing entry strictly below an explicit 0) is reflexive, transitive and antisymmetric |
| `ClockLattice.JoinIsLeastUpperBound` | core/types.go:81-93 | merging gives the least clock above both |
| `ClockLattice.JoinAlgebra` | core/types.go:81-93 | merging is commutative, associative and idempotent, and absorbs exactly the clocks below |
| `ClockLattice.VerdictLaws` | core/types.go:95-195 | comparing the other way round flips the verdict; equal only for equal clocks; before exactly for strictly below |
| `ClockLattice.BumpAdvances` | core/vector_clock.go:45-47 | an increment moves a clock strictly forward exactly when the entry is not at the largest uint64, and backward otherwise |
| `ClockLattice.RenameKeepsVerdict` | core/vector_clock.go:61-144 | the two implementations agree up to the type of the keys |
| `NodeVectorClocks.NodeVectorClock.Increment` | core/vector_clock.go:45-47 | one entry counts up, wrapping at 2^64 |
| `NodeVectorClocks.NodeVectorClock.Merge` | core/vector_clock.go:51-57 | the receiver becomes the join of both, in any key order, also for a nil argument and for itself |
| `NodeVectorClocks.NodeVectorClock.Compare` | core/vector_clock.go:61-144 | the verdict of the order, through any iteration order, early exit and nil clocks |
| `NodeVectorClocks.NodeVectorClock.IsCausallyBefore` | core/vector_clock.go:147-149 | true exactly if this clock is strictly below the other one, nil counting as empty |
| `NodeVectorClocks.NodeVectorClock.IsConcurrent` | core/vector_clock.go:152-154 | true exactly if neither clock is below the other |
| `NodeVectorClocks.NodeVectorClock.Copy` | core/vector_clock.go:157-163 | a new clock with the same entries |
| `NodeVectorClocks.LocalClock.IncrementGlobalClock` | core/vector_clock.go:213-221 | a local event: the own entry counts up, a copy is handed out; fails exactly without an ID |
| `NodeVectorClocks.LocalClock.MergeIntoGlobalClock` | core/vector_clock.go:224-233 | a receive: join, then count the event if the node has an ID; a copy is handed out |
| `VectorClocks.VectorClock.Copy` | core/types.go:70-79 | a new clock with the same entries, empty for nil |
| `VectorClocks.VectorClock.Merge` | core/types.go:83-93 | the receiver becomes the join; nil on either side changes nothing |
| `VectorClocks.VectorClock.LessEq` | core/types.go:123-142 | each of the two loops with break decides the order |
| `VectorClocks.VectorClock.Compare` | core/types.go:102-195 | -1, 0, 1 or 2 exactly for before, equal, after and concurrent, nil counting as empty |
| `Causality.TimestampShape` | core/vector_clock.go:213-233 | every timestamp is the node's previous one, joined with the received one, with the own entry counted up |
| `Causality.EntriesAreCounts` | core/vector_clock.go:213-233 | in every run a node's own entry is the number of its events, and no entry exceeds that number |
| `Causality.SeenIffHappenedBefore` | core/vector_clock.go:213-233 | f's timestamp has caught up with e's own entry exactly when f is e or happened after e |
| `Causality.CausalityTheorem` | core/vector_clock.go:61-144 | on every run, comparing two timestamps says before, after, equal or concurrent exactly as happened-before does |
| `Causality.CausalExactlyWithoutWrap` | core/vector_clock.go:45-47 | clocks are right about all pairs of events if and only if no node counts 2^64 events |
| `Causality.HappenedBeforeStrictOrder` | core/vector_clock.go:213-233 | happened-before, the relation the steps of the protocol span, is a strict partial order that follows the log |
| `Merkle.NewMerkleTree` | core/merkle.go:56-105 | the loop builds the perfect tree over the list padded by repeating the last node of each odd level |
| `Merkle.BuildLevel` | core/merkle.go:84-97 | one round of the loop yields the next level of that tree |
| `Merkle.DepthIsLeast` | core/merkle.go:78-97 | the depth is the least d of at least 1 with n at most 2^d |
| `MerkleRows.RootOfRows` | core/merkle.go:56-105 | the root of any list by rows: hash the elements, pair neighbours, left before right and a last one with itself, at least once and until one hash is left |
| `Merkle.SourceIsIdentity` | core/merkle.go:71-95 | positions inside the list hold the list's own elements; only the padding repeats |
| `Merkle.SameSourceSameNode` | core/merkle.go:37-53 | positions padded from the same elements carry the same nodes |
| `Merkle.GenerateMerkleProof` | core/merkle.go:128-189 | fails exactly for an index past the leaves; otherwise gives the sibling hashes of the tree's own levels, as many as its depth |
| `Merkle.SiblingHash` | core/merkle.go:155-169 | the sibling is always there: the missing-sibling error is unreachable |
| `Merkle.ClimbPath` | core/merkle.go:140-188 | the levels rebuilt by the prover are those of the tree |
| `Merkle.VerifyMerkleProof` | core/merkle.go:214-253 | accepts exactly if the walk over the siblings ends in the root, with the special cases for no leaves |
| `MerkleTheorems.Completeness` | core/merkle.go:128-253 | every generated proof is accepted for its element |
| `MerkleTheorems.SoundnessAnyIndex` | core/merkle.go:214-253 | an accepted proof of the right length fixes the leaf at the position its low index bits name, or gives a collision |
| `MerkleTheorems.Soundness` | core/merkle.go:214-253 | with an index inside the list, the leaf is the list's element there, or two explicit inputs collide |
| `MerkleTheorems.ShortProofAcceptsInnerNode` | core/merkle.go:228-246 | every genuine proof cut short passes the 64 bytes below an inner node off as a leaf |
| `MerkleTheorems.ShorterProofs` | core/merkle.go:228-246 | and nothing else: a leaf accepted with fewer hashes than levels is that 64-byte input, or two explicit inputs collide |
| `MerkleTheorems.LongerProofsExactly` | core/merkle.go:228-246 | with more hashes a leaf is accepted if and only if the rest of the proof accepts what the extra steps last join |
| `MerkleTheorems.LongerProofs` | core/merkle.go:214-253 | so the element at the position named is that join, at least 32 bytes long, or two explicit inputs collide |
| `MerkleTheorems.LongProofAcceptsPreimage` | core/merkle.go:228-246 | where an element is a hash, one empty sibling more has what it is the hash of accepted as a leaf |
| `MerkleTheorems.SoundnessByLength` | core/merkle.go:214-253 | a check on sizes alone restores soundness: elements below 32 bytes and a leaf that is not 64 long fix both the number of hashes and the leaf |
| `MerkleTheorems.BindingSameDepth` | core/merkle.go:56-105 | lists of one depth have one root if and, up to an explicit collision, only if their padded lists agree |
| `MerkleTheorems.Binding` | core/merkle.go:56-105 | two lists of one length with one root are equal, or two explicit inputs collide |
| `MerkleTheorems.RepeatedTailSameRoot` | core/merkle.go:78-81 | repeating the last element of an odd list changes no root: the length condition is needed |
| `Conflict.DetectCausalConflict` | core/conflict_resolution.go:88-107 | a conflict is concurrency of the two clocks |
| `Conflict.ResolveConflictVRF` | core/conflict_resolution.go:150-210 | fails exactly on nothing to choose from; leaves the caller's slice sorted by source and returns the member the hash of the sorted versions draws |
| `Draws.WinnerWritten` | core/conflict_resolution.go:169-199 | of two versions, the parity of the double hash of context, key, value, clock and source of the smaller source's version and then of the other's picks the winner |
| `Draws.DrawWritten` | core/conflict_resolution.go:169-199 | the place drawn among any number of versions: the double hash of the context and all versions in turn, modulo their number |
| `Draws.EveryPartCounts` | core/conflict_resolution.go:169-183 | lists of one shape that differ in a key, a rendered value, a clock's encoding or a source draw different places under some hash |
| `Conflict.WinnerOrderIndependent` | core/conflict_resolution.go:150-210 | with distinct sources every permutation of the input has the same winner |
| `Conflict.HandlePotentialConflict` | core/conflict_resolution.go:217-289 | the later version, or the drawn one, with a new clock joining both; different keys leave the local version; no input clock changes |
| `Conflict.ResolvedKeepsHistory` | core/conflict_resolution.go:232-288 | whatever the draw, the result has both histories and the content of one of the two versions |
| `Conflict.ResolutionSymmetric` | core/conflict_resolution.go:217-289 | swapping local and remote changes nothing when sources differ or one clock is strictly later |
| `Conflict.UnambiguousExactly` | core/conflict_resolution.go:150-210 | the two sides of an exchange agree if and only if the sources differ, the clocks are ordered, the values are equal, or the two arrangements draw different places |
| `Conflict.ReplicasConverge` | core/conflict_resolution.go:217-289 | folding any versions in any order ends with the join of all clocks and the content of one of them |
| `Conflict.LatestWins` | core/conflict_resolution.go:217-289 | a version strictly above the join of all others ends up held, in every order |
| `Conflict.TieGoesToDraw` | core/conflict_resolution.go:258-288 | being above each other version is not enough: one that only equals the join of the rest is left to the draw when it comes last |
| `Conflict.TiedVersionMayLose` | core/conflict_resolution.go:258-288 | and its fate is that draw's over the two in order of source: it loses whenever the other one is named |
| `Conflict.LastTakenExactly` | core/conflict_resolution.go:236-288 | a version that comes last is taken without a draw if and only if it is strictly above the join of all others |
| `Survivors.AlwaysHeldExactly` | core/conflict_resolution.go:150-289 | with distinct sources and values, a version ends up held for every hash, context and order if and only if it is strictly above the join of the others |
| `Survivors.AgreementExactly` | core/conflict_resolution.go:150-289 | replicas that see the versions in orders of their own end with one value, whatever the hash and contexts, if and only if there is such a version |
| `Survivors.OverwrittenMayStay` | core/conflict_resolution.go:217-289 | of three versions, one that another strictly overwrites can still end up held: the third lifts its clock first |
| `StateStore.InMemoryStateDB.Get` | core/state.go:40-51 | the stored value or the key-not-found error |
| `StateStore.InMemoryStateDB.Put` | core/state.go:54-62 | one key changes |
| `StateStore.InMemoryStateDB.Delete` | core/state.go:65-73 | one key goes; reports whether it was there |
| `StateStore.InMemoryStateDB.GetKeys` | core/state.go:76-85 | all keys, each once, sorted |
| `StateStore.InMemoryStateDB.GetStateRoot` | core/state.go:104-124 | the hash of the sorted entries; the branch for the empty state agrees with the general rule |
| `StateStore.StateRootUnique` | core/state.go:102-124 | a state has one root, whatever its history and whatever the map order |
| `Writes.RootOfEntries` | core/state.go:104-124 | the root is the hash of every key followed by its value, in ascending order of the keys |
| `Writes.LessExactly` | core/state.go:110-113 | ascending as Go compares strings: the first difference decides, a proper prefix comes first |
| `StateStore.RootBindsShape` | core/state.go:102-124 | states whose sorted entries have pairwise equal lengths and one root are equal, or their entries collide |
| `StateStore.RootBindsSameKeys` | core/state.go:102-124 | so no update that keeps the keys and the length of each value goes unnoticed |
| `StateStore.RootBindsFixedWidth` | core/state.go:102-124 | and keys and values of fixed widths make the root bind any two states |
| `StateStore.RootForgetsBoundaries` | core/state.go:115-121 | moving a byte from value to key changes the state but no root |
| `ShardSpec.SplitInStep` | core/sharding.go:538-586 | a split keeps map, ID slice, ring, counter and pools in step and adds one shard |
| `ShardSpec.MergeInStep` | core/sharding.go:589-691 | a merge keeps them in step and removes one shard |
| `ShardSpec.ManageInStep` | core/sharding.go:414-535 | a management cycle keeps everything in step, the count within its bounds, and changes it by at most one |
| `ShardSpec.ManageKeepsPools` | core/sharding.go:414-535 | a management cycle leaves the row of all pooled transactions, in ID order, exactly as it was |
| `Cycles.SplitsExactly` | core/sharding.go:430-462 | a cycle makes one shard more if and only if the blockchain is linked, there is room, and some shard is over a threshold that is on |
| `Cycles.SplitLeaves` | core/sharding.go:538-586 | what it adds is an empty shard under the next ID; every other shard is as before |
| `Cycles.MergesExactly` | core/sharding.go:477-528 | one less if and only if no split is due, there are more than required, and two neighbours are below the merge thresholds |
| `Cycles.MergeLeaves` | core/sharding.go:589-691 | the pair is the first such one, and becomes the lower ID's shard: pools in turn, the higher ID's values over the lower's, all others as before |
| `Cycles.StaysExactly` | core/sharding.go:414-535 | otherwise nothing changes |
| `ShardSpec.InitialInStep` | core/sharding.go:227-263 | a new manager is in step, with empty pools |
| `Cycles.InitialInFull` | core/sharding.go:244-263 | its shards are 0 to n-1, empty and on the ring |
| `ShardSpec.RingMember` | core/sharding.go:321-334 | an ID written out is on the ring exactly if the shard is live: the text form is injective |
| `ShardRuns.StepInStep` | core/sharding.go:414-535 | every step of the system keeps the invariant and the counter never goes back |
| `ShardRuns.RunInStep` | core/sharding.go:212-224 | every world a run reaches from one in step is in step |
| `ShardRuns.IdsNeverReused` | core/sharding.go:551-552 | an ID once gone is never live again in the run |
| `ShardRuns.LiveThroughout` | core/sharding.go:551-552 | a shard live at two points of a run was live all the time between |
| `ShardRuns.RunConserves` | core/sharding.go:59-97 | at every point of a run, accepted transactions are those drained plus those pooled, as multisets |
| `ShardRuns.StaysInLine` | core/sharding.go:657-662 | a transaction stays on its shard's way out for as long as the shard lives |
| `ShardRuns.SameShardOrder` | core/sharding.go:657-662 | of two transactions added to one shard, the later is never drained before the earlier, through any splits and merges, if it came in once only |
| `ShardRuns.ArrivalOrder` | core/sharding.go:657-662 | the same of any two arrivals at one shard, equal transactions included: first in, first out |
| `Shards.AppliedWrites` | core/sharding.go:109-163 | a block creates exactly the keys it writes; each value is the old one or one that the block wrote to that key |
| `Writes.KeyedApplied` | core/sharding.go:127-158 | a transaction with data `key:value` writes that value under that key; where there is one already the parity of a double hash picks the stored or the written one; no other key changes |
| `Writes.PlainApplied` | core/sharding.go:133-158 | one without a colon writes its data under its ID in the same way |
| `Writes.AppliedInOrder` | core/sharding.go:120-163 | a block is its transactions one after the other |
| `Shards.ReconciledValue` | core/sharding.go:137-158 | with two empty clocks the draw alone decides between stored and written value |
| `Shards.Shard.AddTransaction` | core/sharding.go:59-71 | queues at the end and updates the pending metric; rejects exactly a missing transaction or ID |
| `Shards.Shard.GetTransactionsForBlock` | core/sharding.go:74-97 | takes the oldest transactions, at most the maximum, and leaves the rest in order |
| `Shards.Shard.ApplyStateChanges` | core/sharding.go:109-181 | the state after the block, its size as metric, and the root of that very state |
| `ShardManagers.NewShardManager` | core/sharding.go:227-263 | fails exactly outside the bounds; otherwise shards 0 to n-1, in step |
| `ShardManagers.ShardManager.DetermineShard` | core/sharding.go:294-353 | always a live shard on the ring: no error and no fallback is reachable |
| `ShardManagers.ShardManager.GetAllShardIDs` | core/sharding.go:282-291 | a copy of the sorted IDs, although the comparator reads the other slice |
| `ShardManagers.ShardManager.GetShard` | core/sharding.go:274-279 | the live shard with the ID, if any |
| `ShardManagers.ShardManager.SetBlockchainLink` | core/sharding.go:266-271 | links and changes nothing else |
| `ShardManagers.ShardManager.FindSplit` | core/sharding.go:430-462 | finds a shard exactly when one is over a split threshold and there is room |
| `ShardManagers.ShardManager.FindMerge` | core/sharding.go:477-528 | the first two neighbours below the merge thresholds |
| `ShardManagers.ShardManager.TriggerSplit` | core/sharding.go:538-586 | fails exactly without a blockchain; otherwise one more empty shard in all structures |
| `ShardManagers.ShardManager.TriggerMerge` | core/sharding.go:589-691 | fails exactly for equal or missing shards; otherwise the specified merge in all structures |
| `ShardManagers.ShardManager.CheckAndManageShards` | core/sharding.go:414-535 | the objects end up as one management cycle says, still in step |
| `ShardManagers.MigrateState` | core/sharding.go:620-638 | the target's map overridden by the source's |
| `ShardManagers.Absorb` | core/sharding.go:613-680 | target pool followed by source pool, maps overlaid, metrics exact; the source is emptied, its pending metric 0, and stopped |
| `ShardManagers.AddTransaction` | core/blockchain.go:147-182 | refuses exactly a missing transaction or ID; otherwise one live shard's pool gains it and nothing else changes |
| `ShardManagers.DrainFrom` | core/sharding.go:74-97 | on a managed shard: the oldest transactions leave that shard's pool, all structures stay in step |
| `ShardManagers.ExecuteOn` | core/sharding.go:109-181 | on a managed shard: that shard's state and size move on, no other store is touched, all structures stay in step |
| `ProofsOfWork.Run` | core/block.go:181-211 | the least nonce that meets the target, or the cap with the hash of the last nonce tried |
| `ProofsOfWork.Validate` | core/block.go:215-230 | valid exactly if the stored hash is the header's own and meets the target |
| `WorkMeaning.MeetsExactly` | core/block.go:128-200 | a hash will do if and only if it starts with as many zero bits as the difficulty says |
| `WorkMeaning.PreparedBytes` | core/block.go:155-178 | what is hashed, every field in its place and numbers in decimal |
| `WorkMeaning.FoundExactly` | core/block.go:181-211 | the search's nonce is the least below 2^60 that works, or 2^60 with the hash of 2^60 - 1 |
| `WorkMeaning.SealsExactly` | core/block.go:215-230 | a block is valid if and only if it stores the hash of its own bytes and that hash starts with enough zero bits |
| `ProofsOfWork.FoundSeals` | core/block.go:181-230 | what the search found validates exactly if it did not hit its cap; a capped block that owns its hash gives a collision |
| `ProofsOfWork.NonceSeparates` | core/block.go:160-178 | different nonces are hashed as different bytes |
| `ProofsOfWork.ExhaustionTestNeverFires` | core/blockchain.go:634-637 | the test for an exhausted search compares a hash with longer bytes and never holds |
| `ProofsOfWork.FinalityKeepsSeal` | core/block.go:233-237 | writing the finality list leaves a block exactly as valid as it was |
| `HeaderNumbers.HeightNotSeparated` | core/block.go:160-176 | for any two digit counts up to 19 apart there are times so long whose headers, with different heights, share every proof of work |
| `HeaderNumbers.RunTogetherExactly` | core/block.go:160-176 | headers of one shard and difficulty with different heights can have equal numbers if and only if the digit counts of their times differ by 1 to 19 |
| `HeaderNumbers.NumbersSeparated` | core/block.go:160-176 | within one shard and difficulty, times of the same number of digits keep the joined numbers apart: they agree if and only if time and height do |
| `ProofsOfWork.Block.Finalize` | core/block.go:233-237 | writes the signature list and nothing else |
| `ProofsOfWork.ProposeBlock` | core/blockchain.go:550-651 | fails exactly on a transaction without ID; otherwise a header on the parent, committing to the IDs in order and repeating the root as accumulator, with the search's nonce and hash |
| `Quorum.Int64Sum` | core/consensus.go:326-329 | a running int64 sum is the true sum wrapped |
| `RegistryEffects.Int64Exact` | core/consensus.go:326-329 | an int64 holds a number up to a multiple of 2^64 |
| `Quorum.WeightSplit` | core/consensus.go:186-189 | a sum over a set does not depend on the order it is taken in |
| `Quorum.ThresholdMeaning` | core/consensus.go:322-341 | "above the threshold" means "more than two thirds" if and only if the total is below 2^62 |
| `Quorum.NoVotesNeededExactly` | core/consensus.go:338 | no signature at all is a quorum if and only if the total modulo 2^63 is at least 2^62 and below 2^63 - 1, for any weights |
| `Quorum.QuorumRule` | core/consensus.go:257 | with weights of at least 1 below that bound, consensus holds if and only if three times the signers' weight exceeds twice the eligible weight |
| `Quorum.QuorumNotEmpty` | core/consensus.go:257 | outside those totals a quorum holds a real vote |
| `Quorum.QuorumsOverlap` | core/consensus.go:257 | any two quorums share more than a third of the weight |
| `ValidatorSpec.AdjustedPositive` | core/consensus.go:107-123 | an adjusted reputation is at least 1, also when the sum overflows; a penalized validator stays active only from 10 on |
| `ValidatorSpec.SlashedPositive` | core/consensus.go:522-529 | a slashed validator stays active only from 10 on |
| `ValidatorSpec.AnswerSound` | core/consensus.go:575-648 | an answer keeps active reputations positive and pending nonces current |
| `ValidatorSpec.SettledSound` | core/consensus.go:266-296 | so does the settlement of a whole vote, and it touches no nonce |
| `RegistryEffects.SettledEffect` | core/consensus.go:266-296 | of distinct voters, each ends with the larger of 1 and its score plus 1 for a signature under consensus, minus 2 for none, unchanged or minus 1 without consensus; everyone else is as before |
| `RegistryEffects.AdjustEffect` | core/consensus.go:103-126 | an adjustment in numbers: the wrapped sum but at least 1, the vote lost by a penalty that leaves less than 10, nobody else touched |
| `RegistryEffects.SlashEffect` | core/consensus.go:511-533 | slashing in numbers: minus 20, inactive below 10 |
| `RegistryEffects.AddEffect` | core/consensus.go:64-81 | a new validator is active with the given reputation and score; a known one is left alone |
| `RegistryEffects.AuthenticatedEffect` | core/node.go:85-90 | authentication sets that flag of one validator |
| `RegistryEffects.ChallengeEffect` | core/consensus.go:475-508 | a new challenge carries the current nonce and expires after one second |
| `RegistryEffects.ExpireEffect` | core/consensus.go:651-673 | a cleanup keeps exactly the challenges whose time is not over |
| `RegistryEffects.AcceptedExactly` | core/consensus.go:575-648 | a response is accepted if and only if a challenge is pending, not expired, for a known validator, and the hash of the challenge and the nonce's eight bytes is signed |
| `RegistryEffects.AnswerEffect` | core/consensus.go:575-648 | everything an answer can come to: -5 when late, -10 when wrong, +2, activity, authentication and the next nonce when right |
| `ValidatorRuns.RunKeeps` | core/consensus.go:64-673 | in every run: active means reputation at least 1, every pending challenge expects its validator's current nonce, and the nonce counts accepted responses |
| `ValidatorRuns.NoReplay` | core/consensus.go:575-648 | a response accepted once is refused ever after, unless two signed challenges collide or the nonce went all the way round |
| `ValidatorRuns.BigEndian64Injective` | core/consensus.go:613-619 | the eight nonce bytes determine the nonce |
| `ValidatorRuns.AttestationRefused` | core/blockchain.go:114-132 | the periodic attestation succeeds exactly if the hash of challenge and nonce happens to be the challenge |
| `Validators.ValidatorManager.AddValidator` | core/consensus.go:64-81 | a new active validator; a known ID changes nothing |
| `Validators.ValidatorManager.UpdateReputation` | core/consensus.go:103-126 | reputation and score move with floor 1, low penalized validators become inactive |
| `Validators.ValidatorManager.SlashValidator` | core/consensus.go:511-533 | reputation falls by 20 without floor, low ones become inactive, the score stays |
| `Validators.ValidatorManager.GetActiveValidatorsForShard` | core/consensus.go:162-173 | exactly the active and authenticated validators, each once |
| `Validators.ValidatorManager.SelectDelegateWithVRF` | core/consensus.go:345-469 | an eligible validator with the least verified random value, in any order of arrival; none exactly if no eligible one has a value |
| `Validators.ValidatorManager.CalculateAdaptiveThreshold` | core/consensus.go:322-341 | the threshold of the wrapped sum of the eligible reputations |
| `Validators.ValidatorManager.CollectVotes` | core/consensus.go:213-255 | in every completion order the same signers, their true weight wrapped, and -5 for each bad signature |
| `Validators.ValidatorManager.Ballot` | core/consensus.go:176-257 | consensus exactly if the signers' weight on the starting reputations is above the threshold |
| `Validators.ValidatorManager.FinalizeBlockDBFT` | core/consensus.go:176-318 | the outcome from standings and block alone, the errors for no voters and a foreign hash, and a sorted signer list written exactly on consensus |
| `Consensus.FinalExactly` | core/consensus.go:176-257 | on positive reputations adding up to less than 2^62 a block becomes final if and only if it is valid and its signers hold more than two thirds |
| `Consensus.OutcomeExactly` | core/consensus.go:176-257 | no voters, a foreign hash, or exactly the eligible who signed a valid block well |
| `Voting.SearchedFinalIsSealed` | core/blockchain.go:402-441 | a final block with the search's nonce and hash passes `Validate`, whatever the reputations, or two inputs collide |
| `Voting.FinalIsSealed` | core/consensus.go:213-309 | any block that reached consensus, wherever it comes from, passes `Validate` unless the threshold was negative |
| `Voting.UnsealedFinalExactly` | core/consensus.go:176-309 | the guard is exact for foreign blocks: an invalid one with a hash of its own gathers no signature, and becomes final if and only if the threshold is negative |
| `Voting.SmallTotalsHeard` | core/consensus.go:322-341 | active reputations of at least 1, as every run keeps them, meet that guard while they sum to less than 2^62 |
| `Voting.FinalOwnsHash` | core/consensus.go:200-209 | a final block carries the hash of its own header, whatever the reputations |
| `Validators.ValidatorManager.SettleVote` | core/consensus.go:266-296 | every eligible voter's reputation from its score, with floor 1 |
| `Validators.ValidatorManager.AuthenticateNode` | core/node.go:85-90 | the validator's node counts as authenticated; nothing else changes |
| `Validators.ValidatorManager.ChallengeValidator` | core/consensus.go:475-508 | one pending challenge with the current nonce; refused for unknown validators and while one is pending |
| `Validators.ValidatorManager.VerifyResponse` | core/consensus.go:575-648 | accepts exactly a right signature in time, uses challenge and nonce up, and penalizes the two failures |
| `Validators.ValidatorManager.CleanupExpiredChallenges` | core/consensus.go:651-673 | exactly the expired challenges go, and their validators are named |
| `Validators.ValidatorManager.PenalizeLate` | core/consensus.go:659-663 | their penalties, in any order, come to -5 for each |
| `LedgerRuns.PrunedTail` | core/blockchain.go:701-713 | pruning leaves an end of the history with the same head |
| `LedgerRuns.LinksInFull` | core/blockchain.go:474-505 | a block links if and only if the head's hash is its parent's and, at height 1, the head's height is 0 |
| `LedgerTheorems.ClashCollides` | core/block.go:160-178 | two blocks with one hash lead back, parent by parent, to two different inputs with one hash |
| `LedgerTheorems.RunDistinct` | core/blockchain.go:311-523 | in every run all blocks ever appended have distinct hashes, or the history gives two inputs that collide |
| `LedgerTheorems.RunSafe` | core/blockchain.go:311-523 | at every point of every run blocks are hash-linked, one higher each and carry their own hashes, and the chain is an end of them, or the history gives a collision |
| `LedgerTheorems.RunVetted` | core/blockchain.go:402-523 | every block a run appends to its genesis block passes `Validate`, whatever reputations and votes, or two inputs that differ only in the nonce collide |
| `LedgerTheorems.RunVettedIfHeard` | core/blockchain.go:402-523 | if no vote is held on a negative threshold, not even a collision lets an invalid block in |
| `LedgerTheorems.OvertakenRefused` | core/blockchain.go:474-523 | in every run from a genesis block a candidate is appended if nothing was since its miner read the head, and refused otherwise, or the history gives a collision |
| `LedgerTheorems.HeightIsPosition` | core/blockchain.go:327 | a block's height is its position in the history, in 64 bits |
| `LedgerTheorems.NoGenesisNoBlocks` | core/blockchain.go:465-505 | a chain without a genesis block never gains one |
| `Blockchains.Blockchain.ReadHead` | core/blockchain.go:311-326 | hash, height and clock of the head, or the values for an empty chain |
| `Blockchains.Blockchain.AppendBlock` | core/blockchain.go:464-523 | appends exactly if the parent check holds; other shards are untouched |
| `Blockchains.Blockchain.PruneChain` | core/blockchain.go:701-713 | keeps the last blocks only |
| `Blockchains.Blockchain.GetBlock` | core/blockchain.go:654-670 | the latest block with the hash, or none if there is none |
| `Blockchains.Blockchain.GetLatestBlock` | core/blockchain.go:673-682 | the head, if any |
| `Blockchains.NewGenesisBlock` | core/block.go:241-277 | a block without parent at height 0 over the coinbase alone, signed by its proposer, with clock 1 for its shard; every descent to a collision ends at it |
| `Blockchains.MineBlock` | core/blockchain.go:402-441 | what comes out final is the proposal with the search's nonce and hash, signed, on the head that was read; bad signers lose reputation, and so does a proposer whose block is not final |
| `Blockchains.MineAndStore` | core/blockchain.go:402-541 | the block is stored if and only if it wins the vote and links to the head; then its proposer is rewarded and the chain pruned, otherwise the chain is as before |
| `Mining.PrepareShard` | core/blockchain.go:363-400 | the oldest ten leave the pool and are applied to the shard's own store; no block exactly for an empty pool above height 1 |
| `Mining.MineShardBlock` | core/blockchain.go:305-547 | one undisturbed round on manager, registry and chain: who proposes, what leaves the pool, the state root, the vote's and the proposer's reputations and the chain, all shard structures staying in step |
| `MinedBlocks.MinedHeader` | core/blockchain.go:305-547 | a block that comes out carries the root of the very state its shard is left in, its shard, proposer, difficulty and time, the head's hash, clock and next height, and commits to the IDs of the oldest ten |
| `MinedBlocks.StoredExactly` | core/blockchain.go:402-547 | undisturbed, it is stored if and only if there is a head and the vote made it final |
| `MinedBlocks.MinedSigners` | core/consensus.go:298-309 | its signature list is, in ascending order, exactly those who may vote and signed it well |
| `MinedBlocks.MinedShard` | core/blockchain.go:363-400 | which transactions leave which pool and what they leave of the state, whether or not a block comes of it; no other shard changes |
| `MinedBlocks.MinedChain` | core/blockchain.go:464-541 | the chain is what it was with the block behind it, cut to the last blocks to keep |
| `MinedBlocks.MinedRatings` | core/blockchain.go:425-532 | every validator after the round: -5 for a bad signature, and for the proposer 1 for a stored block or -2 for one that was not final |
| `TwoPhase.Atomicity` | core/blockchain.go:185-294 | over every interleaving a finished transaction is committed in both shards or absent from whichever exists, and no other key changes |
| `TwoPhase.RunMeant` | core/blockchain.go:209-294 | at every point of every run both participants hold what the transaction's phase says |
| `TwoPhase.FinishedAfterFour` | core/blockchain.go:185-206 | nothing stays undecided: four operations of its own finish a transaction |
| `TwoPhase.PrepareTransaction` | core/blockchain.go:209-240 | prepare is the first two operations of the transaction, or just the first with an error if the destination is missing |
| `TwoPhase.CommitTransaction` | core/blockchain.go:243-272 | commit is the two commit operations, or the error and no change |
| `TwoPhase.AbortTransaction` | core/blockchain.go:275-294 | abort is the two abort operations: the key is gone from every existing participant |
| `TwoPhase.TwoPhaseCommit` | core/blockchain.go:185-206 | undisturbed it is the four operations of a run: committed in both or gone from both; an abort reports no error |
| `TwoPhase.PreparedInFull` | core/blockchain.go:209-240 | the stores after a prepare, with the mark spelled out |
| `TwoPhase.ConcludedInFull` | core/blockchain.go:185-294 | the stores after the whole protocol: the mark in both shards or the key in neither, no other shard touched |

## Left out

- Mining.MineShardBlock: the validators' random values are arguments; checking the chosen proof a second time repeats the first check on the same input, so its penalty does not occur; the `Prepared` and `Committed` status of cross-shard transactions during mining, the block-count metric and the overall chain height are left out.
- Validators.ValidatorManager.Ballot: during a vote reputations change only by the vote's own penalties; other operations running at the same time are not modelled.
- Merkle.VerifyMerkleProof: slices are values, so appending to a caller's sibling hash cannot write to spare capacity behind it.
- Validators.ValidatorManager.CollectVotes: all voters share one result of the validity check, which depends on the block alone; the source repeats the check in each goroutine.
- Validators.ValidatorManager.CleanupExpiredChallenges: names the validators to penalize; `PenalizeLate` gives what the penalties come to with nothing in between, but other steps may come between, as in the runs.
- VectorClocks.VectorClock.Compare: leaves out the two loops that look for a strict inequality, as both of their outcomes return the same value.
- Conflict.ResolveConflictVRF: takes clocks by value, since it only reads them; a clock written by someone else in between is not captured.
- ShardManagers.ShardManager.FindSplit: looks for the shard first and splits afterwards; the source tries to split inside the loop and, when there is no blockchain, fails again for every later shard.
- ShardManagers.ShardManager.GetAllShardIDs: the sort is its scan of neighbours, which is what both insertion sort and the pattern-defeating quicksort do on input that is already in order.
- ShardManagers.ShardManager.TriggerSplit: moves no state, as the migration is elided in the code; nothing is claimed about which shard holds a key.
- ShardRuns.SameShardOrder: speaks of values, so a second copy in another shard's pool may leave first; `ShardRuns.ArrivalOrder` tells the copies apart and needs no such condition.
- Locks, goroutines and data races: critical sections are atomic steps; the deadlock of two opposite two-phase commits, each waiting for the other's shard lock, is outside the model. `MonitorAdversarialBehavior` takes the write lock while holding the read lock and is left out.
- SHA-256, ECDSA and the consistent-hash library themselves; the RSA accumulator, which stays at 1; gob encoding.
- The placeholder proofs of core/merkle.go:192-211 and `GetTransactionMerkleProof`, which returns just the root.
- The status-only prepare and abort inside mining, and two-phase commit while shards are merged.
- State entropy, trust scores, telemetry and adaptive timeouts: floating point or simulation.
- Equality of the reputation scores with the reputations: slashing changes only the latter.
- File archive and restore, logging, tickers, `main.go` and the HTTP API: input and output.
