# MyriadMesh: verified models

Dafny 4.11 models of the stateful cores of MyriadMesh, with proofs of what they keep over whole runs.
`dafny verify dfyconfig.toml` checks everything.

Code that changes fields is a class (`LedgerStorage`, `ChainSync`, `HeartbeatRateLimiter`,
`FailoverManager`, `Cache`, `UpdateWindowSelector`, `UpdateCoordinator`). Each method is proved against
a function (or, where a hash map's iteration order shows, a relation) of the old value; the results
about runs are lemmas about those functions. Hash functions and encodings are function parameters
about which nothing is assumed. Every such function has collisions, so a binding result says "equal, or
these two inputs collide" and says where they come from: byte strings hashed while computing the two
roots at hand, or the two headers held at one height.
Hash maps are Dafny maps; wherever their iteration order could matter, it is an arbitrary sequence that
lists the keys once. Clock readings are arguments. Scores are real numbers.

## What is modelled

- **Ledger** (`Merkle`, `Block`, `Consensus`, `Storage`, `Sync`): the Merkle tree, the checks on blocks,
  reputation and rotation, the pruned store with its two indexes and block files, the sync loop.
  - `Processing`: what becomes of each pending block, and what one call reports.
  - `Runs`: the shape every reachable store has, what a run never changes, and the counters.
  - `ArrivalOrder`: delivery order is irrelevant.
  - `Recovery`: rebuilding from the directory restores the store that was lost.
  - `History`: the tip commits to everything below it.
  - `Agreement`: quorum intersection, and two ledgers never disagree.
  - `Forks`, `ForkWitness`: what fork detection reports and what it leaves alone.
- **Rate limiter** (`RateLimiter`): the sliding window decides as a limiter that forgets nothing.
- **Failover** (`LockOrder`, `Scoring`, `Failover`): the lock protocol as programs over fair-queue
  read-write locks, and the switching rule with its ten percent margin.
- **Message cache** (`MessageCache`, `CacheFile`): two capacity bounds, eviction, and the file that
  is written under another lock than the one the data was changed under.
- **Update windows** (`UpdateWindows`, `Coordination`, `Interleaving`): slot choice, downtime admission,
  and admission by many tasks at once.

## Where the code and its documentation part

The models follow the code. These differences are proved, not only noted:

- The documented lock order puts the event log before the current primary; `force_failover`, when its
  adapter exists, takes them the other way round, and is the only call that does
  (`LockOrder.DocumentedOrderKeptIff`). The calls are deadlock-free among themselves, by the order they
  really use (`LockOrder.NoDeadlock`). Beside code that trusts the documentation every other call is
  safe, and that one is not (`LockOrder.DocumentationTrustedIff`).
- Fork resolution reports blocks as rolled back; none is (`Forks.ForkedBlocksStay`, and by example
  `ForkWitness.RollBackReportedNotDone`). A difference reads as no fork exactly when it is at a stored
  genesis block (`Forks.DifferenceSilentIff`).
- The quorum rule counts list entries. That is the number of known signers exactly on lists of distinct
  known signers (`Agreement.RuleCountsNodesIff`), which is why agreement is stated for such lists; a
  block that one node signed repeatedly is stored (`Agreement.RepeatedSignatureFillsQuorum`).
- The `state` inside the sync statistics never leaves its initial value (`Runs.Accounting`).
- Latency degradation compares the threshold with the metrics of the last success, which a degraded
  check does not renew: once degraded, an adapter fails every later check
  (`Failover.DegradedForEver`), and one slow reading is enough (`Failover.OneSpikeFailsAdapter`). Such
  an adapter is still ranked (`Failover.RankedExactlyWhenReady`), though the comment speaks of healthy
  adapters.
- A store that is refused may already have evicted messages, which the file then keeps. This happens
  exactly under a test on the cache before the store (`MessageCache.RefusedIff`,
  `MessageCache.RefusalEvictsIff`, `CacheFile.OneChangeDivergesIff`): never within both limits, always
  for a device with more undelivered messages than allowed, and also at the total limit with no device
  over its own (`CacheFile.OverTotalRefusalDiverges`).
- Downtimes accepted for the neighbours of an adapter are exclusive, but a cleanup forgets those that
  are over, and nothing stops a request for the past: exactly requests that start before a cleanup's
  clock can then overlap (`Coordination.LateRequestIff`). Checking and registering are separate lock
  sections, so two requests in flight can both be accepted (`Interleaving.BothChecksFirst`); which
  checks succeed is exact for any interleaving (`Interleaving.CheckClearsIff`), and requests handled one
  at a time exclude each other (`Interleaving.OneAtATimeExcludes`).

## Model

| member | source | states |
|---|---|---|
| Merkle.NextLevel | crates/myriadmesh-ledger/src/merkle.rs:45-66 | One round of the loop halves the level, rounding up, and each new digest is that of its pair, an odd last one being paired with itself. |
| Merkle.CalculateMerkleRoot | crates/myriadmesh-ledger/src/merkle.rs:17-73 | The bottom-up level loop stops and yields the root of the tree defined recursively from the top. |
| Merkle.SmallRoots | crates/myriadmesh-ledger/src/merkle.rs:17-73 | The roots of the empty list and of lists of one, two and three entries, byte for byte in terms of the hash: pairs in order, a lone one doubled, the first half of the last digest. |
| Merkle.TopLevelIsOneNode | crates/myriadmesh-ledger/src/merkle.rs:42-67 | Halving with rounding up reaches exactly one node after the tree's height. |
| Merkle.SameExpansionSameNode | crates/myriadmesh-ledger/src/merkle.rs:42-67 | A node depends only on what is hashed on a lower level below it written out in full, a missing right subtree being a copy of the left one; on the lowest level that is the entries. |
| Merkle.NodeBinds | crates/myriadmesh-ledger/src/merkle.rs:42-67 | Nodes of two trees that hash the same bytes have the same expansion below them, or the proof returns two different byte strings with one digest, one hashed at or below that level in each tree. |
| Merkle.SameRootIff | crates/myriadmesh-ledger/src/merkle.rs:17-73 | For trees of any heights: cut the taller off where as many levels remain as the other has; the roots are equal if and only if what is hashed there, written out in full, is the other list written out in full, or two byte strings hashed in computing these two roots collide. The "if" needs no collision clause. |
| Merkle.SameHeightSameRootIff | crates/myriadmesh-ledger/src/merkle.rs:17-73 | For trees of one height the roots are equal if and only if the two lists written out in full are equal, or computing them collides. |
| Merkle.RootBindsEntries | crates/myriadmesh-ledger/src/merkle.rs:17-73 | Equal roots over equally many entries mean equal entries, or two byte strings hashed in computing these two roots collide: cut to 32 bytes at the root, in full below it. |
| Merkle.InclusionIsSound | crates/myriadmesh-ledger/src/merkle.rs:79-92 | A positive inclusion answer against the root of a list of the same length means the entry is in that list, or computing the roots of the claimed and of that list collides. |
| Merkle.InclusionIsComplete | crates/myriadmesh-ledger/src/merkle.rs:79-92 | An entry of a list is found against the root of that list and against no other root. |
| Merkle.RepeatedLastEntryKeepsRoot | crates/myriadmesh-ledger/src/merkle.rs:46-60 | An instance: repeating the last entry of an odd list of three or more gives a different list with the same root. |
| Merkle.RootPreimageHasRoot | crates/myriadmesh-ledger/src/merkle.rs:33-60 | An instance across heights: the single entry made of the bytes a root hashes has that same root, leaves and inner nodes being hashed alike. |
| Blocks.HeaderHashBytes | crates/myriadmesh-ledger/src/block.rs:113-124 | A block hash is the first half of the digest of the encoded header. |
| Blocks.HeaderBindsEntries | crates/myriadmesh-ledger/src/block.rs:140-166 | Two structurally valid blocks with one header and equally many entries have the same entries, or computing the roots of these two entry lists collides. |
| Blocks.TwoThirdsIff | crates/myriadmesh-ledger/src/block.rs:199-203 | The quorum rule holds if and only if three times the signatures are at least twice the known nodes. |
| Consensus.ConsensusManager.EligibleCreators | crates/myriadmesh-ledger/src/consensus.rs:179-185 | The eligible nodes are exactly the listed ones that may create blocks. |
| Consensus.ConsensusManager.ConsensusIff | crates/myriadmesh-ledger/src/consensus.rs:243-258 | The quorum check passes if and only if no node is known or the signatures are at least two thirds of the known nodes. |
| Consensus.ScoreRange | crates/myriadmesh-ledger/src/consensus.rs:57-83 | A reputation score lies between 0 and 1, and is 1 exactly for a node that relayed without failure, was always up and took part in a hundred blocks. |
| Consensus.EligibleIff | crates/myriadmesh-ledger/src/consensus.rs:58-83 | A node may create blocks if and only if it is known and half its relay success rate, three tenths of its uptime and a fifth of its participation, full at a hundred blocks, reach the minimum. |
| Consensus.ForkChoiceConsistent | crates/myriadmesh-ledger/src/consensus.rs:222-240 | The second chain wins if and only if it is longer, or as long with strictly more reputation; so two nodes on different sides of a fork settle on one chain unless the chains tie, and preferences never go in circles. |
| Consensus.SortedEligible | crates/myriadmesh-ledger/src/consensus.rs:190-198 | After sorting, the eligible nodes are strictly ascending and are all and only the nodes with enough reputation. |
| Consensus.SelectionIgnoresIterationOrder | crates/myriadmesh-ledger/src/consensus.rs:190-201 | The chosen creator is the same for every iteration order of the reputation map. |
| Consensus.CreatorByRank | crates/myriadmesh-ledger/src/consensus.rs:190-201 | With k eligible nodes the creator of a height is the one with exactly height modulo k eligible nodes below it, and none if there are none. |
| Consensus.OneHeightPerRemainder | crates/myriadmesh-ledger/src/consensus.rs:199-200 | Among any k consecutive heights exactly one has a given remainder modulo k. |
| Consensus.EachEligibleNodeOncePerWindow | crates/myriadmesh-ledger/src/consensus.rs:190-201 | In any window of as many consecutive heights as there are eligible nodes, each eligible node is chosen exactly once. |
| Storage.BlockFileNameForm | crates/myriadmesh-ledger/src/storage.rs:117-119 | A file name is a prefix, the height in decimal with zeros to ten digits at least, and the extension. |
| Storage.BlockFileNameInjective | crates/myriadmesh-ledger/src/storage.rs:117-119 | Zero-padded file names of different heights differ, even beyond ten digits. |
| Storage.LedgerStorage.StoreBlock | crates/myriadmesh-ledger/src/storage.rs:110-146 | File, both indexes and tip after a store, pruning included, are those of the value-level store that the run results are about. |
| Storage.LedgerStorage.Prune | crates/myriadmesh-ledger/src/storage.rs:201-230 | The early exit and the deletion loop amount to forgetting, in one step, every height below the kept window from index, files and hash lookup. |
| Storage.LedgerStorage.DeleteBlocks | crates/myriadmesh-ledger/src/storage.rs:218-227 | Deleting heights one at a time, in any order, equals forgetting them all at once. |
| Storage.LedgerStorage.RebuildIndex | crates/myriadmesh-ledger/src/storage.rs:260-301 | The scan in a given directory order produces the value the recovery results are about. |
| Storage.LedgerStorage.LoadBlock | crates/myriadmesh-ledger/src/storage.rs:149-157 | Loads the block of the indexed file, or reports which of the three ways it failed. |
| Storage.LedgerStorage.LoadRange | crates/myriadmesh-ledger/src/storage.rs:238-248 | The loadable blocks of the range in height order; heights that do not load are skipped. |
| Sync.ChainSync.ProcessPendingBlocks | crates/myriadmesh-ledger/src/sync.rs:109-142 | The loop over the sorted queue leaves the value whose counters, state and store `Processing.QueueOutcome` states outright, and returns the rise of the validated counter. |
| Sync.ChainSync.ProcessBlock | crates/myriadmesh-ledger/src/sync.rs:120-132 | Each block does to value and counters what `Processing.ProcessAllOutcome` counts, and is reported as processed exactly when the validated counter rises. |
| Sync.ChainSync.ValidateAndStoreBlock | crates/myriadmesh-ledger/src/sync.rs:145-182 | Succeeds for a new block, which is stored and counted, and for an occupied height, where nothing changes; the first failing check decides the error, and then nothing changes. |
| Sync.ChainSync.DetectAndResolveForks | crates/myriadmesh-ledger/src/sync.rs:210-269 | State and result are those that `Forks.DetectionOutcome` and `Forks.NoDifferenceNoReport` state outright. |
| Sync.ChainSync.FindForkHeight | crates/myriadmesh-ledger/src/sync.rs:216-231 | The scan's early exit finds the first alternative block whose stored counterpart has another hash. |
| Processing.VerdictIff | crates/myriadmesh-ledger/src/sync.rs:145-182 | A block is new, already there or refused by these conditions alone: version and Merkle root; height free or taken; link by height, hash and time to the stored block below; creator known with the minimum score; two thirds of signatures. A well-formed block at a taken height is never refused. |
| Processing.RejectionNamesFirstFailure | crates/myriadmesh-ledger/src/sync.rs:145-182 | The error of a refused block names the first of these conditions it fails, with the values compared. |
| Processing.ProcessAllOutcome | crates/myriadmesh-ledger/src/sync.rs:120-132 | Over a list of blocks, errors rise by the number refused at their turn and validated by all the others. |
| Processing.QueueOutcome | crates/myriadmesh-ledger/src/sync.rs:109-142 | One call on a queue that is not empty: the blocks refused at their turn in height order are the errors, all others, duplicates among them, are validated, the acceptable ones are stored in turn, and the state is Synced if and only if some block was not refused. |
| Processing.OtherOpsOutcome | crates/myriadmesh-ledger/src/sync.rs:103-306 | What queueing, requesting, fork detection, marking and reset leave of store, queue, queried nodes and state, outright. |
| Processing.QueriedSinceReset | crates/myriadmesh-ledger/src/sync.rs:292-306 | After any run exactly those nodes count as queried that were marked since the last reset, or counted before the run if there was none. |
| Runs.PerformAll | crates/myriadmesh-ledger/src/sync.rs:103-306 | A whole run of a `ChainSync` object leaves the value that the run of its value leaves, to which all results below apply. |
| Runs.NewBlockHeight | crates/myriadmesh-ledger/src/sync.rs:145-182 | A block that passes every check is the successor of the tip, the first block of an empty store, or a genesis block whose height was pruned. |
| Runs.StoreBlockEffect | crates/myriadmesh-ledger/src/storage.rs:110-146 | Storing such a block keeps one interval of heights ending at the tip and changes no other block that stays. |
| Runs.StoreBlockInv | crates/myriadmesh-ledger/src/storage.rs:110-230 | The whole store invariant (window of heights, files mirror the index, every block vetted, neighbours linked) survives a store with its pruning. |
| Runs.ExecuteKeeps | crates/myriadmesh-ledger/src/sync.rs:103-306 | Over any run the invariant holds, the tip never goes down, a kept block is never replaced, and a pruned height never comes back. |
| Runs.ReachableStoreShape | crates/myriadmesh-ledger/src/sync.rs:145-182 | From an empty store, after any operations: one interval of heights ending at the tip, with pruning as long as the configured number allows and otherwise complete, the latest block is the tip's and loads, and neighbours are linked by height, hash and rising time. |
| Runs.ResubmittedGenesisIsPruned | crates/myriadmesh-ledger/src/storage.rs:133-145 | A genesis block sent again after its height was pruned is accepted and leaves index, files and tip as they were. |
| Runs.DetectForksStore | crates/myriadmesh-ledger/src/sync.rs:210-269 | Fork detection never touches the storage. |
| Runs.Accounting | crates/myriadmesh-ledger/src/sync.rs:103-182 | Over any run: discovered = validated + errors + pending + dropped by resets; downloaded is the number of real stores; the state inside the statistics stays at its initial value. |
| ArrivalOrder.QueueSortsToExtension | crates/myriadmesh-ledger/src/sync.rs:117-118 | However a valid extension is queued, sorting by height restores chain order. |
| ArrivalOrder.InOrderStoresAll | crates/myriadmesh-ledger/src/sync.rs:120-132 | In chain order every block of a valid extension passes and is stored. |
| ArrivalOrder.OneByOneStoresAll | crates/myriadmesh-ledger/src/sync.rs:103-142 | Queueing and processing the extension block by block stores all of it as well. |
| ArrivalOrder.ArrivalOrderDoesNotMatter | crates/myriadmesh-ledger/src/sync.rs:109-142 | From any arrangement of a valid extension one call stores all of it, ends in Synced without an error, and leaves the very store that block-by-block delivery leaves, pruning interleaved. |
| ArrivalOrder.TipAfterAll | crates/myriadmesh-ledger/src/storage.rs:133-136 | The tip afterwards is the last block of the extension and loads. |
| Recovery.ExecuteHashInv | crates/myriadmesh-ledger/src/storage.rs:110-230 | Over any run, unless two written headers share a hash, the hash lookup is the exact inverse of the index. |
| Recovery.RebuildPrefix | crates/myriadmesh-ledger/src/storage.rs:272-296 | Part-way through the scan exactly the blocks of the files read so far are indexed, and the tip is the highest of them. |
| Recovery.RebuildRestores | crates/myriadmesh-ledger/src/storage.rs:260-301 | From a store satisfying the invariant, any directory order rebuilds the same index and tip, and the same hash lookup if it was an exact inverse. |
| Recovery.ReachableStoreRecovers | crates/myriadmesh-ledger/src/storage.rs:260-301 | After any run, a new storage rebuilt from the directory in any order equals the lost one; only the hash lookup needs that no two written headers share a hash. |
| Recovery.LookupByHash | crates/myriadmesh-ledger/src/storage.rs:160-167 | In every reachable store, looking up a stored block's hash loads that block, absent header collisions. |
| Recovery.Reopen | crates/myriadmesh-ledger/src/storage.rs:89-102 | Opening the directory and rebuilding yields an object with the lost value. |
| History.HashCommitsToHistory | crates/myriadmesh-ledger/src/block.rs:169-196 | Two stores that agree on one header hash hold equal headers, and equal entries when equally many, at every lower shared height, or the two blocks they hold at one of these heights collide: in their headers, or in computing the roots of their entries. |
| History.TipCommitsToHistory | crates/myriadmesh-ledger/src/block.rs:113-124 | Two nodes with their own runs and configurations whose tips have one height and hash agree on their whole shared history, or two blocks they hold at one height collide. |
| Agreement.RuleCountsNodesIff | crates/myriadmesh-ledger/src/block.rs:199-203 | The number the rule compares is the number of different known nodes that signed if and only if nobody is listed twice and all listed are known. |
| Agreement.QuorumCountsNodes | crates/myriadmesh-ledger/src/block.rs:199-203 | On lists of distinct known signers the rule holds if and only if three times the known nodes that signed are at least twice the known nodes. |
| Agreement.RepeatedSignatureFillsQuorum | crates/myriadmesh-ledger/src/sync.rs:145-182 | Among any two or more known nodes, a genesis block that one eligible node signed over and over passes every check of an empty ledger and is stored, with fewer signers than the quorum asks for. |
| Agreement.QuorumsIntersect | crates/myriadmesh-ledger/src/block.rs:199-203 | Two quorums share at least floor((n-1)/3) + 1 nodes. |
| Agreement.QuorumsShareHonestIff | crates/myriadmesh-ledger/src/block.rs:199-203 | Any two quorums share an honest node if and only if fewer than 2 * ceil(2n/3) - n nodes are faulty, a bound floor((n-1)/3) always meets. |
| Agreement.QuorumsAgree | crates/myriadmesh-ledger/src/consensus.rs:243-258 | Two vetted blocks of one height, properly signed, with at most floor((n-1)/3) faulty nodes, have one header; the "no nodes known" pass cannot occur because the creator check fails first. |
| Agreement.LedgersAgree | crates/myriadmesh-ledger/src/sync.rs:170-178 | Under that bound two nodes with the same known set store the same header at every shared height, whatever their runs, configurations and scores. |
| Forks.FirstMismatch | crates/myriadmesh-ledger/src/sync.rs:216-231 | On a sound store the scan never fails and stops at the first stored height that differs; all stored heights before it match. |
| Forks.MeetingReachesDown | crates/myriadmesh-ledger/src/block.rs:169-196 | A linked alternative chain that matches the store at some height matches it at every lower shared height, or at a height in between the stored header and the alternative's differ and have one hash. |
| Forks.ForkHeightSplits | crates/myriadmesh-ledger/src/sync.rs:215-236 | A nonzero fork height splits the shared heights: every one below agrees; every one from it on differs, or at some height above it and up to there the stored header and the alternative's differ and have one hash. |
| Forks.RangeIsStored | crates/myriadmesh-ledger/src/storage.rs:238-248 | Loading a range of stored heights up to the tip gives the block of each height in turn. |
| Forks.FromHeightIsSuffix | crates/myriadmesh-ledger/src/sync.rs:242-246 | Of a linked alternative, the blocks kept from a block's height on are those from its position on. |
| Forks.DetectionOutcome | crates/myriadmesh-ledger/src/sync.rs:210-269 | A linked alternative that first differs in block i, above genesis: if from there it is longer than the stored chain, or as long with strictly more creator score, the number of stored blocks from there to the tip is reported and exactly the alternative from i on is queued; otherwise nothing is reported or changed. |
| Forks.NoDifferenceNoReport | crates/myriadmesh-ledger/src/sync.rs:215-236 | An alternative that differs from no stored block changes nothing and reports nothing. |
| Forks.ForkedBlocksStay | crates/myriadmesh-ledger/src/sync.rs:249-264 | After a reported roll-back and a processing of the queue, every contested height still stored holds its local block. |
| Forks.DifferenceSilentIff | crates/myriadmesh-ledger/src/sync.rs:215-236 | For a linked alternative that differs from the store somewhere, the difference reads as "no fork" if and only if the alternative begins with a different genesis block and height 0 is stored. |
| Forks.GenesisForkIsSilent | crates/myriadmesh-ledger/src/sync.rs:233-236 | In that case detection changes nothing and reports nothing. |
| ForkWitness.RollBackReportedNotDone | crates/myriadmesh-ledger/src/sync.rs:245-264 | A node with two blocks, shown a longer chain that departs at height 1, reports one block as rolled back, and after processing the queue still holds its own block there. |
| RateLimiter.HeartbeatRateLimiter.Allow | myriadnode-full/src/heartbeat.rs:170-199 | Accepts exactly when, over the full history, no acceptance of the node is too close and fewer than the maximum are at most a second old. |
| RateLimiter.HeartbeatRateLimiter.DropOld | myriadnode-full/src/heartbeat.rs:182-188 | What the pops leave is as long as the number of acceptances of the whole history that are at most a second old. |
| RateLimiter.HeartbeatRateLimiter.Accept | myriadnode-full/src/heartbeat.rs:194-196 | Entering an acceptance keeps window and per-node record in step with the history. |
| RateLimiter.RecentIsCount | myriadnode-full/src/heartbeat.rs:182-190 | Dropping from the front until the first young entry keeps exactly the young ones. |
| RateLimiter.AcceptedOrdered | myriadnode-full/src/heartbeat.rs:170-199 | With a clock that never goes back the acceptances are in time order. |
| RateLimiter.NextAccepted | myriadnode-full/src/heartbeat.rs:170-199 | The run of the unbounded limiter grows by the very step `Allow` makes. |
| RateLimiter.AllowAll | myriadnode-full/src/heartbeat.rs:170-199 | Driven through any sequence of calls, the limiter gives the answers and keeps the history of the limiter that forgets nothing. |
| RateLimiter.EveryWindowBounded | myriadnode-full/src/heartbeat.rs:180-192 | Over any run no closed one-second interval, wherever it lies, holds more than the maximum of acceptances. |
| RateLimiter.SameNodeSpaced | myriadnode-full/src/heartbeat.rs:173-178 | Over any run two acceptances of one node are at least the minimum interval apart. |
| RateLimiter.RefusalHasReason | myriadnode-full/src/heartbeat.rs:170-199 | A refusal happens only when the node was accepted too recently or the last second holds exactly the maximum. |
| LockOrder.CallSafeIff | myriadnode-full/src/failover.rs:274-519 | For any order that puts manager before health before adapters before event log, and manager before primary: every call follows it, except that a `force_failover` whose adapter exists does so if and only if the primary comes before the event log. |
| LockOrder.CallSafe | myriadnode-full/src/failover.rs:274-519 | Every call takes locks only upwards in manager < health < adapter < primary < event log, and gives all of them back. |
| LockOrder.LocksTaken | myriadnode-full/src/failover.rs:274-519 | Which locks each call takes, in order: a check manager, health, each adapter found and the event log for each event, then primary, then the event log for a switch; a forced failover manager, primary, event log; the getters one each. |
| LockOrder.DocumentedOrderKeptIff | myriadnode-full/src/failover.rs:106-112 | Every call keeps the documented order if and only if it is not a `force_failover` whose adapter exists. |
| LockOrder.TaskSafe | myriadnode-full/src/failover.rs:274-519 | Sequences of calls follow an order under the same condition on their calls. |
| LockOrder.FindRunnable | myriadnode-full/src/failover.rs:104-125 | For any lock order that all tasks respect, from any blocked task a chain of holders leads to one that can step. |
| LockOrder.SomeTaskCanStep | myriadnode-full/src/failover.rs:274-519 | While any task is unfinished some task can step. |
| LockOrder.StepKeeps | myriadnode-full/src/failover.rs:274-519 | Every step keeps queues exact, tasks within the order, and writers alone on their lock. |
| LockOrder.ScheduleKeeps | myriadnode-full/src/failover.rs:274-519 | So does every schedule, and none is longer than the steps there are. |
| LockOrder.OrderedNeverStuck | myriadnode-full/src/failover.rs:104-125 | Any programs, whatever they are, that all respect one lock order are never stuck under any schedule; where nothing can step, all have finished and hold nothing. |
| LockOrder.NoDeadlock | myriadnode-full/src/failover.rs:274-519 | In particular any number of tasks with any of the manager's calls. |
| LockOrder.DocumentedCallersNeverStuck | myriadnode-full/src/failover.rs:104-125 | Any callers that keep the documented order, beside tasks that make any calls but a successful `force_failover`, are never stuck. |
| LockOrder.DocumentedOrderCanDeadlock | myriadnode-full/src/failover.rs:488-510 | The schedule behind that: `force_failover` and one documented-order caller, after which neither can step. |
| LockOrder.DocumentationTrustedIff | myriadnode-full/src/failover.rs:488-510 | A call never gets stuck beside any caller that keeps the documented order if and only if it is not a `force_failover` whose adapter exists. |
| Scoring.ScoreBounds | myriadnode-full/src/scoring.rs:135-170 | With nonnegative weights and in-range metrics a total score lies between 0 and the sum of the weights. |
| Scoring.ScoreMonotone | myriadnode-full/src/scoring.rs:135-220 | With nonnegative weights, improving any metric never lowers the total score. |
| Scoring.ComponentScores | myriadnode-full/src/scoring.rs:198-220 | Latency scores from 1 at none down to 0 at a second, bandwidth up to 1 at a hundred megabits, power from 1 at none down to 0 at full, linearly and constant beyond. |
| Scoring.OneMetricMoves | myriadnode-full/src/scoring.rs:135-152 | When one metric alone changes, the total moves by the move of that metric's component times that metric's weight. |
| Scoring.RankingLists | myriadnode-full/src/scoring.rs:173-187 | A ranking lists every adapter with its own score and nothing else, the best first, for every iteration order. |
| Failover.ScoreInRanking | myriadnode-full/src/failover.rs:394-398 | Searching the ranking for an adapter finds its score exactly when it is ready. |
| Failover.SwitchIffNotSettled | myriadnode-full/src/failover.rs:391-410 | A check switches exactly when the primary is not ready or some ready adapter beats it by more than a tenth, whatever the iteration order. |
| Failover.CheckSettles | myriadnode-full/src/failover.rs:371-443 | After a check that ranks two or more, the primary is ready and within a factor 1.10 of every ready adapter. |
| Failover.SwitchGoesToBest | myriadnode-full/src/failover.rs:371-443 | If the primary is settled it stays and nothing is logged; if not, the new primary is ready and scores at least as high as every ready adapter, and one switch from the old to it with its score is logged. |
| Failover.NoFlapping | myriadnode-full/src/failover.rs:371-443 | While the metrics stay, no later check switches again, whatever order ties come out in; `Monitor` carries this to repeated scans. |
| Failover.VisitOutcome | myriadnode-full/src/failover.rs:58-101 | One visit: an adapter not ready, or degraded in latency, counts one more failure; a success clears the count; a down event is logged if and only if it is the third failure running or more and the adapter is not ready. |
| Failover.DownFromThird | myriadnode-full/src/failover.rs:303-319 | An adapter not ready any number of times running is logged as down from the third failure on, and nothing else is logged or ranked. |
| Failover.SwitchRepeatsIffBestNegative | myriadnode-full/src/failover.rs:400-402 | Without the sign assumption: the same check repeated switches again if and only if the best score is negative. |
| Failover.DegradedForEver | myriadnode-full/src/failover.rs:84-101 | Once degraded in latency, an adapter counts a failure at every later check whatever it reports, and reads Failed after three. |
| Failover.DegradedAfterSuccess | myriadnode-full/src/failover.rs:69-101 | A success is followed by degradation if and only if its latency exceeds a stated multiple of the previous average, or, for a first success, the multiplier times itself. |
| Failover.OneSpikeFailsAdapter | myriadnode-full/src/failover.rs:69-101 | From a new record: after one reading of 10 ms and one of 1000 ms, at a multiplier of 2, the adapter is degraded, and any three further readings leave it Failed. |
| Failover.RankedExactlyWhenReady | myriadnode-full/src/failover.rs:290-364 | An adapter is ranked exactly when it reported ready metrics, degraded or failed though it may be. |
| Failover.ScanMetrics | myriadnode-full/src/failover.rs:290-364 | What a scan hands to the ranking depends on the readings alone, not on the health records. |
| Failover.ScanLogs | myriadnode-full/src/failover.rs:290-364 | A scan only adds events to the log, and never a switch. |
| Failover.Monitor | myriadnode-full/src/failover.rs:200-250 | While the readings stay, the monitoring loop keeps through any number of rounds the primary that its first round chose, and logs no switch after that round, whatever the health records and iteration orders. |
| Failover.FailoverManager.LogEvent | myriadnode-full/src/failover.rs:464-474 | The log remains exactly the last hundred events ever logged. |
| Failover.FailoverManager.GetRecentEvents | myriadnode-full/src/failover.rs:482-485 | The newest logged events, newest first: as many as asked for, but no more than a hundred or were ever logged. |
| Failover.FailoverManager.ScanAdapters | myriadnode-full/src/failover.rs:290-364 | The loop's health records, events and metrics are those of visiting the adapters one after another. |
| Failover.FailoverManager.ScanAdapter | myriadnode-full/src/failover.rs:291-363 | One visit records success or failure and logs downs and violations by the health as it was before the visit. |
| Failover.FailoverManager.CheckAndFailover | myriadnode-full/src/failover.rs:274-444 | Health, primary and log after a check are those of the scan and of the choice that `Failover.SwitchGoesToBest` states outright, for the iteration order it returns. |
| Failover.FailoverManager.ForceFailover | myriadnode-full/src/failover.rs:488-510 | An existing adapter becomes primary and the override is logged with the old primary; a missing one changes nothing. |
| MessageCache.Cache.Store | crates/myriadmesh-appliance/src/cache.rs:225-272 | The new data is a possible outcome of storing in the old; the file follows exactly when the store succeeds. |
| MessageCache.Cache.EvictMessages | crates/myriadmesh-appliance/src/cache.rs:383-419 | The device's delivered messages go, and if it is still over its limit its least urgent ones, for some iteration order. |
| MessageCache.Cache.RetrieveMessages | crates/myriadmesh-appliance/src/cache.rs:437-458 | Returns an answer that `MessageCache.RetrieveTakesMostUrgent` describes, with a limit of 100 when none is given. |
| MessageCache.Cache.MarkAsDelivered | crates/myriadmesh-appliance/src/cache.rs:461-474 | Exactly the listed messages become delivered; unknown ids are ignored; an empty list does not even save. |
| MessageCache.Cache.IncrementDeliveryAttempts | crates/myriadmesh-appliance/src/cache.rs:477-484 | One message's attempt count rises by one; the file is written even when there is no such message. |
| MessageCache.Cache.CleanupExpired | crates/myriadmesh-appliance/src/cache.rs:538-553 | Exactly the expired messages go and are counted; the file is written only if there were any. |
| MessageCache.Cache.DeleteDeviceMessages | crates/myriadmesh-appliance/src/cache.rs:556-561 | Exactly the device's messages go, from memory and file. |
| MessageCache.Perform | crates/myriadmesh-appliance/src/cache.rs:200-561 | Each operation of the object has one of the effects the results on runs and on the file are about, and writes the file exactly when that effect says so. |
| MessageCache.StoreKeepsLimits | crates/myriadmesh-appliance/src/cache.rs:225-272 | From within both bounds a store ends within both, accepted or refused. |
| MessageCache.StoreRemovesExactly | crates/myriadmesh-appliance/src/cache.rs:225-272 | Within limits a store removes, besides the entry it replaces, exactly this: the device's delivered messages if the device is at its limit; otherwise, if the total limit is reached, every delivered or expired message. |
| MessageCache.StoreOutcome | crates/myriadmesh-appliance/src/cache.rs:225-272 | From any state an accepted message is there, a refused one adds nothing, and nothing kept is altered. |
| MessageCache.RefusedIff | crates/myriadmesh-appliance/src/cache.rs:235-262 | A store is refused if and only if the device's undelivered messages alone reach its limit, or the total limit is reached even after the eviction that applies. |
| MessageCache.RefusalEvictsIff | crates/myriadmesh-appliance/src/cache.rs:235-262 | A refused store changes the cache if and only if: below the device limit, something is delivered or expired; with the undelivered messages at the limit, the device is above it; in between, always. |
| MessageCache.RefusalChangesNothing | crates/myriadmesh-appliance/src/cache.rs:235-262 | From within limits a refused store leaves the cache exactly as it was. |
| MessageCache.TrimKeepsMostUrgent | crates/myriadmesh-appliance/src/cache.rs:392-418 | A device over its limit is cut to exactly the limit, each trimmed message is at or below each survivor in priority and age, and other devices are untouched. |
| MessageCache.OverLimitStoreRefused | crates/myriadmesh-appliance/src/cache.rs:235-250 | A store for a device with more undelivered messages than allowed is refused, cuts it to exactly its limit, keeps nothing delivered, and what goes undelivered is at or below every survivor in priority and age; other devices are untouched. |
| MessageCache.RunKeepsLimitsAndMessages | crates/myriadmesh-appliance/src/cache.rs:225-561 | Over any run from within limits both bounds hold, and an undelivered message stays until it is delivered or stored anew, its device is deleted, or it has expired and a cleanup or a store at the total limit comes by. |
| MessageCache.OtherOpsOutcome | crates/myriadmesh-appliance/src/cache.rs:461-561 | What marking, counting an attempt, cleanup and device deletion do to each message, outright, and when each goes on to save. |
| MessageCache.RunNeverRevives | crates/myriadmesh-appliance/src/cache.rs:225-561 | Over any run, what is gone stays gone and what is delivered stays delivered until a message of that id is stored anew. |
| MessageCache.UnsavedOnlyRemoves | crates/myriadmesh-appliance/src/cache.rs:225-561 | An operation that ends without a save has altered nothing, or is a refused store that only removed messages. |
| MessageCache.RetrieveTakesMostUrgent | crates/myriadmesh-appliance/src/cache.rs:437-458 | The answer is as long as the limit or the number of wanted ids, whichever is less; its messages are those of different wanted ids, urgent before high before normal before low and older first within one priority; and a wanted message left out comes after all of them. |
| MessageCache.Select | crates/myriadmesh-appliance/src/cache.rs:446-451 | The filter keeps exactly the stored messages that are wanted. |
| CacheFile.ScheduleKeeps | crates/myriadmesh-appliance/src/cache.rs:200-272 | Under any interleaving, what a save is writing is what memory holds, and between calls the file lacks nothing that memory has. |
| CacheFile.UnsavedChangeIff | crates/myriadmesh-appliance/src/cache.rs:225-561 | An operation changes memory without a save to follow if and only if it is a store that the tests above, on the cache before it, say will be refused and evict. |
| CacheFile.FileMatchesAtRest | crates/myriadmesh-appliance/src/cache.rs:200-272 | With no task inside, file and memory are equal if and only if no store since the last save met that test before it ran; otherwise the file merely holds more. |
| CacheFile.FileMatchesWithinLimits | crates/myriadmesh-appliance/src/cache.rs:225-272 | A cache that starts within its limits has file and memory equal whenever no task is inside. |
| CacheFile.OneChangeDivergesIff | crates/myriadmesh-appliance/src/cache.rs:225-272 | From rest with file and memory equal, one operation leaves them apart if and only if it meets that test. |
| CacheFile.OverLimitRefusalDiverges | crates/myriadmesh-appliance/src/cache.rs:235-250 | A device with more undelivered messages than allowed is enough to meet it. |
| CacheFile.OverTotalRefusalDiverges | crates/myriadmesh-appliance/src/cache.rs:252-262 | So is the total limit, with no device over its own: a delivered message is evicted and the store refused. |
| CacheFile.SaveWritesCurrentData | crates/myriadmesh-appliance/src/cache.rs:200-211 | What reaches the file is never older than memory at that moment. |
| CacheFile.LimitsKept | crates/myriadmesh-appliance/src/cache.rs:225-272 | The bounds hold in every state of every interleaving that starts within them. |
| UpdateWindows.ConflictIffCounted | crates/myriadmesh-updates/src/schedule.rs:251-260 | A slot conflicts exactly when the scorer's overlap count for it is positive. |
| UpdateWindows.CountIsPositions | crates/myriadmesh-updates/src/schedule.rs:251-260 | The overlap count of a peer is the number of its downtimes that overlap the slot. |
| UpdateWindows.OverlapCountPermutes | crates/myriadmesh-updates/src/schedule.rs:251-260 | The overlap count is the same for every order of the neighbours. |
| UpdateWindows.ScoreParts | crates/myriadmesh-updates/src/schedule.rs:229-278 | What the parts of a score are worth: 150 at night, 130 late and early, 80 in business hours, 100 otherwise; less 40 for each overlap, 30 for full load, and half a point for each hour of delay. |
| UpdateWindows.EarliestBestUnique | crates/myriadmesh-updates/src/schedule.rs:213-221 | The earliest slot of highest score is unique. |
| UpdateWindows.ChoiceIgnoresNeighborOrder | crates/myriadmesh-updates/src/schedule.rs:195-224 | The chosen window is the same for every order of the neighbour set. |
| UpdateWindows.ScoreSwing | crates/myriadmesh-updates/src/schedule.rs:229-278 | Overlaps aside, two slots of the day differ by at most 111.5 points. |
| UpdateWindows.ChosenSlotOverlaps | crates/myriadmesh-updates/src/schedule.rs:195-278 | The chosen slot overlaps at most two more downtimes than any other slot of the day. |
| UpdateWindows.TwoMoreOverlapsHappen | crates/myriadmesh-updates/src/schedule.rs:195-278 | That bound is attained: a day on which the chosen slot overlaps exactly two more than another. |
| UpdateWindows.RecordedLoad | crates/myriadmesh-updates/src/schedule.rs:281-284 | A recorded load replaces that of the hour modulo 24, kept between 0 and 1; other hours keep theirs. |
| UpdateWindows.Live | crates/myriadmesh-updates/src/schedule.rs:184-186 | What is kept of a list is exactly what has not ended. |
| UpdateWindows.CleanupKeepsCounts | crates/myriadmesh-updates/src/schedule.rs:176-190 | Cleanup changes no overlap count of a slot at or after its time. |
| UpdateWindows.CleanupKeepsConflicts | crates/myriadmesh-updates/src/schedule.rs:176-190 | Nor any conflict answer for such a slot. |
| UpdateWindows.CleanupKeepsChoice | crates/myriadmesh-updates/src/schedule.rs:176-224 | Nor the window chosen at or after it. |
| UpdateWindows.UpdateWindowSelector.CleanupExpiredDowntimes | crates/myriadmesh-updates/src/schedule.rs:176-190 | Exactly the downtimes that have not ended remain, and no peer keeps an empty list. |
| UpdateWindows.UpdateWindowSelector.FindOptimalWindow | crates/myriadmesh-updates/src/schedule.rs:195-224 | Returns the earliest slot of highest score among the day's 288. |
| UpdateWindows.BestOfDay | crates/myriadmesh-updates/src/schedule.rs:195-224 | The choice lies within the coming day on a five-minute step from now; no step of the day scores higher and no earlier one as high. |
| UpdateWindows.UpdateWindowSelector.EvaluateUpdateSlot | crates/myriadmesh-updates/src/schedule.rs:229-278 | The accumulated score is the sum of the hour's bonus and the three penalties, with each overlap counted once. |
| UpdateWindows.UpdateWindowSelector.PenalizeOverlaps | crates/myriadmesh-updates/src/schedule.rs:248-260 | The nested loop takes off 40 for each overlapping downtime of each listed neighbour. |
| UpdateWindows.UpdateWindowSelector.HasConflict | crates/myriadmesh-updates/src/schedule.rs:293-308 | The early exits answer exactly whether some downtime of a listed neighbour overlaps the slot. |
| UpdateWindows.UpdateWindowSelector.UpdateNetworkLoad | crates/myriadmesh-updates/src/schedule.rs:281-284 | Recorded loads always lie between 0 and 1 and hours below 24. |
| Coordination.OverlapIsSharedInstant | crates/myriadmesh-updates/src/schedule.rs:80-86 | Two schedules that take time overlap if and only if some instant lies in both, and the test is symmetric. |
| Coordination.AnswersAgree | crates/myriadmesh-updates/src/coordination.rs:157-226 | State, schedule and clock determine the answer, proposed start included, whatever order the neighbour set comes out in. |
| Coordination.ProposalIsNearlyFree | crates/myriadmesh-updates/src/coordination.rs:183-196 | If some slot of the day is free, the proposed start overlaps at most two downtimes. |
| Coordination.RegisteredIff | crates/myriadmesh-updates/src/coordination.rs:157-226 | At any point of any run the selector knows a downtime if and only if it knew it at the start or accepted it, and no cleanup since found it over. |
| Coordination.AdmissionIff | crates/myriadmesh-updates/src/coordination.rs:157-226 | A request is accepted if and only if its fallbacks are available and no downtime surviving by the history, of a node that is a neighbour then, overlaps it. |
| Coordination.AcceptedIffNoneInTheWay | crates/myriadmesh-updates/src/coordination.rs:157-226 | From a new coordinator: a request is accepted if and only if its fallbacks are available and every accepted neighbour's request that overlaps it had ended by a cleanup in between. |
| Coordination.LastNeighbors | crates/myriadmesh-updates/src/coordination.rs:82-89 | Over any run the neighbours of an adapter are the set registered last. |
| Coordination.LastAvailable | crates/myriadmesh-updates/src/coordination.rs:92-94 | And the available adapters are the set registered last. |
| Coordination.OneDownAtATime | crates/myriadmesh-updates/src/coordination.rs:157-226 | With an adapter's neighbours fixed, two accepted downtimes run at one instant only if a cleanup between the requests had found the first over; never, if no request starts before an earlier cleanup's clock. |
| Coordination.OverlapAcceptedIff | crates/myriadmesh-updates/src/coordination.rs:171-218 | A neighbour's request, a cleanup and an overlapping request: the second is accepted if and only if the cleanup ran at or after the end of the first. |
| Coordination.LateRequestOverlaps | crates/myriadmesh-updates/src/coordination.rs:171-218 | The same request twice with a cleanup between: accepted again if and only if it had ended by then. |
| Coordination.LateRequestIff | crates/myriadmesh-updates/src/coordination.rs:171-218 | After a cleanup, a request can be accepted on top of an accepted one if and only if it starts before the cleanup's clock, so the condition for exclusion cannot be relaxed. |
| Coordination.OutsidersBlockNobody | crates/myriadmesh-updates/src/schedule.rs:293-308 | A downtime of a node outside the neighbour set changes no conflict answer. |
| Coordination.SecondAcceptedIff | crates/myriadmesh-updates/src/coordination.rs:171-218 | Of two acceptable neighbouring requests made one after the other, the second is still accepted if and only if they do not overlap. |
| Coordination.UpdateCoordinator.HandleScheduleRequest | crates/myriadmesh-updates/src/coordination.rs:157-226 | A conflict gives Reschedule with the best slot, else the first unavailable fallback gives Rejected, and neither changes anything; otherwise the downtime is registered and acknowledged. |
| Coordination.PerformAll | crates/myriadmesh-updates/src/coordination.rs:157-226 | A whole run of the object, with any clock readings, leaves the value that the run of its value leaves, to which the results on runs apply. |
| Interleaving.OverlapMeansEarlyCheck | crates/myriadmesh-updates/src/coordination.rs:157-226 | With any number of requests in flight, two accepted neighbouring downtimes overlap only if the later one's check ran before the earlier one was registered, or a cleanup between the two had found the earlier one over. |
| Interleaving.BothChecksFirst | crates/myriadmesh-updates/src/coordination.rs:171-218 | And an early check suffices: any two acceptable requests are both registered when both checks come first. |
| Interleaving.RegisteredIff | crates/myriadmesh-updates/src/coordination.rs:157-226 | At any point of any interleaving the selector knows a downtime if and only if it knew it at the start or registered it, and no cleanup since found it over. |
| Interleaving.CheckClearsIff | crates/myriadmesh-updates/src/coordination.rs:171-181 | In any interleaving a check clears its task if and only if no downtime surviving by the history, of a node the task has read as a neighbour, overlaps its schedule. |
| Interleaving.CheckClearsIffNotBlocked | crates/myriadmesh-updates/src/coordination.rs:171-181 | From a new coordinator: if and only if every earlier registration of such a node that overlaps it had ended by a cleanup in between. |
| Interleaving.OneAtATimeExcludes | crates/myriadmesh-updates/src/coordination.rs:157-226 | When no request begins while another is in flight, accepted neighbouring downtimes do not overlap, unless a cleanup in between had found the earlier one over. |
| Interleaving.CheckCleared | crates/myriadmesh-updates/src/coordination.rs:171-181 | Every registration goes back to one check that found no conflict, with nothing done by its task in between. |

## Left out

- Cryptography and encodings: BLAKE2b, Ed25519, bincode, JSON and UUIDs are parameters or absent. Block files hold block values, so a decode of an encoded block gives the block back; the size in the block metadata is omitted.
- File errors other than missing or undecodable files: writes and deletes succeed, and a write is one step.
- `keep_blocks == 0` with pruning enabled: the source subtracts one from it; 64-bit overflow of heights, times and counters.
- Storing a different block directly at an occupied height: `ChainSync` never does it.
- Node identifiers are the numbers their fixed-length bytes spell, whose order is the byte order; adapter types are numbers.
- Floating-point rounding: scores, loads and reputations are reals. The starting score of the window search is "none yet" instead of the least float.
- `Block::new`, signing bytes, `add_validator_signature`, `record_*`, `update_*` and `set_min_reputation`: plain setters; `ChainSync` never changes its consensus manager, which is therefore a value here.
- `get_missing_heights`, `needs_sync`, `get_heights`, `get_metadata` and the statistics getters: single reads of the index.
- The metrics conversion, the privacy estimate, weight normalisation and the background loop of the failover manager: constants, field updates and wiring. The component scores inside an adapter score are not kept.
- Failover locks are granted in arrival order to one waiter at a time, and tasks are not cancelled; users of the same locks outside `failover.rs` are not modelled.
- The heartbeat service around the limiter: signatures, broadcasting, geolocation.
- The appliance cache's `get_stats` and its unused lock-splitting variants `check_limits`, `evict_messages` and `evict_global`.
- The pending-schedule manager, update packages, distribution, verification, and `schedule_adapter_update`: map bookkeeping and calls to the window search.
- The clock is read once per window search, where the source reads it again for each slot.
- Response ids and messages, node ids inside responses, and the texts of errors.
