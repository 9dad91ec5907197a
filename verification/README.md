# Zutreexo accumulators, verified

A Dafny model of the nullifier accumulator of zutreexo and of everything that
has to stay in step with it, with proofs that the model keeps its promises.

The project follows the layers of the repository.

* **The indexed Merkle tree.** A fixed-depth append-only tree threaded by a
  sorted linked list. A tree is specified by its insertion history alone: the
  sentinel 0 and then every value in insertion order. `LinkedSet` derives each
  leaf from that history by search and `Merkle` derives each node from the
  leaves, so leaves, value index and cached nodes all have one from-scratch
  meaning. `Imt` is the object that keeps the three structures up to date in
  place, `ImtProofs` the two verifiers that hold only a root, `ImtBulk` the
  bottom-up build and the root recomputation, `Naive` the simple model.
* **Prefix ranges and cohort proofs.** `Prefix` has the byte-wise range
  computation, `Cohort` and `CohortServing` the deduplicated proof over the
  insertion-ordered tree, `Sorted` and `SortedProofs` the contiguous run over a
  value-ordered snapshot, `CohortExact` and `SortedExact` exactly which of them are
  accepted and what they answer, and `CohortForms` what the two say of one set.
* **The chain.** `Chain` is the block transition as a function that returns the
  next state and the verdict, faults included; `Accumulators` is the object that
  performs it in place; `ChainProofs` and `Transition` say what it accepts, what
  it keeps and what a rejection leaves, `Effects` what an accepted block leaves
  slot by slot, `Refusals` that errors name true causes. `Bundle` and `Csn` are the
  proof bundle and the compact node, `ServedBundles` what a served bundle says, `CsnProofs`, `CsnTheorems` and `CsnRuns` their soundness
  and lockstep, `CsnForgery` and `CsnSoundRuns` where exactly soundness ends, for
  one block and for runs. `NaiveChain`, `NaiveRefinement` and `NaiveRuns` relate the bridge
  to the naive chain model.
* **Reorgs.** `Rollback` specifies the journal, `JournalClass` performs it in
  place, `UndoProofs`, `Reorg`, `ReorgRollback`, `ReorgRuns` and `ReorgGenesis` say
  which interleavings of blocks and rollbacks equal a cold replay, `Retention` and
  `RetentionRuns` what the journal keeps.
* **Bytes.** `Wire`, `WirePaths`, `WireMessages`, `WireCohorts` and `WireFrames`
  are the proof codecs, `WireShortest` and `WireCanonical` say which accepted
  bytes are the ones the encoder writes, `Store` is the snapshot payload,
  `KeyOrder` the order it lists outpoints in, `StoreTail` says that nothing may
  follow it, and `Layout` where each field stands in the bytes.

Modelling decisions:

* Tree digests are terms of a free datatype, one constructor for each
  domain-separated hash function and pool, so that collision freedom and domain
  separation hold by construction. Untrusted proofs carry arbitrary terms,
  including digests that belong to nobody. In the codec modules a digest is 32
  bytes, and the ladder of empty-subtree digests is a parameter.
* A nullifier is a number below 2^256 in the trees and 32 big-endian bytes in
  `Prefix` and the codecs; `Bytes` links the two orders.
* The transparent forest is a sequence of slots. Insertion appends, deletion
  tombstones the newest live slot that holds the digest, a batch proof is the
  list of slots, and roots are a binding commitment to the sequence, so the
  compact node's copy of the sequence stands for its roots. Serialising the
  forest is an independent copy in the journal, and a pair of functions that
  round-trip in `Store`.
* Heights are 32 bits wide and saturate, as in the source.
* Methods are proved equal to specification functions that also describe the
  state left by a failed call, and the properties are proved of those functions.

Places where the code and its own documentation differ; the model follows the code:

* `apply_block` promises that any error leaves the accumulators untouched. A
  full tree is found only while inserting, after outputs have moved
  (`crates/zutreexo-chain/src/block_apply.rs:344`). `Transition` gives the exact
  condition and an example.
* `verify_cohort` checks that node 0 of the top level is the root and nothing
  else there, so a leaf whose index is 2^depth or more is never checked
  (`crates/zutreexo-accumulator/src/cohort.rs:412-415`). `Cohort` gives the exact
  condition and an example.
* The sorted `verify_cohort` claims completeness of the run, but takes the leaf
  count from the cohort, asks nothing of a range without upper bound, and lets a
  run start past its range (`crates/zutreexo-accumulator/src/sorted.rs:358-371`).
  `SortedProofs` gives the exact condition for true answers, `SortedExact` the one
  for completeness, each with a check a caller can make and an example.
* The encodings are called canonical
  (`crates/zutreexo-accumulator/src/proof.rs:13-15`) and `read_varint` is said to
  reject over-long ones; it accepts up to ten bytes and drops the bits of the
  tenth that do not fit (`crates/zutreexo-accumulator/src/proof.rs:743-756`), and
  paths and keyed digests have spare forms too. `WireShortest` and
  `WireCanonical` say exactly which accepted bytes are canonical.
* The sentinel is said to give every range a predecessor
  (`crates/zutreexo-accumulator/src/cohort.rs:289-294`); the range that starts at
  zero has none, and contains the sentinel itself
  (`CohortServing.PredecessorServedExactly`).
* A fabricated cancellation and a substituted leaf are said to be caught
  (`crates/zutreexo-csn/src/lib.rs:202-210`). The first is not caught for a spend
  that the block also creates while the outpoint is still indexed, the second not
  where another live leaf stands under the outpoint, as one does after an outpoint
  was created twice. `CsnForgery` proves that the two conditions are exact, and
  `CsnSoundRuns` gives runs from genesis that meet them.
* Accepting one bundle only for a block is given as the reason to refuse stray
  proofs (`crates/zutreexo-csn/src/lib.rs:334-336`); the depth a bundle names and
  empty lists of proofs are still free, and so is the whole inclusion proof of a
  bundle without spends, which is passed on unchecked
  (`crates/zutreexo-csn/src/lib.rs:292-295`, `348-349`).
* Lockstep needs every spend to be known: a block accepted with tolerated
  unknown spends has a bundle the compact node refuses. `CsnTheorems` proves that
  this is the exact condition and gives an example.

## Model

| member | source | states |
|---|---|---|
| Merkle.FoldPath | crates/zutreexo-accumulator/src/imt.rs:412-424 | folding a sibling path: the digest a leaf and its whole path lead to |
| Merkle.PathFolds | crates/zutreexo-accumulator/src/imt.rs:412-424 | a tree's own path always folds to that tree's root |
| Merkle.PathBinds | crates/zutreexo-accumulator/src/imt.rs:412-424 | a path that folds to a tree's node is that tree's own path and the leaf is that tree's own cell |
| Merkle.RootBinds | crates/zutreexo-accumulator/src/hash.rs:9-23 | equal roots of equal depth mean equal leaf lists |
| Merkle.EmptyExactlyUnoccupied | crates/zutreexo-accumulator/src/imt.rs:1264-1277 | a subtree has the all-empty digest exactly when no leaf lies below it, so falling back to the empty digest for a missing node is never wrong |
| LinkedSet.CoversExactlyPredecessor | crates/zutreexo-accumulator/src/imt.rs:148-155 | a leaf brackets a value exactly when the value is absent and the leaf holds its greatest smaller element |
| LinkedSet.SpliceIsExact | crates/zutreexo-accumulator/src/imt.rs:738-788 | inserting a value rewrites one leaf and appends one, and every link is again the one a search from scratch finds |
| LinkedSet.WalkListsTheSet | crates/zutreexo-accumulator/src/imt.rs:596-609 | following the links from the sentinel lists the whole set once, in ascending order |
| ImtProofs.NewState | crates/zutreexo-accumulator/src/imt.rs:284-300 | the directly computed compact state of an empty tree is the state of the tree that holds only the sentinel; bad depths are refused |
| ImtProofs.NonMembershipExact | crates/zutreexo-accumulator/src/imt.rs:448-474 | against a tree's root absence is provable exactly for absent values, by exactly one proof |
| ImtProofs.InsertionExact | crates/zutreexo-accumulator/src/imt.rs:490-584 | root-only insertion is exact: accepted if and only if the tree takes the value and the proof is the tree's own, and then the new state is the one the tree reaches |
| ImtProofs.OnlyOwnProofAccepted | crates/zutreexo-accumulator/src/imt.rs:490-584 | soundness half: whatever proof is accepted, the value was absent and the proof is the tree's |
| ImtProofs.OwnProofAccepted | crates/zutreexo-accumulator/src/imt.rs:490-584 | completeness half: the proof `insert` hands out always verifies and leads to the state after the insertion |
| ImtProofs.FinalGuardsNeverFire | crates/zutreexo-accumulator/src/imt.rs:490-584 | the overflow and capacity guards at the end of the verifier never decide a verdict |
| Refusals.AbsenceRefusal | crates/zutreexo-accumulator/src/imt.rs:448-474 | a refused proof of absence is refused for the reason its error names, against any root |
| Refusals.InsertionRefusal | crates/zutreexo-accumulator/src/imt.rs:490-584 | a refused insertion proof is refused for the reason its error names, on any state |
| Imt.IndexedMerkleTree.WithDepth | crates/zutreexo-accumulator/src/imt.rs:616-641 | a new tree holds the sentinel, with leaves, value index and node map in agreement |
| Imt.IndexedMerkleTree.New | crates/zutreexo-accumulator/src/imt.rs:616-641 | construction succeeds exactly for the supported depths |
| Imt.IndexedMerkleTree.RootIsFromScratch | crates/zutreexo-accumulator/src/imt.rs:688-698 | the incrementally kept root and count are those of a rebuild from the inserted values |
| Imt.IndexedMerkleTree.LowLeaf | crates/zutreexo-accumulator/src/imt.rs:1146-1165 | the bracketing leaf is found for every absent value; on a sound tree the corrupt-tree errors cannot occur |
| Imt.IndexedMerkleTree.ProveNonMembership | crates/zutreexo-accumulator/src/imt.rs:719-736 | exactly one answer: reserved, member, or the unique proof of absence |
| Imt.IndexedMerkleTree.SiblingsOf | crates/zutreexo-accumulator/src/imt.rs:1222-1230 | the path read from the cache is the path of the from-scratch tree |
| Imt.IndexedMerkleTree.WriteLeaf | crates/zutreexo-accumulator/src/imt.rs:1244-1260 | rehashing one path makes the node map again exactly the ancestors of occupied leaves, each with its digest |
| Imt.IndexedMerkleTree.SetLeaf | crates/zutreexo-accumulator/src/imt.rs:1233-1241 | replacing a leaf keeps the cache in agreement; a bad index changes nothing |
| Imt.IndexedMerkleTree.Insert | crates/zutreexo-accumulator/src/imt.rs:738-788 | insert extends the history by one value and returns its proof, or refuses with the exact reason and changes nothing; all three structures stay in agreement |
| Imt.InsertRefusal | crates/zutreexo-accumulator/src/imt.rs:738-760 | a value is refused as reserved, or for want of room, or else as a member |
| Imt.IndexedMerkleTree.UndoInsert | crates/zutreexo-accumulator/src/imt.rs:1021-1096 | any accepted undo is the true undo: the history loses exactly its newest value; acceptance is characterised exactly, and a refusal names the first check that failed and changes nothing |
| Imt.UndoChecks | crates/zutreexo-accumulator/src/imt.rs:1021-1096 | the checks an undo makes on the leaves as they stand are together exactly that the proof is of the newest insertion |
| Imt.IndexedMerkleTree.ClearLeaf | crates/zutreexo-accumulator/src/imt.rs:1105-1127 | clearing the last leaf leaves no trace in the node map |
| Imt.HistoryDeterminesTree | crates/zutreexo-accumulator/src/imt.rs:1021-1127 | two sound trees with one history are identical field for field, node maps included |
| ImtBulk.FromValues | crates/zutreexo-accumulator/src/imt.rs:648-658 | replay succeeds exactly on histories that fit and yields that history; a refusal is what the tree said of the first value it would not take |
| ImtBulk.FromValuesBulk | crates/zutreexo-accumulator/src/imt.rs:901-996 | the bottom-up build accepts exactly what replay accepts and yields the same tree; a refusal names the first check that failed |
| ImtBulk.ReplayAcceptsHistories | crates/zutreexo-accumulator/src/imt.rs:901-996 | replay accepts a list exactly when it is free of zero and of repeats and fits the depth |
| ImtBulk.RebuildRoot | crates/zutreexo-accumulator/src/imt.rs:820-881 | the root recomputed from the stored values alone, relinked along their sorted order, whatever values and links a cached tree stores; on a history it is the from-scratch root |
| ImtBulk.RebuildAgreesExactly | crates/zutreexo-accumulator/src/imt.rs:790-881 | where cached nodes match stored leaves, the rebuilt root equals the cached one exactly when every stored link is the one the sort gives; linked that way, values repeat exactly when some leaf before the last links to its own value |
| Naive.NaiveImt.Insert | crates/zutreexo-testkit/src/naive.rs:160-173 | the naive model takes exactly new, non-zero values while there is room, and names the first reason it refuses for |
| Naive.NaiveImt.Root | crates/zutreexo-testkit/src/naive.rs:180-234 | searching every link and folding every position gives the from-scratch root |
| Naive.TreeAgreesWithModel | crates/zutreexo-testkit/src/naive.rs:120-234 | the tree and the naive model agree on root, membership and further verdicts whenever they saw the same values |
| Bytes.LexIsNumeric | crates/zutreexo-accumulator/src/imt.rs:80-86 | the derived order of byte arrays is numeric order |
| Prefix.Covering | crates/zutreexo-accumulator/src/cohort.rs:131-199 | the byte-wise mask and carry loop gives the value with its low bits cleared and that plus the bucket size, with no upper bound exactly on overflow; other widths are refused |
| Prefix.AddWithCarry | crates/zutreexo-accumulator/src/cohort.rs:163-190 | the carry loop adds one bucket in place and reports overflow exactly when the sum leaves 256 bits |
| Prefix.ContainsMeansEqualPrefix | crates/zutreexo-accumulator/src/cohort.rs:217-219 | a range contains a value exactly when their leading bits are equal |
| Prefix.RangesPartition | crates/zutreexo-accumulator/src/cohort.rs:131-219 | ranges of one width partition the value space |
| Prefix.TopmostExactly | crates/zutreexo-accumulator/src/cohort.rs:131-199 | the upper bound is missing exactly for the all-ones prefix |
| Prefix.CoveringIdempotent | crates/zutreexo-accumulator/src/cohort.rs:131-199 | the range of a range's own lower bound is that range |
| Cohort.VerifyCohort | crates/zutreexo-accumulator/src/cohort.rs:364-420 | the level-by-level check answers as specified, errors included |
| Cohort.Resolve | crates/zutreexo-accumulator/src/cohort.rs:452-480 | the scan with its order and gap checks answers as specified, errors included |
| CohortExact.AnswerExactly | crates/zutreexo-accumulator/src/cohort.rs:452-480 | for any leaves at all: a value outside the range is refused; else the first leaf out of order, or holding the value, decides; else the last leaf below it, which must bracket it |
| Cohort.AcceptedLeavesExact | crates/zutreexo-accumulator/src/cohort.rs:364-420 | an accepted cohort has the tree's own pool and depth, and each of its leaves is the tree's exactly when its index is below 2^depth |
| CohortExact.AcceptedExactly | crates/zutreexo-accumulator/src/cohort.rs:364-420 | a cohort is accepted if and only if it is of this tree, its indices ascend, some are below 2^depth, the leaves there are the tree's and so is every node the fold needs beside them; the answer is its leaves ordered by value |
| Cohort.LeafPastTheTreeForgesSpent | crates/zutreexo-accumulator/src/cohort.rs:404-434 | a leaf index past the tree is accepted, and then a value that was never spent reads as spent: a concrete cohort over a real range |
| Cohort.AnswersAgreeWithSet | crates/zutreexo-accumulator/src/cohort.rs:424-480 | when indices are below 2^depth every answer agrees with set membership, even if in-range leaves were left out |
| CohortServing.ProvePrefixCohort | crates/zutreexo-accumulator/src/cohort.rs:286-316 | the served cohort holds exactly the in-range leaves and the predecessor, and exactly the needed nodes |
| CohortServing.DedupPaths | crates/zutreexo-accumulator/src/cohort.rs:324-354 | a node is emitted exactly when it is a sibling on some path, not computable and not empty |
| CohortServing.ServedCohortVerifies | crates/zutreexo-accumulator/src/cohort.rs:286-420 | a served cohort always verifies against its tree's root |
| CohortServing.ServedCohortSettles | crates/zutreexo-accumulator/src/cohort.rs:286-480 | a served cohort settles every in-range value, absent ones with the low leaf of a direct proof |
| CohortServing.PredecessorServedExactly | crates/zutreexo-accumulator/src/cohort.rs:286-316 | a leaf below the range is served exactly when the range does not start at zero; the range that does holds the sentinel itself |
| CohortServing.EveryNodeIsNeeded | crates/zutreexo-accumulator/src/cohort.rs:318-354 | without any single emitted node the fold misses the root |
| Sorted.DepthFor | crates/zutreexo-accumulator/src/sorted.rs:274-286 | the least depth that holds the count, refused exactly above 2^32 |
| Sorted.FromSortedValues | crates/zutreexo-accumulator/src/sorted.rs:101-146 | a snapshot is built exactly from ascending values, the sentinel supplied if missing, with every level correct |
| Sorted.RangeSiblings | crates/zutreexo-accumulator/src/sorted.rs:231-265 | the fringe of a run: exactly the needed digests, at most two a level |
| Sorted.ProvePrefixCohort | crates/zutreexo-accumulator/src/sorted.rs:184-224 | the served run as specified, and its at most 2*depth siblings, whatever its length; `SortedExact.ServedRunExactly` says which values it holds |
| SortedExact.ServedRunExactly | crates/zutreexo-accumulator/src/sorted.rs:184-205 | a served run holds a value exactly when it lies in the range, or is the greatest below it, or the least past it |
| SortedExact.ServedRunIsTight | crates/zutreexo-accumulator/src/sorted.rs:184-205 | between its two ends a served run holds in-range values alone |
| Sorted.VerifySortedCohort | crates/zutreexo-accumulator/src/sorted.rs:330-420 | the run check answers as specified, errors included; `SortedExact.AcceptedExactly` says what it accepts |
| SortedExact.AcceptedExactly | crates/zutreexo-accumulator/src/sorted.rs:330-420 | a cohort is accepted if and only if it is a run of the snapshot with the right digests beside it that starts at the first leaf or outside the range and reaches its leaf count or past the range |
| SortedExact.RunRefusal | crates/zutreexo-accumulator/src/sorted.rs:330-420 | a refused run is refused for the reason its error names |
| SortedExact.NothingSkipped | crates/zutreexo-accumulator/src/sorted.rs:358-363 | an accepted run that holds any in-range value left out none before it |
| SortedExact.CompleteExactly | crates/zutreexo-accumulator/src/sorted.rs:325-329 | an accepted run holds every in-range value if and only if it neither stops short nor starts past its range behind an in-range value |
| SortedExact.CheckedRunIsComplete | crates/zutreexo-accumulator/src/sorted.rs:325-371 | with the snapshot's leaf count, an upper bound or a run that ends with the tree, and a start that is not past the range, an accepted run holds the whole range |
| SortedExact.RunMayStartLate | crates/zutreexo-accumulator/src/sorted.rs:358-363 | a real snapshot and an accepted run that starts past its range and holds none of it |
| SortedProofs.AcceptedRunIsTheTrees | crates/zutreexo-accumulator/src/sorted.rs:330-420 | an accepted run is the snapshot's own consecutive values at its claimed position, with its pool and depth |
| SortedProofs.TruthfulExactly | crates/zutreexo-accumulator/src/sorted.rs:330-461 | every answer from an accepted run agrees with the snapshot if and only if no in-range value lies after the run |
| SortedProofs.CheckedRunIsTruthful | crates/zutreexo-accumulator/src/sorted.rs:358-371 | with the snapshot's leaf count, and an upper bound or a run that ends with the tree, every answer agrees with the snapshot |
| SortedProofs.SortedAnswerExactly | crates/zutreexo-accumulator/src/sorted.rs:437-461 | for any ascending run: a value outside the range or below the run is refused, a member is spent, any other lies between its two neighbours |
| SortedProofs.TopmostRunMayStopShort | crates/zutreexo-accumulator/src/sorted.rs:364-371 | without an upper bound a run may leave out an in-range value and then read it as unspent: a concrete snapshot and run |
| SortedProofs.ServedRunVerifies | crates/zutreexo-accumulator/src/sorted.rs:184-420 | a served run always verifies against its snapshot |
| SortedProofs.ServedRunHoldsTheRange | crates/zutreexo-accumulator/src/sorted.rs:184-224 | a served run contains every in-range value |
| SortedProofs.ServedRunSettles | crates/zutreexo-accumulator/src/sorted.rs:184-461 | a served run answers every in-range query, and rightly |
| CohortForms.FromImt | crates/zutreexo-accumulator/src/sorted.rs:92-95 | a snapshot taken from a tree holds exactly the tree's set; refused exactly above 2^32 values |
| CohortForms.FormsSettleAlike | crates/zutreexo-accumulator/src/sorted.rs:89-95 | served by either form a range reads the same: every value settled, spent by both or neither, absent ones between the same neighbours |
| CohortForms.FormsNeverDisagree | crates/zutreexo-accumulator/src/sorted.rs:330-461 | no accepted cohort whose indices the tree has and no accepted run that meets the caller's check contradict each other |
| Transparent.DeletionKeepsStep | crates/zutreexo-chain/src/pool.rs:143-151 | deleting indexed outputs never fails and leaves forest and index describing the same outputs |
| Transparent.AppendKeepsStep | crates/zutreexo-chain/src/pool.rs:143-151 | adding new outputs keeps forest and index describing the same outputs, each once |
| Transparent.StepKeepsStep | crates/zutreexo-chain/src/block_apply.rs:297-328 | a block's transparent effect never fails on a state in step and keeps it in step |
| Transparent.StepKeepsSpendable | crates/zutreexo-chain/src/block_apply.rs:297-328 | it never fails where every indexed output is in the forest, whatever else is, and keeps that so |
| ChainProofs.ResolveMeaning | crates/zutreexo-chain/src/block_apply.rs:224-270 | spends are staged exactly when distinct and each indexed, created here or tolerated; the cancelled ones are those only this block creates, and the unknown ones are counted |
| ChainProofs.NoClashIsHistory | crates/zutreexo-chain/src/block_apply.rs:272-288 | the nullifier stage passes exactly when the block's nullifiers extend the pool's history without zero or repeat |
| ChainProofs.PutMeaning | crates/zutreexo-chain/src/block_apply.rs:330-348 | staged nullifiers go in pool by pool, in block order, until one pool is full, and what a full pool leaves behind is stated exactly |
| ChainProofs.PutRecords | crates/zutreexo-chain/src/block_apply.rs:330-348 | the delta keeps, per nullifier, the proof the tree gave just before taking it, and nothing else |
| Transition.AcceptedExactly | crates/zutreexo-chain/src/block_apply.rs:204-360 | the exact acceptance condition of a block, its successor state and delta in terms of what it spends and creates, and the number of spends nobody knows; `Effects` says slot by slot and entry by entry what that leaves |
| Effects.ForestAfter | crates/zutreexo-chain/src/block_apply.rs:297-328 | the forest after an accepted block: the slots of what it spent are dead, every other old slot is as it was, and the outputs created and not cancelled follow in block order, each once |
| Effects.IndexAfter | crates/zutreexo-chain/src/block_apply.rs:297-328 | the index after an accepted block: an outpoint created and not cancelled holds the last output created under it, every other entry stays unless spent |
| Effects.DeltaInOrder | crates/zutreexo-chain/src/block_apply.rs:231-270 | the delta lists the outputs spent in spend order and those created in block order, each once |
| Refusals.BlockRefusal | crates/zutreexo-chain/src/block_apply.rs:204-348 | a refused block was refused for the reason its error names, and no pool is ever missing |
| Transition.DeltaRecords | crates/zutreexo-chain/src/block_apply.rs:330-360 | the rest of the delta: the commitments, and per nullifier exactly the proof the tree gave just before taking it |
| Transition.AcceptedInStep | crates/zutreexo-chain/src/block_apply.rs:204-360 | on a usable state, where every indexed output is in the forest under its own outpoint, a block is accepted exactly when staged and every pool has room |
| Transition.UsableStays | crates/zutreexo-chain/src/block_apply.rs:204-360 | every accepted block whose outputs carry their own outpoints leaves a usable state, also when it creates an outpoint that is still unspent, or one outpoint twice |
| Transition.BridgeStaysOk | crates/zutreexo-chain/src/block_apply.rs:204-360 | accepted blocks that create only new outpoints keep the whole bridge invariant |
| Transition.RejectedUntouchedExactly | crates/zutreexo-chain/src/block_apply.rs:37-42 | "on failure nothing is applied" holds of a rejected block if and only if staging refused it, its deletions failed, or a pool was full before anything else changed; on a usable state the deletions never fail |
| Transition.RejectedWithRoom | crates/zutreexo-chain/src/block_apply.rs:200-204 | with room in every pool a rejected block leaves the whole state as it was |
| Transition.RejectedBlockLeavesItsOutput | crates/zutreexo-chain/src/block_apply.rs:344-344 | a full pool found after the outputs moved: two blocks from genesis, the second rejected with its output left in forest and index |
| Accumulators.ChainAccumulators.New | crates/zutreexo-chain/src/pool.rs:68-81 | every pool starts with an empty tree; bad depths are refused |
| Accumulators.ChainAccumulators.Apply | crates/zutreexo-chain/src/block_apply.rs:204-360 | applying a block in place changes the state and answers exactly as specified, faults included |
| Accumulators.ChainAccumulators.ResolveSpends | crates/zutreexo-chain/src/block_apply.rs:224-270 | the spend loop resolves as specified |
| Accumulators.ChainAccumulators.StageNullifiers | crates/zutreexo-chain/src/block_apply.rs:272-288 | the staging loop refuses the first clashing pool |
| Accumulators.ChainAccumulators.MoveOutputs | crates/zutreexo-chain/src/block_apply.rs:297-328 | deletions before insertions, in forest and index alike; a refused deletion changes nothing |
| Accumulators.ChainAccumulators.PutNullifiers | crates/zutreexo-chain/src/block_apply.rs:330-348 | nullifiers are inserted in the trees in block order, stopping at the first refusal |
| Bundle.ApplyAndProveBlock | crates/zutreexo-chain/src/bundle.rs:135-184 | applying and proving in one call changes the state and answers as specified |
| Bundle.ApplyAndProveExactly | crates/zutreexo-chain/src/bundle.rs:104-184 | a bundle is served exactly for accepted blocks and the spend-mismatch error cannot occur |
| ServedBundles.ServedBundleIs | crates/zutreexo-chain/src/bundle.rs:104-184 | a served bundle names the block's height and the bridge's depth, lists the spent leaves in spend order with the slots they stand in, and for each nullifier, in block order, a proof whose two paths have that depth and whose new leaf is the next one; no other pool has proofs |
| Csn.CompactNode.New | crates/zutreexo-csn/src/lib.rs:75-86 | a compact node starts as the compact view of an empty bridge; bad depths are refused |
| Csn.CompactNode.Apply | crates/zutreexo-csn/src/lib.rs:214-353 | a bundle either advances the compact state as specified or is refused with the state left as it was |
| Refusals.BundleRefusal | crates/zutreexo-csn/src/lib.rs:214-344 | a refused bundle was refused for the reason its error names, on any compact state |
| CsnProofs.GenesisMatches | crates/zutreexo-csn/src/lib.rs:75-86 | a fresh compact node matches a fresh bridge |
| CsnProofs.ProofRunExact | crates/zutreexo-csn/src/lib.rs:304-332 | a pool's proofs are accepted in sequence exactly when the tree takes every value and each proof is its own |
| CsnProofs.StageProofsExact | crates/zutreexo-csn/src/lib.rs:304-332 | the scratch copy advances pool by pool exactly as the bridge's trees would |
| CsnProofs.ProvedLeavesAreIndexed | crates/zutreexo-csn/src/lib.rs:292-295 | a batch proof that verifies and carries only spends of the block carries indexed outputs at their own positions, if nothing else stands under those outpoints |
| CsnProofs.MatchSound | crates/zutreexo-csn/src/lib.rs:245-281 | walking the spends beside any proved leaves resolves them as the bridge does, unless a spend is at once indexed and created by the block |
| CsnTheorems.CompactSound | crates/zutreexo-csn/src/lib.rs:214-353 | soundness on a usable state: whatever bundle is accepted by a node whose roots match, the bridge accepts the block, if no other leaf stands in the forest under an outpoint it spends; and both reach equal roots, counts and tip if moreover no spend is at once indexed and created |
| CsnForgery.AcceptableExactly | crates/zutreexo-csn/src/lib.rs:214-353 | for any block some bundle is accepted if and only if the block follows the tip, its nullifiers are new and fit, and its spends are distinct and each of an output that stands live in the forest or is created by the block |
| CsnForgery.SoundExactly | crates/zutreexo-csn/src/lib.rs:208-281 | the conditions of soundness are exact, for any block on any usable state: every accepted bundle means what the bridge does if and only if each spend can mean one output only, or no bundle can be accepted |
| CsnForgery.RespendForged | crates/zutreexo-csn/src/lib.rs:259-264 | when a block the bridge takes spends an indexed outpoint and creates it, the bundle that calls the pair cancelled is accepted and leads elsewhere |
| CsnForgery.StaleForged | crates/zutreexo-csn/src/lib.rs:200-207 | when another live leaf stands under an outpoint such a block spends, the bundle that proves that leaf is accepted and leads elsewhere |
| CsnForgery.TakenIsAcceptable | crates/zutreexo-csn/src/lib.rs:214-353 | for every block the bridge takes on a usable state some bundle is accepted |
| CsnTheorems.Lockstep | crates/zutreexo-chain/src/bundle.rs:135-184 | the bundle a bridge serves is accepted exactly when the block follows the tip and every spend is indexed or created by the block, and then roots, counts and tip stay equal |
| CsnTheorems.ToleratedSpendBreaksLockstep | crates/zutreexo-chain/src/bundle.rs:135-184 | a genesis block with one tolerated unknown spend: served by the bridge, refused by every fresh compact node |
| CsnTheorems.OnlyHonestBundle | crates/zutreexo-csn/src/lib.rs:334-344 | where each spend can mean one output only, a bundle is accepted if and only if the bridge takes the block and the bundle says what the served one says, spend for spend and proof for proof; beside no spends the inclusion proof is free |
| CsnTheorems.SameVerdict | crates/zutreexo-csn/src/lib.rs:334-344 | the depth a bundle names, the empty pools it lists and an inclusion proof beside no spends are never looked at, so such bundles are told apart by nothing |
| CsnRuns.LockstepRun | crates/zutreexo-csn/src/lib.rs:214-353 | lockstep over runs of any length from genesis |
| CsnSoundRuns.SoundRunExactly | crates/zutreexo-csn/src/lib.rs:214-353 | soundness over runs, exactly: for any blocks whose outputs carry their own outpoints, no bundles however built take a compact node past or away from a bridge it started beside, if and only if the exact one-block condition holds at every block the bridge gets to |
| CsnSoundRuns.SoundRun | crates/zutreexo-csn/src/lib.rs:214-353 | soundness over runs from genesis, whatever bundles were fed, under that condition |
| CsnSoundRuns.NewThroughoutIsUnambiguous | crates/zutreexo-csn/src/lib.rs:214-353 | the condition holds over every run whose blocks create no outpoint still unspent |
| CsnSoundRuns.ForgedCancellation | crates/zutreexo-csn/src/lib.rs:208-210 | two blocks from genesis: the second spends the first one's output and creates it again, and a fabricated cancellation is accepted and leads elsewhere |
| CsnSoundRuns.ForgedSpend | crates/zutreexo-csn/src/lib.rs:203-207 | three blocks from genesis: an outpoint created twice, then spent, and a bundle that proves the forgotten leaf is accepted and leads elsewhere |
| CsnSoundRuns.ForgedSecondSpend | crates/zutreexo-csn/src/lib.rs:203-207 | one block more spends the outpoint again: the bridge refuses it, a compact node accepts it with a bundle |
| JournalClass.RollbackJournal.Record | crates/zutreexo-chain/src/rollback.rs:199-233 | recording pushes, snapshots and prunes as specified; a refusal changes nothing |
| JournalClass.RollbackJournal.Prune | crates/zutreexo-chain/src/rollback.rs:240-265 | the two pruning loops drop the prefix of snapshots and deltas that is specified; `Retention` says in heights which those are |
| JournalClass.UndoDeltas | crates/zutreexo-chain/src/rollback.rs:312-330 | every delta above the target is undone, newest block, last pool and newest value first |
| JournalClass.ReplayDeltas | crates/zutreexo-chain/src/rollback.rs:348-355 | the heights after the base are replayed one by one from their deltas |
| JournalClass.RollbackTo | crates/zutreexo-chain/src/rollback.rs:271-372 | rolling back in place changes journal and state and answers as specified, faults included |
| UndoProofs.AcceptedIsUndoable | crates/zutreexo-chain/src/rollback.rs:13-22 | every accepted block is undone exactly from its delta on the nullifier side and replays exactly on the transparent side |
| UndoProofs.UndoBlockInverts | crates/zutreexo-chain/src/rollback.rs:312-330 | undoing a block's insertions in reverse restores every pool's history |
| Reorg.RecordTracks | crates/zutreexo-chain/src/rollback.rs:199-265 | recording the block just applied never fails and keeps the journal describing the chain, for every interval and depth |
| ReorgRollback.RollbackTracks | crates/zutreexo-chain/src/rollback.rs:271-372 | a rollback within reach never fails and lands exactly on the state of the surviving prefix, which the journal then describes |
| ReorgRuns.ReorgExact | crates/zutreexo-testkit/src/reorg.rs:363-370 | after any interleaving of blocks and rollbacks in which no refused block left a trace, the whole state equals a cold replay of the surviving blocks |
| ReorgRuns.ColdThroughoutExactly | crates/zutreexo-testkit/src/reorg.rs:363-370 | that condition is exact: the state equals a cold replay after every event if and only if every refused block was refused before anything moved |
| ReorgRuns.RollbackReaches | crates/zutreexo-chain/src/rollback.rs:276-305 | along any such run a rollback succeeds exactly for targets from the earliest restorable height to the tip, and a refusal names the one that stood in the way |
| ReorgGenesis.GenesisColdExactly | crates/zutreexo-testkit/src/reorg.rs:363-370 | from genesis the condition is that every refused block was refused by staging, or by a full pool before anything else changed: deletions never fail |
| Retention.RecordRetains | crates/zutreexo-chain/src/rollback.rs:199-265 | each record keeps the deltas gapless and starting just above the oldest snapshot, the reach deep enough, a snapshot at every multiple of the interval and at no other height but the first, and none spare: the second oldest lies less than the depth below the newest |
| Retention.RecordTakenExactly | crates/zutreexo-chain/src/rollback.rs:205-215 | a journal takes exactly the record that follows its tip, and otherwise names the height it waits for |
| Retention.TruncationRetains | crates/zutreexo-chain/src/rollback.rs:357-372 | a rollback within reach keeps all that and the earliest height, and its target becomes the journal's tip |
| Retention.RunRetains | crates/zutreexo-chain/src/rollback.rs:140-149 | all that over any run of records, for any interval and depth: the deltas cover everything above the earliest restorable height, which is the first recorded or at least the depth below the newest snapshot, and no snapshot is spare |
| RetentionRuns.RunStaysInReach | crates/zutreexo-chain/src/rollback.rs:199-372 | the same over any interleaving of blocks and rollbacks, with the highest snapshot ever taken in place of the newest for the reach |
| RetentionRuns.RunKeepsSettings | crates/zutreexo-chain/src/rollback.rs:157-175 | neither blocks nor rollbacks change the interval, an interval of zero raised to one, or the depth |
| RetentionRuns.BackInReach | crates/zutreexo-chain/src/rollback.rs:271-372 | a rollback, carried out or refused, never moves the earliest restorable height |
| NaiveChain.NaiveState.Apply | crates/zutreexo-testkit/src/state.rs:227-327 | the naive chain model applies a block as specified, faults included |
| NaiveChain.NaiveState.Roots | crates/zutreexo-testkit/src/state.rs:213-218 | the naive roots are recomputed from each pool's values |
| NaiveRefinement.BridgeRefinesNaive | crates/zutreexo-testkit/src/state.rs:227-327 | on any usable state, for a block that follows the tip where the bridge insists on it, bridge and naive model give one verdict and afterwards hold the same unspent outpoints, nullifier orders and tip, and have counted the same unknown spends |
| NaiveRuns.RunRefinesNaive | crates/zutreexo-testkit/src/state.rs:227-327 | over any run from matching states, under any options, both get equally far and hold the same unspent outpoints, nullifier orders and tip; heights are contiguous where the bridge insists on it, and blocks may create outpoints still unspent or twice |
| NaiveRuns.GenesisRunRefinesNaive | crates/zutreexo-testkit/src/state.rs:227-327 | the same from genesis, with nothing assumed of the state |
| NaiveRuns.RootsAgree | crates/zutreexo-testkit/src/state.rs:208-218 | wherever the two hold the same, every pool's incremental root is the naive model's from-scratch root |
| NaiveRefinement.UnspentAfter | crates/zutreexo-chain/src/block_apply.rs:297-328 | the unspent outpoints after an accepted block: spent ones gone, created ones there unless cancelled |
| Wire.Reader.TakeBytes | crates/zutreexo-accumulator/src/proof.rs:141-158 | the cursor returns exactly the bytes asked for, or refuses and stays within the input |
| Wire.WriteVarint | crates/zutreexo-accumulator/src/proof.rs:731-741 | the loop emits unsigned LEB128 (section 7.6 of DWARF Version 5) |
| Wire.NextVarint | crates/zutreexo-accumulator/src/proof.rs:744-756 | the loop reads at most ten groups, the tenth adding only its low bit |
| Wire.VarintRoundTrip | crates/zutreexo-accumulator/src/proof.rs:731-756 | every 64-bit value comes back from its encoding with nothing else consumed |
| Wire.VarintFits | crates/zutreexo-accumulator/src/proof.rs:744-756 | whatever is read fits 64 bits |
| WireShortest.VarintCanonicalExactly | crates/zutreexo-accumulator/src/proof.rs:743-756 | for every accepted integer: re-encoding gives the bytes consumed if and only if the last of several groups is not empty and a tenth is 1 |
| WireShortest.VarintAcceptedExactly | crates/zutreexo-accumulator/src/proof.rs:744-756 | an integer is accepted exactly when one of the first ten bytes ends it; otherwise it is too long or cut short |
| WireShortest.ReadsGroups | crates/zutreexo-accumulator/src/proof.rs:744-756 | what is read is what the groups spell, less the dropped bits of a tenth |
| WireShortest.TenthGroupKeepsOneBit | crates/zutreexo-accumulator/src/proof.rs:745-748 | encodings that differ only in the other bits of a tenth group read the same |
| Wire.LongerVarintsAccepted | crates/zutreexo-accumulator/src/proof.rs:743-756 | inputs that show over-long encodings are read, though the comment says they are rejected |
| WirePaths.WriteSparse | crates/zutreexo-accumulator/src/proof.rs:271-291 | the bitmap marks exactly the siblings sent, in their order |
| WirePaths.NextSparse | crates/zutreexo-accumulator/src/proof.rs:294-327 | omitted siblings are restored from the ladder, level by level |
| WirePaths.MaskBit | crates/zutreexo-accumulator/src/proof.rs:275-283 | a bitmap bit is set exactly for a sent sibling |
| WirePaths.SparseRoundTrip | crates/zutreexo-accumulator/src/proof.rs:271-327 | sparse paths come back whole, omitted siblings included |
| WireShortest.SparseCanonicalExactly | crates/zutreexo-accumulator/src/proof.rs:294-327 | for every accepted path: re-encoding gives the bytes consumed if and only if no sent sibling is the ladder's own and every bit past the path is clear |
| WirePaths.ExplicitEmptyAccepted | crates/zutreexo-accumulator/src/proof.rs:313-327 | an input that shows an empty sibling sent explicitly is read |
| WirePaths.InsertionRoundTrip | crates/zutreexo-accumulator/src/proof.rs:764-789 | sparse insertion proofs round-trip |
| WirePaths.InsertionDecodesBack | crates/zutreexo-accumulator/src/proof.rs:773-789 | for every accepted insertion proof, decode, encode and decode gives the same proof |
| WireCanonical.InsertionCanonicalExactly | crates/zutreexo-accumulator/src/proof.rs:764-789 | an accepted insertion proof re-encodes to its own bytes if and only if neither path carries anything spare |
| WirePaths.NextInsertion | crates/zutreexo-accumulator/src/proof.rs:773-789 | reading an insertion proof advances the cursor as specified |
| WirePaths.WriteInsertion | crates/zutreexo-accumulator/src/proof.rs:764-770 | the writer emits the bytes that round-trip |
| WireMessages.EntriesBack | crates/zutreexo-accumulator/src/proof.rs:506-522 | level-keyed digests with per-level delta bases come back in key order |
| WireMessages.ReadEntriesFit | crates/zutreexo-accumulator/src/proof.rs:575-592 | whatever bytes are read, the result is an ordered map no larger than declared |
| WireMessages.ResponseRoundTrip | crates/zutreexo-accumulator/src/proof.rs:429-467 | non-membership responses round-trip |
| WireMessages.NextResponse | crates/zutreexo-accumulator/src/proof.rs:445-467 | the response reader follows its specification |
| WireCohorts.CohortRoundTrip | crates/zutreexo-accumulator/src/proof.rs:489-605 | a well-formed cohort round-trips: no count guard fires and no byte is left over |
| WireCohorts.CohortStable | crates/zutreexo-accumulator/src/proof.rs:525-605 | every accepted cohort is well formed |
| WireCohorts.NextCohort | crates/zutreexo-accumulator/src/proof.rs:525-605 | the cohort reader, count guards and alignment check included, follows its specification |
| WireCohorts.WriteCohort | crates/zutreexo-accumulator/src/proof.rs:490-523 | the cohort writer emits the specified bytes, counts saturating at 32 bits |
| WireCohorts.SortedRoundTrip | crates/zutreexo-accumulator/src/proof.rs:625-728 | a well-formed sorted cohort round-trips |
| WireCohorts.NextSorted | crates/zutreexo-accumulator/src/proof.rs:657-728 | the sorted-cohort reader follows its specification |
| WireCohorts.WriteSorted | crates/zutreexo-accumulator/src/proof.rs:626-655 | the sorted-cohort writer emits the specified bytes |
| WireFrames.CohortDecodesBack | crates/zutreexo-accumulator/src/proof.rs:233-252 | for every accepted cohort message, decode, encode and decode gives the same cohort |
| WireFrames.SortedDecodesBack | crates/zutreexo-accumulator/src/proof.rs:233-252 | the same for sorted cohorts |
| WireFrames.ResponseDecodesBack | crates/zutreexo-accumulator/src/proof.rs:233-252 | the same for non-membership responses |
| WireFrames.CohortEncodesBack | crates/zutreexo-accumulator/src/proof.rs:233-252 | a framed cohort decodes to itself with no trailing byte |
| WireFrames.DecodeRefusal | crates/zutreexo-accumulator/src/proof.rs:240-252 | a refused message is cut short, of another version, refused by its body's reader, or has bytes after its body, as its error says |
| WireCanonical.CohortMessageCanonical | crates/zutreexo-accumulator/src/proof.rs:13-15 | an accepted cohort message re-encodes to its own bytes if and only if its integers are shortest and its keyed nodes arrive in key order |
| WireCanonical.SortedMessageCanonical | crates/zutreexo-accumulator/src/proof.rs:13-15 | the same for sorted cohorts and their siblings |
| WireCanonical.ResponseMessageCanonical | crates/zutreexo-accumulator/src/proof.rs:13-15 | an accepted response re-encodes to its own bytes if and only if its path carries nothing spare |
| Layout.LittleEndian | crates/zutreexo-accumulator/src/proof.rs:176-200 | byte i of a written integer has weight 256^i |
| Layout.BigEndian | crates/zutreexo-chain/src/store.rs:238-243 | and of a stored value, counted from the end |
| Layout.LeafLayout | crates/zutreexo-accumulator/src/proof.rs:340-345 | where a leaf's fields stand |
| Layout.CohortLayout | crates/zutreexo-accumulator/src/proof.rs:489-505 | where the fields of a cohort message stand, from the version byte to the first leaf |
| Layout.SortedLayout | crates/zutreexo-accumulator/src/proof.rs:625-645 | where the fields of a sorted cohort message stand, from the version byte to the values |
| Layout.ResponseLayout | crates/zutreexo-accumulator/src/proof.rs:429-444 | where the fields of a non-membership response stand |
| Layout.InsertionLayout | crates/zutreexo-accumulator/src/proof.rs:764-770 | where the fields of an insertion proof stand |
| Layout.SparseLayout | crates/zutreexo-accumulator/src/proof.rs:271-291 | a path is its length, its bitmap and the siblings sent |
| Layout.DifferencesOnTheWire | crates/zutreexo-accumulator/src/proof.rs:494-522 | keys travel as differences: nodes from the index before on the same level, leaves from the position before |
| KeyOrder.ListOutputs | crates/zutreexo-chain/src/pool.rs:161-169 | every outpoint index is listed in key order, each entry once |
| KeyOrder.OneListing | crates/zutreexo-chain/src/pool.rs:161-169 | an index has one listing in key order |
| Store.Save | crates/zutreexo-chain/src/store.rs:208-265 | the payload written for a state, its own index listed in key order; refused only for a pool that has no tree, which the error names; and what was written loads back to the state |
| Store.OnePayload | crates/zutreexo-chain/src/pool.rs:163-166 | snapshots are reproducible: a state has one payload |
| Store.PayloadsEqualExactly | crates/zutreexo-chain/src/pool.rs:163-166 | two snapshots hold the same bytes if and only if their states are equal |
| Store.Load | crates/zutreexo-chain/src/store.rs:268-369 | loading rebuilds exactly the specified state, or refuses |
| StoreTail.NothingAfterASnapshot | crates/zutreexo-chain/src/store.rs:359-363 | an accepted payload is refused with anything after it |
| Layout.HeaderRead | crates/zutreexo-chain/src/store.rs:268-283 | which headers are read, exactly, and what they are read as: only a flag of 1 marks a tip |
| Layout.OutputRead | crates/zutreexo-chain/src/store.rs:343-356 | what a stored output is read as: any flag but 0 is a coinbase's |
| Layout.PayloadLayout | crates/zutreexo-chain/src/store.rs:208-230 | where the header's fields stand in a payload |
| Layout.PoolLayout | crates/zutreexo-chain/src/store.rs:227-244 | a stored pool is its code, its number of values and the values |
| Layout.PoolValuesLayout | crates/zutreexo-chain/src/store.rs:238-243 | the values follow in insertion order, 32 bytes each |
| Layout.OutputLayout | crates/zutreexo-chain/src/store.rs:254-262 | where the fields of a stored output stand |
| Store.LoadTree | crates/zutreexo-chain/src/store.rs:288-316 | a tree is rebuilt in bulk from its values, refused when they are no history |
| Store.SnapshotRoundTrip | crates/zutreexo-chain/src/store.rs:208-369 | loading what was saved gives the identical state, for every state whose index entries carry their own outpoint, in whatever order the index was listed |
| Store.SameModelSameTrees | crates/zutreexo-chain/src/store.rs:208-369 | states with one model are identical down to each tree's leaves, value index and node map |

## Left out

- BLAKE2b and the personalization bytes: digests are symbolic.
- The internals of `rustreexo` (forest, stump, proof folding): external code, seen as a sequence of slots; how it treats two live leaves of equal digest is not shown, and the model deletes the newest.
- `UtxoRoots::from_parts` and seeding a compact node from roots: an unchecked trust boundary.
- File writing, renaming and the checksum around the snapshot payload.
- `summarize_block`: it depends on block types that are not part of this model; blocks enter as summaries.
- The encodings of `BlockProofBundle`, `CompactState`, `NullifierProofBundle`, requests and roots, and the dense path encoding: the same primitives with easier layouts.
- Error payloads that only name positions or carry text (byte offsets, field names, reasons) and the identity of the tree error inside a refused undo.
- The HTTP server and client, JSON-RPC, streams and threads, the rate limiter, latency quantiles, benchmarks, fault injection.
- Allocation sizes beyond the count guards in the codecs, and overflow of machine-size counters that input lengths cannot reach.
- Csn.CompactNode.Apply: the forest library's own error and its "does not verify" answer are one refusal here, because the library is not part of this model.
- Prefix.Covering: states the bounds on bytes; the error carries only the refused width.
- ReorgRuns.RollbackReaches: stated for runs in which no refused block left a trace; after one that did, the state is no longer the replay of any chain (`ReorgRuns.ColdThroughoutExactly`).
