// The block transition as a whole: what is accepted, the state that follows,
// the invariant it keeps, and what a rejected block leaves behind.
module Transition {
  import opened Wrappers
  import opened Arith
  import opened Hashing
  import opened LinkedSet
  import opened ImtProofs
  import opened Transparent
  import opened Chain
  import opened ChainProofs

  /** What every reachable bridge state satisfies. */
  ghost predicate BridgeOk(s: ChainState) {
    PoolsOk(s.depth, s.pools) && InStep(s.forest, s.index) && OwnOutPoints(s.index)
  }

  /** What every bridge state keeps to, even where a block created an outpoint that was still unspent. */
  ghost predicate Usable(s: ChainState) {
    PoolsOk(s.depth, s.pools) && OwnOutPoints(s.index) && Spendable(s.forest, s.index)
  }

  /** Every created output carries its own outpoint. */
  ghost predicate CarryOwn(b: BlockSummary) {
    forall i {:trigger b.creates[i]} :: 0 <= i < |b.creates| ==> OutPointOf(b.creates[i].1) == b.creates[i].0
  }

  /** A block as extraction builds it: each output carries its own outpoint, none named twice. */
  ghost predicate WellFormed(b: BlockSummary) {
    WellFormedOutputs(b.creates)
  }

  /** A block never creates an outpoint that is still unspent. */
  ghost predicate CreatesNew(s: ChainState, b: BlockSummary) {
    AllNew(s.index, b.creates)
  }

  /** Outpoints the block both creates and spends, and the index lacks. */
  function Cancelled(index: Index, b: BlockSummary): set<OutPoint> {
    set o | o in b.spends && o !in index && o in b.Created()
  }

  function SpentBy(index: Index, b: BlockSummary): Outputs {
    IndexedSpends(index, b.spends, |b.spends|)
  }

  function CreatedBy(index: Index, b: BlockSummary): Outputs {
    Surviving(b.creates, Cancelled(index, b))
  }

  ghost predicate Staged(s: ChainState, b: BlockSummary, options: ApplyOptions) {
    && InOrder(s.tip, b.height, options.enforceContiguous)
    && Resolvable(s.index, b.Created(), b.spends, options.allowUnknownSpends, |b.spends|)
    && NullifiersNew(s.pools, b)
  }

  /** Every pool has room for the block's nullifiers. */
  ghost predicate HasRoom(s: ChainState, b: BlockSummary) {
    forall k :: 0 <= k < |ALL_POOLS| ==> RoomAt(s.depth, s.pools, b, k)
  }

  /** Spends of outputs no one has seen. */
  ghost predicate SpendsKnown(s: ChainState, b: BlockSummary) {
    forall o :: o in b.spends ==> o in s.index || o in b.Created()
  }

  lemma SpentIsIndexed(s: ChainState, b: BlockSummary)
    ensures SpentFrom(s.index, SpentBy(s.index, b))
    ensures forall o :: o in Outpoints(SpentBy(s.index, b)) <==> o in b.spends && o in s.index
  {
    IndexedSpendsAreIndexed(s.index, b.spends, |b.spends|);
    assert b.spends[..|b.spends|] == b.spends;
  }

  /** Staging resolves to the indexed spends and the cancelled pairs. */
  lemma ResolvesTo(s: ChainState, b: BlockSummary, allowUnknown: bool)
    ensures var r := Resolve(s.index, b.Created(), b.height, b.spends, allowUnknown, |b.spends|);
      && (r.Ok? <==> Resolvable(s.index, b.Created(), b.spends, allowUnknown, |b.spends|))
      && (r.Ok? ==> r.value.spent == SpentBy(s.index, b) && r.value.cancelled == Cancelled(s.index, b))
      && (r.Ok? ==> r.value.unknown == |UnknownBy(s, b)|)
  {
    ResolveMeaning(s.index, b.Created(), b.height, b.spends, allowUnknown, |b.spends|);
    assert b.spends[..|b.spends|] == b.spends;
    assert UnknownAmong(s.index, b.Created(), b.spends, |b.spends|) == UnknownBy(s, b);
  }

  /** The spends that stay unknown. */
  function UnknownBy(s: ChainState, b: BlockSummary): set<OutPoint> {
    set o | o in b.spends && o !in s.index && o !in b.Created()
  }

  lemma NoneUnknown(s: ChainState, b: BlockSummary)
    ensures |UnknownBy(s, b)| == 0 <==> SpendsKnown(s, b)
  {
    if |UnknownBy(s, b)| == 0 {
      assert UnknownBy(s, b) == {};
      forall o | o in b.spends
        ensures o in s.index || o in b.Created()
      {
        assert o !in UnknownBy(s, b);
      }
    }
  }

  lemma StagesExactly(s: ChainState, b: BlockSummary)
    requires PoolsOk(s.depth, s.pools)
    ensures StagePools(s.pools, b, |ALL_POOLS|).Ok? <==> NullifiersNew(s.pools, b)
  {
    StageMeaning(s.pools, b, |ALL_POOLS|);
    if StagePools(s.pools, b, |ALL_POOLS|).Ok? {
      forall pool | pool in s.pools
        ensures History(s.pools[pool] + b.NullifiersFor(pool))
      {
        var k := EveryPool(pool);
      }
    }
  }

  /** Every pool's history followed by its block nullifiers. */
  ghost predicate PoolsFollow(before: Pools, after: Pools, b: BlockSummary) {
    && after.Keys == before.Keys
    && forall pool :: pool in before ==> after[pool] == before[pool] + b.NullifiersFor(pool)
  }

  lemma GrownToAll(before: Pools, after: Pools, b: BlockSummary)
    requires GrownTo(before, after, b, |ALL_POOLS|)
    ensures PoolsFollow(before, after, b)
  {
    forall pool | pool in before
      ensures after[pool] == before[pool] + b.NullifiersFor(pool)
    {
      var k := EveryPool(pool);
    }
  }

  /**
   * The exact acceptance condition, and the whole successor state: spends
   * leave, surviving outputs enter, every nullifier is appended in block order.
   */
  lemma AcceptedExactly(s: ChainState, b: BlockSummary, options: ApplyOptions)
    requires PoolsOk(s.depth, s.pools)
    ensures var (after, r) := ApplyBlock(s, b, options);
      var step := TransparentStep(s.forest, s.index, SpentBy(s.index, b), CreatedBy(s.index, b));
      && (r.Ok? <==> Staged(s, b, options) && step.Ok? && HasRoom(s, b))
      && (r.Ok? ==>
           && after.depth == s.depth && after.tip == Some(b.height)
           && (after.forest, after.index) == step.value
           && PoolsFollow(s.pools, after.pools, b)
           && r.value.delta.height == b.height
           && r.value.delta.spent == SpentBy(s.index, b) && r.value.delta.created == CreatedBy(s.index, b)
           && r.value.unknownSpends == |UnknownBy(s, b)| && (r.value.unknownSpends == 0 <==> SpendsKnown(s, b)))
  {
    NoneUnknown(s, b);
    hide UnknownBy;
    ResolvesTo(s, b, options.allowUnknownSpends);
    StagesExactly(s, b);
    if Staged(s, b, options) {
      PutMeaning(s.depth, s.pools, b, |ALL_POOLS|);
      var (pools, put) := PutPools(s.depth, s.pools, b, |ALL_POOLS|);
      if put.Ok? {
        GrownToAll(s.pools, pools, b);
      }
    }
  }

  /** A usable state accepts exactly the staged blocks it has room for. */
  lemma AcceptedInStep(s: ChainState, b: BlockSummary, options: ApplyOptions)
    requires Usable(s)
    ensures ApplyBlock(s, b, options).1.Ok? <==> Staged(s, b, options) && HasRoom(s, b)
  {
    AcceptedExactly(s, b, options);
    SpentIsIndexed(s, b);
    StepKeepsSpendable(s.forest, s.index, SpentBy(s.index, b), CreatedBy(s.index, b));
  }

  /** Accepted blocks keep the pools sound, whatever else they do. */
  lemma PoolsStayOk(s: ChainState, b: BlockSummary, options: ApplyOptions)
    requires PoolsOk(s.depth, s.pools) && ApplyBlock(s, b, options).1.Ok?
    ensures PoolsOk(ApplyBlock(s, b, options).0.depth, ApplyBlock(s, b, options).0.pools)
  {
    AcceptedExactly(s, b, options);
    var after := ApplyBlock(s, b, options).0;
    forall pool | pool in after.pools
      ensures History(after.pools[pool]) && |after.pools[pool]| <= Pow2(s.depth)
    {
      var k := EveryPool(pool);
      assert RoomAt(s.depth, s.pools, b, k);
    }
  }

  /** Own outpoints survive an accepted block. */
  lemma OwnStays(s: ChainState, b: BlockSummary, options: ApplyOptions)
    requires PoolsOk(s.depth, s.pools) && OwnOutPoints(s.index) && CarryOwn(b) && ApplyBlock(s, b, options).1.Ok?
    ensures OwnOutPoints(ApplyBlock(s, b, options).0.index)
  {
    hide Resolvable, NullifiersNew, HasRoom, PoolsFollow, IndexedSpends;
    AcceptedExactly(s, b, options);
    var created := CreatedBy(s.index, b);
    SurvivingMeaning(b.creates, Cancelled(s.index, b), |b.creates|);
    forall i | 0 <= i < |created|
      ensures OutPointOf(created[i].1) == created[i].0
    {
      assert created[i] in created;
    }
    var left := s.index - Outpoints(SpentBy(s.index, b));
    assert OwnOutPoints(left);
    RecordedKeepsOwn(left, created, |created|);
  }

  /** Accepted blocks whose outputs carry their own outpoints keep the state usable. */
  lemma UsableStays(s: ChainState, b: BlockSummary, options: ApplyOptions)
    requires Usable(s) && CarryOwn(b) && ApplyBlock(s, b, options).1.Ok?
    ensures Usable(ApplyBlock(s, b, options).0)
  {
    AcceptedExactly(s, b, options);
    PoolsStayOk(s, b, options);
    OwnStays(s, b, options);
    SpentIsIndexed(s, b);
    StepKeepsSpendable(s.forest, s.index, SpentBy(s.index, b), CreatedBy(s.index, b));
    hide ApplyBlock, TransparentStep, Spendable, OwnOutPoints, PoolsOk, Staged;
  }

  /** Accepted well-formed blocks that create new outpoints keep the whole bridge invariant. */
  lemma BridgeStaysOk(s: ChainState, b: BlockSummary, options: ApplyOptions)
    requires BridgeOk(s) && WellFormed(b) && CreatesNew(s, b) && ApplyBlock(s, b, options).1.Ok?
    ensures BridgeOk(ApplyBlock(s, b, options).0)
  {
    AcceptedExactly(s, b, options);
    PoolsStayOk(s, b, options);
    SpentIsIndexed(s, b);
    var created := CreatedBy(s.index, b);
    SurvivingWellFormed(b.creates, Cancelled(s.index, b), |b.creates|);
    forall i | 0 <= i < |created|
      ensures created[i].0 !in s.index
    {
      assert created[i] in created;
    }
    StepKeepsStep(s.forest, s.index, SpentBy(s.index, b), created);
  }

  /** Genesis starts in step. */
  lemma GenesisOk(depth: nat)
    requires ValidDepth(depth)
    ensures BridgeOk(Genesis(depth))
  {
    var pools := Genesis(depth).pools;
    forall pool: PoolId
      ensures pool in pools && pools[pool] == [0]
    {
      var k := EveryPool(pool);
    }
    assert Pow2(depth) >= 1;
  }

  /** The rest of an accepted block's delta: its commitments, and one exact record per nullifier. */
  lemma DeltaRecords(s: ChainState, b: BlockSummary, options: ApplyOptions)
    requires PoolsOk(s.depth, s.pools) && ApplyBlock(s, b, options).1.Ok?
    ensures ApplyBlock(s, b, options).1.value.delta.commitments == b.commitments
    ensures RecordsUpTo(s.depth, s.pools, b, ApplyBlock(s, b, options).1.value.delta.insertions, |ALL_POOLS|)
  {
    AcceptedExactly(s, b, options);
    PutRecords(s.depth, s.pools, b, |ALL_POOLS|);
  }

  // ---- what a rejected block leaves ----

  /** Rank `k` is the first pool without room. */
  ghost predicate FirstFull(s: ChainState, b: BlockSummary, k: nat) {
    k < |ALL_POOLS| && !RoomAt(s.depth, s.pools, b, k) && forall j :: 0 <= j < k ==> RoomAt(s.depth, s.pools, b, j)
  }

  /** Nothing precedes the first full pool's refusal: no deletion, no creation, no earlier insertion. */
  ghost predicate NothingBefore(s: ChainState, b: BlockSummary, k: nat)
    requires k < |ALL_POOLS|
  {
    && SpentBy(s.index, b) == [] && CreatedBy(s.index, b) == []
    && (forall j :: 0 <= j < k ==> b.NullifiersFor(ALL_POOLS[j]) == [])
    && ALL_POOLS[k] in s.pools && |s.pools[ALL_POOLS[k]]| == Pow2(s.depth)
  }

  /** A refusal before anything moved: by staging, or by a full pool with nothing before it. */
  ghost predicate RefusedInTime(s: ChainState, b: BlockSummary, options: ApplyOptions) {
    !Staged(s, b, options) || exists k :: FirstFull(s, b, k) && NothingBefore(s, b, k)
  }

  /** On any state at all the deletions may be refused too. */
  ghost predicate LeavesNoTrace(s: ChainState, b: BlockSummary, options: ApplyOptions) {
    || RefusedInTime(s, b, options)
    || TransparentStep(s.forest, s.index, SpentBy(s.index, b), CreatedBy(s.index, b)).Err?
  }

  /**
   * The documented promise, that a failed block changes nothing, is kept for a
   * rejected block exactly when staging refused it, its deletions failed (which
   * they never do on a usable state), or a pool ran full before anything else
   * had changed.
   */
  lemma RejectedUntouchedExactly(s: ChainState, b: BlockSummary, options: ApplyOptions)
    requires PoolsOk(s.depth, s.pools) && ApplyBlock(s, b, options).1.Err?
    ensures ApplyBlock(s, b, options).0 == s <==> LeavesNoTrace(s, b, options)
    ensures Usable(s) ==> (LeavesNoTrace(s, b, options) <==> RefusedInTime(s, b, options))
    ensures Usable(s) && Staged(s, b, options) ==>
      ApplyBlock(s, b, options).1 == Err(ApplyImt(CapacityExhausted(s.depth, Pow2(s.depth))))
  {
    if Usable(s) {
      SpentIsIndexed(s, b);
      StepKeepsSpendable(s.forest, s.index, SpentBy(s.index, b), CreatedBy(s.index, b));
    }
    if Staged(s, b, options) && TransparentStep(s.forest, s.index, SpentBy(s.index, b), CreatedBy(s.index, b)).Ok? {
      StagedRejection(s, b, options);
    } else {
      ResolvesTo(s, b, options.allowUnknownSpends);
      StagesExactly(s, b);
    }
  }

  /** A staged block whose deletions succeed is rejected only by a full pool, with its outputs already moved. */
  lemma StagedRejection(s: ChainState, b: BlockSummary, options: ApplyOptions)
    requires PoolsOk(s.depth, s.pools) && Staged(s, b, options) && ApplyBlock(s, b, options).1.Err?
    requires TransparentStep(s.forest, s.index, SpentBy(s.index, b), CreatedBy(s.index, b)).Ok?
    ensures ApplyBlock(s, b, options).1 == Err(ApplyImt(CapacityExhausted(s.depth, Pow2(s.depth))))
    ensures ApplyBlock(s, b, options).0 == s <==> exists k :: FirstFull(s, b, k) && NothingBefore(s, b, k)
  {
    StagedOutcome(s, b, options);
    StepUnchanged(s, b);
    var pools := PutPools(s.depth, s.pools, b, |ALL_POOLS|).0;
    var k := FilledFirst(s, b);
    NothingBeforeExactly(s, b, pools, k);
    OnlyFirstFull(s, b, k);
    hide *;
  }

  /** What is left when a staged block's nullifiers do not all go in. */
  lemma StagedOutcome(s: ChainState, b: BlockSummary, options: ApplyOptions)
    requires PoolsOk(s.depth, s.pools) && Staged(s, b, options) && ApplyBlock(s, b, options).1.Err?
    requires TransparentStep(s.forest, s.index, SpentBy(s.index, b), CreatedBy(s.index, b)).Ok?
    ensures var (pools, put) := PutPools(s.depth, s.pools, b, |ALL_POOLS|);
      var moved := TransparentStep(s.forest, s.index, SpentBy(s.index, b), CreatedBy(s.index, b)).value;
      && put.Err? && ApplyBlock(s, b, options).1 == Err(put.error)
      && ApplyBlock(s, b, options).0 == ChainState(s.depth, pools, moved.0, moved.1, s.tip)
  {
    ResolvesTo(s, b, options.allowUnknownSpends);
    StagesExactly(s, b);
    hide TransparentStep, IndexedSpends, Surviving, Resolvable, NullifiersNew, PutPools, Resolve, StagePools;
  }

  /** The pool that stopped them is the first without room. */
  lemma FilledFirst(s: ChainState, b: BlockSummary) returns (k: nat)
    requires PoolsOk(s.depth, s.pools) && NullifiersNew(s.pools, b)
    requires PutPools(s.depth, s.pools, b, |ALL_POOLS|).1.Err?
    ensures FirstFull(s, b, k) && ALL_POOLS[k] in s.pools
    ensures FilledAt(s.depth, s.pools, PutPools(s.depth, s.pools, b, |ALL_POOLS|).0, b, k)
    ensures PutPools(s.depth, s.pools, b, |ALL_POOLS|).1 == Err(ApplyImt(CapacityExhausted(s.depth, Pow2(s.depth))))
  {
    PutMeaning(s.depth, s.pools, b, |ALL_POOLS|);
    var pools := PutPools(s.depth, s.pools, b, |ALL_POOLS|).0;
    hide PutPools, History;
    k :| 0 <= k < |ALL_POOLS| && (forall j :: 0 <= j < k ==> RoomAt(s.depth, s.pools, b, j)) &&
      FilledAt(s.depth, s.pools, pools, b, k);
  }

  lemma NothingBeforeExactly(s: ChainState, b: BlockSummary, pools: Pools, k: nat)
    requires PoolsOk(s.depth, s.pools) && k < |ALL_POOLS| && FilledAt(s.depth, s.pools, pools, b, k)
    ensures NothingBefore(s, b, k) <==> SpentBy(s.index, b) == [] && CreatedBy(s.index, b) == [] && pools == s.pools
  {
    FilledUnchanged(s, b, pools, k);
  }

  lemma OnlyFirstFull(s: ChainState, b: BlockSummary, k: nat)
    requires FirstFull(s, b, k)
    ensures forall j {:trigger FirstFull(s, b, j)} :: FirstFull(s, b, j) ==> j == k
  {
  }

  lemma FilledUnchanged(s: ChainState, b: BlockSummary, pools: Pools, k: nat)
    requires PoolsOk(s.depth, s.pools) && k < |ALL_POOLS| && FilledAt(s.depth, s.pools, pools, b, k)
    ensures pools == s.pools <==>
      (forall j :: 0 <= j < k ==> b.NullifiersFor(ALL_POOLS[j]) == []) && |s.pools[ALL_POOLS[k]]| == Pow2(s.depth)
  {
    var pool := ALL_POOLS[k];
    DistinctRanks();
    var rest := pools[pool := s.pools[pool]];
    forall j | 0 <= j < k
      ensures pools[ALL_POOLS[j]] == s.pools[ALL_POOLS[j]] + b.NullifiersFor(ALL_POOLS[j])
    {
      assert rest[ALL_POOLS[j]] == pools[ALL_POOLS[j]];
    }
    assert |pools[pool]| == Pow2(s.depth);
    if (forall j :: 0 <= j < k ==> b.NullifiersFor(ALL_POOLS[j]) == []) && |s.pools[pool]| == Pow2(s.depth) {
      forall p | p in pools
        ensures pools[p] == s.pools[p]
      {
        var j := EveryPool(p);
        assert p != pool ==> rest[p] == pools[p];
      }
    }
  }

  lemma StepUnchanged(s: ChainState, b: BlockSummary)
    requires TransparentStep(s.forest, s.index, SpentBy(s.index, b), CreatedBy(s.index, b)).Ok?
    ensures var step := TransparentStep(s.forest, s.index, SpentBy(s.index, b), CreatedBy(s.index, b));
      step.value == (s.forest, s.index) <==> SpentBy(s.index, b) == [] && CreatedBy(s.index, b) == []
  {
    var spent, created := SpentBy(s.index, b), CreatedBy(s.index, b);
    var step := TransparentStep(s.forest, s.index, spent, created).value;
    assert |step.0| == |s.forest| + |created|;
    if created == [] && spent != [] {
      assert Live(Digests(spent)[0]) in s.forest;
      var p := Positions(s.forest, Digests(spent))[0];
      assert s.forest[p] == Live(Digests(spent)[0]);
      assert step.0[p] == Dead;
    }
    if created == [] && spent == [] {
      assert s.index - Outpoints(spent) == s.index;
    }
  }

  /** With room in every pool a rejected block changes nothing. */
  lemma RejectedWithRoom(s: ChainState, b: BlockSummary, options: ApplyOptions)
    requires PoolsOk(s.depth, s.pools) && HasRoom(s, b) && ApplyBlock(s, b, options).1.Err?
    ensures ApplyBlock(s, b, options).0 == s
  {
    ResolvesTo(s, b, options.allowUnknownSpends);
    StagesExactly(s, b);
    if Staged(s, b, options) {
      PutMeaning(s.depth, s.pools, b, |ALL_POOLS|);
    }
  }

  /** A run that fills the Sprout tree of depth 1: the state it reaches, and a block with one more nullifier. */
  function FullSprout(leaf: UtxoLeaf): (ChainState, BlockSummary) {
    (ChainState(1, map[Sprout := [0, 7], Sapling := [0], Orchard := [0], Ironwood := [0]], [], map[], Some(0)),
     BlockSummary(1, [], [(OutPointOf(leaf), leaf)], map[Sprout := [9]], map[]))
  }

  const FILLING_BLOCK: BlockSummary := BlockSummary(0, [], [], map[Sprout := [7]], map[])

  lemma FilledRoom(pool: PoolId)
    ensures var (s, b) := (Genesis(1), FILLING_BLOCK);
      && pool in s.pools && History(s.pools[pool] + b.NullifiersFor(pool))
      && s.pools[pool] + b.NullifiersFor(pool) == (if pool == Sprout then [0, 7] else [0])
      && |s.pools[pool]| + |b.NullifiersFor(pool)| <= 2
  {
    var k := EveryPool(pool);
    assert pool == Sprout ==> Genesis(1).pools[pool] + FILLING_BLOCK.NullifiersFor(pool) == [0, 7];
    assert pool != Sprout ==> Genesis(1).pools[pool] + FILLING_BLOCK.NullifiersFor(pool) == [0];
  }

  /** The full state is reached from genesis by one accepted block. */
  lemma FullSproutReached(leaf: UtxoLeaf)
    ensures var (after, r) := ApplyBlock(Genesis(1), FILLING_BLOCK, DEFAULT_OPTIONS);
      r.Ok? && after == FullSprout(leaf).0
    ensures BridgeOk(FullSprout(leaf).0)
  {
    var s, b := Genesis(1), FILLING_BLOCK;
    GenesisOk(1);
    assert Pow2(1) == 2;
    forall pool | pool in s.pools
      ensures History(s.pools[pool] + b.NullifiersFor(pool))
    {
      FilledRoom(pool);
    }
    forall k | 0 <= k < |ALL_POOLS|
      ensures RoomAt(1, s.pools, b, k)
    {
      FilledRoom(ALL_POOLS[k]);
    }
    AcceptedInStep(s, b, DEFAULT_OPTIONS);
    AcceptedExactly(s, b, DEFAULT_OPTIONS);
    BridgeStaysOk(s, b, DEFAULT_OPTIONS);
    var after := ApplyBlock(s, b, DEFAULT_OPTIONS).0;
    hide ApplyBlock, History;
    assert SpentBy(s.index, b) == [] && CreatedBy(s.index, b) == [];
    assert (after.forest, after.index) == ([], map[]);
    forall pool: PoolId
      ensures pool in after.pools && after.pools[pool] == FullSprout(leaf).0.pools[pool]
    {
      FilledRoom(pool);
      assert after.pools[pool] == s.pools[pool] + b.NullifiersFor(pool);
    }
  }

  lemma FullSproutStaged(leaf: UtxoLeaf)
    ensures Staged(FullSprout(leaf).0, FullSprout(leaf).1, DEFAULT_OPTIONS)
    ensures !HasRoom(FullSprout(leaf).0, FullSprout(leaf).1)
  {
    var (s, b) := FullSprout(leaf);
    assert Pow2(1) == 2;
    assert !RoomAt(1, s.pools, b, 0);
    forall pool | pool in s.pools
      ensures History(s.pools[pool] + b.NullifiersFor(pool))
    {
      assert pool == Sprout ==> s.pools[pool] + b.NullifiersFor(pool) == [0, 7, 9];
      assert pool != Sprout ==> s.pools[pool] + b.NullifiersFor(pool) == [0];
    }
  }

  /**
   * The promise does fail: in the state reached from genesis at depth 1 by a
   * block that reveals one Sprout nullifier, a block that creates an output and
   * reveals one more is rejected, yet its output is in the forest and in the index.
   */
  lemma RejectedBlockLeavesItsOutput(leaf: UtxoLeaf)
    ensures var (s, b) := FullSprout(leaf);
      var (after, r) := ApplyBlock(s, b, DEFAULT_OPTIONS);
      && s == ApplyBlock(Genesis(1), FILLING_BLOCK, DEFAULT_OPTIONS).0
      && ApplyBlock(Genesis(1), FILLING_BLOCK, DEFAULT_OPTIONS).1.Ok?
      && BridgeOk(s) && r.Err?
      && after.forest == [Live(UtxoDigest(leaf))] && after.index == map[OutPointOf(leaf) := leaf]
  {
    var (s, b) := FullSprout(leaf);
    FullSproutReached(leaf);
    FullSproutStaged(leaf);
    AcceptedInStep(s, b, DEFAULT_OPTIONS);
    ResolvesTo(s, b, false);
    StagesExactly(s, b);
    assert SpentBy(s.index, b) == [];
    assert CreatedBy(s.index, b) == b.creates by {
      assert SurvivingUpTo(b.creates, Cancelled(s.index, b), 0) == [];
    }
    assert Recorded(s.index - Outpoints([]), b.creates, 1) == map[OutPointOf(leaf) := leaf] by {
      assert Recorded(s.index - Outpoints([]), b.creates, 0) == map[];
    }
    assert Append([], Digests(b.creates)) == [Live(UtxoDigest(leaf))];
  }
}
