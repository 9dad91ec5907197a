// Bridge and naive model over runs of any length, roots included.
module NaiveRuns {
  import opened Wrappers
  import opened Hashing
  import opened LinkedSet
  import opened ImtProofs
  import opened Imt
  import opened Transparent
  import opened Accumulators
  import opened Chain
  import opened Transition
  import opened ColdReplay
  import opened NaiveChain
  import opened NaiveRefinement

  /** The naive model of a fresh bridge. */
  function NaiveGenesis(depth: nat): NaiveModel {
    NaiveModel(depth, Genesis(depth).pools, {}, None, 0)
  }

  /** The naive model after the first `n` blocks, or its first refusal. */
  function NaiveAfter(m: NaiveModel, blocks: seq<NaiveBlock>, allowUnknown: bool,
          n: nat): (r: Result<NaiveModel, NaiveApplyError>)
    requires n <= |blocks| && forall pool :: pool in m.pools
    ensures r.Ok? ==> forall pool :: pool in r.value.pools
  {
    if n == 0 then Ok(m)
    else
      var before := NaiveAfter(m, blocks, allowUnknown, n - 1);
      if before.Err? then before
      else
        var (after, verdict) := NaiveApply(before.value, blocks[n - 1], allowUnknown);
        if verdict.Err? then Err(verdict.error) else Ok(after)
  }

  /** Every block beside its naive view. */
  ghost predicate SameBlocks(blocks: seq<BlockSummary>, naive: seq<NaiveBlock>) {
    |naive| == |blocks| && forall k {:trigger naive[k]} :: 0 <= k < |blocks| ==> SameBlock(blocks[k], naive[k])
  }

  /** Both models side by side: one verdict, and after acceptance the same contents. */
  ghost predicate SideBySide(bridge: Result<ChainState, ApplyError>, naive: Result<NaiveModel, NaiveApplyError>) {
    && (bridge.Ok? <==> naive.Ok?)
    && (bridge.Ok? ==> Usable(bridge.value) && Models(naive.value, bridge.value))
  }

  /** The tip after a run is its last block's height. */
  lemma TipIsLast(s: ChainState, blocks: seq<BlockSummary>, options: ApplyOptions, n: nat)
    requires PoolsOk(s.depth, s.pools) && 0 < n <= |blocks| && BridgeAfter(s, blocks, options, n).Ok?
    ensures BridgeAfter(s, blocks, options, n).value.tip == Some(blocks[n - 1].height)
  {
    AcceptedExactly(BridgeAfter(s, blocks, options, n - 1).value, blocks[n - 1], options);
  }

  /** The blocks follow the state and each other, where that is asked for. */
  ghost predicate Follow(s: ChainState, blocks: seq<BlockSummary>, contiguous: bool) {
    contiguous ==> Contiguous(blocks) && (blocks != [] ==> InOrder(s.tip, blocks[0].height, true))
  }

  lemma NextInOrder(s: ChainState, blocks: seq<BlockSummary>, options: ApplyOptions, n: nat)
    requires PoolsOk(s.depth, s.pools) && 0 < n <= |blocks| && Follow(s, blocks, options.enforceContiguous)
    requires BridgeAfter(s, blocks, options, n - 1).Ok?
    ensures InOrder(BridgeAfter(s, blocks, options, n - 1).value.tip, blocks[n - 1].height, options.enforceContiguous)
  {
    if n > 1 && options.enforceContiguous {
      TipIsLast(s, blocks, options, n - 1);
      assert Follows(blocks, n - 1);
      hide PoolsOk, BridgeAfter;
    }
  }

  lemma OneBlockMore(s: ChainState, m: NaiveModel, b: BlockSummary, nb: NaiveBlock, options: ApplyOptions)
    requires Usable(s) && Models(m, s) && SameBlock(b, nb) && CarryOwn(b)
    requires InOrder(s.tip, b.height, options.enforceContiguous)
    ensures forall pool :: pool in m.pools
    ensures var (after, verdict) := NaiveApply(m, nb, options.allowUnknownSpends);
      SideBySide(BridgeTakes(s, b, options), if verdict.Err? then Err(verdict.error) else Ok(after))
  {
    BridgeRefinesNaive(s, m, b, nb, options);
    if ApplyBlock(s, b, options).1.Ok? {
      UsableStays(s, b, options);
    }
  }

  /** A run from matching states: usable, each block beside its naive view, in order where that is asked for. */
  ghost predicate RunOf(s: ChainState, m: NaiveModel, blocks: seq<BlockSummary>, naive: seq<NaiveBlock>,
          options: ApplyOptions) {
    && Usable(s) && Models(m, s)
    && SameBlocks(blocks, naive) && AllCarryOwn(blocks) && Follow(s, blocks, options.enforceContiguous)
  }

  /** After `n` blocks the two stand side by side. */
  ghost predicate SideBySideAt(s: ChainState, m: NaiveModel, blocks: seq<BlockSummary>, naive: seq<NaiveBlock>,
          options: ApplyOptions, n: nat)
    requires RunOf(s, m, blocks, naive, options) && n <= |blocks|
  {
    SideBySide(BridgeAfter(s, blocks, options, n), NaiveAfter(m, naive, options.allowUnknownSpends, n))
  }

  lemma BothStart(s: ChainState, m: NaiveModel, blocks: seq<BlockSummary>, naive: seq<NaiveBlock>,
          options: ApplyOptions)
    requires RunOf(s, m, blocks, naive, options)
    ensures SideBySideAt(s, m, blocks, naive, options, 0)
  {
  }

  /** Both one block further, or both stopped where they stopped. */
  lemma BothStep(s: ChainState, m: NaiveModel, blocks: seq<BlockSummary>, naive: seq<NaiveBlock>,
          options: ApplyOptions, n: nat)
    requires RunOf(s, m, blocks, naive, options) && 0 < n <= |blocks|
    requires SideBySideAt(s, m, blocks, naive, options, n - 1)
    ensures SideBySideAt(s, m, blocks, naive, options, n)
  {
    var before := BridgeAfter(s, blocks, options, n - 1);
    assert PoolsOk(s.depth, s.pools) && forall pool :: pool in m.pools;
    hide Models, SameBlock, CarryOwn, BridgeTakes, NaiveApply, Contiguous, Usable, PoolsOk;
    if before.Ok? {
      var model := NaiveAfter(m, naive, options.allowUnknownSpends, n - 1).value;
      assert SameBlock(blocks[n - 1], naive[n - 1]) && CarryOwn(blocks[n - 1]);
      NextInOrder(s, blocks, options, n);
      OneBlockMore(before.value, model, blocks[n - 1], naive[n - 1], options);
    }
  }

  /**
   * Refinement over runs from matching states, under any options. Over any
   * blocks (contiguous ones, where the bridge insists on it) the bridge and the
   * naive model get equally far, and as far as they get they hold the same
   * unspent outpoints, the same nullifiers in the same order, and the same tip.
   * Blocks may create outpoints that are still unspent, or one outpoint twice.
   */
  lemma {:induction false} RunRefinesNaive(s: ChainState, m: NaiveModel, blocks: seq<BlockSummary>,
          naive: seq<NaiveBlock>, options: ApplyOptions, n: nat)
    requires RunOf(s, m, blocks, naive, options) && n <= |blocks|
    ensures SideBySideAt(s, m, blocks, naive, options, n)
  {
    hide *;
    if n == 0 {
      BothStart(s, m, blocks, naive, options);
    } else {
      RunRefinesNaive(s, m, blocks, naive, options, n - 1);
      BothStep(s, m, blocks, naive, options, n);
    }
  }

  /** From genesis there is nothing to match. */
  lemma GenesisRunRefinesNaive(depth: nat, blocks: seq<BlockSummary>, naive: seq<NaiveBlock>, options: ApplyOptions)
    requires ValidDepth(depth) && SameBlocks(blocks, naive) && AllCarryOwn(blocks)
    requires options.enforceContiguous ==> Contiguous(blocks)
    ensures PoolsOk(depth, Genesis(depth).pools)
    ensures SideBySide(BridgeAfter(Genesis(depth), blocks, options, |blocks|),
      NaiveAfter(NaiveGenesis(depth), naive, options.allowUnknownSpends, |blocks|))
  {
    GenesisOk(depth);
    RunRefinesNaive(Genesis(depth), NaiveGenesis(depth), blocks, naive, options, |blocks|);
  }

  /** Wherever the two stand side by side, every pool's incremental root is the naive model's from-scratch one. */
  lemma RootsAgree(state: ChainAccumulators, model: NaiveState, pool: PoolId)
    requires state.Valid() && model.Valid() && Models(model.Model(), state.Model())
    ensures pool in state.trees && pool in model.models
    ensures state.trees[pool].Root() == model.RootOf(pool)
  {
    assert state.TreeIs(pool) && model.ModelIs(pool);
    state.trees[pool].RootIsFromScratch();
  }
}
