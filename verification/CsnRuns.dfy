// Bridge and compact node over runs of any length.
module CsnRuns {
  import opened Wrappers
  import opened Hashing
  import opened ImtProofs
  import opened Transparent
  import opened Chain
  import opened Transition
  import opened Bundle
  import opened Csn
  import opened CsnProofs
  import opened CsnTheorems

  /** A bridge applies the first `n` blocks, keeping the bundle of each. */
  ghost function BridgeRun(s: ChainState, blocks: seq<BlockSummary>,
          n: nat): (r: Result<(ChainState, seq<BlockProofBundle>), BundleError>)
    requires PoolsOk(s.depth, s.pools) && n <= |blocks|
    ensures r.Ok? ==> PoolsOk(r.value.0.depth, r.value.0.pools) && |r.value.1| == n
  {
    if n == 0 then Ok((s, []))
    else
      var before := BridgeRun(s, blocks, n - 1);
      if before.Err? then before else BridgeServes(before.value.0, blocks[n - 1], before.value.1)
  }

  ghost function BridgeServes(s: ChainState, b: BlockSummary,
          bundles: seq<BlockProofBundle>): (r: Result<(ChainState, seq<BlockProofBundle>), BundleError>)
    requires PoolsOk(s.depth, s.pools)
    ensures r.Ok? ==> PoolsOk(r.value.0.depth, r.value.0.pools) && |r.value.1| == |bundles| + 1 && bundles <= r.value.1
  {
    var (after, applied) := ApplyAndProve(s, b, DEFAULT_OPTIONS);
    if applied.Err? then Err(applied.error)
    else
      ApplyAndProveExactly(s, b, DEFAULT_OPTIONS);
      PoolsStayOk(s, b, DEFAULT_OPTIONS);
      Ok((after, bundles + [applied.value.1]))
  }

  /** A compact node applies the first `n` blocks with the given bundles. */
  function CompactRun(c: CompactState, blocks: seq<BlockSummary>, bundles: seq<BlockProofBundle>,
          n: nat): Result<CompactState, CsnError>
    requires n <= |blocks| && n <= |bundles|
  {
    if n == 0 then Ok(c)
    else
      var before := CompactRun(c, blocks, bundles, n - 1);
      if before.Err? then before else ApplyBundle(before.value, blocks[n - 1], bundles[n - 1])
  }

  /** A longer run serves the same bundles first. */
  lemma {:induction false} BundlesGrow(s: ChainState, blocks: seq<BlockSummary>, n: nat, m: nat)
    requires PoolsOk(s.depth, s.pools) && n <= m <= |blocks| && BridgeRun(s, blocks, m).Ok?
    ensures BridgeRun(s, blocks, n).Ok? && BridgeRun(s, blocks, n).value.1 <= BridgeRun(s, blocks, m).value.1
  {
    hide BridgeServes, PoolsOk;
    if n < m {
      BundlesGrow(s, blocks, n, m - 1);
    }
  }

  /** One block of a lockstep run. */
  lemma LockstepStep(s: ChainState, b: BlockSummary, bundles: seq<BlockProofBundle>)
    requires PoolsOk(s.depth, s.pools) && OwnOutPoints(s.index) && CarryOwn(b) && BridgeServes(s, b, bundles).Ok?
    ensures var (after, served) := BridgeServes(s, b, bundles).value;
      && OwnOutPoints(after.index)
      && bundles <= served
      && ApplyBundle(CompactOf(s), b, served[|bundles|]) == Ok(CompactOf(after))
  {
    ApplyAndProveExactly(s, b, DEFAULT_OPTIONS);
    OwnStays(s, b, DEFAULT_OPTIONS);
    DefaultIsInOrder(s, b);
    Lockstep(s, b, DEFAULT_OPTIONS);
  }

  lemma {:induction false} LockstepFrom(s: ChainState, blocks: seq<BlockSummary>, bundles: seq<BlockProofBundle>,
          n: nat)
    requires PoolsOk(s.depth, s.pools) && OwnOutPoints(s.index)
    requires n <= |blocks| && (forall k :: 0 <= k < n ==> CarryOwn(blocks[k]))
    requires BridgeRun(s, blocks, n).Ok? && BridgeRun(s, blocks, n).value.1 <= bundles
    ensures CompactRun(CompactOf(s), blocks, bundles, n) == Ok(CompactOf(BridgeRun(s, blocks, n).value.0))
    ensures OwnOutPoints(BridgeRun(s, blocks, n).value.0.index)
  {
    hide ApplyBundle, BridgeServes, CompactOf, CarryOwn, OwnOutPoints, PoolsOk;
    if n > 0 {
      BundlesGrow(s, blocks, n - 1, n);
      var prev := BridgeRun(s, blocks, n - 1).value;
      var served := BridgeRun(s, blocks, n).value.1;
      assert prev.1 <= bundles && bundles[n - 1] == served[n - 1];
      LockstepFrom(s, blocks, bundles, n - 1);
      LockstepStep(prev.0, blocks[n - 1], prev.1);
    }
  }

  /** With default options an accepted block follows the tip and spends nothing unknown. */
  lemma DefaultIsInOrder(s: ChainState, b: BlockSummary)
    requires PoolsOk(s.depth, s.pools) && ApplyBlock(s, b, DEFAULT_OPTIONS).1.Ok?
    ensures InOrder(s.tip, b.height, true) && SpendsKnown(s, b)
  {
    AcceptedExactly(s, b, DEFAULT_OPTIONS);
  }

  /**
   * Lockstep over whole runs: fed the bundles of a bridge that applied any
   * number of blocks from genesis, a fresh compact node accepts every one and
   * ends with the bridge's roots, counts and tip.
   */
  lemma LockstepRun(depth: nat, blocks: seq<BlockSummary>)
    requires ValidDepth(depth) && (forall k :: 0 <= k < |blocks| ==> CarryOwn(blocks[k]))
    ensures PoolsOk(depth, Genesis(depth).pools)
    ensures BridgeRun(Genesis(depth), blocks, |blocks|).Ok? ==>
      var (s, bundles) := BridgeRun(Genesis(depth), blocks, |blocks|).value;
      CompactRun(CompactGenesis(depth), blocks, bundles, |blocks|) == Ok(CompactOf(s))
  {
    GenesisOk(depth);
    GenesisMatches(depth);
    if BridgeRun(Genesis(depth), blocks, |blocks|).Ok? {
      LockstepFrom(Genesis(depth), blocks, BridgeRun(Genesis(depth), blocks, |blocks|).value.1, |blocks|);
    }
  }
}
