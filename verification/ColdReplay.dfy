// Replaying a chain of blocks from scratch: the reference every reorg is
// checked against.
module ColdReplay {
  import opened Wrappers
  import opened Hashing
  import opened Transparent
  import opened Chain
  import opened Transition

  /** The bridge state after the first `n` blocks under these options, proofs aside. */
  ghost function BridgeAfter(s: ChainState, blocks: seq<BlockSummary>, options: ApplyOptions,
          n: nat): (r: Result<ChainState, ApplyError>)
    requires PoolsOk(s.depth, s.pools) && n <= |blocks|
    ensures r.Ok? ==> PoolsOk(r.value.depth, r.value.pools)
  {
    if n == 0 then Ok(s)
    else
      var before := BridgeAfter(s, blocks, options, n - 1);
      if before.Err? then before else BridgeTakes(before.value, blocks[n - 1], options)
  }

  ghost function BridgeTakes(s: ChainState, b: BlockSummary,
          options: ApplyOptions): (r: Result<ChainState, ApplyError>)
    requires PoolsOk(s.depth, s.pools)
    ensures r.Ok? ==> PoolsOk(r.value.depth, r.value.pools)
  {
    var (after, applied) := ApplyBlock(s, b, options);
    if applied.Err? then Err(applied.error)
    else
      PoolsStayOk(s, b, options);
      Ok(after)
  }

  /** Every block's outputs carry their own outpoints. */
  ghost predicate AllCarryOwn(blocks: seq<BlockSummary>) {
    forall k {:trigger blocks[k]} :: 0 <= k < |blocks| ==> CarryOwn(blocks[k])
  }

  /** If a bridge gets through `n` blocks, its state is usable. */
  ghost predicate StaysUsable(s: ChainState, blocks: seq<BlockSummary>, options: ApplyOptions, n: nat) {
    && PoolsOk(s.depth, s.pools) && n <= |blocks|
    && var after := BridgeAfter(s, blocks, options, n);
    after.Ok? ==> Usable(after.value)
  }

  /** As far as a bridge gets from a usable state, its state is usable. */
  lemma {:induction false} UsableAfter(s: ChainState, blocks: seq<BlockSummary>, options: ApplyOptions, n: nat)
    requires Usable(s) && n <= |blocks| && AllCarryOwn(blocks)
    ensures StaysUsable(s, blocks, options, n)
  {
    hide *;
    if n == 0 {
      UsableStart(s, blocks, options);
    } else {
      UsableAfter(s, blocks, options, n - 1);
      UsableStep(s, blocks, options, n);
    }
  }

  lemma UsableStart(s: ChainState, blocks: seq<BlockSummary>, options: ApplyOptions)
    requires Usable(s)
    ensures StaysUsable(s, blocks, options, 0)
  {
    assert PoolsOk(s.depth, s.pools);
    hide Usable, PoolsOk;
  }

  lemma UsableStep(s: ChainState, blocks: seq<BlockSummary>, options: ApplyOptions, n: nat)
    requires 0 < n <= |blocks| && AllCarryOwn(blocks) && StaysUsable(s, blocks, options, n - 1)
    ensures StaysUsable(s, blocks, options, n)
  {
    assert CarryOwn(blocks[n - 1]);
    hide Usable, PoolsOk, AllCarryOwn, CarryOwn, BridgeTakes;
    var before := BridgeAfter(s, blocks, options, n - 1);
    if before.Ok? {
      UsableNext(before.value, blocks[n - 1], options);
    }
  }

  lemma UsableNext(s: ChainState, b: BlockSummary, options: ApplyOptions)
    requires Usable(s) && CarryOwn(b)
    ensures PoolsOk(s.depth, s.pools)
    ensures BridgeTakes(s, b, options).Ok? ==> Usable(BridgeTakes(s, b, options).value)
  {
    if BridgeTakes(s, b, options).Ok? {
      UsableStays(s, b, options);
    }
    hide Usable, CarryOwn, ApplyBlock, PoolsOk;
  }

  /** No block of the run creates an outpoint still unspent, as far as the bridge gets. */
  ghost predicate CreatesNewThroughout(s: ChainState, blocks: seq<BlockSummary>, n: nat)
    requires PoolsOk(s.depth, s.pools) && n <= |blocks|
  {
    forall k {:trigger CreatesNewAt(s, blocks, k)} :: 0 <= k < n ==> CreatesNewAt(s, blocks, k)
  }

  ghost predicate CreatesNewAt(s: ChainState, blocks: seq<BlockSummary>, k: nat)
    requires PoolsOk(s.depth, s.pools) && k < |blocks|
  {
    var before := BridgeAfter(s, blocks, DEFAULT_OPTIONS, k);
    WellFormed(blocks[k]) && (before.Ok? ==> CreatesNew(before.value, blocks[k]))
  }

  /** Each block's height follows its predecessor's. */
  ghost predicate Contiguous(blocks: seq<BlockSummary>) {
    forall k {:trigger Follows(blocks, k)} :: 0 < k < |blocks| ==> Follows(blocks, k)
  }

  predicate Follows(blocks: seq<BlockSummary>, k: nat)
    requires 0 < k < |blocks|
  {
    blocks[k].height == NextHeight(blocks[k - 1].height)
  }
}
