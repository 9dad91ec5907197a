// What a served bundle says, field by field.
module ServedBundles {
  import opened Wrappers
  import opened Hashing
  import opened LinkedSet
  import opened ImtProofs
  import opened Transparent
  import opened Chain
  import opened ChainProofs
  import opened Transition
  import opened Effects
  import opened Bundle

  /** The leaves spent, in spend order, each once, and where each of them stands in the forest. */
  ghost predicate SpentSaid(s: ChainState, b: BlockSummary, bundle: BlockProofBundle) {
    && |bundle.spent| == SpendRank(s.index, b.spends, |b.spends|)
    && (forall k {:trigger b.spends[k]} :: 0 <= k < |b.spends| && b.spends[k] in s.index ==>
      var rank := SpendRank(s.index, b.spends, k);
      rank < |bundle.spent| && bundle.spent[rank] == s.index[b.spends[k]])
    && |bundle.targets| == |bundle.spent|
    && forall i {:trigger bundle.spent[i]} :: 0 <= i < |bundle.spent| ==>
      bundle.targets[i] < |s.forest| && s.forest[bundle.targets[i]] == Live(UtxoDigest(bundle.spent[i]))
  }

  /** Both paths of a proof have the depth's length, and its new leaf is the tree's next one. */
  predicate PathsOf(proof: InsertionProof, depth: nat, next: nat) {
    |proof.lowLeafSiblings| == depth && |proof.newLeafSiblings| == depth && proof.newLeafIndex == next
  }

  /** One proof for each nullifier, in block order, for the pools that have any and for no others. */
  ghost predicate InsertionsSaid(s: ChainState, b: BlockSummary, bundle: BlockProofBundle) {
    forall pool {:trigger bundle.InsertionsFor(pool)} :: pool in s.pools ==>
      && (pool in bundle.insertions <==> b.NullifiersFor(pool) != [])
      && |bundle.InsertionsFor(pool)| == |b.NullifiersFor(pool)|
      && forall k {:trigger bundle.InsertionsFor(pool)[k]} :: 0 <= k < |b.NullifiersFor(pool)| ==>
        PathsOf(bundle.InsertionsFor(pool)[k], bundle.depth, |s.pools[pool]| + k)
  }

  lemma SpentIsSaid(s: ChainState, b: BlockSummary, options: ApplyOptions)
    requires PoolsOk(s.depth, s.pools) && ApplyAndProve(s, b, options).1.Ok?
    ensures SpentSaid(s, b, ApplyAndProve(s, b, options).1.value.1)
  {
    hide ApplyBlock;
    var spent := SpentBy(s.index, b);
    IndexedInOrder(s.index, b.spends, |b.spends|);
    if spent != [] {
      TargetsProve(s.forest, spent);
    }
    hide Positions, IndexedSpends, SpendRank, AllLive;
  }

  lemma TargetsProve(forest: Forest, spent: Outputs)
    requires Prove(forest, Digests(spent)).Ok?
    ensures var targets := Prove(forest, Digests(spent)).value;
      |targets| == |spent| && forall i {:trigger spent[i]} :: 0 <= i < |spent| ==>
        targets[i] < |forest| && forest[targets[i]] == Live(UtxoDigest(spent[i].1))
  {
    forall i | 0 <= i < |spent|
      ensures Live(UtxoDigest(spent[i].1)) in forest
    {
      assert Live(Digests(spent)[i]) in forest;
    }
  }

  lemma ServedInsertions(s: ChainState, b: BlockSummary, options: ApplyOptions)
    requires PoolsOk(s.depth, s.pools) && ApplyAndProve(s, b, options).1.Ok?
    ensures Histories(s.pools) && ApplyBlock(s, b, options).1.Ok?
    ensures var bundle := ApplyAndProve(s, b, options).1.value.1;
      bundle.insertions == InsertionsFrom(ApplyBlock(s, b, options).1.value.delta) && bundle.depth == s.depth
  {
    ApplyAndProveExactly(s, b, options);
    hide ApplyBlock;
  }

  lemma InsertionsAreSaid(s: ChainState, b: BlockSummary, options: ApplyOptions)
    requires PoolsOk(s.depth, s.pools) && ApplyAndProve(s, b, options).1.Ok?
    ensures ApplyAndProve(s, b, options).1.value.1.depth == s.depth
    ensures InsertionsSaid(s, b, ApplyAndProve(s, b, options).1.value.1)
  {
    ServedInsertions(s, b, options);
    DeltaRecords(s, b, options);
    hide ApplyBlock, ApplyAndProve, PoolsOk, Histories, InsertionsFrom, RecordsUpTo, PathsOf;
    var delta := ApplyBlock(s, b, options).1.value.delta;
    var bundle := ApplyAndProve(s, b, options).1.value.1;
    forall pool | pool in s.pools
      ensures pool in bundle.insertions <==> b.NullifiersFor(pool) != []
      ensures |bundle.InsertionsFor(pool)| == |b.NullifiersFor(pool)|
      ensures forall k {:trigger bundle.InsertionsFor(pool)[k]} :: 0 <= k < |b.NullifiersFor(pool)| ==>
        PathsOf(bundle.InsertionsFor(pool)[k], s.depth, |s.pools[pool]| + k)
    {
      PoolSaid(s, b, bundle, delta, pool);
    }
  }

  lemma PoolSaid(s: ChainState, b: BlockSummary, bundle: BlockProofBundle, delta: StateDelta, pool: PoolId)
    requires pool in s.pools && bundle.insertions == InsertionsFrom(delta)
    requires RecordsUpTo(s.depth, s.pools, b, delta.insertions, |ALL_POOLS|)
    ensures pool in bundle.insertions <==> b.NullifiersFor(pool) != []
    ensures |bundle.InsertionsFor(pool)| == |b.NullifiersFor(pool)|
    ensures forall k {:trigger bundle.InsertionsFor(pool)[k]} :: 0 <= k < |b.NullifiersFor(pool)| ==>
      PathsOf(bundle.InsertionsFor(pool)[k], s.depth, |s.pools[pool]| + k)
  {
    hide RecordsOfPool, PathsOf;
    var rank := EveryPool(pool);
    assert ALL_POOLS[rank] == pool;
    if pool in delta.insertions {
      RecordsArePaths(pool, s.depth, s.pools[pool], b, delta.insertions[pool]);
    }
  }

  lemma RecordsArePaths(pool: PoolId, depth: nat, all: seq<Value>, b: BlockSummary, done: Insertions)
    requires RecordsOfPool(pool, depth, all, b, done)
    ensures |done| == |b.NullifiersFor(pool)|
    ensures forall k {:trigger Seconds(done)[k]} :: 0 <= k < |done| ==> PathsOf(Seconds(done)[k], depth, |all| + k)
  {
    forall k | 0 <= k < |done|
      ensures PathsOf(Seconds(done)[k], depth, |all| + k)
    {
      assert done[k].1 == Seconds(done)[k];
      assert |all + b.NullifiersFor(pool)[..k]| == |all| + k;
    }
  }

  /**
   * A served bundle, field by field: the block's height, the bridge's own depth,
   * the spent leaves in spend order with their slots, and for each nullifier a proof
   * whose paths have that depth.
   */
  lemma ServedBundleIs(s: ChainState, b: BlockSummary, options: ApplyOptions)
    requires PoolsOk(s.depth, s.pools) && ApplyAndProve(s, b, options).1.Ok?
    ensures var bundle := ApplyAndProve(s, b, options).1.value.1;
      && bundle.height == b.height && bundle.depth == s.depth
      && SpentSaid(s, b, bundle) && InsertionsSaid(s, b, bundle)
  {
    SpentIsSaid(s, b, options);
    InsertionsAreSaid(s, b, options);
    hide ApplyBlock, SpentSaid, InsertionsSaid;
  }
}
