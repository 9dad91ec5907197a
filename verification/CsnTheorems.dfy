// Compact-node soundness and lockstep, for one block.
module CsnTheorems {
  import opened Wrappers
  import opened Hashing
  import opened LinkedSet
  import opened ImtProofs
  import opened Transparent
  import opened Chain
  import opened ChainProofs
  import opened Transition
  import opened Bundle
  import opened Csn
  import opened CsnProofs

  /** The compact update at the bridge's own positions is the bridge's transparent step. */
  lemma ModifyIsStep(forest: Forest, index: Index, spent: Outputs, created: Outputs, targets: seq<nat>)
    requires AllLive(forest, Digests(spent)) && (spent != [] ==> targets == Positions(forest, Digests(spent)))
    ensures TransparentStep(forest, index, spent, created).Ok?
    ensures Modify(forest, Digests(created), Digests(spent), targets)
         == Ok(TransparentStep(forest, index, spent, created).value.0)
  {
    var kept := if spent == [] then forest else Tombstone(forest, targets);
    assert created == [] ==> Append(kept, Digests(created)) == kept;
  }

  /** Whatever bundle is accepted, its leaves are indexed outputs and every spend is accounted for. */
  lemma AcceptedBundleResolves(s: ChainState, b: BlockSummary, bundle: BlockProofBundle)
    requires OwnSlots(s, b) && ApplyBundle(CompactOf(s), b, bundle).Ok?
    ensures LeavesIndexed(s.index, bundle.spent)
    ensures bundle.spent != [] ==> bundle.targets == Positions(s.forest, bundle.SpentHashes())
    ensures Resolvable(s.index, b.Created(), b.spends, false, |b.spends|)
  {
    hide StageProofs, Unexpected, MatchSpends, OwnSlots;
    WalkClaims(b.Created(), b.height, b.spends, bundle.spent, |b.spends|);
    if bundle.spent != [] {
      ProvedLeavesAreIndexed(s, b, bundle);
    }
    MatchResolvable(s.index, b.Created(), b.height, b.spends, bundle.spent, |b.spends|);
  }

  /** What a compact node reads out of a bundle it accepts. */
  lemma AcceptedBundleReads(s: ChainState, b: BlockSummary, bundle: BlockProofBundle)
    requires Unambiguous(s, b) && ApplyBundle(CompactOf(s), b, bundle).Ok?
    ensures bundle.spent == Seconds(SpentBy(s.index, b))
    ensures bundle.SpentHashes() == Digests(SpentBy(s.index, b))
    ensures bundle.spent != [] ==> bundle.targets == Positions(s.forest, bundle.SpentHashes())
    ensures var matched := MatchSpends(b.Created(), b.height, b.spends, bundle.spent, |b.spends|);
      matched.Ok? && matched.value.cancelled == Cancelled(s.index, b)
  {
    AcceptedBundleResolves(s, b, bundle);
    hide StageProofs, Unexpected, Resolvable, OwnSlots;
    var matched := MatchSpends(b.Created(), b.height, b.spends, bundle.spent, |b.spends|).value;
    MatchSound(s.index, b.Created(), b.height, b.spends, bundle.spent, |b.spends|);
    assert b.spends[..|b.spends|] == b.spends && bundle.spent[..|bundle.spent|] == bundle.spent;
    assert matched.cancelled == Cancelled(s.index, b);
    var spent := SpentBy(s.index, b);
    assert forall i :: 0 <= i < |spent| ==> bundle.spent[i] == spent[i].1;
  }

  /** Every pool takes its nullifiers, so the block is staged and has room. */
  lemma AcceptedBundleStages(s: ChainState, b: BlockSummary, bundle: BlockProofBundle)
    requires PoolsOk(s.depth, s.pools)
    requires forall k :: 0 <= k < |ALL_POOLS| ==> PoolTakes(s.depth, s.pools, b, bundle, k)
    ensures NullifiersNew(s.pools, b) && HasRoom(s, b)
  {
    hide OwnProofs;
    forall pool | pool in s.pools
      ensures History(s.pools[pool] + b.NullifiersFor(pool))
    {
      var k := EveryPool(pool);
      assert PoolTakes(s.depth, s.pools, b, bundle, k);
      assert s.pools[pool] + [] == s.pools[pool];
    }
    forall k | 0 <= k < |ALL_POOLS|
      ensures RoomAt(s.depth, s.pools, b, k)
    {
      assert PoolTakes(s.depth, s.pools, b, bundle, k);
    }
  }

  /** The scratch copy after every pool is the compact view of the grown pools. */
  lemma ScratchIsCompact(depth: nat, before: Pools, after: Pools, b: BlockSummary, staged: map<PoolId, ImtState>)
    requires ScratchIs(depth, before, b, |ALL_POOLS|, staged) && PoolsFollow(before, after, b)
    ensures staged == map pool | pool in after :: StateOf(pool, depth, after[pool])
  {
    hide StateOf;
    var compact := map pool | pool in after :: StateOf(pool, depth, after[pool]);
    forall pool | pool in before
      ensures staged[pool] == compact[pool]
    {
      var k := EveryPool(pool);
      assert ALL_POOLS[k] == pool;
    }
  }

  /**
   * Soundness, first half. Whatever bundle was supplied, if a compact node whose
   * roots match a bridge accepts a block, the bridge accepts that block, unless
   * something else stands in the forest under an outpoint the block spends.
   */
  lemma AcceptedByBridge(s: ChainState, b: BlockSummary, bundle: BlockProofBundle)
    requires Usable(s) && OwnSlots(s, b) && ApplyBundle(CompactOf(s), b, bundle).Ok?
    ensures ApplyBlock(s, b, DEFAULT_OPTIONS).1.Ok?
    ensures forall k :: 0 <= k < |ALL_POOLS| ==> PoolTakes(s.depth, s.pools, b, bundle, k)
    ensures StageProofs(CompactOf(s), b, bundle, |ALL_POOLS|).Ok?
    ensures StageProofs(CompactOf(s), b, bundle, |ALL_POOLS|).value ==
      CompactOf(ApplyBlock(s, b, DEFAULT_OPTIONS).0).nullifiers
  {
    hide MatchSpends, StageProofs, Unexpected, TransparentStep, StateOf, PoolTakes, Modify, Positions, IndexedSpends,
      OwnSlots;
    AcceptedBundleResolves(s, b, bundle);
    StageProofsExact(s, b, bundle, |ALL_POOLS|);
    AcceptedBundleStages(s, b, bundle);
    AcceptedInStep(s, b, DEFAULT_OPTIONS);
    AcceptedExactly(s, b, DEFAULT_OPTIONS);
    var after := ApplyBlock(s, b, DEFAULT_OPTIONS).0;
    ScratchIsCompact(s.depth, s.pools, after.pools, b, StageProofs(CompactOf(s), b, bundle, |ALL_POOLS|).value);
  }

  /**
   * Soundness. If moreover no spend of the block is at once indexed and created
   * by it, both reach equal roots, counts and tip. On a state in step the first
   * condition always holds.
   */
  lemma CompactSound(s: ChainState, b: BlockSummary, bundle: BlockProofBundle)
    requires Usable(s) && OwnSlots(s, b) && ApplyBundle(CompactOf(s), b, bundle).Ok?
    ensures ApplyBlock(s, b, DEFAULT_OPTIONS).1.Ok?
    ensures NoRespend(s.index, b.Created(), b.spends) ==>
      ApplyBundle(CompactOf(s), b, bundle) == Ok(CompactOf(ApplyBlock(s, b, DEFAULT_OPTIONS).0))
  {
    hide MatchSpends, StageProofs, Unexpected, TransparentStep, StateOf, PoolTakes, Modify, Positions, IndexedSpends,
      OwnSlots;
    AcceptedByBridge(s, b, bundle);
    if NoRespend(s.index, b.Created(), b.spends) {
      AcceptedBundleReads(s, b, bundle);
      AcceptedExactly(s, b, DEFAULT_OPTIONS);
      SpentIsIndexed(s, b);
      SpentAreLive(s, b);
      ModifyIsStep(s.forest, s.index, SpentBy(s.index, b), CreatedBy(s.index, b), bundle.targets);
    }
  }

  /** On a state in step only a respend is ambiguous. */
  lemma InStepUnambiguous(s: ChainState, b: BlockSummary)
    requires InStep(s.forest, s.index)
    ensures OwnSlots(s, b)
    ensures Unambiguous(s, b) <==> NoRespend(s.index, b.Created(), b.spends)
  {
    forall o | o in b.spends
      ensures OnlyOwnSlot(s.forest, s.index, o)
    {
      InStepOnlyOwn(s.forest, s.index, o);
    }
  }

  lemma NewIsUnambiguous(s: ChainState, b: BlockSummary)
    requires InStep(s.forest, s.index) && CreatesNew(s, b)
    ensures Unambiguous(s, b)
  {
    InStepUnambiguous(s, b);
    forall o | o in b.Created()
      ensures o !in s.index
    {
      var i :| 0 <= i < |b.creates| && b.creates[i].0 == o;
    }
  }

  lemma SpentAreLive(s: ChainState, b: BlockSummary)
    requires Usable(s)
    ensures AllLive(s.forest, Digests(SpentBy(s.index, b)))
  {
    SpentIsIndexed(s, b);
    DeletionKeepsSpendable(s.forest, s.index, SpentBy(s.index, b));
  }

  // ---- lockstep ----

  /** Every indexed spend before `n` comes before every later one in the bundle. */
  lemma {:induction false} IndexedPrefix(index: Index, spends: seq<OutPoint>, n: nat, m: nat)
    requires n <= m <= |spends|
    ensures IndexedSpends(index, spends, n) <= IndexedSpends(index, spends, m)
  {
    if n < m {
      IndexedPrefix(index, spends, n, m - 1);
    }
  }

  /** How a walk over the bridge's own leaves goes: it stops at the first spend nobody knows. */
  ghost predicate HonestMatch(index: Index, created: set<OutPoint>, spends: seq<OutPoint>, n: nat,
          r: Result<Matched, CsnError>)
    requires n <= |spends|
  {
    && (r.Ok? <==> forall i :: 0 <= i < n ==> spends[i] in index || spends[i] in created)
    && (r.Ok? ==>
         && r.value.cursor == |IndexedSpends(index, spends, n)|
         && forall o :: o in r.value.cancelled <==> o in spends[..n] && o !in index && o in created)
  }

  /** The leaf under the cursor is the next spend's exactly when that spend is indexed. */
  lemma NextLeaf(index: Index, spends: seq<OutPoint>, leaves: seq<UtxoLeaf>, k: nat, cursor: nat)
    requires OwnOutPoints(index) && k < |spends| && cursor == |IndexedSpends(index, spends, k)|
    requires leaves == Seconds(IndexedSpends(index, spends, |spends|))
    ensures spends[k] in index <==> cursor < |leaves| && LeafMatches(leaves[cursor], spends[k])
    ensures |IndexedSpends(index, spends, k + 1)| == if spends[k] in index then cursor + 1 else cursor
  {
    var o, whole := spends[k], IndexedSpends(index, spends, |spends|);
    IndexedPrefix(index, spends, k + 1, |spends|);
    IndexedSpendsAreIndexed(index, spends, |spends|);
    if o in index {
      assert IndexedSpends(index, spends, k + 1)[cursor] == (o, index[o]);
    }
    if cursor < |leaves| {
      assert leaves[cursor] == whole[cursor].1;
      assert OutPointOf(leaves[cursor]) == whole[cursor].0;
    }
  }

  lemma HonestNext(index: Index, created: set<OutPoint>, height: Height, spends: seq<OutPoint>, leaves: seq<UtxoLeaf>,
          k: nat, prev: Matched)
    requires OwnOutPoints(index) && k < |spends| && (forall i, j :: 0 <= i < j < |spends| ==> spends[i] != spends[j])
    requires leaves == Seconds(IndexedSpends(index, spends, |spends|))
    requires HonestMatch(index, created, spends, k, Ok(prev))
    ensures HonestMatch(index, created, spends, k + 1, MatchNext(created, height, spends, leaves, k, prev))
  {
    hide IndexedSpends, Seconds, OwnOutPoints;
    var o := spends[k];
    assert spends[..k + 1] == spends[..k] + [o];
    assert o !in spends[..k];
    NextLeaf(index, spends, leaves, k, prev.cursor);
  }

  lemma {:induction false} HonestMatches(index: Index, created: set<OutPoint>, height: Height, spends: seq<OutPoint>,
          leaves: seq<UtxoLeaf>, n: nat)
    requires OwnOutPoints(index) && n <= |spends| && (forall i, j :: 0 <= i < j < |spends| ==> spends[i] != spends[j])
    requires leaves == Seconds(IndexedSpends(index, spends, |spends|))
    ensures HonestMatch(index, created, spends, n, MatchSpends(created, height, spends, leaves, n))
  {
    hide MatchNext;
    if n > 0 {
      HonestMatches(index, created, height, spends, leaves, n - 1);
      var prev := MatchSpends(created, height, spends, leaves, n - 1);
      if prev.Ok? {
        HonestNext(index, created, height, spends, leaves, n - 1, prev.value);
      }
    }
  }

  /** The bundle of an accepted block proves every pool, and no other. */
  lemma HonestInsertions(s: ChainState, b: BlockSummary, bundle: BlockProofBundle, delta: StateDelta)
    requires PoolsOk(s.depth, s.pools) && NullifiersNew(s.pools, b) && HasRoom(s, b)
    requires RecordsUpTo(s.depth, s.pools, b, delta.insertions, |ALL_POOLS|)
    requires bundle.insertions == InsertionsFrom(delta)
    ensures forall k :: 0 <= k < |ALL_POOLS| ==> PoolTakes(s.depth, s.pools, b, bundle, k)
    ensures Unexpected(b, bundle, |ALL_POOLS|) == None
  {
    hide InsertionProofOf, History;
    forall k | 0 <= k < |ALL_POOLS|
      ensures PoolTakes(s.depth, s.pools, b, bundle, k)
      ensures bundle.InsertionsFor(ALL_POOLS[k]) != [] ==> b.NullifiersFor(ALL_POOLS[k]) != []
    {
      var pool := ALL_POOLS[k];
      assert RoomAt(s.depth, s.pools, b, k);
      if pool in delta.insertions {
        RecordsAreOwnProofs(pool, s.depth, s.pools[pool], b.NullifiersFor(pool), delta.insertions[pool]);
      }
    }
    NoneUnexpected(b, bundle, |ALL_POOLS|);
  }

  lemma RecordsAreOwnProofs(pool: PoolId, depth: nat, all: seq<Value>, values: seq<Value>, records: Insertions)
    requires |records| == |values| && RecordsOf(pool, depth, all, values, records)
    ensures OwnProofs(pool, depth, all, values, Seconds(records), |values|)
  {
    hide InsertionProofOf, History;
    var proofs := Seconds(records);
    forall k | 0 <= k < |values|
      ensures OwnProof(pool, depth, all + values[..k], values[k], proofs[k])
    {
      assert records[k].1 == proofs[k];
    }
  }

  lemma {:induction false} NoneUnexpected(b: BlockSummary, bundle: BlockProofBundle, n: nat)
    requires n <= |ALL_POOLS|
    requires forall k :: 0 <= k < n ==> bundle.InsertionsFor(ALL_POOLS[k]) != [] ==> b.NullifiersFor(ALL_POOLS[k]) != []
    ensures Unexpected(b, bundle, n) == None
  {
    if n > 0 {
      NoneUnexpected(b, bundle, n - 1);
    }
  }

  /** The bridge's own spends pass the walk and the inclusion check. */
  lemma HonestSpends(s: ChainState, b: BlockSummary, bundle: BlockProofBundle)
    requires OwnOutPoints(s.index) && (forall i, j :: 0 <= i < j < |b.spends| ==> b.spends[i] != b.spends[j])
    requires bundle.spent == Seconds(SpentBy(s.index, b))
    ensures var matched := MatchSpends(b.Created(), b.height, b.spends, bundle.spent, |b.spends|);
      && (matched.Ok? <==> SpendsKnown(s, b))
      && (matched.Ok? ==> matched.value.cursor == |bundle.spent| && matched.value.cancelled == Cancelled(s.index, b))
    ensures bundle.SpentHashes() == Digests(SpentBy(s.index, b))
  {
    HonestMatches(s.index, b.Created(), b.height, b.spends, bundle.spent, |b.spends|);
    assert b.spends[..|b.spends|] == b.spends;
  }

  /**
   * Lockstep for one block. The bundle a bridge serves is accepted by a
   * compact node with matching roots exactly when the block follows the tip
   * and every spend is indexed or created by the block, and then both end with
   * equal roots, counts and tip.
   */
  lemma Lockstep(s: ChainState, b: BlockSummary, options: ApplyOptions)
    requires PoolsOk(s.depth, s.pools) && OwnOutPoints(s.index)
    requires ApplyAndProve(s, b, options).1.Ok?
    ensures var (after, r) := ApplyAndProve(s, b, options);
      var next := ApplyBundle(CompactOf(s), b, r.value.1);
      && (next.Ok? <==> SpendsKnown(s, b) && InOrder(s.tip, b.height, true))
      && (next.Ok? ==> next.value == CompactOf(after))
  {
    hide MatchSpends, StageProofs, Unexpected, TransparentStep, StateOf, PoolTakes, Modify, Positions, IndexedSpends,
      ApplyBlock;
    var (after, r) := ApplyAndProve(s, b, options);
    var bundle, spent := r.value.1, SpentBy(s.index, b);
    AcceptedExactly(s, b, options);
    DeltaRecords(s, b, options);
    HonestSpends(s, b, bundle);
    HonestInsertions(s, b, bundle, r.value.0.delta);
    StageProofsExact(s, b, bundle, |ALL_POOLS|);
    ScratchIsCompact(s.depth, s.pools, after.pools, b, StageProofs(CompactOf(s), b, bundle, |ALL_POOLS|).value);
    HonestTargets(s.forest, spent);
    ModifyIsStep(s.forest, s.index, spent, CreatedBy(s.index, b), bundle.targets);
  }

  /** A genesis block that spends what nobody knows, tolerated: the bridge serves a bundle no compact node accepts. */
  lemma ToleratedSpendBreaksLockstep(depth: nat, o: OutPoint)
    requires ValidDepth(depth)
    ensures var (s, b) := (Genesis(depth), BlockSummary(0, [o], [], map[], map[]));
      var served := ApplyAndProve(s, b, ApplyOptions(true, true)).1;
      && Histories(s.pools) && served.Ok? && served.value.0.unknownSpends > 0
      && ApplyBundle(CompactGenesis(depth), b, served.value.1).Err?
  {
    var s, b, options := Genesis(depth), BlockSummary(0, [o], [], map[], map[]), ApplyOptions(true, true);
    GenesisOk(depth);
    GenesisMatches(depth);
    NothingToPut(s, b);
    AcceptedInStep(s, b, options);
    ApplyAndProveExactly(s, b, options);
    AcceptedExactly(s, b, options);
    assert o in b.spends && !SpendsKnown(s, b);
    Lockstep(s, b, options);
  }

  /** A block without nullifiers finds every pool ready. */
  lemma NothingToPut(s: ChainState, b: BlockSummary)
    requires PoolsOk(s.depth, s.pools) && b.nullifiers == map[]
    ensures NullifiersNew(s.pools, b) && HasRoom(s, b)
  {
    forall pool | pool in s.pools
      ensures History(s.pools[pool] + b.NullifiersFor(pool))
    {
      assert s.pools[pool] + [] == s.pools[pool];
    }
  }

  lemma HonestTargets(forest: Forest, spent: Outputs)
    requires ProveSpends(forest, spent).Ok?
    ensures AllLive(forest, Digests(spent))
    ensures ProveSpends(forest, spent).value == Positions(forest, Digests(spent))
    ensures Verifies(forest, Positions(forest, Digests(spent)), Digests(spent))
  {
    var digests, targets := Digests(spent), Positions(forest, Digests(spent));
    forall i | 0 <= i < |digests|
      ensures targets[i] < |forest| && forest[targets[i]] == Live(digests[i])
    {
      assert Live(digests[i]) in forest;
    }
  }

  lemma OwnProofsUnique(pool: PoolId, depth: nat, all: seq<Value>, values: seq<Value>, p: seq<InsertionProof>,
          q: seq<InsertionProof>)
    requires |p| == |q| == |values|
    requires OwnProofs(pool, depth, all, values, p, |values|) && OwnProofs(pool, depth, all, values, q, |values|)
    ensures p == q
  {
    hide InsertionProofOf, History;
    forall k | 0 <= k < |values|
      ensures p[k] == q[k]
    {
      assert OwnProof(pool, depth, all + values[..k], values[k], p[k]);
      assert OwnProof(pool, depth, all + values[..k], values[k], q[k]);
    }
  }

  /**
   * Two bundles that say the same, whatever depth they name, whether they list
   * empty pools, and whatever inclusion proof comes with no spends.
   */
  ghost predicate SaySame(p: BlockProofBundle, q: BlockProofBundle) {
    && p.height == q.height && p.spent == q.spent && (p.spent != [] ==> p.targets == q.targets)
    && forall pool :: p.InsertionsFor(pool) == q.InsertionsFor(pool)
  }

  lemma {:induction false} SameStaging(c: CompactState, b: BlockSummary, p: BlockProofBundle, q: BlockProofBundle,
          n: nat)
    requires SaySame(p, q) && n <= |ALL_POOLS|
    ensures StageProofs(c, b, p, n) == StageProofs(c, b, q, n) && Unexpected(b, p, n) == Unexpected(b, q, n)
  {
    hide ApplyProofs;
    if n > 0 {
      SameStaging(c, b, p, q, n - 1);
    }
  }

  lemma SameVerdict(c: CompactState, b: BlockSummary, p: BlockProofBundle, q: BlockProofBundle)
    requires SaySame(p, q)
    ensures ApplyBundle(c, b, p) == ApplyBundle(c, b, q)
  {
    hide StageProofs, Unexpected, MatchSpends, Verifies;
    SameStaging(c, b, p, q, |ALL_POOLS|);
    assert p.SpentHashes() == q.SpentHashes();
  }

  /**
   * One bundle for one block: a compact node accepts a bundle if and only if
   * the bridge takes the block and the bundle says, spend for spend and proof for
   * proof, what the bridge serves. The depth a bundle names is never looked at,
   * nor is an inclusion proof that comes with no spends.
   */
  lemma OnlyHonestBundle(s: ChainState, b: BlockSummary, bundle: BlockProofBundle)
    requires Usable(s) && Unambiguous(s, b)
    ensures var served := ApplyAndProve(s, b, DEFAULT_OPTIONS).1;
      ApplyBundle(CompactOf(s), b, bundle).Ok? <==> served.Ok? && SaySame(bundle, served.value.1)
  {
    var served := ApplyAndProve(s, b, DEFAULT_OPTIONS).1;
    if ApplyBundle(CompactOf(s), b, bundle).Ok? {
      AcceptedSaysServed(s, b, bundle);
    } else if served.Ok? && SaySame(bundle, served.value.1) {
      ApplyAndProveExactly(s, b, DEFAULT_OPTIONS);
      AcceptedExactly(s, b, DEFAULT_OPTIONS);
      hide ApplyBundle, ApplyAndProve, ApplyBlock, SaySame;
      Lockstep(s, b, DEFAULT_OPTIONS);
      SameVerdict(CompactOf(s), b, bundle, served.value.1);
    }
  }

  lemma AcceptedSaysServed(s: ChainState, b: BlockSummary, bundle: BlockProofBundle)
    requires Usable(s) && Unambiguous(s, b) && ApplyBundle(CompactOf(s), b, bundle).Ok?
    ensures ApplyAndProve(s, b, DEFAULT_OPTIONS).1.Ok?
    ensures SaySame(bundle, ApplyAndProve(s, b, DEFAULT_OPTIONS).1.value.1)
  {
    AcceptedByBridge(s, b, bundle);
    ApplyAndProveExactly(s, b, DEFAULT_OPTIONS);
    AcceptedBundleReads(s, b, bundle);
    AcceptedExactly(s, b, DEFAULT_OPTIONS);
    DeltaRecords(s, b, DEFAULT_OPTIONS);
    SpentAreLive(s, b);
    hide MatchSpends, StageProofs, TransparentStep, StateOf, Modify, Positions, IndexedSpends, ApplyBlock, PoolTakes,
      Resolvable;
    var served := ApplyAndProve(s, b, DEFAULT_OPTIONS).1.value;
    HonestInsertions(s, b, served.1, served.0.delta);
    forall pool
      ensures bundle.InsertionsFor(pool) == served.1.InsertionsFor(pool)
    {
      var k := EveryPool(pool);
      OnlyHonestProofs(s, b, bundle, served.1, k);
    }
  }

  lemma OnlyHonestProofs(s: ChainState, b: BlockSummary, p: BlockProofBundle, q: BlockProofBundle, k: nat)
    requires PoolsOk(s.depth, s.pools) && k < |ALL_POOLS|
    requires PoolTakes(s.depth, s.pools, b, p, k) && PoolTakes(s.depth, s.pools, b, q, k)
    requires Unexpected(b, p, |ALL_POOLS|) == None && Unexpected(b, q, |ALL_POOLS|) == None
    ensures p.InsertionsFor(ALL_POOLS[k]) == q.InsertionsFor(ALL_POOLS[k])
  {
    hide OwnProofs;
    var pool := ALL_POOLS[k];
    var values := b.NullifiersFor(pool);
    if values == [] {
      NothingUnexpected(b, p, |ALL_POOLS|, k);
      NothingUnexpected(b, q, |ALL_POOLS|, k);
    } else {
      OwnProofsUnique(pool, s.depth, s.pools[pool], values, p.InsertionsFor(pool), q.InsertionsFor(pool));
    }
  }

  lemma {:induction false} NothingUnexpected(b: BlockSummary, bundle: BlockProofBundle, n: nat, k: nat)
    requires k < n <= |ALL_POOLS| && Unexpected(b, bundle, n) == None
    ensures b.NullifiersFor(ALL_POOLS[k]) == [] ==> bundle.InsertionsFor(ALL_POOLS[k]) == []
  {
    if k < n - 1 {
      NothingUnexpected(b, bundle, n - 1, k);
    }
  }
}
