// The bridge's block transition refines the naive model.
module NaiveRefinement {
  import opened Wrappers
  import opened Arith
  import opened Hashing
  import opened LinkedSet
  import opened Transparent
  import opened Chain
  import opened ChainProofs
  import opened Transition
  import opened NaiveChain

  /** The naive model of a bridge state: same histories, same unspent outpoints, same tip. */
  ghost predicate Models(n: NaiveModel, s: ChainState) {
    n.depth == s.depth && n.pools == s.pools && n.utxos == s.index.Keys && n.tip == s.tip
  }

  /** Both views of one parsed block. */
  ghost predicate SameBlock(b: BlockSummary, nb: NaiveBlock) {
    && nb.height == b.height && nb.spends == b.spends
    && |nb.creates| == |b.creates| &&
      (forall i {:trigger nb.creates[i]} :: 0 <= i < |nb.creates| ==> nb.creates[i] == b.creates[i].0)
    && forall pool :: Tagged(nb.nullifiers, pool, |nb.nullifiers|) == b.NullifiersFor(pool)
  }

  lemma SameCreates(b: BlockSummary, nb: NaiveBlock)
    requires SameBlock(b, nb)
    ensures forall o :: o in nb.creates <==> o in b.Created()
  {
    forall o | o in b.Created()
      ensures o in nb.creates
    {
      var i :| 0 <= i < |b.creates| && b.creates[i].0 == o;
      assert nb.creates[i] == o;
    }
    forall o | o in nb.creates
      ensures o in b.Created()
    {
      var i :| 0 <= i < |nb.creates| && nb.creates[i] == o;
      assert b.creates[i] in b.creates;
    }
  }

  // ---- spends ----

  /** The first `n` spends are distinct, and of outputs that exist or may be unknown. */
  ghost predicate NaiveResolvable(utxos: set<OutPoint>, created: set<OutPoint>, spends: seq<OutPoint>,
          allowUnknown: bool, n: nat)
    requires n <= |spends|
  {
    && (forall i, j :: 0 <= i < j < n ==> spends[i] != spends[j])
    && (forall i :: 0 <= i < n ==> spends[i] in utxos || spends[i] in created || allowUnknown)
  }

  lemma NaiveResolvableNext(utxos: set<OutPoint>, created: set<OutPoint>, spends: seq<OutPoint>, allowUnknown: bool,
          k: nat)
    requires k < |spends|
    ensures NaiveResolvable(utxos, created, spends, allowUnknown, k + 1) <==>
      && NaiveResolvable(utxos, created, spends, allowUnknown, k)
      && spends[k] !in spends[..k] && (spends[k] in utxos || spends[k] in created || allowUnknown)
  {
    assert spends[k] in spends[..k] <==> exists i :: 0 <= i < k && spends[i] == spends[k];
  }

  ghost predicate NaiveStaged(utxos: set<OutPoint>, created: set<OutPoint>, spends: seq<OutPoint>, allowUnknown: bool,
          n: nat, r: Result<NaiveResolved, NaiveApplyError>)
    requires n <= |spends|
  {
    && (r.Ok? <==> NaiveResolvable(utxos, created, spends, allowUnknown, n))
    && (r.Ok? ==>
         && (forall o :: o in r.value.resolved <==> o in spends[..n] && o in utxos)
         && (forall o :: o in r.value.cancelled <==> o in spends[..n] && o !in utxos && o in created)
         && r.value.unknown == |NaiveUnknown(utxos, created, spends, n)|)
  }

  function NaiveUnknown(utxos: set<OutPoint>, created: set<OutPoint>, spends: seq<OutPoint>, n: nat): set<OutPoint>
    requires n <= |spends|
  {
    set o | o in spends[..n] && o !in utxos && o !in created
  }

  lemma NaiveUnknownGrows(utxos: set<OutPoint>, created: set<OutPoint>, spends: seq<OutPoint>, k: nat)
    requires k < |spends| && spends[k] !in spends[..k]
    ensures |NaiveUnknown(utxos, created, spends, k + 1)| == |NaiveUnknown(utxos, created, spends, k)|
      + if spends[k] in utxos || spends[k] in created then 0 else 1
  {
    assert spends[..k + 1] == spends[..k] + [spends[k]];
    var before, after := NaiveUnknown(utxos, created, spends, k), NaiveUnknown(utxos, created, spends, k + 1);
    if spends[k] in utxos || spends[k] in created {
      assert after == before;
    } else {
      assert after == before + {spends[k]};
    }
  }

  lemma NaiveNext(utxos: set<OutPoint>, created: set<OutPoint>, nb: NaiveBlock, allowUnknown: bool, k: nat,
          prev: Result<NaiveResolved, NaiveApplyError>)
    requires k < |nb.spends| && (forall o :: o in nb.creates <==> o in created)
    requires NaiveStaged(utxos, created, nb.spends, allowUnknown, k, prev)
    ensures NaiveStaged(utxos, created, nb.spends, allowUnknown, k + 1,
      if prev.Ok? then NaiveResolveNext(utxos, nb, allowUnknown, k, prev.value) else prev)
  {
    hide NaiveResolvable;
    NaiveResolvableNext(utxos, created, nb.spends, allowUnknown, k);
    if nb.spends[k] !in nb.spends[..k] {
      NaiveUnknownGrows(utxos, created, nb.spends, k);
    }
    hide NaiveUnknown;
    assert nb.spends[..k + 1] == nb.spends[..k] + [nb.spends[k]];
  }

  lemma {:induction false} NaiveResolves(utxos: set<OutPoint>, created: set<OutPoint>, nb: NaiveBlock,
          allowUnknown: bool, n: nat)
    requires n <= |nb.spends| && (forall o :: o in nb.creates <==> o in created)
    ensures NaiveStaged(utxos, created, nb.spends, allowUnknown, n, NaiveResolve(utxos, nb, allowUnknown, n))
  {
    if n > 0 {
      hide NaiveStaged, NaiveResolveNext;
      NaiveResolves(utxos, created, nb, allowUnknown, n - 1);
      NaiveNext(utxos, created, nb, allowUnknown, n - 1, NaiveResolve(utxos, nb, allowUnknown, n - 1));
    }
  }

  // ---- nullifiers ----

  lemma {:induction false} NaiveStages(pools: Pools, b: BlockSummary, nb: NaiveBlock, n: nat)
    requires n <= |ALL_POOLS| && Histories(pools) && (forall pool :: pool in pools) && SameBlock(b, nb)
    ensures NaiveStage(pools, nb, n).Ok? <==> forall k :: 0 <= k < n ==>
      History(pools[ALL_POOLS[k]] + b.NullifiersFor(ALL_POOLS[k]))
  {
    hide Clashes, Tagged;
    if n > 0 {
      NaiveStages(pools, b, nb, n - 1);
      var pool := ALL_POOLS[n - 1];
      NoClashIsHistory(pools[pool], b.NullifiersFor(pool));
    }
  }

  /** The naive pool takes staged values exactly while there is room. */
  lemma {:induction false} NaiveInserts(depth: nat, all: seq<Value>, values: seq<Value>, n: nat)
    requires History(all) && History(all + values) && |all| <= Pow2(depth) && n <= |values|
    ensures NaiveInsert(depth, all, values, n).1 <==> |all| + n <= Pow2(depth)
    ensures |all| + n <= Pow2(depth) ==> NaiveInsert(depth, all, values, n).0 == all + values[..n]
  {
    if n > 0 {
      NaiveInserts(depth, all, values, n - 1);
      PrefixOfHistory(all, values, n - 1);
      assert all + values[..n] == all + values[..n - 1] + [values[n - 1]];
    }
  }

  /** Both programs' nullifiers go in, or neither's. */
  ghost predicate PutAlike(depth: nat, pools: Pools, b: BlockSummary, nb: NaiveBlock, n: nat)
    requires n <= |ALL_POOLS| && forall pool :: pool in pools
  {
    var (grown, put) := NaivePut(depth, pools, nb, n);
    && (put.Ok? <==> forall k :: 0 <= k < n ==> RoomAt(depth, pools, b, k))
    && (put.Ok? ==> GrownTo(pools, grown, b, n))
  }

  lemma {:induction false} NaivePuts(depth: nat, pools: Pools, b: BlockSummary, nb: NaiveBlock, n: nat)
    requires n <= |ALL_POOLS| && PoolsOk(depth, pools) && NullifiersNew(pools, b) && SameBlock(b, nb)
    ensures PutAlike(depth, pools, b, nb, n)
  {
    if n > 0 {
      hide NaivePut, History, SameBlock, PutAlike;
      NaivePuts(depth, pools, b, nb, n - 1);
      NaivePutsNext(depth, pools, b, nb, n);
    }
  }

  lemma RoomIs(depth: nat, pools: Pools, b: BlockSummary, k: nat)
    requires k < |ALL_POOLS| && ALL_POOLS[k] in pools
    ensures RoomAt(depth, pools, b, k) <==> |pools[ALL_POOLS[k]]| + |b.NullifiersFor(ALL_POOLS[k])| <= Pow2(depth)
  {
  }

  lemma NaiveGrows(before: Pools, grown: Pools, b: BlockSummary, k: nat)
    requires k < |ALL_POOLS| && GrownTo(before, grown, b, k) && ALL_POOLS[k] in before
    ensures ALL_POOLS[k] in grown && grown[ALL_POOLS[k]] == before[ALL_POOLS[k]]
    ensures var pool := ALL_POOLS[k];
      GrownTo(before, grown[pool := before[pool] + b.NullifiersFor(pool)], b, k + 1)
  {
    DistinctRanks();
  }

  lemma NaivePutsNext(depth: nat, pools: Pools, b: BlockSummary, nb: NaiveBlock, n: nat)
    requires 0 < n <= |ALL_POOLS| && PoolsOk(depth, pools) && NullifiersNew(pools, b) && SameBlock(b, nb)
    requires PutAlike(depth, pools, b, nb, n - 1)
    ensures PutAlike(depth, pools, b, nb, n)
  {
    hide Tagged, NaiveInsert, History, GrownTo, RoomAt;
    var pool := ALL_POOLS[n - 1];
    var values := b.NullifiersFor(pool);
    NaiveInserts(depth, pools[pool], values, |values|);
    assert values[..|values|] == values;
    RoomIs(depth, pools, b, n - 1);
    var (grown, done) := NaivePut(depth, pools, nb, n - 1);
    if done.Ok? {
      NaiveGrows(pools, grown, b, n - 1);
    }
  }

  // ---- outputs ----

  lemma {:induction false} RecordedKeys(index: Index, outputs: Outputs, n: nat)
    requires n <= |outputs|
    ensures Recorded(index, outputs, n).Keys == index.Keys + Outpoints(outputs[..n])
  {
    if n > 0 {
      RecordedKeys(index, outputs, n - 1);
      assert outputs[..n] == outputs[..n - 1] + [outputs[n - 1]];
      assert Outpoints(outputs[..n]) == Outpoints(outputs[..n - 1]) + {outputs[n - 1].0} by {
        assert outputs[n - 1] in outputs[..n];
        assert forall x :: x in outputs[..n] <==> x in outputs[..n - 1] || x == outputs[n - 1];
      }
    }
  }

  lemma CreatedOutpoints(s: ChainState, b: BlockSummary)
    ensures Outpoints(CreatedBy(s.index, b)) == b.Created() - Cancelled(s.index, b)
  {
    var created, cancelled := CreatedBy(s.index, b), Cancelled(s.index, b);
    SurvivingMeaning(b.creates, cancelled, |b.creates|);
    assert b.creates[..|b.creates|] == b.creates;
    forall o | o in b.Created() - cancelled
      ensures o in Outpoints(created)
    {
      var x :| x in b.creates && x.0 == o;
      assert x in created;
    }
  }

  /** The unspent outpoints after an accepted block. */
  lemma UnspentAfter(s: ChainState, b: BlockSummary, options: ApplyOptions)
    requires PoolsOk(s.depth, s.pools) && ApplyBlock(s, b, options).1.Ok?
    ensures ApplyBlock(s, b, options).0.index.Keys
         == s.index.Keys - (set o | o in b.spends) + (b.Created() - Cancelled(s.index, b))
  {
    hide Resolvable, NullifiersNew, HasRoom, PoolsFollow;
    AcceptedExactly(s, b, options);
    SpentIsIndexed(s, b);
    CreatedOutpoints(s, b);
    var spent, created := SpentBy(s.index, b), CreatedBy(s.index, b);
    RecordedKeys(s.index - Outpoints(spent), created, |created|);
    assert created[..|created|] == created;
  }

  /**
   * Refinement. On a block that follows the tip, the bridge and the naive model
   * give the same verdict, and after an accepted one they hold the same unspent
   * outpoints, the same nullifiers in the same order, and the same tip, and have
   * counted the same unknown spends, whatever outpoints the block creates.
   */
  lemma BridgeRefinesNaive(s: ChainState, n: NaiveModel, b: BlockSummary, nb: NaiveBlock, options: ApplyOptions)
    requires Usable(s) && Models(n, s) && SameBlock(b, nb)
    requires InOrder(s.tip, b.height, options.enforceContiguous)
    ensures ApplyBlock(s, b, options).1.Ok? <==> NaiveApply(n, nb, options.allowUnknownSpends).1.Ok?
    ensures ApplyBlock(s, b, options).1.Ok? ==>
      && Models(NaiveApply(n, nb, options.allowUnknownSpends).0, ApplyBlock(s, b, options).0)
      && NaiveApply(n, nb, options.allowUnknownSpends).0.unknownSpends
        == n.unknownSpends + ApplyBlock(s, b, options).1.value.unknownSpends
  {
    hide Tagged, NaiveInsert, History, NaiveResolve, NaiveStage, NaivePut, ApplyBlock, RoomAt;
    SameCreates(b, nb);
    NaiveResolves(n.utxos, b.Created(), nb, options.allowUnknownSpends, |nb.spends|);
    NaiveStagesAll(s, b, nb);
    if NullifiersNew(s.pools, b) {
      NaivePuts(s.depth, s.pools, b, nb, |ALL_POOLS|);
    }
    AcceptedInStep(s, b, options);
    if ApplyBlock(s, b, options).1.Ok? {
      AcceptedExactly(s, b, options);
      UnspentAfter(s, b, options);
      NaiveOutputsAgree(s, n, b, nb, options.allowUnknownSpends);
      NaiveUnknownAgree(s, n, b);
      NaivePoolsAgree(s.pools, ApplyBlock(s, b, options).0.pools, NaivePut(n.depth, n.pools, nb, |ALL_POOLS|).0, b);
    }
  }

  lemma NaiveStagesAll(s: ChainState, b: BlockSummary, nb: NaiveBlock)
    requires PoolsOk(s.depth, s.pools) && SameBlock(b, nb)
    ensures NaiveStage(s.pools, nb, |ALL_POOLS|).Ok? <==> NullifiersNew(s.pools, b)
  {
    NaiveStages(s.pools, b, nb, |ALL_POOLS|);
    hide History, NaiveStage, Tagged;
    if NaiveStage(s.pools, nb, |ALL_POOLS|).Ok? {
      forall pool | pool in s.pools
        ensures History(s.pools[pool] + b.NullifiersFor(pool))
      {
        var k := EveryPool(pool);
      }
    }
  }

  lemma NaiveOutputsAgree(s: ChainState, n: NaiveModel, b: BlockSummary, nb: NaiveBlock, allowUnknown: bool)
    requires Models(n, s) && SameBlock(b, nb) && NaiveResolve(n.utxos, nb, allowUnknown, |nb.spends|).Ok?
    ensures var r := NaiveResolve(n.utxos, nb, allowUnknown, |nb.spends|).value;
      n.utxos - r.resolved + NaiveCreated(nb.creates, r.cancelled)
        == s.index.Keys - (set o | o in b.spends) + (b.Created() - Cancelled(s.index, b))
  {
    hide NaiveResolve, Tagged;
    SameCreates(b, nb);
    NaiveResolves(n.utxos, b.Created(), nb, allowUnknown, |nb.spends|);
    assert nb.spends[..|nb.spends|] == nb.spends;
  }

  lemma NaiveUnknownAgree(s: ChainState, n: NaiveModel, b: BlockSummary)
    requires Models(n, s)
    ensures NaiveUnknown(n.utxos, b.Created(), b.spends, |b.spends|) == UnknownBy(s, b)
  {
    assert b.spends[..|b.spends|] == b.spends;
  }

  lemma NaivePoolsAgree(before: Pools, a: Pools, c: Pools, b: BlockSummary)
    requires PoolsFollow(before, a, b) && GrownTo(before, c, b, |ALL_POOLS|)
    ensures a == c
  {
    GrownToAll(before, c, b);
  }
}
