// Undoing a block from its delta is exact: the nullifiers come back to where
// they were, and the transparent step replays to where it went.
module UndoProofs {
  import opened Wrappers
  import opened Hashing
  import opened LinkedSet
  import opened ImtProofs
  import opened Imt
  import opened Transparent
  import opened Chain
  import opened ChainProofs
  import opened Transition
  import opened Rollback

  /** The record of an insertion is accepted as its undo. */
  lemma RecordUndoes(pool: PoolId, depth: nat, all: seq<Value>, v: Value)
    requires History(all) && History(all + [v])
    ensures UndoAccepts(all + [v], v, InsertionProofOf(pool, depth, all, v))
  {
    assert (all + [v])[..|all|] == all;
    LowIndexInRange(all, v);
  }

  /** Undoing a pool's records in reverse restores its history. */
  lemma {:induction false} UnwindInverts(pool: PoolId, depth: nat, all: seq<Value>, values: seq<Value>,
          records: Insertions, k: nat)
    requires RecordsOf(pool, depth, all, values, records) && History(all) && History(all + values) && k <= |records|
    ensures Unwind(all + values[..k], records, k) == (all, true)
  {
    hide UndoAccepts, InsertionProofOf;
    if k == 0 {
      assert all + values[..0] == all;
    } else {
      var before, v := all + values[..k - 1], values[k - 1];
      assert all + values[..k] == before + [v];
      assert (before + [v])[..|before|] == before;
      PrefixOfHistory(all, values, k);
      PrefixOfHistory(all, values, k - 1);
      assert records[k - 1] == (v, InsertionProofOf(pool, depth, before, v));
      RecordUndoes(pool, depth, before, v);
      UnwindInverts(pool, depth, all, values, records, k - 1);
    }
  }

  /** Undoing a block's insertions pool by pool, last pool first, restores every history. */
  lemma {:induction false} UndoBlockInverts(depth: nat, before: Pools, pools: Pools, b: BlockSummary,
          delta: StateDelta, n: nat)
    requires n <= |ALL_POOLS| && PoolsOk(depth, before) && NullifiersNew(before, b)
    requires RecordsUpTo(depth, before, b, delta.insertions, |ALL_POOLS|) && GrownTo(before, pools, b, n)
    ensures UndoBlock(pools, delta, n) == (before, Ok(()))
  {
    hide RecordsOf, Unwind, History;
    if n == 0 {
      forall pool | pool in before
        ensures pools[pool] == before[pool]
      {
        var k := EveryPool(pool);
      }
      assert pools == before;
    } else {
      var pool := ALL_POOLS[n - 1];
      var values := b.NullifiersFor(pool);
      assert pools[pool] == before[pool] + values;
      assert before[pool] + [] == before[pool];
      DistinctRanks();
      if pool in delta.insertions {
        var records := delta.insertions[pool];
        assert RecordsOfPool(pool, depth, before[pool], b, records);
        assert values[..|values|] == values;
        UnwindInverts(pool, depth, before[pool], values, records, |records|);
      }
      UndoBlockInverts(depth, before, pools[pool := before[pool]], b, delta, n - 1);
      assert pool !in delta.insertions ==> pools[pool := before[pool]] == pools;
    }
  }

  /** One accepted block: state before, block, state after, undo record. */
  ghost predicate StepOk(s: ChainState, b: BlockSummary, after: ChainState, delta: StateDelta) {
    && PoolsOk(s.depth, s.pools)
    && var (next, r) := ApplyBlock(s, b, DEFAULT_OPTIONS);
       r.Ok? && after == next && delta == r.value.delta
  }

  /** All a rollback needs of an accepted block. */
  ghost predicate Undoable(s: ChainState, b: BlockSummary, after: ChainState, delta: StateDelta) {
    && after.depth == s.depth && after.tip == Some(b.height) && delta.height == b.height
    && InOrder(s.tip, b.height, true)
    && TransparentStep(s.forest, s.index, delta.spent, delta.created) == Ok((after.forest, after.index))
    && UndoBlock(after.pools, delta, |ALL_POOLS|) == (s.pools, Ok(()))
    && PoolsOk(after.depth, after.pools)
  }

  /** Every accepted block can be undone and replayed exactly from its delta. */
  lemma AcceptedIsUndoable(s: ChainState, b: BlockSummary, after: ChainState, delta: StateDelta)
    requires StepOk(s, b, after, delta)
    ensures Undoable(s, b, after, delta)
  {
    hide UndoBlock, TransparentStep, RecordsUpTo, Resolvable, HasRoom, IndexedSpends;
    AcceptedExactly(s, b, DEFAULT_OPTIONS);
    DeltaRecords(s, b, DEFAULT_OPTIONS);
    PoolsStayOk(s, b, DEFAULT_OPTIONS);
    FollowIsGrown(s.pools, after.pools, b);
    UndoBlockInverts(s.depth, s.pools, after.pools, b, delta, |ALL_POOLS|);
  }

  lemma FollowIsGrown(before: Pools, after: Pools, b: BlockSummary)
    requires PoolsFollow(before, after, b)
    ensures GrownTo(before, after, b, |ALL_POOLS|)
  {
  }
}
