// What the block transition accepts, what it does, and what a rejection leaves.
module ChainProofs {
  import opened Wrappers
  import opened Arith
  import opened Hashing
  import opened LinkedSet
  import opened ImtProofs
  import opened Imt
  import opened Transparent
  import opened Chain

  // ---- spends ----

  /** The first `n` spends are distinct, and each is indexed, created here, or tolerated. */
  ghost predicate Resolvable(index: Index, created: set<OutPoint>, spends: seq<OutPoint>, allowUnknown: bool, n: nat)
    requires n <= |spends|
  {
    && (forall i, j :: 0 <= i < j < n ==> spends[i] != spends[j])
    && (forall i :: 0 <= i < n ==> spends[i] in index || spends[i] in created || allowUnknown)
  }

  /** The indexed outputs among the first `n` spends, in spend order. */
  function IndexedSpends(index: Index, spends: seq<OutPoint>, n: nat): Outputs
    requires n <= |spends|
  {
    if n == 0 then []
    else if spends[n - 1] in index then IndexedSpends(index, spends, n - 1) + [(spends[n - 1], index[spends[n - 1]])]
    else IndexedSpends(index, spends, n - 1)
  }

  /** Outpoints among the first `n` spends that nobody knows. */
  function UnknownAmong(index: Index, created: set<OutPoint>, spends: seq<OutPoint>, n: nat): set<OutPoint>
    requires n <= |spends|
  {
    set o | o in spends[..n] && o !in index && o !in created
  }

  /** What staging knows after `n` spends: the cancelled ones are those only this block creates. */
  ghost predicate ResolvedMeans(index: Index, created: set<OutPoint>, spends: seq<OutPoint>, n: nat, r: Resolved)
    requires n <= |spends|
  {
    && r.spent == IndexedSpends(index, spends, n)
    && (forall o :: o in r.cancelled <==> o in spends[..n] && o !in index && o in created)
    && r.unknown == |UnknownAmong(index, created, spends, n)|
  }

  /** Spends are staged exactly when resolvable. */
  ghost predicate StagedAs(index: Index, created: set<OutPoint>, spends: seq<OutPoint>, allowUnknown: bool, n: nat,
          r: Result<Resolved, ApplyError>)
    requires n <= |spends|
  {
    && (r.Ok? <==> Resolvable(index, created, spends, allowUnknown, n))
    && (r.Ok? ==> ResolvedMeans(index, created, spends, n, r.value))
  }

  lemma ResolveNextMeans(index: Index, created: set<OutPoint>, height: Height, spends: seq<OutPoint>,
          allowUnknown: bool, k: nat, prev: Result<Resolved, ApplyError>)
    requires k < |spends| && StagedAs(index, created, spends, allowUnknown, k, prev)
    ensures StagedAs(index, created, spends, allowUnknown, k + 1,
      if prev.Ok? then ResolveNext(index, created, height, spends, allowUnknown, k, prev.value) else prev)
  {
    assert spends[..k + 1] == spends[..k] + [spends[k]];
    UnknownGrows(index, created, spends, k);
    ResolvableNext(index, created, spends, allowUnknown, k);
    hide UnknownAmong, Resolvable;
  }

  lemma ResolvableNext(index: Index, created: set<OutPoint>, spends: seq<OutPoint>, allowUnknown: bool, k: nat)
    requires k < |spends|
    ensures Resolvable(index, created, spends, allowUnknown, k + 1) <==>
      && Resolvable(index, created, spends, allowUnknown, k)
      && spends[k] !in spends[..k] && (spends[k] in index || spends[k] in created || allowUnknown)
  {
    assert spends[k] in spends[..k] <==> exists i :: 0 <= i < k && spends[i] == spends[k];
  }

  lemma UnknownGrows(index: Index, created: set<OutPoint>, spends: seq<OutPoint>, k: nat)
    requires k < |spends|
    ensures spends[k] in index || spends[k] in created || spends[k] in spends[..k] ==>
      UnknownAmong(index, created, spends, k + 1) == UnknownAmong(index, created, spends, k)
    ensures spends[k] !in index && spends[k] !in created && spends[k] !in spends[..k] ==>
      |UnknownAmong(index, created, spends, k + 1)| == |UnknownAmong(index, created, spends, k)| + 1
  {
    assert spends[..k + 1] == spends[..k] + [spends[k]];
    var before, after := UnknownAmong(index, created, spends, k), UnknownAmong(index, created, spends, k + 1);
    if spends[k] !in index && spends[k] !in created && spends[k] !in spends[..k] {
      assert after == before + {spends[k]};
    } else {
      assert after == before;
    }
  }

  /** Spends are staged exactly when resolvable, and then as `ResolvedMeans` says. */
  lemma {:induction false} ResolveMeaning(index: Index, created: set<OutPoint>, height: Height, spends: seq<OutPoint>,
          allowUnknown: bool, n: nat)
    requires n <= |spends|
    ensures StagedAs(index, created, spends, allowUnknown, n, Resolve(index, created, height, spends, allowUnknown, n))
  {
    if n > 0 {
      ResolveMeaning(index, created, height, spends, allowUnknown, n - 1);
      ResolveNextMeans(index, created, height, spends, allowUnknown, n - 1,
        Resolve(index, created, height, spends, allowUnknown, n - 1));
    }
  }

  lemma {:induction false} IndexedSpendsAreIndexed(index: Index, spends: seq<OutPoint>, n: nat)
    requires n <= |spends|
    ensures SpentFrom(index, IndexedSpends(index, spends, n))
    ensures forall o :: o in Outpoints(IndexedSpends(index, spends, n)) <==> o in spends[..n] && o in index
  {
    if n > 0 {
      IndexedSpendsAreIndexed(index, spends, n - 1);
      assert spends[..n] == spends[..n - 1] + [spends[n - 1]];
      var before, after := IndexedSpends(index, spends, n - 1), IndexedSpends(index, spends, n);
      if spends[n - 1] in index {
        var x := (spends[n - 1], index[spends[n - 1]]);
        assert after == before + [x];
        assert Outpoints(after) == Outpoints(before) + {x.0} by {
          assert x in after;
          assert forall y :: y in after <==> y in before || y == x;
        }
      }
    }
  }

  // ---- created outputs ----

  lemma {:induction false} SurvivingMeaning(creates: Outputs, cancelled: set<OutPoint>, n: nat)
    requires n <= |creates|
    ensures forall x :: x in SurvivingUpTo(creates, cancelled, n) <==> x in creates[..n] && x.0 !in cancelled
  {
    if n > 0 {
      SurvivingMeaning(creates, cancelled, n - 1);
      assert creates[..n] == creates[..n - 1] + [creates[n - 1]];
    }
  }

  lemma {:induction false} SurvivingWellFormed(creates: Outputs, cancelled: set<OutPoint>, n: nat)
    requires n <= |creates| && WellFormedOutputs(creates)
    ensures WellFormedOutputs(SurvivingUpTo(creates, cancelled, n))
    ensures forall x :: x in SurvivingUpTo(creates, cancelled, n) ==> exists i :: 0 <= i < n && creates[i] == x
  {
    if n > 0 {
      SurvivingWellFormed(creates, cancelled, n - 1);
      var before := SurvivingUpTo(creates, cancelled, n - 1);
      forall i | 0 <= i < |before|
        ensures before[i].0 != creates[n - 1].0
      {
        assert before[i] in before;
      }
    }
  }

  // ---- nullifiers ----

  /** The nullifier stage asks exactly for distinct nullifiers that the pool lacks. */
  lemma NoClashIsHistory(all: seq<Value>, nulls: seq<Value>)
    requires History(all)
    ensures !Clashes(all, nulls) <==> History(all + nulls)
  {
    var joined := all + nulls;
    if !Clashes(all, nulls) {
      forall i, j | 0 <= i < j < |joined|
        ensures joined[i] != joined[j]
      {
        if j >= |all| {
          var k := j - |all|;
          assert nulls[k] !in all && nulls[k] !in nulls[..k];
          assert i < |all| ==> joined[i] in all;
          assert i >= |all| ==> joined[i] in nulls[..k];
        }
      }
    }
    if History(joined) {
      forall k | 0 <= k < |nulls|
        ensures nulls[k] !in all && nulls[k] !in nulls[..k]
      {
        assert joined[|all| + k] == nulls[k];
        assert forall i :: 0 <= i < |all| ==> all[i] == joined[i];
        assert forall i :: 0 <= i < k ==> nulls[..k][i] == joined[|all| + i];
      }
    }
  }

  lemma {:induction false} StageMeaning(pools: Pools, b: BlockSummary, n: nat)
    requires n <= |ALL_POOLS| && Histories(pools) && (forall pool :: pool in pools)
    ensures StagePools(pools, b, n).Ok? <==> forall k :: 0 <= k < n ==>
      History(pools[ALL_POOLS[k]] + b.NullifiersFor(ALL_POOLS[k]))
  {
    if n > 0 {
      StageMeaning(pools, b, n - 1);
      var pool := ALL_POOLS[n - 1];
      NoClashIsHistory(pools[pool], b.NullifiersFor(pool));
      assert pools[pool] + [] == pools[pool];
    }
  }

  lemma PrefixOfHistory(all: seq<Value>, values: seq<Value>, n: nat)
    requires History(all) && History(all + values) && n <= |values|
    ensures History(all + values[..n])
    ensures n < |values| ==> values[n] != 0 && values[n] !in all + values[..n]
  {
    var joined, front := all + values, all + values[..n];
    assert forall i :: 0 <= i < |front| ==> front[i] == joined[i];
    if n < |values| {
      assert joined[|all| + n] == values[n];
      assert joined[0] == 0;
    }
  }

  /** Staged values go in one by one until the tree is full. */
  ghost predicate InsertedTo(depth: nat, all: seq<Value>, values: seq<Value>, n: nat,
          r: (seq<Value>, Result<Insertions, ImtError>))
    requires |all| <= Pow2(depth) && n <= |values|
  {
    var (grown, done) := r;
    && (done.Ok? <==> |all| + n <= Pow2(depth))
    && grown == all + values[..if |all| + n <= Pow2(depth) then n else Pow2(depth) - |all|]
    && (done.Err? ==> done == Err(CapacityExhausted(depth, Pow2(depth))))
    && (done.Ok? ==> |done.value| == n)
  }

  lemma InsertStep(pool: PoolId, depth: nat, all: seq<Value>, values: seq<Value>, n: nat, grown: seq<Value>,
          done: Insertions)
    requires ValidDepth(depth) && History(all) && |all| <= Pow2(depth) && History(all + values) && n < |values|
    requires InsertedTo(depth, all, values, n, (grown, Ok(done)))
    ensures History(grown)
    ensures var next := InsertResult(pool, depth, grown, values[n]);
      InsertedTo(depth, all, values, n + 1,
        if next.Ok? then (grown + [values[n]], Ok(done + [(values[n], next.value)])) else (grown, Err(next.error)))
  {
    hide InsertionProofOf;
    PrefixOfHistory(all, values, n);
    assert all + values[..n + 1] == all + values[..n] + [values[n]];
  }

  lemma {:induction false} InsertMeaning(pool: PoolId, depth: nat, all: seq<Value>, values: seq<Value>, n: nat)
    requires ValidDepth(depth) && History(all) && |all| <= Pow2(depth) && History(all + values) && n <= |values|
    ensures InsertedTo(depth, all, values, n, InsertUpTo(pool, depth, all, values, n))
  {
    if n == 0 {
      assert all + values[..0] == all;
    } else {
      InsertMeaning(pool, depth, all, values, n - 1);
      var (grown, done) := InsertUpTo(pool, depth, all, values, n - 1);
      if done.Ok? {
        InsertStep(pool, depth, all, values, n - 1, grown, done.value);
      }
    }
  }

  /** The last value to go in comes with the proof the tree gives at that point. */
  lemma LastInsertion(pool: PoolId, depth: nat, all: seq<Value>, values: seq<Value>, n: nat)
    requires ValidDepth(depth) && History(all) && History(all + values) && n < |values| && |all| + n < Pow2(depth)
    ensures History(all + values[..n])
    ensures var done := InsertUpTo(pool, depth, all, values, n).1;
      && done.Ok?
      && InsertUpTo(pool, depth, all, values, n + 1).1
           == Ok(done.value + [(values[n], InsertionProofOf(pool, depth, all + values[..n], values[n]))])
  {
    InsertMeaning(pool, depth, all, values, n);
    PrefixOfHistory(all, values, n);
  }

  /** Each insertion record is a value with the proof the tree gave just before taking it. */
  ghost predicate RecordsOf(pool: PoolId, depth: nat, all: seq<Value>, values: seq<Value>, done: Insertions) {
    && |done| <= |values|
    && forall k {:trigger done[k]} :: 0 <= k < |done| ==>
         History(all + values[..k]) && done[k] ==
           (values[k], InsertionProofOf(pool, depth, all + values[..k], values[k]))
  }

  lemma NoInsertion(pool: PoolId, depth: nat, all: seq<Value>, values: seq<Value>)
    requires History(all)
    ensures InsertUpTo(pool, depth, all, values, 0).1 == Ok([]) && RecordsOf(pool, depth, all, values, [])
  {
  }

  lemma {:induction false} InsertionsAre(pool: PoolId, depth: nat, all: seq<Value>, values: seq<Value>, n: nat,
          done: Insertions)
    requires ValidDepth(depth) && History(all) && History(all + values) && n <= |values| && |all| + n <= Pow2(depth)
    requires InsertUpTo(pool, depth, all, values, n).1 == Ok(done)
    ensures |done| == n && RecordsOf(pool, depth, all, values, done)
  {
    hide *;
    if n == 0 {
      NoInsertion(pool, depth, all, values);
    } else {
      LastInsertion(pool, depth, all, values, n - 1);
      var before := InsertUpTo(pool, depth, all, values, n - 1).1.value;
      InsertionsAre(pool, depth, all, values, n - 1, before);
      OneMoreRecord(pool, depth, all, values, before);
    }
  }

  lemma OneMoreRecord(pool: PoolId, depth: nat, all: seq<Value>, values: seq<Value>, done: Insertions)
    requires RecordsOf(pool, depth, all, values, done) && |done| < |values| && History(all + values[..|done|])
    ensures RecordsOf(pool, depth, all, values,
      done + [(values[|done|], InsertionProofOf(pool, depth, all + values[..|done|], values[|done|]))])
  {
    hide InsertionProofOf;
    var n := |done|;
    var record := (values[n], InsertionProofOf(pool, depth, all + values[..n], values[n]));
    forall k | 0 <= k <= n
      ensures History(all + values[..k])
      ensures (done + [record])[k] == (values[k], InsertionProofOf(pool, depth, all + values[..k], values[k]))
    {
      if k < n {
        assert done[k].0 == values[k];
      }
    }
  }

  /** The pool of rank `k` has room for the block's nullifiers. */
  predicate RoomAt(depth: nat, pools: Pools, b: BlockSummary, k: nat)
    requires k < |ALL_POOLS|
  {
    var pool := ALL_POOLS[k];
    pool in pools ==> |pools[pool]| + |b.NullifiersFor(pool)| <= Pow2(depth)
  }

  ghost predicate NullifiersNew(pools: Pools, b: BlockSummary) {
    forall pool :: pool in pools ==> History(pools[pool] + b.NullifiersFor(pool))
  }

  /** The pools after those of rank below `n` took their nullifiers. */
  ghost predicate GrownTo(before: Pools, after: Pools, b: BlockSummary, n: nat) {
    && after.Keys == before.Keys
    && forall k {:trigger ALL_POOLS[k]} :: 0 <= k < |ALL_POOLS| && ALL_POOLS[k] in before ==>
         var pool := ALL_POOLS[k];
         after[pool] == if k < n then before[pool] + b.NullifiersFor(pool) else before[pool]
  }

  /** The pools when rank `k` ran full: everything below went in, and `k` is filled to the brim. */
  ghost predicate FilledAt(depth: nat, before: Pools, after: Pools, b: BlockSummary, k: nat)
    requires k < |ALL_POOLS| && ALL_POOLS[k] in before
  {
    var pool := ALL_POOLS[k];
    && after.Keys == before.Keys
    && |before[pool]| <= Pow2(depth) && Pow2(depth) - |before[pool]| < |b.NullifiersFor(pool)|
    && after[pool] == before[pool] + b.NullifiersFor(pool)[..Pow2(depth) - |before[pool]|]
    && GrownTo(before, after[pool := before[pool]], b, k)
  }

  lemma PutPoolMeaning(depth: nat, before: Pools, pools: Pools, b: BlockSummary, k: nat, done: map<PoolId, Insertions>)
    requires k < |ALL_POOLS| && PoolsOk(depth, before) && NullifiersNew(before, b) && GrownTo(before, pools, b, k)
    requires Histories(pools)
    ensures var (grown, put) := PutPool(depth, pools, b, ALL_POOLS[k], done);
      && (put.Ok? <==> RoomAt(depth, before, b, k))
      && (put.Ok? ==> GrownTo(before, grown, b, k + 1))
      && (put.Err? ==>
           && put == Err(ApplyImt(CapacityExhausted(depth, Pow2(depth))))
           && FilledAt(depth, before, grown, b, k))
  {
    var pool := ALL_POOLS[k];
    var nulls := b.NullifiersFor(pool);
    assert pools[pool] == before[pool];
    InsertMeaning(pool, depth, before[pool], nulls, |nulls|);
    assert nulls[..|nulls|] == nulls;
    assert before[pool] + [] == before[pool];
    DistinctRanks();
  }

  lemma DistinctRanks()
    ensures forall i, j {:trigger ALL_POOLS[i], ALL_POOLS[j]} :: 0 <= i < j < |ALL_POOLS| ==>
      ALL_POOLS[i] != ALL_POOLS[j]
  {
  }

  /** Staged nullifiers go in pool by pool until one pool is full. */
  lemma {:induction false} PutMeaning(depth: nat, pools: Pools, b: BlockSummary, n: nat)
    requires n <= |ALL_POOLS| && PoolsOk(depth, pools) && NullifiersNew(pools, b)
    ensures var (grown, put) := PutPools(depth, pools, b, n);
      && (put.Ok? <==> forall k :: 0 <= k < n ==> RoomAt(depth, pools, b, k))
      && (put.Ok? ==> GrownTo(pools, grown, b, n))
      && (put.Err? ==>
           && put == Err(ApplyImt(CapacityExhausted(depth, Pow2(depth))))
           && exists k ::
                && 0 <= k < n && (forall j :: 0 <= j < k ==> RoomAt(depth, pools, b, j))
                && FilledAt(depth, pools, grown, b, k))
  {
    if n > 0 {
      PutMeaning(depth, pools, b, n - 1);
      var (grown, done) := PutPools(depth, pools, b, n - 1);
      if done.Ok? {
        PutPoolMeaning(depth, pools, grown, b, n - 1, done.value);
      }
    }
  }

  /** The delta records exactly the insertions of the pools of rank below `n` that had any. */
  ghost predicate RecordsUpTo(depth: nat, pools: Pools, b: BlockSummary, done: map<PoolId, Insertions>, n: nat) {
    forall k {:trigger ALL_POOLS[k]} :: 0 <= k < |ALL_POOLS| ==>
      var pool := ALL_POOLS[k];
      && (pool in done <==> k < n && b.NullifiersFor(pool) != [])
      && (pool in done ==> pool in pools && RecordsOfPool(pool, depth, pools[pool], b, done[pool]))
  }

  ghost predicate RecordsOfPool(pool: PoolId, depth: nat, all: seq<Value>, b: BlockSummary, done: Insertions) {
    |done| == |b.NullifiersFor(pool)| && RecordsOf(pool, depth, all, b.NullifiersFor(pool), done)
  }

  lemma PutPoolRecords(depth: nat, before: Pools, pools: Pools, b: BlockSummary, k: nat, done: map<PoolId, Insertions>)
    requires k < |ALL_POOLS| && PoolsOk(depth, before) && NullifiersNew(before, b) && GrownTo(before, pools, b, k)
    requires Histories(pools)
    requires RecordsUpTo(depth, before, b, done, k) && PutPool(depth, pools, b, ALL_POOLS[k], done).1.Ok?
    ensures RecordsUpTo(depth, before, b, PutPool(depth, pools, b, ALL_POOLS[k], done).1.value, k + 1)
  {
    hide RecordsOf, InsertionProofOf;
    var pool := ALL_POOLS[k];
    var nulls := b.NullifiersFor(pool);
    assert pools[pool] == before[pool];
    DistinctRanks();
    if nulls != [] {
      InsertMeaning(pool, depth, before[pool], nulls, |nulls|);
      InsertionsAre(pool, depth, before[pool], nulls, |nulls|,
        InsertUpTo(pool, depth, before[pool], nulls, |nulls|).1.value);
    }
  }

  lemma {:induction false} PutRecords(depth: nat, pools: Pools, b: BlockSummary, n: nat)
    requires n <= |ALL_POOLS| && PoolsOk(depth, pools) && NullifiersNew(pools, b) && PutPools(depth, pools, b, n).1.Ok?
    ensures RecordsUpTo(depth, pools, b, PutPools(depth, pools, b, n).1.value, n)
  {
    hide RecordsOfPool, PutPool;
    if n > 0 {
      PutRecords(depth, pools, b, n - 1);
      PutMeaning(depth, pools, b, n - 1);
      var (grown, done) := PutPools(depth, pools, b, n - 1);
      PutPoolRecords(depth, pools, grown, b, n - 1, done.value);
    }
  }
}
