// The bridge's accumulators as objects: one tree per pool, the forest, the
// outpoint index and the tip, all updated in place.
module Accumulators {
  import opened Wrappers
  import opened Hashing
  import opened LinkedSet
  import opened ImtProofs
  import opened Imt
  import opened Transparent
  import opened Chain

  /** The insertion history of a sound tree. */
  ghost function HistoryOf(tree: IndexedMerkleTree): Option<seq<Value>>
    reads tree
  {
    if tree.Valid() then Some(tree.Values()) else None
  }

  lemma PlantedAll(pools: Pools)
    requires forall k :: 0 <= k < |ALL_POOLS| ==> ALL_POOLS[k] in pools
    requires forall pool :: pool in pools ==> pools[pool] == [0]
    ensures forall depth: nat {:trigger Genesis(depth)} :: pools == Genesis(depth).pools
  {
    var start := Genesis(0).pools;
    forall pool: PoolId
      ensures pool in pools && pool in start && start[pool] == [0]
    {
      var k := EveryPool(pool);
    }
    assert pools == start;
  }

  class ChainAccumulators {
    const depth: nat
    var trees: map<PoolId, IndexedMerkleTree>
    var forest: Forest
    var index: Index
    var tip: Option<Height>

    /** The trees' insertion histories. */
    ghost var pools: Pools

    ghost predicate TreeIs(pool: PoolId)
      requires pool in trees && pool in pools
      reads this`trees, this`pools, trees[pool]
    {
      var tree := trees[pool];
      HistoryOf(tree) == Some(pools[pool]) && tree.pool == pool && tree.depth == depth
    }

    /** Each pool's tree is that pool's, sound, and of the common depth. */
    ghost predicate Valid()
      reads this`trees, this`pools, trees.Values
      ensures Valid() ==> Histories(pools)
    {
      ValidDepth(depth) && trees.Keys == pools.Keys && forall pool :: pool in trees ==> TreeIs(pool)
    }

    ghost function Model(): ChainState
      reads this
    {
      ChainState(depth, pools, forest, index, tip)
    }

    /** Starts from nothing but sentinels: a tree for each pool, an empty forest and index. */
    constructor (depth: nat)
      requires ValidDepth(depth)
      ensures Valid() && Model() == Genesis(depth) && fresh(trees.Values)
    {
      hide IndexedMerkleTree.Valid;
      this.depth := depth;
      trees, pools := map[], map[];
      forest, index, tip := [], map[], None;
      new;
      for n := 0 to |ALL_POOLS|
        invariant Valid() && fresh(trees.Values)
        invariant forest == [] && index == map[] && tip == None
        invariant forall k :: 0 <= k < n ==> ALL_POOLS[k] in pools
        invariant forall pool :: pool in pools ==> pools[pool] == [0]
      {
        Plant(ALL_POOLS[n]);
      }
      PlantedAll(pools);
    }

    static method New(depth: nat) returns (r: Result<ChainAccumulators, ImtError>)
      ensures r.Ok? <==> ValidDepth(depth)
      ensures r.Err? ==> r == Err(InvalidDepth(depth))
      ensures r.Ok? ==> fresh(r.value) && r.value.Valid() && r.value.Model() == Genesis(depth)
    {
      hide ChainAccumulators.Valid;
      if !ValidDepth(depth) {
        return Err(InvalidDepth(depth));
      }
      var state := new ChainAccumulators(depth);
      return Ok(state);
    }

    /** Gives a pool its empty tree. */
    method Plant(pool: PoolId)
      requires Valid()
      modifies this`trees, this`pools
      ensures Valid() && fresh(trees.Values - old(trees.Values))
      ensures pools == old(pools)[pool := [0]]
    {
      hide IndexedMerkleTree.Valid;
      assert forall p :: p in trees ==> TreeIs(p);
      var tree := new IndexedMerkleTree.WithDepth(pool, depth);
      trees, pools := trees[pool := tree], pools[pool := [0]];
      assert TreeIs(pool);
    }

    /** Puts a rebuilt tree in its pool's place. */
    method ReplaceTree(tree: IndexedMerkleTree)
      requires Valid() && tree.Valid() && tree.depth == depth
      modifies this`trees, this`pools
      ensures Valid() && trees == old(trees)[tree.pool := tree]
      ensures pools == old(pools)[tree.pool := tree.Values()]
    {
      hide IndexedMerkleTree.Valid;
      assert forall p :: p in trees ==> TreeIs(p);
      trees, pools := trees[tree.pool := tree], pools[tree.pool := tree.Values()];
      assert TreeIs(tree.pool);
    }

    /** Takes a block, stage by stage; see `ApplyBlock` for what it leaves. */
    method Apply(b: BlockSummary, options: ApplyOptions) returns (r: Result<ApplyOutcome, ApplyError>)
      requires Valid()
      modifies this`forest, this`index, this`pools, this`tip, trees.Values
      ensures Valid()
      ensures (Model(), r) == ApplyBlock(old(Model()), b, options)
    {
      if options.enforceContiguous && tip.Some? && b.height != NextHeight(tip.value) {
        return Err(OutOfOrder(NextHeight(tip.value), b.height));
      }
      var resolved := ResolveSpends(b, options);
      if resolved.Err? {
        return Err(resolved.error);
      }
      var staged := StageNullifiers(b);
      if staged.Err? {
        return Err(staged.error);
      }
      r := ApplyStaged(b, resolved.value);
    }

    /** The mutating half of a block: outputs, then nullifiers, then the tip. */
    method ApplyStaged(b: BlockSummary, resolved: Resolved) returns (r: Result<ApplyOutcome, ApplyError>)
      requires Valid()
      modifies this`forest, this`index, this`pools, this`tip, trees.Values
      ensures Valid()
      ensures (Model(), r) == Mutate(old(Model()), b, resolved)
    {
      hide TransparentStep, PutPools, Surviving, IndexedMerkleTree.Valid;
      var surviving := SurvivingOutputs(b.creates, resolved.cancelled);
      var moved := MoveOutputs(resolved.spent, surviving);
      if moved.Err? {
        return Err(ApplyUtreexo(moved.error));
      }
      var put := PutNullifiers(b);
      if put.Err? {
        return Err(put.error);
      }
      tip := Some(b.height);
      return Ok(ApplyOutcome(StateDelta(b.height, resolved.spent, surviving, put.value, b.commitments),
        resolved.unknown));
    }

    /** Sorts the block's spends into deletions, cancelled pairs and unknown ones. */
    method ResolveSpends(b: BlockSummary, options: ApplyOptions) returns (r: Result<Resolved, ApplyError>)
      ensures r == Resolve(index, b.Created(), b.height, b.spends, options.allowUnknownSpends, |b.spends|)
    {
      var created := b.Created();
      var resolved := Resolved([], {}, 0);
      var seen: set<OutPoint> := {};
      for k := 0 to |b.spends|
        invariant forall o :: o in seen <==> o in b.spends[..k]
        invariant Resolve(index, created, b.height, b.spends, options.allowUnknownSpends, k) == Ok(resolved)
      {
        var o := b.spends[k];
        var next := NextSpend(b, created, options, k, seen, resolved);
        if next.Err? {
          RefusalStands(created, b, options.allowUnknownSpends, k + 1);
          return next;
        }
        resolved := next.value;
        seen := seen + {o};
        assert b.spends[..k + 1] == b.spends[..k] + [o];
      }
      return Ok(resolved);
    }

    method NextSpend(b: BlockSummary, created: set<OutPoint>, options: ApplyOptions, k: nat, seen: set<OutPoint>,
            resolved: Resolved) returns (r: Result<Resolved, ApplyError>)
      requires k < |b.spends| && forall o :: o in seen <==> o in b.spends[..k]
      ensures r == ResolveNext(index, created, b.height, b.spends, options.allowUnknownSpends, k, resolved)
    {
      var o := b.spends[k];
      if o in seen {
        return Err(DuplicateSpend(b.height, o));
      }
      if o in index {
        return Ok(Resolved(resolved.spent + [(o, index[o])], resolved.cancelled, resolved.unknown));
      } else if o in created {
        return Ok(Resolved(resolved.spent, resolved.cancelled + {o}, resolved.unknown));
      } else if options.allowUnknownSpends {
        return Ok(Resolved(resolved.spent, resolved.cancelled, resolved.unknown + 1));
      }
      return Err(UnknownOutpoint(b.height, o));
    }

    /** A refusal is never revised by later spends. */
    lemma {:induction false} RefusalStands(created: set<OutPoint>, b: BlockSummary, allowUnknown: bool, k: nat)
      requires k <= |b.spends| && Resolve(index, created, b.height, b.spends, allowUnknown, k).Err?
      ensures Resolve(index, created, b.height, b.spends, allowUnknown, |b.spends|) ==
        Resolve(index, created, b.height, b.spends, allowUnknown, k)
      decreases |b.spends| - k
    {
      if k < |b.spends| {
        RefusalStands(created, b, allowUnknown, k + 1);
      }
    }

    /** Checks every nullifier absent before any is inserted. */
    method StageNullifiers(b: BlockSummary) returns (r: Result<(), ApplyError>)
      requires Valid()
      ensures r == StagePools(pools, b, |ALL_POOLS|)
    {
      for n := 0 to |ALL_POOLS|
        invariant StagePools(pools, b, n) == Ok(())
      {
        var pool := ALL_POOLS[n];
        var nulls := b.NullifiersFor(pool);
        if nulls != [] {
          if pool !in trees {
            StageRefusalStands(pools, b, n + 1);
            return Err(MissingPool(pool));
          }
          assert TreeIs(pool);
          var clash := FindClash(trees[pool], nulls);
          if clash {
            StageRefusalStands(pools, b, n + 1);
            return Err(DuplicateNullifier(b.height, pool));
          }
        }
      }
      return Ok(());
    }

    lemma {:induction false} StageRefusalStands(pools: Pools, b: BlockSummary, n: nat)
      requires n <= |ALL_POOLS| && StagePools(pools, b, n).Err?
      ensures StagePools(pools, b, |ALL_POOLS|) == StagePools(pools, b, n)
      decreases |ALL_POOLS| - n
    {
      if n < |ALL_POOLS| {
        StageRefusalStands(pools, b, n + 1);
      }
    }

    static method FindClash(tree: IndexedMerkleTree, nulls: seq<Value>) returns (clash: bool)
      requires tree.Valid()
      ensures clash <==> Clashes(tree.Values(), nulls)
    {
      ghost var all := tree.Values();
      assert forall v :: tree.Contains(v) <==> v in all;
      hide IndexedMerkleTree.Valid, IndexedMerkleTree.Values;
      var within: set<Value> := {};
      for k := 0 to |nulls|
        invariant forall v :: v in within <==> v in nulls[..k]
        invariant forall i {:trigger nulls[i]} :: 0 <= i < k ==> nulls[i] !in all && nulls[i] !in nulls[..i]
      {
        if tree.Contains(nulls[k]) || nulls[k] in within {
          return true;
        }
        within := within + {nulls[k]};
        assert nulls[..k + 1] == nulls[..k] + [nulls[k]];
      }
      return false;
    }

    static method SurvivingOutputs(creates: Outputs, cancelled: set<OutPoint>) returns (kept: Outputs)
      ensures kept == Surviving(creates, cancelled)
    {
      kept := [];
      for n := 0 to |creates|
        invariant kept == SurvivingUpTo(creates, cancelled, n)
      {
        if creates[n].0 !in cancelled {
          kept := kept + [creates[n]];
        }
      }
    }

    /** Deletes spent outputs, then adds created ones, in forest and index alike. */
    method MoveOutputs(spent: Outputs, created: Outputs) returns (r: Result<(), UtreexoError>)
      requires Valid()
      modifies this`forest, this`index
      ensures Valid()
      ensures var step := TransparentStep(old(forest), old(index), spent, created);
        if step.Ok? then r == Ok(()) && (forest, index) == step.value
        else r == Err(step.error) && forest == old(forest) && index == old(index)
    {
      if spent != [] {
        var deleted := Delete(forest, Digests(spent));
        if deleted.Err? {
          return Err(deleted.error);
        }
        forest := deleted.value;
      }
      for k := 0 to |spent|
        modifies this`index
        invariant index == old(index) - Outpoints(spent[..k])
      {
        index := index - {spent[k].0};
        OutpointsGrow(spent, k);
      }
      assert spent[..|spent|] == spent;
      if created != [] {
        forest := Transparent.Append(forest, Digests(created));
      }
      ghost var emptied := index;
      for k := 0 to |created|
        modifies this`index
        invariant index == Recorded(emptied, created, k)
      {
        index := index[created[k].0 := created[k].1];
      }
      return Ok(());
    }

    lemma OutpointsGrow(spent: Outputs, k: nat)
      requires k < |spent|
      ensures Outpoints(spent[..k + 1]) == Outpoints(spent[..k]) + {spent[k].0}
    {
      assert spent[..k + 1] == spent[..k] + [spent[k]];
      forall o | o in Outpoints(spent[..k]) + {spent[k].0}
        ensures o in Outpoints(spent[..k + 1])
      {
        assert spent[k] in spent[..k + 1];
      }
    }

    /** Inserts every pool's nullifiers in block order, stopping at the first refusal. */
    method PutNullifiers(b: BlockSummary) returns (r: Result<map<PoolId, Insertions>, ApplyError>)
      requires Valid()
      modifies this`pools, trees.Values
      ensures Valid()
      ensures (pools, r) == PutPools(depth, old(pools), b, |ALL_POOLS|)
    {
      hide TreeIs, PutPool;
      var done: map<PoolId, Insertions> := map[];
      for n := 0 to |ALL_POOLS|
        invariant Valid()
        invariant (pools, Ok(done)) == PutPools(depth, old(pools), b, n)
      {
        var put := PutOnePool(b, ALL_POOLS[n], done);
        if put.Err? {
          PutRefusalStands(depth, old(pools), b, n + 1);
          return put;
        }
        done := put.value;
      }
      return Ok(done);
    }

    lemma {:induction false} PutRefusalStands(depth: nat, pools: Pools, b: BlockSummary, n: nat)
      requires n <= |ALL_POOLS| && Histories(pools) && PutPools(depth, pools, b, n).1.Err?
      ensures PutPools(depth, pools, b, |ALL_POOLS|) == PutPools(depth, pools, b, n)
      decreases |ALL_POOLS| - n
    {
      if n < |ALL_POOLS| {
        PutRefusalStands(depth, pools, b, n + 1);
      }
    }

    method PutOnePool(b: BlockSummary, pool: PoolId,
            done: map<PoolId, Insertions>) returns (r: Result<map<PoolId, Insertions>, ApplyError>)
      requires Valid()
      modifies this`pools, trees.Values
      ensures Valid()
      ensures (pools, r) == PutPool(depth, old(pools), b, pool, done)
    {
      var nulls := b.NullifiersFor(pool);
      if nulls == [] {
        return Ok(done);
      }
      if pool !in trees {
        return Err(MissingPool(pool));
      }
      var inserted := InsertInto(pool, nulls);
      if inserted.Err? {
        return Err(ApplyImt(inserted.error));
      }
      return Ok(done[pool := inserted.value]);
    }

    method InsertInto(pool: PoolId, nulls: seq<Value>) returns (r: Result<Insertions, ImtError>)
      requires Valid() && pool in trees
      modifies this`pools, trees[pool]
      ensures Valid()
      ensures var inserted := InsertUpTo(pool, depth, old(pools)[pool], nulls, |nulls|);
        (pools, r) == (old(pools)[pool := inserted.0], inserted.1)
    {
      hide InsertUpTo, IndexedMerkleTree.Valid;
      assert forall p :: p in trees ==> TreeIs(p);
      var tree := trees[pool];
      r := InsertAll(tree, nulls);
      pools := pools[pool := tree.Values()];
    }

    static method InsertAll(tree: IndexedMerkleTree, values: seq<Value>) returns (r: Result<Insertions, ImtError>)
      requires tree.Valid()
      modifies tree
      ensures tree.Valid()
      ensures (tree.Values(), r) == InsertUpTo(tree.pool, tree.depth, old(tree.Values()), values, |values|)
    {
      var done: Insertions := [];
      ghost var start := tree.Values();
      for n := 0 to |values|
        invariant tree.Valid()
        invariant InsertUpTo(tree.pool, tree.depth, start, values, n) == (tree.Values(), Ok(done))
      {
        var next := tree.Insert(values[n]);
        if next.Err? {
          InsertRefusalStands(tree.pool, tree.depth, start, values, n + 1);
          return Err(next.error);
        }
        done := done + [(values[n], next.value)];
      }
      return Ok(done);
    }

    static lemma {:induction false} InsertRefusalStands(pool: PoolId, depth: nat, all: seq<Value>, values: seq<Value>,
            n: nat)
      requires n <= |values| && History(all) && InsertUpTo(pool, depth, all, values, n).1.Err?
      ensures InsertUpTo(pool, depth, all, values, |values|) == InsertUpTo(pool, depth, all, values, n)
      decreases |values| - n
    {
      if n < |values| {
        InsertRefusalStands(pool, depth, all, values, n + 1);
      }
    }
  }
}
