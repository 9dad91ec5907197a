// The simple model of whole-chain state: unspent outpoints as a set, one naive
// nullifier model per pool. It shares no transition code with the bridge.
module NaiveChain {
  import opened Wrappers
  import opened Hashing
  import opened Merkle
  import opened LinkedSet
  import opened ImtProofs
  import opened Naive
  import opened Transparent
  import opened Chain

  datatype NaiveBlock = NaiveBlock(height: Height, spends: seq<OutPoint>, creates: seq<OutPoint>,
    nullifiers: seq<(PoolId, Value)>)

  datatype NaiveModel = NaiveModel(depth: nat, pools: Pools, utxos: set<OutPoint>, tip: Option<Height>,
    unknownSpends: nat)

  datatype NaiveApplyError =
    | NaiveUnknownOutpoint(height: Height, outpoint: OutPoint)
    | NaiveDuplicateSpend(height: Height, outpoint: OutPoint)
    | NaiveDuplicateNullifier(height: Height, pool: PoolId)
    | NaiveRefused(height: Height, pool: PoolId)

  /** The values tagged `pool` among the first `n` of a flat list, in order. */
  function Tagged(nullifiers: seq<(PoolId, Value)>, pool: PoolId, n: nat): seq<Value>
    requires n <= |nullifiers|
  {
    if n == 0 then []
    else if nullifiers[n - 1].0 == pool then Tagged(nullifiers, pool, n - 1) + [nullifiers[n - 1].1]
    else Tagged(nullifiers, pool, n - 1)
  }

  datatype NaiveResolved = NaiveResolved(resolved: set<OutPoint>, cancelled: set<OutPoint>, unknown: nat)

  function NaiveResolve(utxos: set<OutPoint>, b: NaiveBlock, allowUnknown: bool,
          n: nat): Result<NaiveResolved, NaiveApplyError>
    requires n <= |b.spends|
  {
    if n == 0 then Ok(NaiveResolved({}, {}, 0))
    else
      var prev := NaiveResolve(utxos, b, allowUnknown, n - 1);
      if prev.Err? then prev else NaiveResolveNext(utxos, b, allowUnknown, n - 1, prev.value)
  }

  function NaiveResolveNext(utxos: set<OutPoint>, b: NaiveBlock, allowUnknown: bool, k: nat,
          prev: NaiveResolved): Result<NaiveResolved, NaiveApplyError>
    requires k < |b.spends|
  {
    var o := b.spends[k];
    if o in b.spends[..k] then Err(NaiveDuplicateSpend(b.height, o))
    else if o in utxos then Ok(NaiveResolved(prev.resolved + {o}, prev.cancelled, prev.unknown))
    else if o in b.creates then Ok(NaiveResolved(prev.resolved, prev.cancelled + {o}, prev.unknown))
    else if allowUnknown then Ok(NaiveResolved(prev.resolved, prev.cancelled, prev.unknown + 1))
    else Err(NaiveUnknownOutpoint(b.height, o))
  }

  function NaiveStage(pools: Pools, b: NaiveBlock, n: nat): Result<(), NaiveApplyError>
    requires n <= |ALL_POOLS| && forall pool :: pool in pools
  {
    if n == 0 then Ok(())
    else
      var prev := NaiveStage(pools, b, n - 1);
      var pool := ALL_POOLS[n - 1];
      if prev.Err? then prev
      else if Clashes(pools[pool], Tagged(b.nullifiers, pool, |b.nullifiers|)) then
        Err(NaiveDuplicateNullifier(b.height, pool))
      else Ok(())
  }

  /** Inserting values one by one, stopping at the first the model refuses. */
  function NaiveInsert(depth: nat, all: seq<Value>, values: seq<Value>, n: nat): (seq<Value>, bool)
    requires n <= |values|
  {
    if n == 0 then (all, true)
    else
      var (grown, done) := NaiveInsert(depth, all, values, n - 1);
      if done && Insertable(depth, grown, values[n - 1]) then (grown + [values[n - 1]], true) else (grown, false)
  }

  function NaivePut(depth: nat, pools: Pools, b: NaiveBlock, n: nat): (r: (Pools, Result<(), NaiveApplyError>))
    requires n <= |ALL_POOLS| && forall pool :: pool in pools
    ensures forall pool :: pool in r.0
  {
    if n == 0 then (pools, Ok(()))
    else
      var (grown, done) := NaivePut(depth, pools, b, n - 1);
      if done.Err? then (grown, done)
      else
        var pool := ALL_POOLS[n - 1];
        var values := Tagged(b.nullifiers, pool, |b.nullifiers|);
        var (all, ok) := NaiveInsert(depth, grown[pool], values, |values|);
        (grown[pool := all], if ok then Ok(()) else Err(NaiveRefused(b.height, pool)))
  }

  /** The created outpoints, less the cancelled ones. */
  function NaiveCreated(creates: seq<OutPoint>, cancelled: set<OutPoint>): set<OutPoint> {
    set o | o in creates && o !in cancelled
  }

  /** The model and the verdict after applying a block, faults included. */
  function NaiveApply(n: NaiveModel, b: NaiveBlock, allowUnknown: bool): (NaiveModel, Result<(), NaiveApplyError>)
    requires forall pool :: pool in n.pools
  {
    var resolved := NaiveResolve(n.utxos, b, allowUnknown, |b.spends|);
    var staged := NaiveStage(n.pools, b, |ALL_POOLS|);
    if resolved.Err? then (n, Err(resolved.error))
    else if staged.Err? then (n, staged)
    else NaiveMutate(n, b, resolved.value)
  }

  function NaiveMutate(n: NaiveModel, b: NaiveBlock, resolved: NaiveResolved): (NaiveModel, Result<(), NaiveApplyError>)
    requires forall pool :: pool in n.pools
  {
    var utxos := n.utxos - resolved.resolved + NaiveCreated(b.creates, resolved.cancelled);
    var (pools, put) := NaivePut(n.depth, n.pools, b, |ALL_POOLS|);
    if put.Err? then (NaiveModel(n.depth, pools, utxos, n.tip, n.unknownSpends), put)
    else (NaiveModel(n.depth, pools, utxos, Some(b.height), n.unknownSpends + resolved.unknown), Ok(()))
  }

  /** The insertion history of a sound model. */
  ghost function NaiveHistory(model: NaiveImt): Option<seq<Value>>
    reads model
  {
    if model.Valid() then Some(model.Values()) else None
  }

  ghost predicate FreshModel(model: NaiveImt, pool: PoolId, depth: nat)
    reads model
  {
    model.Valid() && model.order == [] && model.pool == pool && model.depth == depth
  }

  lemma AllFresh(models: map<PoolId, NaiveImt>, depth: nat)
    requires Sprout in models && Sapling in models && Orchard in models && Ironwood in models
    requires FreshModel(models[Sprout], Sprout, depth) && FreshModel(models[Sapling], Sapling, depth)
    requires FreshModel(models[Orchard], Orchard, depth) && FreshModel(models[Ironwood], Ironwood, depth)
    ensures models.Keys == Genesis(depth).pools.Keys
    ensures forall pool: PoolId ::
      && pool in models && models[pool].pool == pool && models[pool].depth == depth
      && NaiveHistory(models[pool]) == Some(Genesis(depth).pools[pool])
  {
    EveryPoolModelled(models.Keys);
    assert [0] + [] == [0];
    forall pool: PoolId
      ensures FreshModel(models[pool], pool, depth) && Genesis(depth).pools[pool] == [0]
    {
      assert pool.Sprout? || pool.Sapling? || pool.Orchard? || pool.Ironwood?;
    }
  }

  lemma EveryPoolModelled(pools: set<PoolId>)
    requires Sprout in pools && Sapling in pools && Orchard in pools && Ironwood in pools
    ensures forall pool: PoolId :: pool in pools
  {
    forall pool: PoolId
      ensures pool in pools
    {
      assert pool.Sprout? || pool.Sapling? || pool.Orchard? || pool.Ironwood?;
    }
  }

  class NaiveState {
    const depth: nat
    var models: map<PoolId, NaiveImt>
    var utxos: set<OutPoint>
    var tip: Option<Height>
    var unknownSpends: nat
    ghost var pools: Pools

    ghost predicate ModelIs(pool: PoolId)
      requires pool in models && pool in pools
      reads this`models, this`pools, models[pool]
    {
      NaiveHistory(models[pool]) == Some(pools[pool]) && models[pool].pool == pool && models[pool].depth == depth
    }

    ghost predicate Valid()
      reads this`models, this`pools, models.Values
      ensures Valid() ==> forall pool :: pool in pools && pool in models
    {
      models.Keys == pools.Keys && (forall pool :: pool in models) && forall pool :: pool in models ==> ModelIs(pool)
    }

    ghost function Model(): NaiveModel
      reads this
    {
      NaiveModel(depth, pools, utxos, tip, unknownSpends)
    }

    /** A pool's root, recomputed from its values. */
    ghost function RootOf(pool: PoolId): Hash
      requires Valid()
      reads this, models.Values
    {
      Subtree(pool, LeavesOf(pools[pool]), depth, 0)
    }

    /** Every pool's from-scratch root. */
    method Roots() returns (roots: map<PoolId, Hash>)
      requires Valid()
      ensures forall pool :: pool in roots && roots[pool] == RootOf(pool)
    {
      hide NaiveImt.Valid;
      roots := map[];
      for n := 0 to |ALL_POOLS|
        invariant forall k :: 0 <= k < n ==> ALL_POOLS[k] in roots
        invariant forall pool :: pool in roots ==> roots[pool] == RootOf(pool)
      {
        assert ModelIs(ALL_POOLS[n]);
        var root := models[ALL_POOLS[n]].Root();
        roots := roots[ALL_POOLS[n] := root];
      }
      forall pool: PoolId
        ensures pool in roots
      {
        var k := EveryPool(pool);
      }
    }

    /** A model that has seen no block; depths the naive trees cannot hold are refused. */
    static method New(depth: nat) returns (r: Result<NaiveState, NaiveError>)
      ensures r.Ok? <==> 0 < depth <= MAX_NAIVE_DEPTH
      ensures r.Ok? ==> fresh(r.value) && r.value.Valid()
      ensures r.Ok? ==> r.value.Model() == NaiveModel(depth, Genesis(depth).pools, {}, None, 0)
    {
      if depth == 0 || depth > MAX_NAIVE_DEPTH {
        return Err(BadDepth(depth));
      }
      var state := new NaiveState.Empty(depth);
      return Ok(state);
    }

    constructor Empty(depth: nat)
      requires 0 < depth <= MAX_NAIVE_DEPTH
      ensures Valid() && Model() == NaiveModel(depth, Genesis(depth).pools, {}, None, 0)
    {
      hide NaiveImt.Valid;
      var sprout := new NaiveImt.Empty(Sprout, depth);
      var sapling := new NaiveImt.Empty(Sapling, depth);
      var orchard := new NaiveImt.Empty(Orchard, depth);
      var ironwood := new NaiveImt.Empty(Ironwood, depth);
      this.depth := depth;
      models := map[Sprout := sprout, Sapling := sapling, Orchard := orchard, Ironwood := ironwood];
      pools := Genesis(depth).pools;
      utxos, tip, unknownSpends := {}, None, 0;
      new;
      AllFresh(models, depth);
      hide NaiveHistory;
    }

    /** Applies one block: every check first, then outputs, then nullifiers pool by pool. */
    method Apply(b: NaiveBlock, allowUnknown: bool) returns (r: Result<(), NaiveApplyError>)
      requires Valid()
      modifies this`utxos, this`tip, this`unknownSpends, this`pools, models.Values
      ensures Valid()
      ensures (Model(), r) == NaiveApply(old(Model()), b, allowUnknown)
    {
      hide NaiveImt.Valid, ModelIs, NaiveResolve, NaiveStage, NaivePut;
      var resolved := ResolveAll(b, allowUnknown);
      if resolved.Err? {
        return Err(resolved.error);
      }
      var staged := StageAll(b);
      if staged.Err? {
        return staged;
      }
      r := ApplyStaged(b, resolved.value);
    }

    method ApplyStaged(b: NaiveBlock, resolved: NaiveResolved) returns (r: Result<(), NaiveApplyError>)
      requires Valid()
      modifies this`utxos, this`tip, this`unknownSpends, this`pools, models.Values
      ensures Valid()
      ensures (Model(), r) == NaiveMutate(old(Model()), b, resolved)
    {
      hide NaiveImt.Valid, ModelIs, NaivePut;
      utxos := utxos - resolved.resolved;
      utxos := utxos + NaiveCreated(b.creates, resolved.cancelled);
      var put := PutAll(b);
      if put.Err? {
        return put;
      }
      unknownSpends := unknownSpends + resolved.unknown;
      tip := Some(b.height);
      return Ok(());
    }

    method ResolveAll(b: NaiveBlock, allowUnknown: bool) returns (r: Result<NaiveResolved, NaiveApplyError>)
      ensures r == NaiveResolve(utxos, b, allowUnknown, |b.spends|)
    {
      var resolved, cancelled, unknown: nat := {}, {}, 0;
      var seen: set<OutPoint> := {};
      for k := 0 to |b.spends|
        invariant forall o :: o in seen <==> o in b.spends[..k]
        invariant NaiveResolve(utxos, b, allowUnknown, k) == Ok(NaiveResolved(resolved, cancelled, unknown))
      {
        var o := b.spends[k];
        if o in seen {
          NaiveRefusalStands(utxos, b, allowUnknown, k + 1);
          return Err(NaiveDuplicateSpend(b.height, o));
        }
        seen := seen + {o};
        assert b.spends[..k + 1] == b.spends[..k] + [o];
        if o in utxos {
          resolved := resolved + {o};
        } else if o in b.creates {
          cancelled := cancelled + {o};
        } else if allowUnknown {
          unknown := unknown + 1;
        } else {
          NaiveRefusalStands(utxos, b, allowUnknown, k + 1);
          return Err(NaiveUnknownOutpoint(b.height, o));
        }
      }
      return Ok(NaiveResolved(resolved, cancelled, unknown));
    }

    method StageAll(b: NaiveBlock) returns (r: Result<(), NaiveApplyError>)
      requires Valid()
      ensures r == NaiveStage(pools, b, |ALL_POOLS|)
    {
      hide NaiveImt.Valid, Clashes;
      for n := 0 to |ALL_POOLS|
        invariant NaiveStage(pools, b, n) == Ok(())
      {
        var pool := ALL_POOLS[n];
        assert ModelIs(pool);
        var clash := FindClash(models[pool], b.nullifiers, pool);
        if clash {
          NaiveStageStands(pools, b, n + 1);
          return Err(NaiveDuplicateNullifier(b.height, pool));
        }
      }
      return Ok(());
    }

    static method FindClash(model: NaiveImt, nullifiers: seq<(PoolId, Value)>, pool: PoolId) returns (clash: bool)
      requires model.Valid()
      ensures clash <==> Clashes(model.Values(), Tagged(nullifiers, pool, |nullifiers|))
    {
      ghost var all := model.Values();
      assert forall v :: model.Contains(v) <==> v in all by {
        assert forall v :: v in all <==> v == 0 || v in model.order;
      }
      hide NaiveImt.Valid, NaiveImt.Values, NaiveImt.Contains;
      var within: set<Value> := {};
      for k := 0 to |nullifiers|
        invariant forall v :: v in within <==> v in Tagged(nullifiers, pool, k)
        invariant !Clashes(all, Tagged(nullifiers, pool, k))
      {
        ghost var before := Tagged(nullifiers, pool, k);
        if nullifiers[k].0 == pool {
          var v := nullifiers[k].1;
          OneMore(all, before, v);
          if model.Contains(v) || v in within {
            ClashStands(all, nullifiers, pool, k + 1);
            return true;
          }
          within := within + {v};
        }
      }
      return false;
    }

    method PutAll(b: NaiveBlock) returns (r: Result<(), NaiveApplyError>)
      requires Valid()
      modifies this`pools, models.Values
      ensures Valid()
      ensures (pools, r) == NaivePut(depth, old(pools), b, |ALL_POOLS|)
    {
      hide NaiveImt.Valid, NaiveInsert, ModelIs, Tagged;
      for n := 0 to |ALL_POOLS|
        invariant Valid()
        invariant (pools, Ok(())) == NaivePut(depth, old(pools), b, n)
      {
        var pool := ALL_POOLS[n];
        var ok := PutOne(b, pool);
        if !ok {
          NaivePutStands(depth, old(pools), b, n + 1);
          return Err(NaiveRefused(b.height, pool));
        }
      }
      return Ok(());
    }

    method PutOne(b: NaiveBlock, pool: PoolId) returns (ok: bool)
      requires Valid()
      modifies this`pools, models[pool]
      ensures Valid()
      ensures var values := Tagged(b.nullifiers, pool, |b.nullifiers|);
        var put := NaiveInsert(depth, old(pools)[pool], values, |values|);
        (pools, ok) == (old(pools)[pool := put.0], put.1)
    {
      hide NaiveImt.Valid, NaiveInsert, Tagged;
      assert forall p :: p in models ==> ModelIs(p);
      var model := models[pool];
      ok := InsertTagged(model, b.nullifiers, pool);
      pools := pools[pool := model.Values()];
    }

    static method InsertTagged(model: NaiveImt, nullifiers: seq<(PoolId, Value)>, pool: PoolId) returns (ok: bool)
      requires model.Valid()
      modifies model
      ensures model.Valid()
      ensures var values := Tagged(nullifiers, pool, |nullifiers|);
        (model.Values(), ok) == NaiveInsert(model.depth, old(model.Values()), values, |values|)
    {
      hide NaiveImt.Valid;
      ghost var start := model.Values();
      for k := 0 to |nullifiers|
        invariant model.Valid()
        invariant var values := Tagged(nullifiers, pool, k);
          (model.Values(), true) == NaiveInsert(model.depth, start, values, |values|)
      {
        if nullifiers[k].0 == pool {
          ghost var before := Tagged(nullifiers, pool, k);
          InsertPrefix(model.depth, start, before, [nullifiers[k].1], |before|);
          ghost var grown := model.Values();
          var r := model.Insert(nullifiers[k].1);
          if r.Err? {
            InsertRefused(model.depth, start, nullifiers, pool, k + 1);
            return false;
          }
          assert model.Values() == grown + [nullifiers[k].1];
        }
      }
      return true;
    }
  }

  // ---- a refusal is never revised ----

  lemma {:induction false} NaiveRefusalStands(utxos: set<OutPoint>, b: NaiveBlock, allowUnknown: bool, k: nat)
    requires k <= |b.spends| && NaiveResolve(utxos, b, allowUnknown, k).Err?
    ensures NaiveResolve(utxos, b, allowUnknown, |b.spends|) == NaiveResolve(utxos, b, allowUnknown, k)
    decreases |b.spends| - k
  {
    if k < |b.spends| {
      NaiveRefusalStands(utxos, b, allowUnknown, k + 1);
    }
  }

  lemma {:induction false} NaiveStageStands(pools: Pools, b: NaiveBlock, n: nat)
    requires n <= |ALL_POOLS| && (forall pool :: pool in pools) && NaiveStage(pools, b, n).Err?
    ensures NaiveStage(pools, b, |ALL_POOLS|) == NaiveStage(pools, b, n)
    decreases |ALL_POOLS| - n
  {
    if n < |ALL_POOLS| {
      NaiveStageStands(pools, b, n + 1);
    }
  }

  lemma {:induction false} NaivePutStands(depth: nat, pools: Pools, b: NaiveBlock, n: nat)
    requires n <= |ALL_POOLS| && (forall pool :: pool in pools) && NaivePut(depth, pools, b, n).1.Err?
    ensures NaivePut(depth, pools, b, |ALL_POOLS|) == NaivePut(depth, pools, b, n)
    decreases |ALL_POOLS| - n
  {
    if n < |ALL_POOLS| {
      NaivePutStands(depth, pools, b, n + 1);
    }
  }

  lemma OneMore(all: seq<Value>, before: seq<Value>, v: Value)
    ensures Clashes(all, before + [v]) <==> Clashes(all, before) || v in all || v in before
  {
    var grown := before + [v];
    assert grown[..|before|] == before;
    assert forall i :: 0 <= i < |before| ==> grown[i] == before[i] && grown[..i] == before[..i];
    assert grown[|before|] == v;
    if Clashes(all, before) {
      var i :| 0 <= i < |before| && (before[i] in all || before[i] in before[..i]);
      assert grown[i] == before[i];
    }
  }

  lemma {:induction false} ClashStands(all: seq<Value>, nullifiers: seq<(PoolId, Value)>, pool: PoolId, k: nat)
    requires k <= |nullifiers| && Clashes(all, Tagged(nullifiers, pool, k))
    ensures Clashes(all, Tagged(nullifiers, pool, |nullifiers|))
    decreases |nullifiers| - k
  {
    hide Clashes;
    if k < |nullifiers| {
      OneMore(all, Tagged(nullifiers, pool, k), nullifiers[k].1);
      ClashStands(all, nullifiers, pool, k + 1);
    }
  }

  /** Only the first `n` values matter to the first `n` insertions. */
  lemma {:induction false} InsertPrefix(depth: nat, all: seq<Value>, values: seq<Value>, more: seq<Value>, n: nat)
    requires n <= |values|
    ensures NaiveInsert(depth, all, values + more, n) == NaiveInsert(depth, all, values, n)
  {
    if n > 0 {
      InsertPrefix(depth, all, values, more, n - 1);
    }
  }

  lemma {:induction false} InsertRefused(depth: nat, all: seq<Value>, nullifiers: seq<(PoolId, Value)>, pool: PoolId,
          k: nat)
    requires k <= |nullifiers|
    requires var values := Tagged(nullifiers, pool, k); !NaiveInsert(depth, all, values, |values|).1
    ensures var values, whole := Tagged(nullifiers, pool, k), Tagged(nullifiers, pool, |nullifiers|);
      NaiveInsert(depth, all, whole, |whole|) == NaiveInsert(depth, all, values, |values|)
    decreases |nullifiers| - k
  {
    if k < |nullifiers| {
      var values := Tagged(nullifiers, pool, k);
      InsertPrefix(depth, all, values, [nullifiers[k].1], |values|);
      InsertRefused(depth, all, nullifiers, pool, k + 1);
    }
  }
}
