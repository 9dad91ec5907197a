// The bridge's whole state, and the deterministic block transition on it.
module Chain {
  import opened Wrappers
  import opened Arith
  import opened Hashing
  import opened LinkedSet
  import opened ImtProofs
  import opened Imt
  import opened Transparent

  const MAX_HEIGHT: nat := 0xFFFF_FFFF

  type Height = h: nat | h <= MAX_HEIGHT

  /** Heights are 32-bit and saturate. */
  function NextHeight(h: Height): Height {
    if h == MAX_HEIGHT then h else h + 1
  }

  datatype BlockSummary = BlockSummary(
    height: Height,
    spends: seq<OutPoint>,
    creates: Outputs,
    nullifiers: map<PoolId, seq<Value>>,
    commitments: map<PoolId, nat>)
  {
    function NullifiersFor(pool: PoolId): seq<Value> {
      if pool in nullifiers then nullifiers[pool] else []
    }

    function Created(): set<OutPoint> {
      Outpoints(creates)
    }
  }

  type Pools = map<PoolId, seq<Value>>

  /** What a bridge holds, each tree given by its insertion history. */
  datatype ChainState = ChainState(depth: nat, pools: Pools, forest: Forest, index: Index, tip: Option<Height>)

  type Insertions = seq<(Value, InsertionProof)>

  /** Everything kept to undo one block. */
  datatype StateDelta = StateDelta(
    height: Height,
    spent: Outputs,
    created: Outputs,
    insertions: map<PoolId, Insertions>,
    commitments: map<PoolId, nat>)

  datatype ApplyError =
    | UnknownOutpoint(height: Height, outpoint: OutPoint)
    | DuplicateSpend(height: Height, outpoint: OutPoint)
    | DuplicateNullifier(height: Height, pool: PoolId)
    | MissingPool(pool: PoolId)
    | OutOfOrder(expected: Height, found: Height)
    | ApplyImt(imt: ImtError)
    | ApplyUtreexo(utreexo: UtreexoError)

  datatype ApplyOptions = ApplyOptions(allowUnknownSpends: bool, enforceContiguous: bool)

  const DEFAULT_OPTIONS: ApplyOptions := ApplyOptions(false, true)

  datatype ApplyOutcome = ApplyOutcome(delta: StateDelta, unknownSpends: nat)

  /** Every pool has a tree that some insertion history fits. */
  ghost predicate PoolsOk(depth: nat, pools: Pools) {
    && ValidDepth(depth)
    && (forall pool :: pool in pools)
    && (forall pool :: pool in pools ==> History(pools[pool]) && |pools[pool]| <= Pow2(depth))
  }

  // ---- staging ----

  /** How a block's spends resolve: real deletions, cancelled pairs, and unknown ones. */
  datatype Resolved = Resolved(spent: Outputs, cancelled: set<OutPoint>, unknown: nat)

  predicate InOrder(tip: Option<Height>, height: Height, contiguous: bool) {
    contiguous && tip.Some? ==> height == NextHeight(tip.value)
  }

  /** Resolves the first `n` spends of a block at `height` that creates `created`. */
  function Resolve(index: Index, created: set<OutPoint>, height: Height, spends: seq<OutPoint>, allowUnknown: bool,
          n: nat): Result<Resolved, ApplyError>
    requires n <= |spends|
  {
    if n == 0 then Ok(Resolved([], {}, 0))
    else
      var prev := Resolve(index, created, height, spends, allowUnknown, n - 1);
      if prev.Err? then prev else ResolveNext(index, created, height, spends, allowUnknown, n - 1, prev.value)
  }

  function ResolveNext(index: Index, created: set<OutPoint>, height: Height, spends: seq<OutPoint>,
          allowUnknown: bool, k: nat, prev: Resolved): Result<Resolved, ApplyError>
    requires k < |spends|
  {
    var o := spends[k];
    if o in spends[..k] then Err(DuplicateSpend(height, o))
    else if o in index then Ok(Resolved(prev.spent + [(o, index[o])], prev.cancelled, prev.unknown))
    else if o in created then Ok(Resolved(prev.spent, prev.cancelled + {o}, prev.unknown))
    else if allowUnknown then Ok(Resolved(prev.spent, prev.cancelled, prev.unknown + 1))
    else Err(UnknownOutpoint(height, o))
  }

  /** Some value is in the pool's history, or comes earlier in the block. */
  predicate Clashes(all: seq<Value>, nulls: seq<Value>) {
    exists i {:trigger nulls[i]} :: 0 <= i < |nulls| && (nulls[i] in all || nulls[i] in nulls[..i])
  }

  /** The nullifier checks of the first `n` pools. */
  function StagePools(pools: Pools, b: BlockSummary, n: nat): Result<(), ApplyError>
    requires n <= |ALL_POOLS|
  {
    if n == 0 then Ok(())
    else
      var _ :- StagePools(pools, b, n - 1);
      var pool := ALL_POOLS[n - 1];
      var nulls := b.NullifiersFor(pool);
      if nulls == [] then Ok(())
      else if pool !in pools then Err(MissingPool(pool))
      else if Clashes(pools[pool], nulls) then Err(DuplicateNullifier(b.height, pool))
      else Ok(())
  }

  // ---- mutation ----

  /** The first `n` created outputs, less the cancelled ones. */
  function SurvivingUpTo(creates: Outputs, cancelled: set<OutPoint>, n: nat): Outputs
    requires n <= |creates|
  {
    if n == 0 then []
    else if creates[n - 1].0 in cancelled then SurvivingUpTo(creates, cancelled, n - 1)
    else SurvivingUpTo(creates, cancelled, n - 1) + [creates[n - 1]]
  }

  function Surviving(creates: Outputs, cancelled: set<OutPoint>): Outputs {
    SurvivingUpTo(creates, cancelled, |creates|)
  }

  /** Inserting the first `n` values in order, stopping at the first refusal. */
  function InsertUpTo(pool: PoolId, depth: nat, all: seq<Value>, values: seq<Value>,
          n: nat): (r: (seq<Value>, Result<Insertions, ImtError>))
    requires n <= |values| && History(all)
    ensures History(r.0)
  {
    if n == 0 then (all, Ok([]))
    else
      var (grown, done) := InsertUpTo(pool, depth, all, values, n - 1);
      if done.Err? then (grown, done)
      else
        var v := values[n - 1];
        var next := InsertResult(pool, depth, grown, v);
        if next.Err? then (grown, Err(next.error))
        else (SpliceIsExact(grown, v); (grown + [v], Ok(done.value + [(v, next.value)])))
  }

  ghost predicate Histories(pools: Pools) {
    forall pool :: pool in pools ==> History(pools[pool])
  }

  /** Inserting the nullifiers of the first `n` pools. */
  function PutPools(depth: nat, pools: Pools, b: BlockSummary,
          n: nat): (r: (Pools, Result<map<PoolId, Insertions>, ApplyError>))
    requires n <= |ALL_POOLS| && Histories(pools)
    ensures Histories(r.0)
  {
    if n == 0 then (pools, Ok(map[]))
    else
      var (grown, done) := PutPools(depth, pools, b, n - 1);
      if done.Err? then (grown, done)
      else PutPool(depth, grown, b, ALL_POOLS[n - 1], done.value)
  }

  function PutPool(depth: nat, pools: Pools, b: BlockSummary, pool: PoolId,
          done: map<PoolId, Insertions>): (r: (Pools, Result<map<PoolId, Insertions>, ApplyError>))
    requires Histories(pools)
    ensures Histories(r.0)
  {
    var nulls := b.NullifiersFor(pool);
    if nulls == [] then (pools, Ok(done))
    else if pool !in pools then (pools, Err(MissingPool(pool)))
    else
      var (all, inserted) := InsertUpTo(pool, depth, pools[pool], nulls, |nulls|);
      (pools[pool := all], if inserted.Err? then Err(ApplyImt(inserted.error)) else Ok(done[pool := inserted.value]))
  }

  /** The state and the verdict after `apply_block`, faults included. */
  function ApplyBlock(s: ChainState, b: BlockSummary,
          options: ApplyOptions): (r: (ChainState, Result<ApplyOutcome, ApplyError>))
    requires Histories(s.pools)
    ensures Histories(r.0.pools)
  {
    if !InOrder(s.tip, b.height, options.enforceContiguous) then (s, Err(OutOfOrder(NextHeight(s.tip.value), b.height)))
    else
      var resolved := Resolve(s.index, b.Created(), b.height, b.spends, options.allowUnknownSpends, |b.spends|);
      var staged := StagePools(s.pools, b, |ALL_POOLS|);
      if resolved.Err? then (s, Err(resolved.error))
      else if staged.Err? then (s, Err(staged.error))
      else Mutate(s, b, resolved.value)
  }

  function Mutate(s: ChainState, b: BlockSummary,
          resolved: Resolved): (r: (ChainState, Result<ApplyOutcome, ApplyError>))
    requires Histories(s.pools)
    ensures Histories(r.0.pools)
  {
    var surviving := Surviving(b.creates, resolved.cancelled);
    var step := TransparentStep(s.forest, s.index, resolved.spent, surviving);
    if step.Err? then (s, Err(ApplyUtreexo(step.error)))
    else
      var (pools, put) := PutPools(s.depth, s.pools, b, |ALL_POOLS|);
      if put.Err? then (ChainState(s.depth, pools, step.value.0, step.value.1, s.tip), Err(put.error))
      else
        var delta := StateDelta(b.height, resolved.spent, surviving, put.value, b.commitments);
        (ChainState(s.depth, pools, step.value.0, step.value.1, Some(b.height)),
          Ok(ApplyOutcome(delta, resolved.unknown)))
  }

  /** The state before any block. */
  function Genesis(depth: nat): ChainState {
    ChainState(depth, map[Sprout := [0], Sapling := [0], Orchard := [0], Ironwood := [0]], [], map[], None)
  }
}
