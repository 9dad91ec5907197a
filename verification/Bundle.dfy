// Blocks served together with their proofs.
module Bundle {
  import opened Wrappers
  import opened Hashing
  import opened ImtProofs
  import opened Transparent
  import opened Chain
  import opened ChainProofs
  import opened Transition
  import opened Accumulators

  /** The proofs a compact node is sent beside one block. */
  datatype BlockProofBundle = BlockProofBundle(
    height: Height,
    spent: seq<UtxoLeaf>,
    targets: seq<nat>,
    insertions: map<PoolId, seq<InsertionProof>>,
    depth: nat)
  {
    function SpentHashes(): (r: seq<Hash>)
      ensures |r| == |spent|
    {
      seq(|spent|, i requires 0 <= i < |spent| => UtxoDigest(spent[i]))
    }

    function InsertionsFor(pool: PoolId): seq<InsertionProof> {
      if pool in insertions then insertions[pool] else []
    }
  }

  datatype BundleError =
    | BundleApply(apply: ApplyError)
    | ProveFailed(height: Height)
    | SpendMismatch(height: Height, proved: nat, applied: nat)

  /** The proofs of a delta, pool by pool, without the values they insert. */
  function InsertionsFrom(delta: StateDelta): map<PoolId, seq<InsertionProof>> {
    map pool | pool in delta.insertions :: Seconds(delta.insertions[pool])
  }

  /** The batch proof for the spends the bridge finds, before anything is deleted. */
  function ProveSpends(forest: Forest, spent: Outputs): Result<seq<nat>, UtreexoError> {
    if spent == [] then Ok([]) else Prove(forest, Digests(spent))
  }

  /** The bundle that describes an accepted block. */
  function BundleOf(height: Height, depth: nat, spent: Outputs, targets: seq<nat>,
          delta: StateDelta): BlockProofBundle {
    BlockProofBundle(height, Seconds(spent), targets, InsertionsFrom(delta), depth)
  }

  /** The state and the verdict after `apply_and_prove`. */
  function ApplyAndProve(s: ChainState, b: BlockSummary,
          options: ApplyOptions): (ChainState, Result<(ApplyOutcome, BlockProofBundle), BundleError>)
    requires Histories(s.pools)
  {
    var spent := SpentBy(s.index, b);
    var proved := ProveSpends(s.forest, spent);
    if proved.Err? then (s, Err(ProveFailed(b.height)))
    else
      var (after, applied) := ApplyBlock(s, b, options);
      if applied.Err? then (after, Err(BundleApply(applied.error)))
      else if |applied.value.delta.spent| != |spent| then
        (after, Err(SpendMismatch(b.height, |spent|, |applied.value.delta.spent|)))
      else
        (after, Ok((applied.value, BundleOf(b.height, s.depth, spent, proved.value, applied.value.delta))))
  }

  /** Proves what the block spends, then applies it: the bridge moves on and the bundle is served. */
  method ApplyAndProveBlock(state: ChainAccumulators, b: BlockSummary,
          options: ApplyOptions) returns (r: Result<(ApplyOutcome, BlockProofBundle), BundleError>)
    requires state.Valid()
    modifies state`forest, state`index, state`pools, state`tip, state.trees.Values
    ensures state.Valid()
    ensures (state.Model(), r) == ApplyAndProve(old(state.Model()), b, options)
  {
    hide ApplyBlock, TransparentStep;
    var spent: Outputs := [];
    for k := 0 to |b.spends|
      invariant spent == IndexedSpends(state.index, b.spends, k)
    {
      if b.spends[k] in state.index {
        spent := spent + [(b.spends[k], state.index[b.spends[k]])];
      }
    }
    var targets: seq<nat> := [];
    if spent != [] {
      var proved := Prove(state.forest, Digests(spent));
      if proved.Err? {
        return Err(ProveFailed(b.height));
      }
      targets := proved.value;
    }
    var applied := state.Apply(b, options);
    if applied.Err? {
      return Err(BundleApply(applied.error));
    }
    var outcome := applied.value;
    if |outcome.delta.spent| != |spent| {
      return Err(SpendMismatch(b.height, |spent|, |outcome.delta.spent|));
    }
    return Ok((outcome, BlockProofBundle(b.height, Seconds(spent), targets, InsertionsFrom(outcome.delta),
      state.depth)));
  }

  /** The two resolutions never disagree, and a bridge in step can always prove what it deletes. */
  lemma ApplyAndProveExactly(s: ChainState, b: BlockSummary, options: ApplyOptions)
    requires PoolsOk(s.depth, s.pools)
    ensures var (after, r) := ApplyAndProve(s, b, options);
      var (applied, verdict) := ApplyBlock(s, b, options);
      && (r.Ok? <==> verdict.Ok?)
      && (r.Ok? ==> after == applied && r.value.0 == verdict.value)
      && !(r.Err? && r.error.SpendMismatch?)
  {
    AcceptedExactly(s, b, options);
  }
}
