// The compact node: blocks applied to roots, by proofs.
module Csn {
  import opened Wrappers
  import opened Hashing
  import opened ImtProofs
  import opened Transparent
  import opened Chain
  import opened Bundle

  /** A compact node's whole state; `utxos` stands for the commitment to that slot sequence. */
  datatype CompactState = CompactState(depth: nat, utxos: Forest, nullifiers: map<PoolId, ImtState>,
    tip: Option<Height>)

  datatype CsnError =
    | HeightMismatch(block: Height, bundle: Height)
    | BundleOutOfOrder(expected: Height, found: Height)
    | SpentTwice(height: Height, outpoint: OutPoint)
    | UnprovenSpend(height: Height, outpoint: OutPoint)
    | UnclaimedLeaves(height: Height, extra: nat)
    | InclusionProofFailed(height: Height)
    | InsertionCountMismatch(height: Height, pool: PoolId, nullifiers: nat, proofs: nat)
    | NoTree(pool: PoolId)
    | UnexpectedInsertions(height: Height, pool: PoolId)
    | CsnImt(imt: ImtError)

  /** How far into the bundle's leaves the block's spends reached, and what was taken as cancelled. */
  datatype Matched = Matched(cursor: nat, cancelled: set<OutPoint>)

  predicate LeafMatches(leaf: UtxoLeaf, o: OutPoint) {
    leaf.txid == o.txid && leaf.vout == o.vout
  }

  /** Pairs the first `n` spends with leaves of the bundle. */
  function MatchSpends(created: set<OutPoint>, height: Height, spends: seq<OutPoint>, leaves: seq<UtxoLeaf>,
          n: nat): Result<Matched, CsnError>
    requires n <= |spends|
  {
    if n == 0 then Ok(Matched(0, {}))
    else
      var prev := MatchSpends(created, height, spends, leaves, n - 1);
      if prev.Err? then prev else MatchNext(created, height, spends, leaves, n - 1, prev.value)
  }

  function MatchNext(created: set<OutPoint>, height: Height, spends: seq<OutPoint>, leaves: seq<UtxoLeaf>, k: nat,
          prev: Matched): Result<Matched, CsnError>
    requires k < |spends|
  {
    var o := spends[k];
    if o in spends[..k] then Err(SpentTwice(height, o))
    else if prev.cursor < |leaves| && LeafMatches(leaves[prev.cursor], o) then
      Ok(Matched(prev.cursor + 1, prev.cancelled))
    else if o in created then Ok(Matched(prev.cursor, prev.cancelled + {o}))
    else Err(UnprovenSpend(height, o))
  }

  /** Applies the first `n` insertion proofs in order. */
  function ApplyProofs(pool: PoolId, depth: nat, state: ImtState, values: seq<Value>, proofs: seq<InsertionProof>,
          n: nat): Result<ImtState, ImtError>
    requires n <= |values| && n <= |proofs|
  {
    if n == 0 then Ok(state)
    else
      var prev := ApplyProofs(pool, depth, state, values, proofs, n - 1);
      if prev.Err? then prev else VerifyInsertion(pool, depth, prev.value, values[n - 1], proofs[n - 1])
  }

  /** The scratch copy after the first `n` pools. */
  function StageProofs(c: CompactState, b: BlockSummary, bundle: BlockProofBundle,
          n: nat): Result<map<PoolId, ImtState>, CsnError>
    requires n <= |ALL_POOLS|
  {
    if n == 0 then Ok(c.nullifiers)
    else
      var prev := StageProofs(c, b, bundle, n - 1);
      if prev.Err? then prev else StagePool(c.depth, b, bundle, ALL_POOLS[n - 1], prev.value)
  }

  function StagePool(depth: nat, b: BlockSummary, bundle: BlockProofBundle, pool: PoolId,
          staged: map<PoolId, ImtState>): Result<map<PoolId, ImtState>, CsnError> {
    var values, proofs := b.NullifiersFor(pool), bundle.InsertionsFor(pool);
    if values == [] then Ok(staged)
    else if |proofs| != |values| then Err(InsertionCountMismatch(b.height, pool, |values|, |proofs|))
    else if pool !in staged then Err(NoTree(pool))
    else
      var next := ApplyProofs(pool, depth, staged[pool], values, proofs, |values|);
      if next.Err? then Err(CsnImt(next.error)) else Ok(staged[pool := next.value])
  }

  /** The first of the first `n` pools with proofs but no nullifiers. */
  function Unexpected(b: BlockSummary, bundle: BlockProofBundle, n: nat): Option<PoolId>
    requires n <= |ALL_POOLS|
  {
    if n == 0 then None
    else if Unexpected(b, bundle, n - 1).Some? then Unexpected(b, bundle, n - 1)
    else if bundle.InsertionsFor(ALL_POOLS[n - 1]) != [] && b.NullifiersFor(ALL_POOLS[n - 1]) == [] then
      Some(ALL_POOLS[n - 1])
    else None
  }

  /** What `apply_bundle` answers: the next state, or why the bundle is refused. */
  function ApplyBundle(c: CompactState, b: BlockSummary, bundle: BlockProofBundle): Result<CompactState, CsnError> {
    if bundle.height != b.height then Err(HeightMismatch(b.height, bundle.height))
    else if !InOrder(c.tip, b.height, true) then Err(BundleOutOfOrder(NextHeight(c.tip.value), b.height))
    else
      var matched :- MatchSpends(b.Created(), b.height, b.spends, bundle.spent, |b.spends|);
      if matched.cursor != |bundle.spent| then
        Err(UnclaimedLeaves(b.height, if matched.cursor < |bundle.spent| then |bundle.spent| - matched.cursor else 0))
      else if bundle.spent != [] && !Verifies(c.utxos, bundle.targets, bundle.SpentHashes()) then
        Err(InclusionProofFailed(b.height))
      else
        var staged :- StageProofs(c, b, bundle, |ALL_POOLS|);
        var extra := Unexpected(b, bundle, |ALL_POOLS|);
        if extra.Some? then Err(UnexpectedInsertions(b.height, extra.value))
        else
          var additions := Digests(Surviving(b.creates, matched.cancelled));
          var moved := Modify(c.utxos, additions, bundle.SpentHashes(), bundle.targets);
          Ok(CompactState(c.depth, moved.value, staged, Some(b.height)))
  }

  class CompactNode {
    const depth: nat
    var utxos: Forest
    var nullifiers: map<PoolId, ImtState>
    var tip: Option<Height>

    function Model(): CompactState
      reads this
    {
      CompactState(depth, utxos, nullifiers, tip)
    }

    /** Starts from the empty roots of trees `depth` levels high. */
    constructor (depth: nat)
      requires ValidDepth(depth)
      ensures Model() == CompactGenesis(depth)
    {
      this.depth := depth;
      utxos, nullifiers, tip := [], map[], None;
      new;
      for n := 0 to |ALL_POOLS|
        modifies this`nullifiers
        invariant forall k :: 0 <= k < n ==> ALL_POOLS[k] in nullifiers
        invariant forall pool :: pool in nullifiers ==> nullifiers[pool] == StateOf(pool, depth, [0])
      {
        var state := NewState(ALL_POOLS[n], depth);
        nullifiers := nullifiers[ALL_POOLS[n] := state.value];
      }
      EveryPoolListed(nullifiers.Keys);
    }

    static method New(depth: nat) returns (r: Result<CompactNode, ImtError>)
      ensures r.Ok? <==> ValidDepth(depth)
      ensures r.Err? ==> r == Err(InvalidDepth(depth))
      ensures r.Ok? ==> fresh(r.value) && r.value.Model() == CompactGenesis(depth)
    {
      if !ValidDepth(depth) {
        return Err(InvalidDepth(depth));
      }
      var node := new CompactNode(depth);
      return Ok(node);
    }

    /** Applies one block; any refusal leaves the state as it was. */
    method Apply(b: BlockSummary, bundle: BlockProofBundle) returns (r: Result<(), CsnError>)
      modifies this
      ensures var next := ApplyBundle(old(Model()), b, bundle);
        if next.Ok? then r == Ok(()) && Model() == next.value
        else r == Err(next.error) && unchanged(this)
    {
      if bundle.height != b.height {
        return Err(HeightMismatch(b.height, bundle.height));
      }
      if tip.Some? && b.height != NextHeight(tip.value) {
        return Err(BundleOutOfOrder(NextHeight(tip.value), b.height));
      }
      var matched := MatchBlock(b, bundle.spent);
      if matched.Err? {
        return Err(matched.error);
      }
      var cursor, cancelled := matched.value.cursor, matched.value.cancelled;
      if cursor != |bundle.spent| {
        return Err(UnclaimedLeaves(b.height, if cursor < |bundle.spent| then |bundle.spent| - cursor else 0));
      }
      var deletions := bundle.SpentHashes();
      if deletions != [] && !Verifies(utxos, bundle.targets, deletions) {
        return Err(InclusionProofFailed(b.height));
      }
      var additions := Digests(Surviving(b.creates, cancelled));
      var staged := StageAll(b, bundle);
      if staged.Err? {
        return Err(staged.error);
      }
      var extra := FindUnexpected(b, bundle);
      if extra.Some? {
        return Err(UnexpectedInsertions(b.height, extra.value));
      }
      var moved := Modify(utxos, additions, deletions, bundle.targets);
      utxos := moved.value;
      nullifiers := staged.value;
      tip := Some(b.height);
      return Ok(());
    }

    static method MatchBlock(b: BlockSummary, leaves: seq<UtxoLeaf>) returns (r: Result<Matched, CsnError>)
      ensures r == MatchSpends(b.Created(), b.height, b.spends, leaves, |b.spends|)
    {
      var created := b.Created();
      var cursor, cancelled, seen: set<OutPoint> := 0, {}, {};
      for k := 0 to |b.spends|
        invariant forall o :: o in seen <==> o in b.spends[..k]
        invariant MatchSpends(created, b.height, b.spends, leaves, k) == Ok(Matched(cursor, cancelled))
      {
        var o := b.spends[k];
        if o in seen {
          MatchRefusalStands(created, b.height, b.spends, leaves, k + 1);
          return Err(SpentTwice(b.height, o));
        }
        seen := seen + {o};
        assert b.spends[..k + 1] == b.spends[..k] + [o];
        if cursor < |leaves| && LeafMatches(leaves[cursor], o) {
          cursor := cursor + 1;
        } else if o in created {
          cancelled := cancelled + {o};
        } else {
          MatchRefusalStands(created, b.height, b.spends, leaves, k + 1);
          return Err(UnprovenSpend(b.height, o));
        }
      }
      return Ok(Matched(cursor, cancelled));
    }

    /** Verifies every pool's insertions against a scratch copy. */
    method StageAll(b: BlockSummary, bundle: BlockProofBundle) returns (r: Result<map<PoolId, ImtState>, CsnError>)
      ensures r == StageProofs(Model(), b, bundle, |ALL_POOLS|)
    {
      var staged := nullifiers;
      for n := 0 to |ALL_POOLS|
        invariant StageProofs(Model(), b, bundle, n) == Ok(staged)
      {
        var next := StageOne(depth, b, bundle, ALL_POOLS[n], staged);
        if next.Err? {
          ProofRefusalStands(Model(), b, bundle, n + 1);
          return next;
        }
        staged := next.value;
      }
      return Ok(staged);
    }

    static method StageOne(depth: nat, b: BlockSummary, bundle: BlockProofBundle, pool: PoolId,
            staged: map<PoolId, ImtState>) returns (r: Result<map<PoolId, ImtState>, CsnError>)
      ensures r == StagePool(depth, b, bundle, pool, staged)
    {
      var values, proofs := b.NullifiersFor(pool), bundle.InsertionsFor(pool);
      if values == [] {
        return Ok(staged);
      }
      if |proofs| != |values| {
        return Err(InsertionCountMismatch(b.height, pool, |values|, |proofs|));
      }
      if pool !in staged {
        return Err(NoTree(pool));
      }
      hide ApplyProofs;
      var next := ApplyEach(pool, depth, staged[pool], values, proofs);
      return if next.Err? then Err(CsnImt(next.error)) else Ok(staged[pool := next.value]);
    }

    /** Every proof of a pool, one after the other. */
    static method ApplyEach(pool: PoolId, depth: nat, start: ImtState, values: seq<Value>,
            proofs: seq<InsertionProof>) returns (r: Result<ImtState, ImtError>)
      requires |proofs| == |values|
      ensures r == ApplyProofs(pool, depth, start, values, proofs, |values|)
    {
      hide VerifyInsertion;
      var state := start;
      for n := 0 to |values|
        invariant ApplyProofs(pool, depth, start, values, proofs, n) == Ok(state)
      {
        var next := VerifyInsertion(pool, depth, state, values[n], proofs[n]);
        if next.Err? {
          InsertionRefusalStands(pool, depth, start, values, proofs, n + 1);
          return next;
        }
        state := next.value;
      }
      return Ok(state);
    }

    static method FindUnexpected(b: BlockSummary, bundle: BlockProofBundle) returns (extra: Option<PoolId>)
      ensures extra == Unexpected(b, bundle, |ALL_POOLS|)
    {
      extra := None;
      for n := 0 to |ALL_POOLS|
        invariant extra == Unexpected(b, bundle, n)
      {
        var pool := ALL_POOLS[n];
        if extra.None? && bundle.InsertionsFor(pool) != [] && b.NullifiersFor(pool) == [] {
          extra := Some(pool);
        }
      }
    }
  }

  function CompactGenesis(depth: nat): CompactState {
    CompactState(depth, [], map pool: PoolId | pool in {Sprout, Sapling, Orchard, Ironwood} ::
      StateOf(pool, depth, [0]), None)
  }

  lemma EveryPoolListed(pools: set<PoolId>)
    requires forall k :: 0 <= k < |ALL_POOLS| ==> ALL_POOLS[k] in pools
    ensures pools == {Sprout, Sapling, Orchard, Ironwood}
  {
    forall pool: PoolId
      ensures pool in pools && pool in {Sprout, Sapling, Orchard, Ironwood}
    {
      var k := EveryPool(pool);
      assert pool.Sprout? || pool.Sapling? || pool.Orchard? || pool.Ironwood?;
    }
  }

  lemma {:induction false} MatchRefusalStands(created: set<OutPoint>, height: Height, spends: seq<OutPoint>,
          leaves: seq<UtxoLeaf>, k: nat)
    requires k <= |spends| && MatchSpends(created, height, spends, leaves, k).Err?
    ensures MatchSpends(created, height, spends, leaves, |spends|) == MatchSpends(created, height, spends, leaves, k)
    decreases |spends| - k
  {
    if k < |spends| {
      MatchRefusalStands(created, height, spends, leaves, k + 1);
    }
  }

  lemma {:induction false} ProofRefusalStands(c: CompactState, b: BlockSummary, bundle: BlockProofBundle, n: nat)
    requires n <= |ALL_POOLS| && StageProofs(c, b, bundle, n).Err?
    ensures StageProofs(c, b, bundle, |ALL_POOLS|) == StageProofs(c, b, bundle, n)
    decreases |ALL_POOLS| - n
  {
    if n < |ALL_POOLS| {
      ProofRefusalStands(c, b, bundle, n + 1);
    }
  }

  lemma {:induction false} InsertionRefusalStands(pool: PoolId, depth: nat, state: ImtState, values: seq<Value>,
          proofs: seq<InsertionProof>, n: nat)
    requires n <= |values| <= |proofs| && ApplyProofs(pool, depth, state, values, proofs, n).Err?
    ensures ApplyProofs(pool, depth, state, values, proofs, |values|) ==
      ApplyProofs(pool, depth, state, values, proofs, n)
    decreases |values| - n
  {
    if n < |values| {
      InsertionRefusalStands(pool, depth, state, values, proofs, n + 1);
    }
  }
}
