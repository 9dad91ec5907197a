// A compact node whose roots match a bridge: what it accepts, the bridge
// accepts, and both reach equal roots; what the bridge serves, it accepts.
module CsnProofs {
  import opened Wrappers
  import opened Arith
  import opened Hashing
  import opened LinkedSet
  import opened ImtProofs
  import opened Transparent
  import opened Chain
  import opened ChainProofs
  import opened Bundle
  import opened Csn

  /** The compact view of a bridge state. */
  function CompactOf(s: ChainState): CompactState {
    CompactState(s.depth, s.forest, map pool | pool in s.pools :: StateOf(pool, s.depth, s.pools[pool]), s.tip)
  }

  /** A fresh compact node matches a fresh bridge. */
  lemma GenesisMatches(depth: nat)
    ensures CompactOf(Genesis(depth)) == CompactGenesis(depth)
  {
  }

  // ---- insertion proofs, one pool at a time ----

  /** The first `n` proofs are the tree's own. */
  ghost predicate OwnProofs(pool: PoolId, depth: nat, all: seq<Value>, values: seq<Value>,
          proofs: seq<InsertionProof>, n: nat)
    requires n <= |values| && n <= |proofs|
  {
    forall k {:trigger proofs[k]} :: 0 <= k < n ==> OwnProof(pool, depth, all + values[..k], values[k], proofs[k])
  }

  ghost predicate OwnProof(pool: PoolId, depth: nat, all: seq<Value>, v: Value, proof: InsertionProof) {
    History(all) && proof == InsertionProofOf(pool, depth, all, v)
  }

  /** A run of proofs is accepted exactly when the tree takes every value and the proofs are its own. */
  ghost predicate RunExact(pool: PoolId, depth: nat, all: seq<Value>, values: seq<Value>, proofs: seq<InsertionProof>,
          n: nat, r: Result<ImtState, ImtError>)
    requires n <= |values| && n <= |proofs|
  {
    && (r.Ok? <==>
         && History(all + values[..n]) && |all| + n <= Pow2(depth)
         && OwnProofs(pool, depth, all, values, proofs, n))
    && (r.Ok? ==> r.value == StateOf(pool, depth, all + values[..n]))
  }

  lemma RunStep(pool: PoolId, depth: nat, all: seq<Value>, values: seq<Value>, proofs: seq<InsertionProof>, n: nat,
          prev: Result<ImtState, ImtError>)
    requires ValidDepth(depth) && all != [] && n < |values| && n < |proofs|
    requires RunExact(pool, depth, all, values, proofs, n, prev)
    ensures RunExact(pool, depth, all, values, proofs, n + 1,
      if prev.Ok? then VerifyInsertion(pool, depth, prev.value, values[n], proofs[n]) else prev)
  {
    hide VerifyInsertion, StateOf, InsertionProofOf;
    var before, v := all + values[..n], values[n];
    assert all + values[..n + 1] == before + [v];
    HistoryStep(before, v);
    assert OwnProofs(pool, depth, all, values, proofs, n + 1)
      <==> OwnProofs(pool, depth, all, values, proofs, n) && OwnProof(pool, depth, before, v, proofs[n]);
    if prev.Ok? {
      InsertionExact(pool, depth, before, v, proofs[n]);
    }
  }

  lemma {:induction false} ProofRunExact(pool: PoolId, depth: nat, all: seq<Value>, values: seq<Value>,
          proofs: seq<InsertionProof>, n: nat)
    requires History(all) && Fits(depth, all) && n <= |values| && n <= |proofs|
    ensures RunExact(pool, depth, all, values, proofs, n,
      ApplyProofs(pool, depth, StateOf(pool, depth, all), values, proofs, n))
  {
    if n == 0 {
      assert all + values[..0] == all;
    } else {
      ProofRunExact(pool, depth, all, values, proofs, n - 1);
      RunStep(pool, depth, all, values, proofs, n - 1,
        ApplyProofs(pool, depth, StateOf(pool, depth, all), values, proofs, n - 1));
    }
  }

  lemma HistoryStep(all: seq<Value>, v: Value)
    ensures History(all + [v]) && all != [] <==> History(all) && v != 0 && v !in all
  {
    var grown := all + [v];
    if History(grown) && all != [] {
      assert forall i :: 0 <= i < |all| ==> all[i] == grown[i];
      assert grown[|all|] == v;
    }
  }

  // ---- all pools ----

  /** The pool of rank `k` takes the block's nullifiers, and the bundle proves exactly that. */
  ghost predicate PoolTakes(depth: nat, pools: Pools, b: BlockSummary, bundle: BlockProofBundle, k: nat)
    requires k < |ALL_POOLS| && ALL_POOLS[k] in pools
  {
    var pool := ALL_POOLS[k];
    var all, values, proofs := pools[pool], b.NullifiersFor(pool), bundle.InsertionsFor(pool);
    values != [] ==>
      && |proofs| == |values|
      && History(all + values) && |all| + |values| <= Pow2(depth)
      && OwnProofs(pool, depth, all, values, proofs, |values|)
  }

  /** The scratch copy after the pools of rank below `n`. */
  ghost predicate ScratchIs(depth: nat, pools: Pools, b: BlockSummary, n: nat, staged: map<PoolId, ImtState>) {
    && staged.Keys == pools.Keys
    && forall k {:trigger ALL_POOLS[k]} :: 0 <= k < |ALL_POOLS| && ALL_POOLS[k] in pools ==>
         var pool := ALL_POOLS[k];
         staged[pool] == StateOf(pool, depth, if k < n then pools[pool] + b.NullifiersFor(pool) else pools[pool])
  }

  lemma StagePoolExact(depth: nat, pools: Pools, b: BlockSummary, bundle: BlockProofBundle, k: nat,
          staged: map<PoolId, ImtState>)
    requires k < |ALL_POOLS| && PoolsOk(depth, pools) && ScratchIs(depth, pools, b, k, staged)
    ensures var next := StagePool(depth, b, bundle, ALL_POOLS[k], staged);
      && (next.Ok? <==> PoolTakes(depth, pools, b, bundle, k))
      && (next.Ok? ==> ScratchIs(depth, pools, b, k + 1, next.value))
  {
    hide StateOf, ApplyProofs, History, OwnProofs;
    var pool := ALL_POOLS[k];
    var all, values, proofs := pools[pool], b.NullifiersFor(pool), bundle.InsertionsFor(pool);
    assert all + [] == all;
    assert staged[pool] == StateOf(pool, depth, all);
    DistinctRanks();
    if |proofs| == |values| {
      ProofRunExact(pool, depth, all, values, proofs, |values|);
      assert values[..|values|] == values;
    }
  }

  ghost predicate ScratchExact(depth: nat, pools: Pools, b: BlockSummary, bundle: BlockProofBundle, n: nat,
          r: Result<map<PoolId, ImtState>, CsnError>)
    requires n <= |ALL_POOLS| && forall pool :: pool in pools
  {
    && (r.Ok? <==> forall k :: 0 <= k < n ==> PoolTakes(depth, pools, b, bundle, k))
    && (r.Ok? ==> ScratchIs(depth, pools, b, n, r.value))
  }

  lemma {:induction false} StageProofsExact(s: ChainState, b: BlockSummary, bundle: BlockProofBundle, n: nat)
    requires PoolsOk(s.depth, s.pools) && n <= |ALL_POOLS|
    ensures ScratchExact(s.depth, s.pools, b, bundle, n, StageProofs(CompactOf(s), b, bundle, n))
  {
    hide StagePool, PoolTakes, StateOf;
    if n > 0 {
      StageProofsExact(s, b, bundle, n - 1);
      var prev := StageProofs(CompactOf(s), b, bundle, n - 1);
      if prev.Ok? {
        StagePoolExact(s.depth, s.pools, b, bundle, n - 1, prev.value);
      }
    }
  }

  // ---- spends ----

  /** Every leaf a bundle carries is an indexed output. */
  ghost predicate LeavesIndexed(index: Index, leaves: seq<UtxoLeaf>) {
    forall i {:trigger leaves[i]} :: 0 <= i < |leaves| ==>
      OutPointOf(leaves[i]) in index && index[OutPointOf(leaves[i])] == leaves[i]
  }

  /** Under each outpoint the block spends stands only the indexed output. */
  ghost predicate OwnSlots(s: ChainState, b: BlockSummary) {
    forall o {:trigger o in b.spends} :: o in b.spends ==> OnlyOwnSlot(s.forest, s.index, o)
  }

  /** A successful walk takes only leaves of outpoints the block spends. */
  lemma {:induction false} WalkClaims(created: set<OutPoint>, height: Height, spends: seq<OutPoint>,
          leaves: seq<UtxoLeaf>, n: nat)
    requires n <= |spends| && MatchSpends(created, height, spends, leaves, n).Ok?
    ensures var w := MatchSpends(created, height, spends, leaves, n).value;
      w.cursor <= |leaves| && forall i {:trigger leaves[i]} :: 0 <= i < w.cursor ==> OutPointOf(leaves[i]) in spends
  {
    if n > 0 {
      WalkClaims(created, height, spends, leaves, n - 1);
      var prev := MatchSpends(created, height, spends, leaves, n - 1).value;
      if prev.cursor < |leaves| && LeafMatches(leaves[prev.cursor], spends[n - 1]) {
        assert OutPointOf(leaves[prev.cursor]) == spends[n - 1];
      }
    }
  }

  /** A batch proof that verifies carries only live leaves; those the block spends are indexed outputs. */
  lemma ProvedLeavesAreIndexed(s: ChainState, b: BlockSummary, bundle: BlockProofBundle)
    requires OwnSlots(s, b) && Verifies(s.forest, bundle.targets, bundle.SpentHashes())
    requires forall i {:trigger bundle.spent[i]} :: 0 <= i < |bundle.spent| ==> OutPointOf(bundle.spent[i]) in b.spends
    ensures LeavesIndexed(s.index, bundle.spent)
    ensures bundle.targets == Positions(s.forest, bundle.SpentHashes())
  {
    var digests, targets := bundle.SpentHashes(), bundle.targets;
    forall i | 0 <= i < |targets|
      ensures OutPointOf(bundle.spent[i]) in s.index && s.index[OutPointOf(bundle.spent[i])] == bundle.spent[i]
      ensures targets[i] == NewestLive(s.forest, digests[i])
    {
      assert s.forest[targets[i]] == Live(digests[i]);
      assert Carries(s.forest[targets[i]], OutPointOf(bundle.spent[i]));
      assert OnlyOwnSlot(s.forest, s.index, OutPointOf(bundle.spent[i]));
    }
  }

  /** What a successful walk over `n` spends amounts to: the bridge's own resolution. */
  ghost predicate MatchIsResolve(index: Index, created: set<OutPoint>, spends: seq<OutPoint>, leaves: seq<UtxoLeaf>,
          n: nat, w: Matched)
    requires n <= |spends|
  {
    && w.cursor <= |leaves|
    && leaves[..w.cursor] == Seconds(IndexedSpends(index, spends, n))
    && (forall o :: o in w.cancelled <==> o in spends[..n] && o !in index && o in created)
    && Resolvable(index, created, spends, false, n)
  }

  /** No spend names an outpoint that is at once indexed and created by the block. */
  ghost predicate NoRespend(index: Index, created: set<OutPoint>, spends: seq<OutPoint>) {
    forall o {:trigger o in spends} :: o in spends && o in index ==> o !in created
  }

  /** Each spend can mean one output only: the indexed one, or else the one this block creates. */
  ghost predicate Unambiguous(s: ChainState, b: BlockSummary) {
    OwnSlots(s, b) && NoRespend(s.index, b.Created(), b.spends)
  }

  /** Whatever leaves are shown, a successful walk leaves no spend unaccounted for. */
  lemma {:induction false} MatchResolvable(index: Index, created: set<OutPoint>, height: Height, spends: seq<OutPoint>,
          leaves: seq<UtxoLeaf>, n: nat)
    requires n <= |spends| && LeavesIndexed(index, leaves) && MatchSpends(created, height, spends, leaves, n).Ok?
    ensures Resolvable(index, created, spends, false, n)
  {
    if n > 0 {
      MatchResolvable(index, created, height, spends, leaves, n - 1);
      assert forall i :: 0 <= i < n - 1 ==> spends[i] in spends[..n - 1];
      var prev := MatchSpends(created, height, spends, leaves, n - 1).value;
      if prev.cursor < |leaves| && LeafMatches(leaves[prev.cursor], spends[n - 1]) {
        assert OutPointOf(leaves[prev.cursor]) == spends[n - 1];
      }
    }
  }

  lemma {:induction false} MatchSound(index: Index, created: set<OutPoint>, height: Height, spends: seq<OutPoint>,
          leaves: seq<UtxoLeaf>, n: nat)
    requires n <= |spends| && LeavesIndexed(index, leaves) && NoRespend(index, created, spends)
    requires MatchSpends(created, height, spends, leaves, n).Ok?
    ensures MatchIsResolve(index, created, spends, leaves, n, MatchSpends(created, height, spends, leaves, n).value)
  {
    if n > 0 {
      MatchSound(index, created, height, spends, leaves, n - 1);
      MatchNextSound(index, created, height, spends, leaves, n - 1,
        MatchSpends(created, height, spends, leaves, n - 1).value);
    }
  }

  lemma MatchNextSound(index: Index, created: set<OutPoint>, height: Height, spends: seq<OutPoint>,
          leaves: seq<UtxoLeaf>, k: nat, prev: Matched)
    requires k < |spends| && LeavesIndexed(index, leaves) && NoRespend(index, created, spends)
    requires MatchIsResolve(index, created, spends, leaves, k, prev)
    requires MatchNext(created, height, spends, leaves, k, prev).Ok?
    ensures MatchIsResolve(index, created, spends, leaves, k + 1,
      MatchNext(created, height, spends, leaves, k, prev).value)
  {
    var o := spends[k];
    assert o in spends;
    assert spends[..k + 1] == spends[..k] + [o];
    assert forall i :: 0 <= i < k ==> spends[..k][i] == spends[i];
    if prev.cursor < |leaves| && LeafMatches(leaves[prev.cursor], o) {
      assert OutPointOf(leaves[prev.cursor]) == o;
      assert leaves[..prev.cursor + 1] == leaves[..prev.cursor] + [leaves[prev.cursor]];
      assert IndexedSpends(index, spends, k + 1) == IndexedSpends(index, spends, k) + [(o, leaves[prev.cursor])];
    } else {
      assert IndexedSpends(index, spends, k + 1) == IndexedSpends(index, spends, k);
    }
  }
}
