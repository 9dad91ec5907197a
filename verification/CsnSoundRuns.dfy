// The exact reach of soundness over runs, and runs that go beyond it.
module CsnSoundRuns {
  import opened Wrappers
  import opened Hashing
  import opened ImtProofs
  import opened Transparent
  import opened Chain
  import opened ChainProofs
  import opened Transition
  import opened ColdReplay
  import opened Bundle
  import opened Csn
  import opened CsnProofs
  import opened CsnTheorems
  import opened CsnRuns
  import opened CsnForgery

  // ---- serving a run and applying it are one thing ----

  /** A bridge that keeps its bundles gets exactly as far as one that does not. */
  ghost predicate SameReach(s: ChainState, blocks: seq<BlockSummary>, n: nat) {
    && PoolsOk(s.depth, s.pools) && n <= |blocks|
    && var (served, after) := (BridgeRun(s, blocks, n), BridgeAfter(s, blocks, DEFAULT_OPTIONS, n));
    (served.Ok? <==> after.Ok?) && (served.Ok? ==> served.value.0 == after.value)
  }

  lemma ReachStep(s: ChainState, blocks: seq<BlockSummary>, n: nat)
    requires 0 < n <= |blocks| && SameReach(s, blocks, n - 1)
    ensures SameReach(s, blocks, n)
  {
    var before := BridgeAfter(s, blocks, DEFAULT_OPTIONS, n - 1);
    if before.Ok? {
      ApplyAndProveExactly(before.value, blocks[n - 1], DEFAULT_OPTIONS);
    }
    hide PoolsOk, ApplyAndProve, ApplyBlock;
  }

  lemma {:induction false} ServedIsAfter(s: ChainState, blocks: seq<BlockSummary>, n: nat)
    requires PoolsOk(s.depth, s.pools) && n <= |blocks|
    ensures SameReach(s, blocks, n)
  {
    hide PoolsOk, BridgeServes, BridgeTakes;
    if n > 0 {
      hide *;
      ServedIsAfter(s, blocks, n - 1);
      ReachStep(s, blocks, n);
    }
  }

  lemma {:induction false} CompactRunReads(c: CompactState, blocks: seq<BlockSummary>, p: seq<BlockProofBundle>,
          q: seq<BlockProofBundle>, n: nat)
    requires n <= |blocks| && n <= |p| && p <= q
    ensures CompactRun(c, blocks, p, n) == CompactRun(c, blocks, q, n)
  {
    hide ApplyBundle;
    if n > 0 {
      CompactRunReads(c, blocks, p, q, n - 1);
      assert p[n - 1] == q[n - 1];
    }
  }

  // ---- the exact condition over runs ----

  /** Bridge and node get through `n` blocks, and the node stands where the bridge stands. */
  ghost predicate FollowsBridge(s: ChainState, blocks: seq<BlockSummary>, bundles: seq<BlockProofBundle>, n: nat) {
    && PoolsOk(s.depth, s.pools) && n <= |blocks| && n <= |bundles|
    && var bridge := BridgeAfter(s, blocks, DEFAULT_OPTIONS, n);
    && bridge.Ok? && Usable(bridge.value)
    && CompactRun(CompactOf(s), blocks, bundles, n) == Ok(CompactOf(bridge.value))
  }

  /** If the node gets through `n` blocks with these bundles, it stands where the bridge stands. */
  ghost predicate StaysTogether(s: ChainState, blocks: seq<BlockSummary>, bundles: seq<BlockProofBundle>, n: nat) {
    n <= |blocks| && n <= |bundles| && CompactRun(CompactOf(s), blocks, bundles, n).Ok? ==>
      FollowsBridge(s, blocks, bundles, n)
  }

  /** If the bridge gets to block `k`, no bundle for it has a meaning of its own. */
  ghost predicate OneMeaningAt(s: ChainState, blocks: seq<BlockSummary>, k: nat)
    requires PoolsOk(s.depth, s.pools) && k < |blocks|
  {
    var before := BridgeAfter(s, blocks, DEFAULT_OPTIONS, k);
    before.Ok? ==> OneMeaning(before.value, blocks[k])
  }

  ghost predicate OneMeaningThroughout(s: ChainState, blocks: seq<BlockSummary>) {
    && PoolsOk(s.depth, s.pools)
    && forall k {:trigger OneMeaningAt(s, blocks, k)} :: 0 <= k < |blocks| ==> OneMeaningAt(s, blocks, k)
  }

  lemma TogetherStart(s: ChainState, blocks: seq<BlockSummary>, bundles: seq<BlockProofBundle>)
    requires Usable(s)
    ensures StaysTogether(s, blocks, bundles, 0)
  {
    assert PoolsOk(s.depth, s.pools);
    hide PoolsOk, CompactOf;
  }

  lemma TogetherStep(s: ChainState, blocks: seq<BlockSummary>, bundles: seq<BlockProofBundle>, n: nat)
    requires 0 < n <= |blocks| && AllCarryOwn(blocks) && OneMeaningThroughout(s, blocks)
    requires StaysTogether(s, blocks, bundles, n - 1)
    ensures StaysTogether(s, blocks, bundles, n)
  {
    assert CarryOwn(blocks[n - 1]) && OneMeaningAt(s, blocks, n - 1);
    hide ApplyBundle, BridgeTakes, CompactOf, Usable, PoolsOk, CarryOwn, AllCarryOwn, OneMeaning, OneMeaningThroughout;
    if n <= |bundles| && CompactRun(CompactOf(s), blocks, bundles, n).Ok? {
      AgreedStep(BridgeAfter(s, blocks, DEFAULT_OPTIONS, n - 1).value, blocks[n - 1], bundles[n - 1]);
    }
  }

  /** One block of a run that stays together. */
  lemma AgreedStep(s: ChainState, b: BlockSummary, bundle: BlockProofBundle)
    requires Usable(s) && CarryOwn(b) && OneMeaning(s, b) && ApplyBundle(CompactOf(s), b, bundle).Ok?
    ensures PoolsOk(s.depth, s.pools)
    ensures var bridge := BridgeTakes(s, b, DEFAULT_OPTIONS);
      bridge.Ok? && Usable(bridge.value) && ApplyBundle(CompactOf(s), b, bundle) == Ok(CompactOf(bridge.value))
  {
    MeaningIsBridges(s, b, bundle);
    UsableNext(s, b, DEFAULT_OPTIONS);
    hide ApplyBundle, ApplyBlock, CompactOf, Usable, CarryOwn, OneMeaning;
  }

  lemma {:induction false} TogetherThroughout(s: ChainState, blocks: seq<BlockSummary>, bundles: seq<BlockProofBundle>,
          n: nat)
    requires Usable(s) && AllCarryOwn(blocks) && OneMeaningThroughout(s, blocks)
    ensures StaysTogether(s, blocks, bundles, n)
  {
    if n > |blocks| {
      assert StaysTogether(s, blocks, bundles, n);
    } else {
      hide *;
      if n == 0 {
        TogetherStart(s, blocks, bundles);
      } else {
        TogetherThroughout(s, blocks, bundles, n - 1);
        TogetherStep(s, blocks, bundles, n);
      }
    }
  }

  /** Honest bundles up to a block with a second meaning, then a forged one. */
  lemma ForgedRun(s: ChainState, blocks: seq<BlockSummary>, k: nat) returns (bundles: seq<BlockProofBundle>)
    requires Usable(s) && AllCarryOwn(blocks) && PoolsOk(s.depth, s.pools) && k < |blocks|
    requires !OneMeaningAt(s, blocks, k)
    ensures !StaysTogether(s, blocks, bundles, k + 1)
  {
    var honest := HonestRun(s, blocks, k);
    UsableAfter(s, blocks, DEFAULT_OPTIONS, k);
    var before := BridgeAfter(s, blocks, DEFAULT_OPTIONS, k).value;
    hide *;
    var forged := ForgeryAt(s, blocks, k);
    bundles := honest + [forged];
    CompactRunReads(CompactOf(s), blocks, honest, bundles, k);
    assert bundles[k] == forged;
    ForgeryShows(s, blocks, bundles, k);
  }

  /** The bundles of the bridge take a node as far as it got itself. */
  lemma HonestRun(s: ChainState, blocks: seq<BlockSummary>, k: nat) returns (honest: seq<BlockProofBundle>)
    requires Usable(s) && AllCarryOwn(blocks) && k <= |blocks|
    requires PoolsOk(s.depth, s.pools) && BridgeAfter(s, blocks, DEFAULT_OPTIONS, k).Ok?
    ensures |honest| == k
    ensures CompactRun(CompactOf(s), blocks, honest, k)
      == Ok(CompactOf(BridgeAfter(s, blocks, DEFAULT_OPTIONS, k).value))
  {
    ServedIsAfter(s, blocks, k);
    honest := BridgeRun(s, blocks, k).value.1;
    hide BridgeServes, BridgeTakes, CompactOf, ApplyBundle, PoolsOk, CarryOwn, Spendable;
    LockstepFrom(s, blocks, honest, k);
  }

  lemma ForgeryAt(s: ChainState, blocks: seq<BlockSummary>, k: nat) returns (forged: BlockProofBundle)
    requires PoolsOk(s.depth, s.pools) && k < |blocks| && StaysUsable(s, blocks, DEFAULT_OPTIONS, k)
    requires !OneMeaningAt(s, blocks, k)
    ensures BridgeAfter(s, blocks, DEFAULT_OPTIONS, k).Ok?
    ensures !AgreesWithBridge(BridgeAfter(s, blocks, DEFAULT_OPTIONS, k).value, blocks[k], forged)
  {
    hide AgreesWithBridge, OneMeaning, PoolsOk, BridgeAfter;
    forged := Forgery(BridgeAfter(s, blocks, DEFAULT_OPTIONS, k).value, blocks[k]);
  }

  lemma ForgeryShows(s: ChainState, blocks: seq<BlockSummary>, bundles: seq<BlockProofBundle>, k: nat)
    requires PoolsOk(s.depth, s.pools) && k < |blocks| && |bundles| == k + 1
    requires BridgeAfter(s, blocks, DEFAULT_OPTIONS, k).Ok?
    requires var before := BridgeAfter(s, blocks, DEFAULT_OPTIONS, k).value;
      && CompactRun(CompactOf(s), blocks, bundles, k) == Ok(CompactOf(before))
      && !AgreesWithBridge(before, blocks[k], bundles[k])
    ensures !StaysTogether(s, blocks, bundles, k + 1)
  {
    hide AgreesWithBridge, BridgeTakes, ApplyBundle, CompactOf, PoolsOk, Usable;
    Disagrees(BridgeAfter(s, blocks, DEFAULT_OPTIONS, k).value, blocks[k], bundles[k]);
  }

  /** A forged bundle is accepted, and does not lead where the bridge goes. */
  lemma Disagrees(s: ChainState, b: BlockSummary, bundle: BlockProofBundle)
    requires PoolsOk(s.depth, s.pools) && !AgreesWithBridge(s, b, bundle)
    ensures ApplyBundle(CompactOf(s), b, bundle).Ok?
    ensures BridgeTakes(s, b, DEFAULT_OPTIONS).Ok? ==>
      ApplyBundle(CompactOf(s), b, bundle).value != CompactOf(BridgeTakes(s, b, DEFAULT_OPTIONS).value)
  {
    assert Histories(s.pools);
    hide ApplyBundle, ApplyBlock, CompactOf, PoolsOk;
  }

  /** Some bundles take the node elsewhere. */
  lemma UnsoundBundles(s: ChainState, blocks: seq<BlockSummary>) returns (bundles: seq<BlockProofBundle>, n: nat)
    requires Usable(s) && AllCarryOwn(blocks) && !OneMeaningThroughout(s, blocks)
    ensures !StaysTogether(s, blocks, bundles, n)
  {
    assert PoolsOk(s.depth, s.pools);
    hide PoolsOk, AllCarryOwn, OneMeaningAt, StaysTogether;
    var k: nat :| k < |blocks| && !OneMeaningAt(s, blocks, k);
    n := k + 1;
    bundles := ForgedRun(s, blocks, k);
  }

  /**
   * Soundness over runs holds exactly where bundles have no meaning of their own.
   * For any blocks, no bundles however built take a compact node past or away
   * from a bridge that started beside it, at any block, if and only if at every
   * block the bridge gets to each spend can mean one output only, or no bundle can
   * be accepted.
   */
  lemma SoundRunExactly(s: ChainState, blocks: seq<BlockSummary>)
    requires Usable(s) && AllCarryOwn(blocks)
    ensures OneMeaningThroughout(s, blocks) <==>
      forall bundles, n {:trigger StaysTogether(s, blocks, bundles, n)} :: StaysTogether(s, blocks, bundles, n)
  {
    hide *;
    if OneMeaningThroughout(s, blocks) {
      forall bundles, n
        ensures StaysTogether(s, blocks, bundles, n)
      {
        TogetherThroughout(s, blocks, bundles, n);
      }
    } else {
      var bundles, n := UnsoundBundles(s, blocks);
    }
  }

  /**
   * Soundness over whole runs: whatever bundles it was fed, when a fresh compact
   * node gets through a run of blocks whose bundles have no meaning of their own,
   * so does a bridge from genesis, and they end with equal roots, counts and tip.
   */
  lemma SoundRun(depth: nat, blocks: seq<BlockSummary>, bundles: seq<BlockProofBundle>)
    requires ValidDepth(depth) && |blocks| <= |bundles| && AllCarryOwn(blocks)
    ensures PoolsOk(depth, Genesis(depth).pools)
    ensures var compact := CompactRun(CompactGenesis(depth), blocks, bundles, |blocks|);
      var bridge := BridgeAfter(Genesis(depth), blocks, DEFAULT_OPTIONS, |blocks|);
      OneMeaningThroughout(Genesis(depth), blocks) && compact.Ok? ==>
        bridge.Ok? && compact == Ok(CompactOf(bridge.value))
  {
    GenesisOk(depth);
    GenesisMatches(depth);
    if OneMeaningThroughout(Genesis(depth), blocks) {
      TogetherThroughout(Genesis(depth), blocks, bundles, |blocks|);
    }
  }

  /** A bridge in step, and blocks that never create an outpoint still unspent. */
  ghost predicate NewTo(s: ChainState, blocks: seq<BlockSummary>, n: nat) {
    BridgeOk(s) && n <= |blocks| && CreatesNewThroughout(s, blocks, n)
  }

  ghost predicate InStepTo(s: ChainState, blocks: seq<BlockSummary>, n: nat) {
    && PoolsOk(s.depth, s.pools) && n <= |blocks| && InStepAfter(s, blocks, n)
    && forall k {:trigger OneMeaningAt(s, blocks, k)} :: 0 <= k < n ==> OneMeaningAt(s, blocks, k)
  }

  ghost predicate InStepAfter(s: ChainState, blocks: seq<BlockSummary>, n: nat)
    requires PoolsOk(s.depth, s.pools) && n <= |blocks|
  {
    var after := BridgeAfter(s, blocks, DEFAULT_OPTIONS, n);
    after.Ok? ==> BridgeOk(after.value)
  }

  lemma NewToShorter(s: ChainState, blocks: seq<BlockSummary>, n: nat)
    requires n > 0 && NewTo(s, blocks, n)
    ensures NewTo(s, blocks, n - 1)
  {
    hide BridgeOk, CreatesNewAt;
  }

  lemma NewToStart(s: ChainState, blocks: seq<BlockSummary>)
    requires NewTo(s, blocks, 0)
    ensures InStepTo(s, blocks, 0)
  {
  }

  lemma NewToStep(s: ChainState, blocks: seq<BlockSummary>, n: nat)
    requires n > 0 && NewTo(s, blocks, n) && InStepTo(s, blocks, n - 1)
    ensures InStepTo(s, blocks, n)
  {
    hide NewTo, OneMeaningAt, CreatesNewAt, InStepAfter, PoolsOk, BridgeOk, BridgeAfter;
    NewToLast(s, blocks, n);
    NewIsUnambiguousAt(s, blocks, n - 1);
  }

  lemma NewToLast(s: ChainState, blocks: seq<BlockSummary>, n: nat)
    requires n > 0 && NewTo(s, blocks, n)
    ensures PoolsOk(s.depth, s.pools) && n <= |blocks| && CreatesNewAt(s, blocks, n - 1)
  {
    hide PoolsOk, CreatesNewAt, InStep, OwnOutPoints;
  }

  lemma NewIsUnambiguousAt(s: ChainState, blocks: seq<BlockSummary>, k: nat)
    requires PoolsOk(s.depth, s.pools) && k < |blocks| && CreatesNewAt(s, blocks, k) && InStepAfter(s, blocks, k)
    ensures OneMeaningAt(s, blocks, k) && InStepAfter(s, blocks, k + 1)
  {
    hide Unambiguous, CreatesNew, WellFormed, BridgeTakes, PoolsOk, BridgeOk;
    var before := BridgeAfter(s, blocks, DEFAULT_OPTIONS, k);
    if before.Ok? {
      NewStaysOk(before.value, blocks[k]);
    }
  }

  lemma NewStaysOk(s: ChainState, b: BlockSummary)
    requires BridgeOk(s) && WellFormed(b) && CreatesNew(s, b)
    ensures PoolsOk(s.depth, s.pools) && Unambiguous(s, b)
    ensures BridgeTakes(s, b, DEFAULT_OPTIONS).Ok? ==> BridgeOk(BridgeTakes(s, b, DEFAULT_OPTIONS).value)
  {
    NewIsUnambiguous(s, b);
    hide Unambiguous;
    if BridgeTakes(s, b, DEFAULT_OPTIONS).Ok? {
      BridgeStaysOk(s, b, DEFAULT_OPTIONS);
    }
    hide BridgeOk, ApplyBlock, PoolsOk;
  }

  /** Such blocks leave no bundle a meaning of its own. */
  lemma {:induction false} NewThroughoutIsUnambiguous(s: ChainState, blocks: seq<BlockSummary>, n: nat)
    requires NewTo(s, blocks, n)
    ensures InStepTo(s, blocks, n)
  {
    hide *;
    if n == 0 {
      NewToStart(s, blocks);
    } else {
      NewToShorter(s, blocks, n);
      NewThroughoutIsUnambiguous(s, blocks, n - 1);
      NewToStep(s, blocks, n);
    }
  }

  // ---- runs from genesis that go beyond it ----

  /** A block of outputs alone. */
  function Creating(height: Height, o: OutPoint, leaf: UtxoLeaf): BlockSummary {
    BlockSummary(height, [], [(o, leaf)], map[], map[])
  }

  lemma CreatingApplied(s: ChainState, height: Height, o: OutPoint, leaf: UtxoLeaf)
    requires Usable(s) && InOrder(s.tip, height, true)
    ensures var (after, r) := ApplyBlock(s, Creating(height, o, leaf), DEFAULT_OPTIONS);
      && r.Ok? && after.tip == Some(height)
      && after.forest == s.forest + [Live(UtxoDigest(leaf))] && after.index == s.index[o := leaf]
  {
    var b := Creating(height, o, leaf);
    NothingToPut(s, b);
    AcceptedInStep(s, b, DEFAULT_OPTIONS);
    AcceptedExactly(s, b, DEFAULT_OPTIONS);
    assert CreatedBy(s.index, b) == b.creates by {
      assert SurvivingUpTo(b.creates, Cancelled(s.index, b), 0) == [];
    }
    assert Recorded(s.index - Outpoints([]), b.creates, 0) == s.index;
    assert Digests(b.creates) == [UtxoDigest(leaf)];
    hide ApplyBlock, PoolsOk, Staged, HasRoom, Spendable;
  }

  lemma CreatingStays(s: ChainState, height: Height, leaf: UtxoLeaf)
    requires Usable(s) && InOrder(s.tip, height, true)
    ensures var o := OutPointOf(leaf);
      var (after, r) := ApplyBlock(s, Creating(height, o, leaf), DEFAULT_OPTIONS);
      && r.Ok? && after.tip == Some(height) && Usable(after)
      && after.forest == s.forest + [Live(UtxoDigest(leaf))] && after.index == s.index[o := leaf]
  {
    var b := Creating(height, OutPointOf(leaf), leaf);
    assert CarryOwn(b);
    hide ApplyBlock, Usable;
    CreatingApplied(s, height, OutPointOf(leaf), leaf);
    UsableStays(s, b, DEFAULT_OPTIONS);
  }

  /** A block that spends one output still unspent is accepted. */
  lemma SpendingAccepted(s: ChainState, b: BlockSummary, o: OutPoint)
    requires Usable(s) && o in s.index && InOrder(s.tip, b.height, true) && b.spends == [o] && b.nullifiers == map[]
    ensures ApplyBlock(s, b, DEFAULT_OPTIONS).1.Ok?
  {
    NothingToPut(s, b);
    AcceptedInStep(s, b, DEFAULT_OPTIONS);
  }

  lemma RespendIsAmbiguous(s: ChainState, b: BlockSummary, o: OutPoint)
    requires o in s.index && b.spends == [o] && |b.creates| == 1 && b.creates[0].0 == o
    ensures !Unambiguous(s, b)
  {
    assert b.creates[0] in b.creates && o in b.Created();
    assert o in b.spends;
  }

  lemma ForgottenSlot(s: ChainState, b: BlockSummary, leaf: UtxoLeaf, other: UtxoLeaf)
    requires s.forest == [Live(UtxoDigest(leaf)), Live(UtxoDigest(other))] && OutPointOf(leaf) in b.spends
    requires OutPointOf(leaf) in s.index && s.index[OutPointOf(leaf)] == other
    ensures !Unambiguous(s, b)
  {
    assert Carries(s.forest[0], OutPointOf(leaf)) && s.forest[1] == Live(UtxoDigest(other));
    assert !OnlyOwnSlot(s.forest, s.index, OutPointOf(leaf));
  }

  /**
   * A spend and a creation of one outpoint in one block: the second block spends
   * the first one's output and creates it again, and a bundle that calls the pair
   * cancelled is accepted, though it leaves the node elsewhere than the bridge.
   */
  lemma ForgedCancellation(depth: nat, leaf: UtxoLeaf)
    requires ValidDepth(depth)
    ensures var o := OutPointOf(leaf);
      var first := Creating(0, o, leaf);
      var (s, r) := ApplyBlock(Genesis(depth), first, DEFAULT_OPTIONS);
      var second := BlockSummary(1, [o], [(o, leaf)], map[], map[]);
      var (after, taken) := ApplyBlock(s, second, DEFAULT_OPTIONS);
      && r.Ok? && BridgeOk(s) && taken.Ok?
      && exists forged ::
        var next := ApplyBundle(CompactOf(s), second, forged);
        next.Ok? && next != Ok(CompactOf(after))
  {
    var o, g := OutPointOf(leaf), Genesis(depth);
    var first, second := Creating(0, o, leaf), BlockSummary(1, [o], [(o, leaf)], map[], map[]);
    hide ApplyBlock, ApplyBundle, BridgeOk, Usable, Acceptable, Unambiguous;
    GenesisOk(depth);
    GenesisUsable(depth);
    CreatingStays(g, 0, leaf);
    BridgeStaysOk(g, first, DEFAULT_OPTIONS);
    var s := ApplyBlock(g, first, DEFAULT_OPTIONS).0;
    SpendingAccepted(s, second, o);
    TakenIsAcceptable(s, second);
    RespendIsAmbiguous(s, second, o);
    hide OutPointOf;
    var forged := Forgery(s, second);
  }

  /** The second block creates the first one's outpoint again, under another leaf. */
  lemma TwoCreated(depth: nat, leaf: UtxoLeaf, other: UtxoLeaf)
    requires ValidDepth(depth) && OutPointOf(leaf) == OutPointOf(other)
    ensures var o := OutPointOf(leaf);
      var (s1, r1) := ApplyBlock(Genesis(depth), Creating(0, o, leaf), DEFAULT_OPTIONS);
      var (s2, r2) := ApplyBlock(s1, Creating(1, o, other), DEFAULT_OPTIONS);
      && r1.Ok? && r2.Ok? && Usable(s2) && s2.tip == Some(1)
      && s2.forest == [Live(UtxoDigest(leaf)), Live(UtxoDigest(other))] && s2.index == map[o := other]
  {
    hide ApplyBlock, Usable, OutPointOf, Genesis, Creating;
    GenesisUsable(depth);
    var o, g := OutPointOf(leaf), Genesis(depth);
    CreatingStays(g, 0, leaf);
    CreatingStays(ApplyBlock(g, Creating(0, o, leaf), DEFAULT_OPTIONS).0, 1, other);
    assert g.index[o := leaf][o := other] == map[o := other];
  }

  lemma GenesisUsable(depth: nat)
    requires ValidDepth(depth)
    ensures var g := Genesis(depth);
      Histories(g.pools) && Usable(g) && g.forest == [] && g.index == map[] && g.tip == None
  {
    GenesisOk(depth);
    hide PoolsOk, InStep;
  }

  /**
   * A slot left behind: after such two blocks the index has forgotten the first
   * leaf. The third block spends the outpoint, and a bundle that proves the
   * forgotten leaf is accepted.
   */
  lemma ForgedSpend(depth: nat, leaf: UtxoLeaf, other: UtxoLeaf)
    requires ValidDepth(depth) && OutPointOf(leaf) == OutPointOf(other)
    ensures var o := OutPointOf(leaf);
      var (s1, r1) := ApplyBlock(Genesis(depth), Creating(0, o, leaf), DEFAULT_OPTIONS);
      var (s2, r2) := ApplyBlock(s1, Creating(1, o, other), DEFAULT_OPTIONS);
      var third := BlockSummary(2, [o], [], map[], map[]);
      var (after, taken) := ApplyBlock(s2, third, DEFAULT_OPTIONS);
      && r1.Ok? && r2.Ok? && taken.Ok?
      && exists forged ::
        var next := ApplyBundle(CompactOf(s2), third, forged);
        next.Ok? && next != Ok(CompactOf(after))
  {
    TwoCreated(depth, leaf, other);
    var o := OutPointOf(leaf);
    hide ApplyBlock, ApplyBundle, Usable, OutPointOf, Unambiguous, Acceptable;
    var s1 := ApplyBlock(Genesis(depth), Creating(0, o, leaf), DEFAULT_OPTIONS).0;
    var s2 := ApplyBlock(s1, Creating(1, o, other), DEFAULT_OPTIONS).0;
    var third := BlockSummary(2, [o], [], map[], map[]);
    SpendingAccepted(s2, third, o);
    TakenIsAcceptable(s2, third);
    ForgottenSlot(s2, third, leaf, other);
    var forged := Forgery(s2, third);
  }

  /** The third block deletes what the index knew; the forgotten leaf stays in the forest alone. */
  lemma ForgottenStays(s: ChainState, b: BlockSummary, leaf: UtxoLeaf, other: UtxoLeaf)
    requires Usable(s) && ApplyBlock(s, b, DEFAULT_OPTIONS).1.Ok? && OutPointOf(leaf) == OutPointOf(other)
    requires s.forest == [Live(UtxoDigest(leaf)), Live(UtxoDigest(other))] && s.index == map[OutPointOf(leaf) := other]
    requires b.spends == [OutPointOf(leaf)] && b.creates == []
    ensures var after := ApplyBlock(s, b, DEFAULT_OPTIONS).0;
      && PoolsOk(after.depth, after.pools) && after.tip == Some(b.height) && after.index == map[]
      && OutPointOf(leaf) in Standing(after.forest)
  {
    var o := OutPointOf(leaf);
    PoolsStayOk(s, b, DEFAULT_OPTIONS);
    AcceptedExactly(s, b, DEFAULT_OPTIONS);
    assert s.forest[1] == Live(UtxoDigest(other)) && Stale(s, o, 0);
    StaleStays(s, b, o, 0);
    SpentIsIndexed(s, b);
    hide ApplyBlock, Staged, HasRoom, PoolsOk, PoolsFollow, Usable, TransparentStep;
    var after := ApplyBlock(s, b, DEFAULT_OPTIONS).0;
    StandingMeaning(after.forest, o);
    assert Carries(after.forest[0], o);
    assert after.index == map[] by {
      IndexAfterStep(s, b, o);
    }
  }

  lemma IndexAfterStep(s: ChainState, b: BlockSummary, o: OutPoint)
    requires s.index.Keys == {o} && o in Outpoints(SpentBy(s.index, b)) && b.creates == []
    requires TransparentStep(s.forest, s.index, SpentBy(s.index, b), CreatedBy(s.index, b)).Ok?
    ensures TransparentStep(s.forest, s.index, SpentBy(s.index, b), CreatedBy(s.index, b)).value.1 == map[]
  {
    assert CreatedBy(s.index, b) == [];
  }

  /**
   * The same output spent twice: the block after that spends the outpoint once
   * more. The bridge refuses it, but a bundle that proves the forgotten leaf is
   * accepted.
   */
  lemma ForgedSecondSpend(depth: nat, leaf: UtxoLeaf, other: UtxoLeaf)
    requires ValidDepth(depth) && OutPointOf(leaf) == OutPointOf(other)
    ensures var o := OutPointOf(leaf);
      var (s1, r1) := ApplyBlock(Genesis(depth), Creating(0, o, leaf), DEFAULT_OPTIONS);
      var (s2, r2) := ApplyBlock(s1, Creating(1, o, other), DEFAULT_OPTIONS);
      var (s3, r3) := ApplyBlock(s2, BlockSummary(2, [o], [], map[], map[]), DEFAULT_OPTIONS);
      var fourth := BlockSummary(3, [o], [], map[], map[]);
      && r1.Ok? && r2.Ok? && r3.Ok? && ApplyBlock(s3, fourth, DEFAULT_OPTIONS).1.Err?
      && exists forged :: ApplyBundle(CompactOf(s3), fourth, forged).Ok?
  {
    TwoCreated(depth, leaf, other);
    var o := OutPointOf(leaf);
    hide ApplyBlock, ApplyBundle, Usable, OutPointOf, PoolsOk;
    var s1 := ApplyBlock(Genesis(depth), Creating(0, o, leaf), DEFAULT_OPTIONS).0;
    var s2 := ApplyBlock(s1, Creating(1, o, other), DEFAULT_OPTIONS).0;
    var third, fourth := BlockSummary(2, [o], [], map[], map[]), BlockSummary(3, [o], [], map[], map[]);
    SpendingAccepted(s2, third, o);
    ForgottenStays(s2, third, leaf, other);
    SecondSpend(ApplyBlock(s2, third, DEFAULT_OPTIONS).0, fourth, o);
  }

  lemma SecondSpend(s: ChainState, b: BlockSummary, o: OutPoint)
    requires PoolsOk(s.depth, s.pools) && InOrder(s.tip, b.height, true) && s.index == map[] && o in Standing(s.forest)
    requires b.spends == [o] && b.creates == [] && b.nullifiers == map[]
    ensures ApplyBlock(s, b, DEFAULT_OPTIONS).1.Err?
    ensures exists forged :: ApplyBundle(CompactOf(s), b, forged).Ok?
  {
    NothingToPut(s, b);
    AcceptedExactly(s, b, DEFAULT_OPTIONS);
    hide ApplyBlock, ApplyBundle, Standing, TransparentStep, HasRoom, NullifiersNew, PoolsOk;
    assert !Staged(s, b, DEFAULT_OPTIONS) by {
      assert b.spends[0] == o;
    }
    var forged := AcceptableAccepted(s, b);
  }
}
