// Where soundness ends: spends that can mean two outputs, and the bundles that
// pass them off as the wrong one.
module CsnForgery {
  import opened Wrappers
  import opened Hashing
  import opened LinkedSet
  import opened ImtProofs
  import opened Transparent
  import opened Chain
  import opened ChainProofs
  import opened Transition
  import opened Bundle
  import opened Csn
  import opened CsnProofs
  import opened CsnTheorems

  // ---- which blocks a compact node accepts with some bundle ----

  /** Everything a block is accepted for besides its spends. */
  ghost predicate Ready(s: ChainState, b: BlockSummary) {
    InOrder(s.tip, b.height, true) && NullifiersNew(s.pools, b) && HasRoom(s, b)
  }

  ghost predicate Distinct(spends: seq<OutPoint>) {
    forall i, j :: 0 <= i < j < |spends| ==> spends[i] != spends[j]
  }

  /** The outpoints under which a live slot stands, indexed or not. */
  function Standing(forest: Forest): set<OutPoint> {
    set i | 0 <= i < |forest| && forest[i].Live? && forest[i].digest.UtxoDigest? :: OutPointOf(forest[i].digest.utxo)
  }

  lemma StandingMeaning(forest: Forest, o: OutPoint)
    ensures o in Standing(forest) <==> exists i :: 0 <= i < |forest| && Carries(forest[i], o)
  {
  }

  /** Ready, no spend named twice, and each spend of an output in the forest or of this block. */
  ghost predicate Acceptable(s: ChainState, b: BlockSummary) {
    && Ready(s, b) && Distinct(b.spends)
    && forall o {:trigger o in b.spends} :: o in b.spends ==> o in Standing(s.forest) || o in b.Created()
  }

  // ---- a bundle read off some other index ----

  /** Positions that prove the spends `seen` knows of. */
  ghost predicate Proves(forest: Forest, spent: Outputs, targets: seq<nat>) {
    && |targets| == |spent|
    && forall i {:trigger targets[i]} :: 0 <= i < |targets| ==>
      targets[i] < |forest| && forest[targets[i]] == Live(UtxoDigest(spent[i].1))
  }

  /** The insertions the bridge would record for the block. */
  function Recordable(s: ChainState, b: BlockSummary): StateDelta
    requires Histories(s.pools)
  {
    var put := PutPools(s.depth, s.pools, b, |ALL_POOLS|).1;
    StateDelta(b.height, [], [], if put.Ok? then put.value else map[], b.commitments)
  }

  /** What a bridge with the index `seen` would have served. */
  function BundleSeen(s: ChainState, b: BlockSummary, seen: Index, targets: seq<nat>): BlockProofBundle
    requires Histories(s.pools)
  {
    BundleOf(b.height, s.depth, IndexedSpends(seen, b.spends, |b.spends|), targets, Recordable(s, b))
  }

  /** The created outpoints a walk over such a bundle takes as cancelled. */
  function CancelledSeen(b: BlockSummary, seen: Index): set<OutPoint> {
    set o | o in b.spends && o !in seen && o in b.Created()
  }

  lemma SeenSpends(s: ChainState, b: BlockSummary, seen: Index, targets: seq<nat>)
    requires Histories(s.pools) && OwnOutPoints(seen) && Distinct(b.spends)
    requires forall o :: o in b.spends && o !in b.Created() ==> o in seen
    requires Proves(s.forest, IndexedSpends(seen, b.spends, |b.spends|), targets)
    ensures var bundle := BundleSeen(s, b, seen, targets);
      && MatchSpends(b.Created(), b.height, b.spends, bundle.spent, |b.spends|)
        == Ok(Matched(|bundle.spent|, CancelledSeen(b, seen)))
      && Verifies(s.forest, bundle.targets, bundle.SpentHashes())
  {
    var bundle := BundleSeen(s, b, seen, targets);
    hide Recordable;
    HonestMatches(seen, b.Created(), b.height, b.spends, bundle.spent, |b.spends|);
    assert b.spends[..|b.spends|] == b.spends;
    var matched := MatchSpends(b.Created(), b.height, b.spends, bundle.spent, |b.spends|).value;
    assert matched.cancelled == CancelledSeen(b, seen);
  }

  lemma SeenStages(s: ChainState, b: BlockSummary, seen: Index, targets: seq<nat>)
    requires PoolsOk(s.depth, s.pools) && NullifiersNew(s.pools, b) && HasRoom(s, b)
    ensures var bundle := BundleSeen(s, b, seen, targets);
      StageProofs(CompactOf(s), b, bundle, |ALL_POOLS|).Ok? && Unexpected(b, bundle, |ALL_POOLS|) == None
  {
    PutMeaning(s.depth, s.pools, b, |ALL_POOLS|);
    PutRecords(s.depth, s.pools, b, |ALL_POOLS|);
    hide StageProofs, Unexpected, StateOf, PoolTakes, IndexedSpends, PutPools, History;
    var bundle := BundleSeen(s, b, seen, targets);
    HonestInsertions(s, b, bundle, Recordable(s, b));
    StageProofsExact(s, b, bundle, |ALL_POOLS|);
  }

  /** The slots a node is left with. */
  function SlotsSeen(s: ChainState, b: BlockSummary, seen: Index, targets: seq<nat>): Forest {
    var additions := Digests(Surviving(b.creates, CancelledSeen(b, seen)));
    if IndexedSpends(seen, b.spends, |b.spends|) == [] then Append(s.forest, additions)
    else Append(Tombstone(s.forest, targets), additions)
  }

  /** A compact node accepts such a bundle. */
  lemma SeenAccepted(s: ChainState, b: BlockSummary, seen: Index, targets: seq<nat>)
    requires PoolsOk(s.depth, s.pools) && Ready(s, b) && Distinct(b.spends) && OwnOutPoints(seen)
    requires forall o :: o in b.spends && o !in b.Created() ==> o in seen
    requires Proves(s.forest, IndexedSpends(seen, b.spends, |b.spends|), targets)
    ensures var next := ApplyBundle(CompactOf(s), b, BundleSeen(s, b, seen, targets));
      next.Ok? && next.value.utxos == SlotsSeen(s, b, seen, targets)
  {
    SeenSpends(s, b, seen, targets);
    SeenStages(s, b, seen, targets);
    hide MatchSpends, StageProofs, Unexpected, StateOf, IndexedSpends, Surviving, Verifies, Recordable, History;
  }

  /** What the bridge takes is ready, and its spends are indexed or created. */
  lemma TakenIsReady(s: ChainState, b: BlockSummary)
    requires PoolsOk(s.depth, s.pools) && ApplyBlock(s, b, DEFAULT_OPTIONS).1.Ok?
    ensures Ready(s, b) && Distinct(b.spends) && SpendsKnown(s, b)
  {
    AcceptedExactly(s, b, DEFAULT_OPTIONS);
    hide ApplyBlock, TransparentStep, NullifiersNew, HasRoom, PoolsOk;
  }

  /** Some slot that stands under `o`. */
  ghost function SlotOf(forest: Forest, o: OutPoint): (i: nat)
    requires o in Standing(forest)
    ensures i < |forest| && Carries(forest[i], o)
  {
    StandingMeaning(forest, o);
    var i: nat :| i < |forest| && Carries(forest[i], o);
    i
  }

  /** Every spend that stands in the forest, proved by some slot of its own. */
  lemma AcceptableAccepted(s: ChainState, b: BlockSummary) returns (bundle: BlockProofBundle)
    requires PoolsOk(s.depth, s.pools) && Acceptable(s, b)
    ensures ApplyBundle(CompactOf(s), b, bundle).Ok?
  {
    var seen: Index := map o | o in b.spends && o in Standing(s.forest) :: s.forest[SlotOf(s.forest, o)].digest.utxo;
    var spent := IndexedSpends(seen, b.spends, |b.spends|);
    IndexedSpendsAreIndexed(seen, b.spends, |b.spends|);
    var targets := seq(|spent|, i requires 0 <= i < |spent| =>
      if spent[i].0 in Standing(s.forest) then SlotOf(s.forest, spent[i].0) else 0);
    forall i | 0 <= i < |targets|
      ensures targets[i] < |s.forest| && s.forest[targets[i]] == Live(UtxoDigest(spent[i].1))
    {
      assert spent[i].0 in seen && seen[spent[i].0] == spent[i].1;
    }
    hide Standing, PoolsOk, Ready, Distinct, ApplyBundle, IndexedSpends;
    SeenAccepted(s, b, seen, targets);
    bundle := BundleSeen(s, b, seen, targets);
  }

  /** A successful walk leaves no spend unaccounted for, and names none twice. */
  lemma {:induction false} WalkAccounts(created: set<OutPoint>, height: Height, spends: seq<OutPoint>,
          leaves: seq<UtxoLeaf>, n: nat, shown: set<OutPoint>)
    requires n <= |spends| && MatchSpends(created, height, spends, leaves, n).Ok?
    requires forall i {:trigger leaves[i]} :: 0 <= i < |leaves| ==> OutPointOf(leaves[i]) in shown
    ensures Distinct(spends[..n]) && forall i :: 0 <= i < n ==> spends[i] in shown || spends[i] in created
  {
    if n > 0 {
      WalkAccounts(created, height, spends, leaves, n - 1, shown);
      assert forall i :: 0 <= i < n - 1 ==> spends[i] == spends[..n - 1][i];
      var prev := MatchSpends(created, height, spends, leaves, n - 1).value;
      if prev.cursor < |leaves| && LeafMatches(leaves[prev.cursor], spends[n - 1]) {
        assert OutPointOf(leaves[prev.cursor]) == spends[n - 1];
      }
    }
  }

  lemma ShownStand(forest: Forest, bundle: BlockProofBundle)
    requires bundle.spent != [] ==> Verifies(forest, bundle.targets, bundle.SpentHashes())
    ensures forall i {:trigger bundle.spent[i]} :: 0 <= i < |bundle.spent| ==>
      OutPointOf(bundle.spent[i]) in Standing(forest)
  {
    forall i | 0 <= i < |bundle.spent|
      ensures OutPointOf(bundle.spent[i]) in Standing(forest)
    {
      assert forest[bundle.targets[i]] == Live(bundle.SpentHashes()[i]);
      StandingMeaning(forest, OutPointOf(bundle.spent[i]));
      assert Carries(forest[bundle.targets[i]], OutPointOf(bundle.spent[i]));
    }
  }

  lemma AcceptedIsAcceptable(s: ChainState, b: BlockSummary, bundle: BlockProofBundle)
    requires PoolsOk(s.depth, s.pools) && ApplyBundle(CompactOf(s), b, bundle).Ok?
    ensures Acceptable(s, b)
  {
    hide MatchSpends, StageProofs, Unexpected, Verifies, StateOf, PoolTakes, Standing, PoolsOk, Modify, Surviving;
    ShownStand(s.forest, bundle);
    WalkAccounts(b.Created(), b.height, b.spends, bundle.spent, |b.spends|, Standing(s.forest));
    assert b.spends[..|b.spends|] == b.spends;
    StageProofsExact(s, b, bundle, |ALL_POOLS|);
    AcceptedBundleStages(s, b, bundle);
  }

  /**
   * The blocks a compact node can be brought to accept at all, exactly. Whether
   * the bridge knows a spend is not asked: only whether some live slot stands
   * under its outpoint, or the block creates it.
   */
  lemma AcceptableExactly(s: ChainState, b: BlockSummary)
    requires PoolsOk(s.depth, s.pools)
    ensures Acceptable(s, b) <==>
      exists bundle {:trigger ApplyBundle(CompactOf(s), b, bundle)} :: ApplyBundle(CompactOf(s), b, bundle).Ok?
  {
    if Acceptable(s, b) {
      var bundle := AcceptableAccepted(s, b);
    }
    hide ApplyBundle, Acceptable;
    if bundle :| ApplyBundle(CompactOf(s), b, bundle).Ok? {
      AcceptedIsAcceptable(s, b, bundle);
    }
  }

  // ---- an indexed spend passed off as cancelled ----

  lemma {:induction false} FewerSurvive(creates: Outputs, few: set<OutPoint>, more: set<OutPoint>, o: OutPoint, n: nat)
    requires n <= |creates| && few <= more && o in more && o !in few
    ensures |SurvivingUpTo(creates, more, n)| <= |SurvivingUpTo(creates, few, n)|
    ensures (exists i :: 0 <= i < n && creates[i].0 == o) ==>
      |SurvivingUpTo(creates, more, n)| < |SurvivingUpTo(creates, few, n)|
  {
    if n > 0 {
      FewerSurvive(creates, few, more, o, n - 1);
      if i :| 0 <= i < n && creates[i].0 == o {
        assert i < n - 1 || creates[n - 1].0 == o;
      }
    }
  }

  lemma PositionsProve(s: ChainState, spent: Outputs)
    requires Usable(s) && SpentFrom(s.index, spent)
    ensures Proves(s.forest, spent, Positions(s.forest, Digests(spent)))
  {
    DeletionKeepsSpendable(s.forest, s.index, spent);
    var digests := Digests(spent);
    forall i | 0 <= i < |spent|
      ensures Positions(s.forest, digests)[i] < |s.forest|
      ensures s.forest[Positions(s.forest, digests)[i]] == Live(UtxoDigest(spent[i].1))
    {
      assert Live(digests[i]) in s.forest;
    }
  }

  /** The positions a respend bundle proves: every spend but those the block creates. */
  function RespendTargets(s: ChainState, b: BlockSummary): seq<nat> {
    Positions(s.forest, Digests(IndexedSpends(s.index - b.Created(), b.spends, |b.spends|)))
  }

  /** Forgery by respend: what the block creates is called cancelled, indexed or not. */
  lemma RespendForged(s: ChainState, b: BlockSummary)
    requires Usable(s) && ApplyBlock(s, b, DEFAULT_OPTIONS).1.Ok? && !NoRespend(s.index, b.Created(), b.spends)
    ensures var after := ApplyBlock(s, b, DEFAULT_OPTIONS).0;
      var bundle := BundleSeen(s, b, s.index - b.Created(), RespendTargets(s, b));
      var forged := ApplyBundle(CompactOf(s), b, bundle);
      forged.Ok? && forged != Ok(CompactOf(after))
  {
    var seen := s.index - b.Created();
    IndexedSpendsAreIndexed(seen, b.spends, |b.spends|);
    PositionsProve(s, IndexedSpends(seen, b.spends, |b.spends|));
    AcceptedExactly(s, b, DEFAULT_OPTIONS);
    TakenIsReady(s, b);
    SeenAccepted(s, b, seen, RespendTargets(s, b));
    var after := ApplyBlock(s, b, DEFAULT_OPTIONS).0;
    assert |after.forest| == |s.forest| + |CreatedBy(s.index, b)|;
    RespendFallsShort(s, b);
    hide *;
    assert |CompactOf(after).utxos| == |after.forest| by {
      CompactForest(after);
    }
  }

  lemma CompactForest(s: ChainState)
    ensures CompactOf(s).utxos == s.forest
  {
  }

  lemma RespendFallsShort(s: ChainState, b: BlockSummary)
    requires !NoRespend(s.index, b.Created(), b.spends)
    ensures |SlotsSeen(s, b, s.index - b.Created(), RespendTargets(s, b))| < |s.forest| + |CreatedBy(s.index, b)|
  {
    var o :| o in b.spends && o in s.index && o in b.Created();
    var x :| x in b.creates && x.0 == o;
    FewerSurvive(b.creates, Cancelled(s.index, b), CancelledSeen(b, s.index - b.Created()), o, |b.creates|);
  }

  // ---- a stale slot passed off as the output spent ----

  /** Slot `i` stands under `o`, but is not where the index's own output is found. */
  ghost predicate Stale(s: ChainState, o: OutPoint, i: nat) {
    && i < |s.forest| && Carries(s.forest[i], o)
    && !(o in s.index && i == NewestLive(s.forest, UtxoDigest(s.index[o])))
  }

  /** The index with the stale output under its outpoint. */
  function SeenStale(s: ChainState, o: OutPoint, i: nat): Index
    requires i < |s.forest| && Carries(s.forest[i], o)
  {
    s.index[o := s.forest[i].digest.utxo]
  }

  function StaleTargets(s: ChainState, b: BlockSummary, o: OutPoint, i: nat): (targets: seq<nat>)
    requires i < |s.forest| && Carries(s.forest[i], o)
  {
    var spent := IndexedSpends(SeenStale(s, o, i), b.spends, |b.spends|);
    seq(|spent|, j requires 0 <= j < |spent| =>
      if spent[j].0 == o then i else NewestLive(s.forest, UtxoDigest(spent[j].1)))
  }

  lemma StaleProves(s: ChainState, b: BlockSummary, o: OutPoint, i: nat)
    requires Usable(s) && Stale(s, o, i) && o in b.spends
    ensures var spent := IndexedSpends(SeenStale(s, o, i), b.spends, |b.spends|);
      && Proves(s.forest, spent, StaleTargets(s, b, o, i))
      && spent != [] && i in StaleTargets(s, b, o, i)
  {
    var seen, targets := SeenStale(s, o, i), StaleTargets(s, b, o, i);
    var spent := IndexedSpends(seen, b.spends, |b.spends|);
    IndexedSpendsAreIndexed(seen, b.spends, |b.spends|);
    forall j | 0 <= j < |spent|
      ensures targets[j] < |s.forest| && s.forest[targets[j]] == Live(UtxoDigest(spent[j].1))
    {
      assert spent[j].0 in seen && seen[spent[j].0] == spent[j].1;
    }
    assert o in Outpoints(spent) by {
      assert b.spends[..|b.spends|] == b.spends;
    }
    var x :| x in spent && x.0 == o;
    var j :| 0 <= j < |spent| && spent[j] == x;
    assert targets[j] == i;
  }

  /** The bridge deletes its own outputs, so the stale slot stays. */
  lemma StaleStays(s: ChainState, b: BlockSummary, o: OutPoint, i: nat)
    requires Usable(s) && Stale(s, o, i)
    ensures TransparentStep(s.forest, s.index, SpentBy(s.index, b), CreatedBy(s.index, b)).Ok?
    ensures var kept := TransparentStep(s.forest, s.index, SpentBy(s.index, b), CreatedBy(s.index, b)).value.0;
      i < |kept| && kept[i] == s.forest[i]
  {
    var spent, created := SpentBy(s.index, b), CreatedBy(s.index, b);
    SpentIsIndexed(s, b);
    PositionsProve(s, spent);
    DeletionKeepsSpendable(s.forest, s.index, spent);
    var targets := Positions(s.forest, Digests(spent));
    forall j | 0 <= j < |targets|
      ensures targets[j] != i
    {
      assert s.forest[targets[j]] == Live(UtxoDigest(spent[j].1));
      assert spent[j].0 in s.index && s.index[spent[j].0] == spent[j].1;
    }
    assert Tombstone(s.forest, targets)[i] == s.forest[i];
  }

  /** Forgery by a stale slot: the wrong output is deleted, with a proof that verifies. */
  lemma StaleForged(s: ChainState, b: BlockSummary, o: OutPoint, i: nat)
    requires Usable(s) && ApplyBlock(s, b, DEFAULT_OPTIONS).1.Ok? && Stale(s, o, i) && o in b.spends
    ensures var after := ApplyBlock(s, b, DEFAULT_OPTIONS).0;
      var bundle := BundleSeen(s, b, SeenStale(s, o, i), StaleTargets(s, b, o, i));
      var forged := ApplyBundle(CompactOf(s), b, bundle);
      forged.Ok? && forged != Ok(CompactOf(after))
  {
    var seen, targets := SeenStale(s, o, i), StaleTargets(s, b, o, i);
    AcceptedExactly(s, b, DEFAULT_OPTIONS);
    TakenIsReady(s, b);
    StaleProves(s, b, o, i);
    SeenAccepted(s, b, seen, targets);
    StaleStays(s, b, o, i);
    var after := ApplyBlock(s, b, DEFAULT_OPTIONS).0;
    assert after.forest[i] == s.forest[i] && s.forest[i] != Dead;
    assert i < |SlotsSeen(s, b, seen, targets)| && SlotsSeen(s, b, seen, targets)[i] == Dead;
    CompactForest(after);
    hide *;
  }

  // ---- the exact condition ----

  /** A block the bridge takes can be proved to a compact node. */
  lemma TakenIsAcceptable(s: ChainState, b: BlockSummary)
    requires Usable(s) && ApplyBlock(s, b, DEFAULT_OPTIONS).1.Ok?
    ensures Acceptable(s, b)
  {
    TakenIsReady(s, b);
    forall o | o in b.spends
      ensures o in Standing(s.forest) || o in b.Created()
    {
      if o in s.index {
        var i :| 0 <= i < |s.forest| && s.forest[i] == Live(UtxoDigest(s.index[o]));
        assert Carries(s.forest[i], o);
        StandingMeaning(s.forest, o);
      }
    }
  }

  /** Accepting this bundle, a compact node does what the bridge does. */
  ghost predicate AgreesWithBridge(s: ChainState, b: BlockSummary, bundle: BlockProofBundle) {
    && Histories(s.pools)
    && var (after, r) := ApplyBlock(s, b, DEFAULT_OPTIONS);
    var next := ApplyBundle(CompactOf(s), b, bundle);
    next.Ok? ==> r.Ok? && next.value == CompactOf(after)
  }

  /** No bundle has a meaning of its own: each spend can mean one output only, or none is accepted. */
  ghost predicate OneMeaning(s: ChainState, b: BlockSummary) {
    Unambiguous(s, b) || !Acceptable(s, b)
  }

  /**
   * The hypothesis of soundness is exact. On a usable state, and for any block,
   * every accepted bundle means that the bridge takes the block and reaches the
   * same roots, if and only if each spend can mean one output only or no bundle
   * can be accepted.
   */
  lemma SoundExactly(s: ChainState, b: BlockSummary)
    requires Usable(s)
    ensures OneMeaning(s, b) <==>
      forall bundle {:trigger AgreesWithBridge(s, b, bundle)} :: AgreesWithBridge(s, b, bundle)
  {
    hide *;
    if OneMeaning(s, b) {
      forall bundle
        ensures AgreesWithBridge(s, b, bundle)
      {
        MeaningIsBridges(s, b, bundle);
      }
    } else {
      var bundle := Forgery(s, b);
    }
  }

  lemma MeaningIsBridges(s: ChainState, b: BlockSummary, bundle: BlockProofBundle)
    requires Usable(s) && OneMeaning(s, b)
    ensures AgreesWithBridge(s, b, bundle)
  {
    assert PoolsOk(s.depth, s.pools);
    hide ApplyBundle, ApplyBlock, Acceptable, PoolsOk, OwnSlots, CompactOf;
    if ApplyBundle(CompactOf(s), b, bundle).Ok? {
      AcceptedIsAcceptable(s, b, bundle);
      CompactSound(s, b, bundle);
    }
  }

  /** Some bundle leads elsewhere, or is accepted for a block the bridge refuses. */
  lemma Forgery(s: ChainState, b: BlockSummary) returns (bundle: BlockProofBundle)
    requires Usable(s) && !OneMeaning(s, b)
    ensures !AgreesWithBridge(s, b, bundle)
  {
    assert PoolsOk(s.depth, s.pools);
    hide ApplyBundle, ApplyBlock, Acceptable, PoolsOk, OwnSlots, NoRespend, Stale, CompactOf, BundleSeen;
    if ApplyBlock(s, b, DEFAULT_OPTIONS).1.Err? {
      bundle := AcceptableAccepted(s, b);
    } else if !NoRespend(s.index, b.Created(), b.spends) {
      RespendForged(s, b);
      bundle := BundleSeen(s, b, s.index - b.Created(), RespendTargets(s, b));
    } else {
      bundle := StaleForgery(s, b);
    }
  }

  lemma StaleForgery(s: ChainState, b: BlockSummary) returns (bundle: BlockProofBundle)
    requires Usable(s) && ApplyBlock(s, b, DEFAULT_OPTIONS).1.Ok? && !OwnSlots(s, b)
    ensures !AgreesWithBridge(s, b, bundle)
  {
    hide ApplyBundle, ApplyBlock;
    var o :| o in b.spends && !OnlyOwnSlot(s.forest, s.index, o);
    var i: nat :| i < |s.forest| && Carries(s.forest[i], o)
      && !(o in s.index && i == NewestLive(s.forest, UtxoDigest(s.index[o])));
    StaleForged(s, b, o, i);
    bundle := BundleSeen(s, b, SeenStale(s, o, i), StaleTargets(s, b, o, i));
  }
}
