// What an accepted block leaves behind, slot by slot and entry by entry.
module Effects {
  import opened Wrappers
  import opened Hashing
  import opened Transparent
  import opened Chain
  import opened ChainProofs
  import opened Transition

  // ---- block order ----

  /** How many of the first `i` created outputs are not cancelled. */
  function Rank(creates: Outputs, cancelled: set<OutPoint>, i: nat): nat
    requires i <= |creates|
  {
    if i == 0 then 0
    else Rank(creates, cancelled, i - 1) + if creates[i - 1].0 in cancelled then 0 else 1
  }

  /** How many of the first `k` spends are indexed. */
  function SpendRank(index: Index, spends: seq<OutPoint>, k: nat): nat
    requires k <= |spends|
  {
    if k == 0 then 0 else SpendRank(index, spends, k - 1) + if spends[k - 1] in index then 1 else 0
  }

  /** Surviving outputs are the created ones that are not cancelled, in block order, each once. */
  lemma {:induction false} SurvivingInOrder(creates: Outputs, cancelled: set<OutPoint>, n: nat)
    requires n <= |creates|
    ensures |SurvivingUpTo(creates, cancelled, n)| == Rank(creates, cancelled, n)
    ensures forall i {:trigger Rank(creates, cancelled, i)} :: 0 <= i < n && creates[i].0 !in cancelled ==>
      && Rank(creates, cancelled, i) < Rank(creates, cancelled, n)
      && SurvivingUpTo(creates, cancelled, n)[Rank(creates, cancelled, i)] == creates[i]
  {
    if n > 0 {
      SurvivingInOrder(creates, cancelled, n - 1);
    }
  }

  /** Deleted outputs are the indexed ones spent, in spend order, each once. */
  lemma {:induction false} IndexedInOrder(index: Index, spends: seq<OutPoint>, n: nat)
    requires n <= |spends|
    ensures |IndexedSpends(index, spends, n)| == SpendRank(index, spends, n)
    ensures forall k {:trigger SpendRank(index, spends, k)} :: 0 <= k < n && spends[k] in index ==>
      && SpendRank(index, spends, k) < SpendRank(index, spends, n)
      && IndexedSpends(index, spends, n)[SpendRank(index, spends, k)] == (spends[k], index[spends[k]])
  {
    if n > 0 {
      IndexedInOrder(index, spends, n - 1);
    }
  }

  /** Where the block's created output `i` stands among those that survive. */
  function RankIn(s: ChainState, b: BlockSummary, i: nat): nat
    requires i <= |b.creates|
  {
    Rank(b.creates, Cancelled(s.index, b), i)
  }

  /** The delta of an accepted block lists what it spent and created, in block order. */
  lemma DeltaInOrder(s: ChainState, b: BlockSummary, options: ApplyOptions)
    requires PoolsOk(s.depth, s.pools) && ApplyBlock(s, b, options).1.Ok?
    ensures var delta := ApplyBlock(s, b, options).1.value.delta;
      && |delta.created| == RankIn(s, b, |b.creates|)
      && (forall i {:trigger RankIn(s, b, i)} :: 0 <= i < |b.creates| && b.creates[i].0 !in Cancelled(s.index, b) ==>
        RankIn(s, b, i) < |delta.created| && delta.created[RankIn(s, b, i)] == b.creates[i])
      && |delta.spent| == SpendRank(s.index, b.spends, |b.spends|)
      && forall k {:trigger b.spends[k]} :: 0 <= k < |b.spends| && b.spends[k] in s.index ==>
        var rank := SpendRank(s.index, b.spends, k);
        rank < |delta.spent| && delta.spent[rank] == (b.spends[k], s.index[b.spends[k]])
  {
    AcceptedExactly(s, b, options);
    SurvivingInOrder(b.creates, Cancelled(s.index, b), |b.creates|);
    IndexedInOrder(s.index, b.spends, |b.spends|);
    hide ApplyBlock, Staged, HasRoom, TransparentStep, PoolsFollow, Cancelled, Rank, SpendRank, UnknownBy;
  }

  // ---- the forest ----

  /** The block spends the indexed output that stands newest in slot `i`. */
  ghost predicate SpentSlot(s: ChainState, b: BlockSummary, i: nat) {
    exists k {:trigger b.spends[k]} ::
      0 <= k < |b.spends| && b.spends[k] in s.index && i == NewestLive(s.forest, UtxoDigest(s.index[b.spends[k]]))
  }

  lemma SpentSlots(s: ChainState, b: BlockSummary, i: nat)
    ensures i in Positions(s.forest, Digests(SpentBy(s.index, b))) <==> SpentSlot(s, b, i)
  {
    var spent := SpentBy(s.index, b);
    var targets := Positions(s.forest, Digests(spent));
    SpentIsIndexed(s, b);
    if i in targets {
      var j :| 0 <= j < |targets| && targets[j] == i;
      assert spent[j] in spent;
      assert spent[j].0 in b.spends && s.index[spent[j].0] == spent[j].1;
      var k :| 0 <= k < |b.spends| && b.spends[k] == spent[j].0;
    }
    if SpentSlot(s, b, i) {
      var k :| 0 <= k < |b.spends| && b.spends[k] in s.index
        && i == NewestLive(s.forest, UtxoDigest(s.index[b.spends[k]]));
      assert b.spends[k] in Outpoints(spent);
      var x :| x in spent && x.0 == b.spends[k];
      var j :| 0 <= j < |spent| && spent[j] == x;
      assert targets[j] == i;
    }
  }

  lemma StepSlots(forest: Forest, index: Index, spent: Outputs, created: Outputs)
    requires TransparentStep(forest, index, spent, created).Ok?
    ensures var after := TransparentStep(forest, index, spent, created).value.0;
      && |after| == |forest| + |created|
      && (forall i {:trigger after[i]} :: 0 <= i < |forest| ==>
        after[i] == if i in Positions(forest, Digests(spent)) then Dead else forest[i])
      && forall j {:trigger created[j]} :: 0 <= j < |created| ==>
        after[|forest| + j] == Live(UtxoDigest(created[j].1))
  {
    var after := TransparentStep(forest, index, spent, created).value.0;
    var kept := if spent != [] then Tombstone(forest, Positions(forest, Digests(spent))) else forest;
    assert after == if created != [] then Append(kept, Digests(created)) else kept;
    hide TransparentStep, NewestLive;
  }

  /**
   * The forest after an accepted block, slot by slot: the slots of what it spent
   * are dead, every other old slot is as it was, and the outputs it created
   * and did not cancel follow in block order.
   */
  lemma ForestAfter(s: ChainState, b: BlockSummary, options: ApplyOptions)
    requires PoolsOk(s.depth, s.pools) && ApplyBlock(s, b, options).1.Ok?
    ensures var after := ApplyBlock(s, b, options).0;
      && |after.forest| == |s.forest| + RankIn(s, b, |b.creates|)
      && (forall i {:trigger after.forest[i]} :: 0 <= i < |s.forest| ==>
        after.forest[i] == if SpentSlot(s, b, i) then Dead else s.forest[i])
      && forall i {:trigger RankIn(s, b, i)} :: 0 <= i < |b.creates| && b.creates[i].0 !in Cancelled(s.index, b) ==>
        && |s.forest| + RankIn(s, b, i) < |after.forest|
        && after.forest[|s.forest| + RankIn(s, b, i)] == Live(UtxoDigest(b.creates[i].1))
  {
    AcceptedExactly(s, b, options);
    SurvivingInOrder(b.creates, Cancelled(s.index, b), |b.creates|);
    forall i: nat
      ensures i in Positions(s.forest, Digests(SpentBy(s.index, b))) <==> SpentSlot(s, b, i)
    {
      SpentSlots(s, b, i);
    }
    StepSlots(s.forest, s.index, SpentBy(s.index, b), CreatedBy(s.index, b));
    hide ApplyBlock, Staged, HasRoom, PoolsFollow, PoolsOk, Cancelled, Rank, UnknownBy, SpentSlot, Positions,
      TransparentStep;
  }

  // ---- the index ----

  /** Among the first `n` outputs, `(o, leaf)` is the last under its outpoint. */
  ghost predicate LastUnder(outputs: Outputs, n: nat, o: OutPoint, leaf: UtxoLeaf)
    requires n <= |outputs|
  {
    exists i {:trigger outputs[i]} ::
      0 <= i < n && outputs[i] == (o, leaf) && forall j {:trigger outputs[j]} :: i < j < n ==> outputs[j].0 != o
  }

  predicate Names(outputs: Outputs, n: nat, o: OutPoint)
    requires n <= |outputs|
  {
    exists i {:trigger outputs[i]} :: 0 <= i < n && outputs[i].0 == o
  }

  lemma {:induction false} RecordedReads(index: Index, a: Outputs, b: Outputs, n: nat)
    requires n <= |a| && n <= |b| && a[..n] == b[..n]
    ensures Recorded(index, a, n) == Recorded(index, b, n)
  {
    if n > 0 {
      assert a[..n][n - 1] == b[..n][n - 1] && a[..n - 1] == a[..n][..n - 1] && b[..n - 1] == b[..n][..n - 1];
      RecordedReads(index, a, b, n - 1);
    }
  }

  /** Recording what survives keeps, under each outpoint, the last output created. */
  lemma {:induction false} SurvivorsRecorded(index: Index, creates: Outputs, cancelled: set<OutPoint>, n: nat,
          o: OutPoint)
    requires n <= |creates|
    ensures var created := SurvivingUpTo(creates, cancelled, n);
      var after := Recorded(index, created, |created|);
      if Names(creates, n, o) && o !in cancelled then o in after && LastUnder(creates, n, o, after[o])
      else (o in after <==> o in index) && (o in index ==> after[o] == index[o])
  {
    if n > 0 {
      SurvivorsRecorded(index, creates, cancelled, n - 1, o);
      var x := creates[n - 1];
      var before := SurvivingUpTo(creates, cancelled, n - 1);
      if x.0 !in cancelled {
        RecordedReads(index, before, before + [x], |before|);
      }
      assert creates[n - 1] == x;
    }
  }

  /**
   * The index after an accepted block, entry by entry: an outpoint created and
   * not cancelled holds the last output created under it; every other entry is
   * as it was, unless it was spent.
   */
  lemma IndexAfter(s: ChainState, b: BlockSummary, options: ApplyOptions, o: OutPoint)
    requires PoolsOk(s.depth, s.pools) && ApplyBlock(s, b, options).1.Ok?
    ensures var after := ApplyBlock(s, b, options).0.index;
      if Names(b.creates, |b.creates|, o) && o !in Cancelled(s.index, b) then
        o in after && LastUnder(b.creates, |b.creates|, o, after[o])
      else (o in after <==> o in s.index && o !in b.spends) && (o in after ==> after[o] == s.index[o])
  {
    AcceptedExactly(s, b, options);
    SpentIsIndexed(s, b);
    SurvivorsRecorded(s.index - Outpoints(SpentBy(s.index, b)), b.creates, Cancelled(s.index, b), |b.creates|, o);
    hide ApplyBlock, Staged, HasRoom, PoolsFollow, Cancelled, UnknownBy, Recorded, LastUnder, Names, Delete, Append;
  }
}
