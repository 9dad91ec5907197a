// The rollback journal as an object that is pushed, pruned and unwound in place.
module JournalClass {
  import opened Wrappers
  import opened Hashing
  import opened LinkedSet
  import opened Imt
  import opened Transparent
  import opened Chain
  import opened Accumulators
  import opened Rollback

  class RollbackJournal {
    const interval: nat
    const maxDepth: nat
    var snapshots: seq<Snapshot>
    var deltas: seq<StateDelta>

    ghost predicate Valid() {
      interval > 0
    }

    function Model(): Journal
      reads this
    {
      Journal(interval, maxDepth, snapshots, deltas)
    }

    /** Snapshots are at least one block apart. */
    constructor (interval: nat, maxDepth: nat)
      ensures Valid() && Model() == EmptyJournal(interval, maxDepth)
    {
      this.interval := if interval == 0 then 1 else interval;
      this.maxDepth := maxDepth;
      snapshots, deltas := [], [];
    }

    /** Records a block just applied to `state`, snapshotting first on a boundary. */
    method Record(state: ChainAccumulators, delta: StateDelta) returns (r: Result<(), RollbackError>)
      requires Valid()
      modifies this
      ensures var recorded := Rollback.Record(old(Model()), state.forest, state.index, delta);
        if recorded.Ok? then r == Ok(()) && Model() == recorded.value
        else r == Err(recorded.error) && unchanged(this)
    {
      hide Pruned;
      var previous := JournalTip(Model());
      if previous.Some? && delta.height != NextHeight(previous.value) {
        return Err(RecordOutOfOrder(NextHeight(previous.value), delta.height));
      }
      if snapshots == [] || delta.height % interval == 0 {
        snapshots := snapshots + [Snapshot(delta.height, state.forest, state.index)];
        Prune();
      }
      deltas := deltas + [delta];
      return Ok(());
    }

    /** Drops what no rollback of `maxDepth` blocks can use. */
    method Prune()
      modifies this
      ensures Model() == Pruned(old(Model()))
    {
      if snapshots == [] {
        return;
      }
      DropSnapshots(Horizon(snapshots[|snapshots| - 1].height, maxDepth));
      DropDeltas(snapshots[0].height);
    }

    method DropSnapshots(horizon: nat)
      requires snapshots != []
      modifies this`snapshots
      ensures snapshots == old(snapshots)[Droppable(old(snapshots), horizon)..]
    {
      ghost var gone := 0;
      while |snapshots| > 1 && snapshots[1].height <= horizon
        invariant 0 <= gone < |old(snapshots)| && snapshots == old(snapshots)[gone..]
        invariant Droppable(old(snapshots), horizon) == gone + Droppable(snapshots, horizon)
        decreases |snapshots|
      {
        snapshots := snapshots[1..];
        gone := gone + 1;
      }
    }

    method DropDeltas(oldest: Height)
      modifies this`deltas
      ensures deltas == old(deltas)[Covered(old(deltas), oldest)..]
    {
      ghost var gone := 0;
      while deltas != [] && deltas[0].height <= oldest
        invariant 0 <= gone <= |old(deltas)| && deltas == old(deltas)[gone..]
        invariant Covered(old(deltas), oldest) == gone + Covered(deltas, oldest)
        decreases |deltas|
      {
        deltas := deltas[1..];
        gone := gone + 1;
      }
    }
  }

  /** Undoes a block's records in one pool, newest first. */
  method UndoRecords(tree: IndexedMerkleTree, records: Insertions) returns (undone: bool)
    requires tree.Valid()
    modifies tree
    ensures tree.Valid()
    ensures (tree.Values(), undone) == Unwind(old(tree.Values()), records, |records|)
  {
    hide IndexedMerkleTree.Valid, UndoAccepts, ValuesOf;
    var k := |records|;
    while k > 0
      invariant 0 <= k <= |records| && tree.Valid()
      invariant Unwind(tree.Values(), records, k) == Unwind(old(tree.Values()), records, |records|)
    {
      var r := tree.UndoInsert(records[k - 1].0, records[k - 1].1);
      if r.Err? {
        return false;
      }
      k := k - 1;
    }
    return true;
  }

  method UndoInto(state: ChainAccumulators, pool: PoolId, records: Insertions) returns (undone: bool)
    requires state.Valid() && pool in state.trees
    modifies state`pools, state.trees[pool]
    ensures state.Valid()
    ensures var unwound := Unwind(old(state.pools)[pool], records, |records|);
      (state.pools, undone) == (old(state.pools)[pool := unwound.0], unwound.1)
  {
    hide Unwind, IndexedMerkleTree.Valid;
    assert forall p :: p in state.trees ==> state.TreeIs(p);
    var tree := state.trees[pool];
    undone := UndoRecords(tree, records);
    state.pools := state.pools[pool := tree.Values()];
  }

  /** Undoes one block's insertions, last pool first. */
  method UndoDelta(state: ChainAccumulators, delta: StateDelta) returns (r: Result<(), RollbackError>)
    requires state.Valid()
    modifies state`pools, state.trees.Values
    ensures state.Valid()
    ensures (state.pools, r) == UndoBlock(old(state.pools), delta, |ALL_POOLS|)
  {
    hide Unwind;
    var n := |ALL_POOLS|;
    while n > 0
      invariant 0 <= n <= |ALL_POOLS| && state.Valid()
      invariant UndoBlock(state.pools, delta, n) == UndoBlock(old(state.pools), delta, |ALL_POOLS|)
    {
      var pool := ALL_POOLS[n - 1];
      if pool in delta.insertions {
        if pool !in state.trees {
          return Err(NoTreeFor(pool));
        }
        var undone := UndoInto(state, pool, delta.insertions[pool]);
        if !undone {
          return Err(UndoRefused);
        }
      }
      n := n - 1;
    }
    return Ok(());
  }

  /** Undoes every delta above `target`, newest block first. */
  method UndoDeltas(state: ChainAccumulators, deltas: seq<StateDelta>,
          target: Height) returns (r: Result<(), RollbackError>)
    requires state.Valid()
    modifies state`pools, state.trees.Values
    ensures state.Valid()
    ensures (state.pools, r) == UndoAbove(old(state.pools), deltas, target, |deltas|)
  {
    hide UndoBlock;
    var k := |deltas|;
    while k > 0
      invariant 0 <= k <= |deltas| && state.Valid()
      invariant UndoAbove(state.pools, deltas, target, k) == UndoAbove(old(state.pools), deltas, target, |deltas|)
    {
      if deltas[k - 1].height > target {
        var undone := UndoDelta(state, deltas[k - 1]);
        if undone.Err? {
          return undone;
        }
      }
      k := k - 1;
    }
    return Ok(());
  }

  /** Re-applies the transparent effect of every block from `first` up to `target`. */
  method ReplayDeltas(state: ChainAccumulators, deltas: seq<StateDelta>, first: nat,
          target: Height) returns (r: Result<(), RollbackError>)
    requires state.Valid()
    modifies state`forest, state`index
    ensures state.Valid()
    ensures Outcome(state.forest, state.index, r) ==
      Replay(old(state.forest), old(state.index), deltas, first, target + 1)
  {
    hide ReplayOne;
    var step := first;
    while step <= target
      invariant state.Valid() && first <= step && (step == first || step <= target + 1)
      invariant step <= target + 1 ==>
        Outcome(state.forest, state.index, Ok(())) == Replay(old(state.forest), old(state.index), deltas, first, step)
      invariant step > target + 1 ==> state.forest == old(state.forest) && state.index == old(state.index)
      decreases target + 1 - step
    {
      var done := ReplayTransparent(state, deltas, step);
      if done.Err? {
        ReplayFaultStands(old(state.forest), old(state.index), deltas, first, step + 1, target + 1);
        return done;
      }
      step := step + 1;
    }
    return Ok(());
  }

  lemma {:induction false} ReplayFaultStands(forest: Forest, index: Index, deltas: seq<StateDelta>, first: nat,
          k: nat, end: nat)
    requires k <= end <= MAX_HEIGHT + 1 && Replay(forest, index, deltas, first, k).verdict.Err?
    ensures Replay(forest, index, deltas, first, end) == Replay(forest, index, deltas, first, k)
  {
    if k < end {
      ReplayFaultStands(forest, index, deltas, first, k, end - 1);
    }
  }

  method ReplayTransparent(state: ChainAccumulators, deltas: seq<StateDelta>,
          height: Height) returns (r: Result<(), RollbackError>)
    requires state.Valid()
    modifies state`forest, state`index
    ensures state.Valid()
    ensures Outcome(state.forest, state.index, r) == ReplayOne(old(state.forest), old(state.index), deltas, height)
    ensures r.Ok? ==> r == Ok(())
  {
    hide TransparentStep;
    var i := DeltaFor(deltas, height);
    if i == |deltas| {
      return Err(MissingDelta(height));
    }
    var moved := state.MoveOutputs(deltas[i].spent, deltas[i].created);
    if moved.Err? {
      return Err(RestoreRefused(moved.error));
    }
    return Ok(());
  }

  /** Pops what lies above `target` off the back of the journal. */
  method Truncate(journal: RollbackJournal, target: Height)
    modifies journal
    ensures journal.Model() == Truncated(old(journal.Model()), target)
  {
    hide KeptDeltas, KeptSnapshots;
    while journal.deltas != [] && journal.deltas[|journal.deltas| - 1].height > target
      invariant journal.snapshots == old(journal.snapshots) && |journal.deltas| <= |old(journal.deltas)|
      invariant journal.deltas == old(journal.deltas)[..|journal.deltas|]
      invariant forall i {:trigger old(journal.deltas)[i]} :: |journal.deltas| <= i < |old(journal.deltas)| ==>
        old(journal.deltas)[i].height > target
      decreases |journal.deltas|
    {
      journal.deltas := journal.deltas[..|journal.deltas| - 1];
    }
    ghost var kept := journal.deltas;
    while journal.snapshots != [] && journal.snapshots[|journal.snapshots| - 1].height > target
      invariant journal.deltas == kept && |journal.snapshots| <= |old(journal.snapshots)|
      invariant journal.snapshots == old(journal.snapshots)[..|journal.snapshots|]
      invariant forall i {:trigger old(journal.snapshots)[i]} ::
        |journal.snapshots| <= i < |old(journal.snapshots)| ==> old(journal.snapshots)[i].height > target
      decreases |journal.snapshots|
    {
      journal.snapshots := journal.snapshots[..|journal.snapshots| - 1];
    }
  }

  /** Goes back to a snapshot, forward to `target`, and cuts the journal there. */
  method Restore(journal: RollbackJournal, state: ChainAccumulators,
          target: Height) returns (r: Result<(), RollbackError>)
    requires state.Valid()
    modifies journal, state`forest, state`index, state`tip
    ensures state.Valid()
    ensures (journal.Model(), state.Model(), r) == Restored(old(journal.Model()), old(state.Model()), target)
  {
    hide Replay, Truncated;
    var base := NewestBase(journal.snapshots, target, |journal.snapshots|);
    if base == 0 {
      return Err(BeyondJournal(target, if journal.snapshots == [] then target else journal.snapshots[0].height));
    }
    var snapshot := journal.snapshots[base - 1];
    state.forest, state.index := snapshot.forest, snapshot.index;
    var replayed := ReplayDeltas(state, journal.deltas, NextHeight(snapshot.height), target);
    if replayed.Err? {
      return replayed;
    }
    Truncate(journal, target);
    state.tip := Some(target);
    return Ok(());
  }

  /** Unwinds `state` to `target`; see `RollBack` for what it leaves. */
  method RollbackTo(journal: RollbackJournal, state: ChainAccumulators,
          target: Height) returns (r: Result<(), RollbackError>)
    requires state.Valid() && journal.Valid()
    modifies journal, state`forest, state`index, state`pools, state`tip, state.trees.Values
    ensures state.Valid()
    ensures (journal.Model(), state.Model(), r) == RollBack(old(journal.Model()), old(state.Model()), target)
  {
    hide UndoAbove, Restored;
    var refusal := Refusal(journal.Model(), state.tip, target);
    if refusal.Some? {
      return Err(refusal.value);
    }
    if state.tip == Some(target) {
      return Ok(());
    }
    var undone := UndoDeltas(state, journal.deltas, target);
    if undone.Err? {
      return undone;
    }
    r := Restore(journal, state, target);
  }
}
