// The rollback journal: exact delta undo for nullifiers, snapshot and replay
// for transparent outputs.
module Rollback {
  import opened Wrappers
  import opened Hashing
  import opened LinkedSet
  import opened Imt
  import opened Transparent
  import opened Chain
  import opened Accumulators

  /** The forest and the index as they stood after one block. */
  datatype Snapshot = Snapshot(height: Height, forest: Forest, index: Index)

  datatype Journal = Journal(interval: nat, maxDepth: nat, snapshots: seq<Snapshot>, deltas: seq<StateDelta>)

  datatype RollbackError =
    | NotBehindTip(target: Height, tip: Option<Height>)
    | BeyondJournal(target: Height, earliest: Height)
    | MissingDelta(height: Height)
    | RecordOutOfOrder(expected: Height, found: Height)
    | UndoRefused
    | RestoreRefused(utreexo: UtreexoError)
    | NoTreeFor(pool: PoolId)

  function EmptyJournal(interval: nat, maxDepth: nat): Journal {
    Journal(if interval == 0 then 1 else interval, maxDepth, [], [])
  }

  function Earliest(j: Journal): Option<Height> {
    if j.snapshots == [] then None else Some(j.snapshots[0].height)
  }

  /** The highest height recorded. */
  function JournalTip(j: Journal): Option<Height> {
    if j.deltas != [] then Some(j.deltas[|j.deltas| - 1].height)
    else if j.snapshots != [] then Some(j.snapshots[|j.snapshots| - 1].height)
    else None
  }

  // ---- recording ----

  /** How many snapshots go: one is redundant once the next is at or below the horizon. */
  function Droppable(snapshots: seq<Snapshot>, horizon: nat): (n: nat)
    requires snapshots != []
    ensures n < |snapshots|
    ensures forall i :: 1 <= i <= n ==> snapshots[i].height <= horizon
    ensures n + 1 < |snapshots| ==> snapshots[n + 1].height > horizon
  {
    if |snapshots| > 1 && snapshots[1].height <= horizon then 1 + Droppable(snapshots[1..], horizon) else 0
  }

  /** How many leading deltas are at or below `height`. */
  function Covered(deltas: seq<StateDelta>, height: Height): (n: nat)
    ensures n <= |deltas|
    ensures forall i :: 0 <= i < n ==> deltas[i].height <= height
    ensures n < |deltas| ==> deltas[n].height > height
  {
    if deltas != [] && deltas[0].height <= height then 1 + Covered(deltas[1..], height) else 0
  }

  function Horizon(tip: Height, maxDepth: nat): nat {
    if tip < maxDepth then 0 else tip - maxDepth
  }

  function Pruned(j: Journal): Journal {
    if j.snapshots == [] then j
    else
      var kept := j.snapshots[Droppable(j.snapshots, Horizon(j.snapshots[|j.snapshots| - 1].height, j.maxDepth))..];
      Journal(j.interval, j.maxDepth, kept, j.deltas[Covered(j.deltas, kept[0].height)..])
  }

  /** Whether recording a block at this height takes a snapshot. */
  predicate Boundary(j: Journal, height: Height)
    requires j.interval > 0
  {
    j.snapshots == [] || height % j.interval == 0
  }

  function Record(j: Journal, forest: Forest, index: Index, delta: StateDelta): Result<Journal, RollbackError>
    requires j.interval > 0
  {
    var tip := JournalTip(j);
    if tip.Some? && delta.height != NextHeight(tip.value) then
      Err(RecordOutOfOrder(NextHeight(tip.value), delta.height))
    else
      var settled :=
        if Boundary(j, delta.height) then
          Pruned(j.(snapshots := j.snapshots + [Snapshot(delta.height, forest, index)]))
        else j;
      Ok(settled.(deltas := settled.deltas + [delta]))
  }

  // ---- unwinding the nullifiers ----

  /** Undoing the first `k` records of a block, newest first. */
  ghost function Unwind(all: seq<Value>, records: Insertions, k: nat): (r: (seq<Value>, bool))
    requires k <= |records|
    ensures History(all) ==> History(r.0)
    decreases k
  {
    if k == 0 then (all, true)
    else if UndoAccepts(all, records[k - 1].0, records[k - 1].1) then Unwind(all[..|all| - 1], records, k - 1)
    else (all, false)
  }

  /** Undoing one block's insertions in the pools of rank below `n`, last pool first. */
  ghost function UndoBlock(pools: Pools, delta: StateDelta, n: nat): (r: (Pools, Result<(), RollbackError>))
    requires n <= |ALL_POOLS|
    ensures Histories(pools) ==> Histories(r.0)
    decreases n
  {
    if n == 0 then (pools, Ok(()))
    else
      var pool := ALL_POOLS[n - 1];
      if pool !in delta.insertions then UndoBlock(pools, delta, n - 1)
      else if pool !in pools then (pools, Err(NoTreeFor(pool)))
      else
        var (all, undone) := Unwind(pools[pool], delta.insertions[pool], |delta.insertions[pool]|);
        if !undone then (pools[pool := all], Err(UndoRefused)) else UndoBlock(pools[pool := all], delta, n - 1)
  }

  /** Undoing, newest first, those of the first `k` deltas that lie above `target`. */
  ghost function UndoAbove(pools: Pools, deltas: seq<StateDelta>, target: Height,
          k: nat): (r: (Pools, Result<(), RollbackError>))
    requires k <= |deltas|
    ensures Histories(pools) ==> Histories(r.0)
    decreases k
  {
    if k == 0 then (pools, Ok(()))
    else if deltas[k - 1].height <= target then UndoAbove(pools, deltas, target, k - 1)
    else
      var (before, undone) := UndoBlock(pools, deltas[k - 1], |ALL_POOLS|);
      if undone.Err? then (before, undone) else UndoAbove(before, deltas, target, k - 1)
  }

  // ---- restoring and replaying the outputs ----

  /** One past the position of the newest of the first `k` snapshots at or below `target`; 0 when none is. */
  function NewestBase(snapshots: seq<Snapshot>, target: Height, k: nat): (n: nat)
    requires k <= |snapshots|
    ensures n <= k
    ensures n > 0 ==> snapshots[n - 1].height <= target
    ensures forall i :: n <= i < k ==> snapshots[i].height > target
  {
    if k == 0 then 0 else if snapshots[k - 1].height <= target then k else NewestBase(snapshots, target, k - 1)
  }

  /** The position of the first delta for `height`; the length when there is none. */
  function DeltaFor(deltas: seq<StateDelta>, height: Height): (i: nat)
    ensures i <= |deltas|
    ensures i < |deltas| ==> deltas[i].height == height
    ensures forall k :: 0 <= k < i ==> deltas[k].height != height
  {
    if deltas == [] || deltas[0].height == height then 0 else 1 + DeltaFor(deltas[1..], height)
  }

  datatype Outcome = Outcome(forest: Forest, index: Index, verdict: Result<(), RollbackError>)

  function ReplayOne(forest: Forest, index: Index, deltas: seq<StateDelta>, height: Height): Outcome {
    var i := DeltaFor(deltas, height);
    if i == |deltas| then Outcome(forest, index, Err(MissingDelta(height)))
    else
      var step := TransparentStep(forest, index, deltas[i].spent, deltas[i].created);
      if step.Err? then Outcome(forest, index, Err(RestoreRefused(step.error)))
      else Outcome(step.value.0, step.value.1, Ok(()))
  }

  /** Replays the deltas for the heights from `first` below `end`. */
  function Replay(forest: Forest, index: Index, deltas: seq<StateDelta>, first: nat, end: nat): Outcome
    requires end <= MAX_HEIGHT + 1
  {
    if end <= first then Outcome(forest, index, Ok(()))
    else
      var prev := Replay(forest, index, deltas, first, end - 1);
      if prev.verdict.Err? then prev else ReplayOne(prev.forest, prev.index, deltas, end - 1)
  }

  // ---- the whole rollback ----

  /** How many leading items stay once those whose height is above `target` are popped off the back. */
  function KeptUpTo<T>(items: seq<T>, height: T -> Height, target: Height): (n: nat)
    ensures n <= |items|
    ensures n > 0 ==> height(items[n - 1]) <= target
    ensures forall i {:trigger items[i]} :: n <= i < |items| ==> height(items[i]) > target
  {
    if items == [] || height(items[|items| - 1]) <= target then |items|
    else KeptUpTo(items[..|items| - 1], height, target)
  }

  function KeptDeltas(deltas: seq<StateDelta>, target: Height): (n: nat)
    ensures n <= |deltas|
    ensures n > 0 ==> deltas[n - 1].height <= target
    ensures forall i {:trigger deltas[i]} :: n <= i < |deltas| ==> deltas[i].height > target
  {
    KeptUpTo(deltas, (delta: StateDelta) => delta.height, target)
  }

  function KeptSnapshots(snapshots: seq<Snapshot>, target: Height): (n: nat)
    ensures n <= |snapshots|
    ensures n > 0 ==> snapshots[n - 1].height <= target
    ensures forall i {:trigger snapshots[i]} :: n <= i < |snapshots| ==> snapshots[i].height > target
  {
    KeptUpTo(snapshots, (snapshot: Snapshot) => snapshot.height, target)
  }

  function Truncated(j: Journal, target: Height): Journal {
    j.(deltas := j.deltas[..KeptDeltas(j.deltas, target)],
      snapshots := j.snapshots[..KeptSnapshots(j.snapshots, target)])
  }

  /** Whether a rollback is refused before anything is touched. */
  function Refusal(j: Journal, tip: Option<Height>, target: Height): Option<RollbackError> {
    if tip.None? || target > tip.value then Some(NotBehindTip(target, tip))
    else if target == tip.value then None
    else if Earliest(j).None? then Some(BeyondJournal(target, NextHeight(target)))
    else if target < Earliest(j).value then Some(BeyondJournal(target, Earliest(j).value))
    else None
  }

  /** The transparent half of a rollback: the newest usable snapshot, replayed up to the target. */
  function Restored(j: Journal, s: ChainState, target: Height): (r: (Journal, ChainState, Result<(), RollbackError>))
    ensures r.1.pools == s.pools
  {
    var base := NewestBase(j.snapshots, target, |j.snapshots|);
    if base == 0 then (j, s, Err(BeyondJournal(target, if j.snapshots == [] then target else j.snapshots[0].height)))
    else
      var snapshot := j.snapshots[base - 1];
      var replayed := Replay(snapshot.forest, snapshot.index, j.deltas, NextHeight(snapshot.height), target + 1);
      if replayed.verdict.Err? then
        (j, ChainState(s.depth, s.pools, replayed.forest, replayed.index, s.tip), replayed.verdict)
      else (Truncated(j, target), ChainState(s.depth, s.pools, replayed.forest, replayed.index, Some(target)), Ok(()))
  }

  /** Journal, state and verdict after `rollback_to`, faults included. */
  ghost function RollBack(j: Journal, s: ChainState,
          target: Height): (r: (Journal, ChainState, Result<(), RollbackError>))
    ensures Histories(s.pools) ==> Histories(r.1.pools)
  {
    var refusal := Refusal(j, s.tip, target);
    if refusal.Some? then (j, s, Err(refusal.value))
    else if s.tip == Some(target) then (j, s, Ok(()))
    else
      var (pools, undone) := UndoAbove(s.pools, j.deltas, target, |j.deltas|);
      if undone.Err? then (j, s.(pools := pools), undone)
      else Restored(j, s.(pools := pools), target)
  }
}
