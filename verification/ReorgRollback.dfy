// A rollback within the journal's reach lands exactly on the surviving prefix.
module ReorgRollback {
  import opened Wrappers
  import opened Hashing
  import opened Transparent
  import opened Chain
  import opened Rollback
  import opened UndoProofs
  import opened ColdReplay
  import opened Reorg

  /** `m` blocks of the trail are at or below `target`. */
  ghost predicate SplitsAt(t: Trail, target: Height, m: nat) {
    m <= |t.blocks| && forall k {:trigger t.blocks[k]} :: 0 <= k < |t.blocks| ==>
      (t.blocks[k].height <= target <==> k < m)
  }

  lemma DeltaIsTrails(t: Trail, deltas: seq<StateDelta>, i: nat)
    requires TrailOk(t) && DeltasAre(t, deltas) && i < |deltas|
    ensures var k := |t.blocks| - |deltas| + i;
      deltas[i] == t.deltas[k] && deltas[i].height == t.blocks[k].height
      && Undoable(t.states[k], t.blocks[k], t.states[k + 1], deltas[i])
  {
    hide StepOk, UndoBlock, TransparentStep, PoolsOk;
    TrailUndoable(t, |t.blocks| - |deltas| + i);
  }

  /** What a journal delta says of the trail's block it came from. */
  lemma DeltaFacts(t: Trail, deltas: seq<StateDelta>, target: Height, m: nat, i: nat, k: nat)
    requires TrailOk(t) && DeltasAre(t, deltas) && SplitsAt(t, target, m) && i < |deltas|
    requires k == |t.blocks| - |deltas| + i
    ensures |t.states| == |t.blocks| + 1 && k < |t.blocks|
    ensures deltas[i].height > target <==> k >= m
    ensures UndoBlock(t.states[k + 1].pools, deltas[i], |ALL_POOLS|) == (t.states[k].pools, Ok(()))
  {
    hide StepOk, UndoBlock, TransparentStep, PoolsOk;
    DeltaIsTrails(t, deltas, i);
    var b := t.blocks[k];
  }

  /** Undoing the deltas above the target takes the pools back to the split. */
  lemma {:induction false} UndoReachesSplit(t: Trail, deltas: seq<StateDelta>, target: Height, m: nat, k: nat)
    requires TrailOk(t) && DeltasAre(t, deltas) && SplitsAt(t, target, m) && |t.blocks| - |deltas| <= m
    requires k <= |deltas|
    ensures var here := |t.blocks| - |deltas| + k;
      UndoAbove(t.states[if here < m then m else here].pools, deltas, target, k) == (t.states[m].pools, Ok(()))
  {
    assert |deltas| <= |t.blocks|;
    hide TrailOk, DeltasAre, SplitsAt, UndoBlock;
    if k == 0 {
    } else {
      DeltaFacts(t, deltas, target, m, k - 1, |t.blocks| - |deltas| + k - 1);
      UndoReachesSplit(t, deltas, target, m, k - 1);
    }
  }

  /** The delta found for a height below the limit is the trail's only one there. */
  lemma OnlyDeltaAt(t: Trail, deltas: seq<StateDelta>, i: nat, f: nat)
    requires TrailOk(t) && DeltasAre(t, deltas) && i < |deltas| && f < |deltas|
    requires deltas[f].height == deltas[i].height < MAX_HEIGHT
    ensures i == f
  {
    hide StepOk, Undoable;
    DeltaHeight(t, deltas, i);
    DeltaHeight(t, deltas, f);
    TrailContiguous(t);
    hide TrailOk, DeltasAre, Contiguous;
    NotLater(t.blocks, |t.blocks| - |deltas| + i, |t.blocks| - |deltas| + f);
    NotLater(t.blocks, |t.blocks| - |deltas| + f, |t.blocks| - |deltas| + i);
  }

  lemma DeltaHeight(t: Trail, deltas: seq<StateDelta>, i: nat)
    requires TrailOk(t) && DeltasAre(t, deltas) && i < |deltas|
    ensures |deltas| <= |t.blocks| && deltas[i].height == t.blocks[|t.blocks| - |deltas| + i].height
  {
    hide StepOk, UndoBlock, TransparentStep, PoolsOk;
    DeltaIsTrails(t, deltas, i);
  }

  /** Replaying the block after position `k` moves one state along the trail. */
  lemma ReplayOneFollows(t: Trail, deltas: seq<StateDelta>, k: nat)
    requires TrailOk(t) && DeltasAre(t, deltas) && |t.blocks| - |deltas| <= k < |t.blocks|
    requires t.blocks[k].height < MAX_HEIGHT
    ensures |t.states| == |t.blocks| + 1
    ensures ReplayOne(t.states[k].forest, t.states[k].index, deltas, t.blocks[k].height)
         == Outcome(t.states[k + 1].forest, t.states[k + 1].index, Ok(()))
  {
    hide StepOk, UndoBlock, TransparentStep, PoolsOk;
    var i := k - (|t.blocks| - |deltas|);
    DeltaIsTrails(t, deltas, i);
    var f := DeltaFor(deltas, t.blocks[k].height);
    OnlyDeltaAt(t, deltas, i, f);
  }

  /** Replaying from a state of the trail walks along the trail. */
  lemma {:induction false} ReplayFollowsTrail(t: Trail, deltas: seq<StateDelta>, a: nat, first: nat, end: nat)
    requires TrailOk(t) && DeltasAre(t, deltas) && |t.states| == |t.blocks| + 1
    requires 1 <= a && |t.blocks| - |deltas| <= a && first <= end <= MAX_HEIGHT
    requires a + (end - first) <= |t.blocks| && t.blocks[a - 1].height + 1 == first
    ensures var there := t.states[a + (end - first)];
      Replay(t.states[a].forest, t.states[a].index, deltas, first, end) == Outcome(there.forest, there.index, Ok(()))
  {
    hide TrailOk, DeltasAre, ReplayOne;
    if first < end {
      ReplayFollowsTrail(t, deltas, a, first, end - 1);
      var k := a + (end - 1 - first);
      TrailContiguous(t);
      HeightsClimb(t.blocks, a - 1, k);
      hide Contiguous;
      ReplayOneFollows(t, deltas, k);
    }
  }

  /** Popping deltas off the back leaves those of the surviving blocks. */
  lemma KeptDeltasAre(t: Trail, deltas: seq<StateDelta>, target: Height, m: nat)
    requires TrailOk(t) && DeltasAre(t, deltas) && SplitsAt(t, target, m) && |t.blocks| - |deltas| <= m
    ensures |deltas| <= |t.blocks| && KeptDeltas(deltas, target) == m - (|t.blocks| - |deltas|)
    ensures |t.states| == |t.blocks| + 1 && |t.deltas| == |t.blocks|
    ensures DeltasAre(t.Upto(m), deltas[..KeptDeltas(deltas, target)])
  {
    hide StepOk;
    KeptCount(t, deltas, target, m);
    DeltasCut(t, deltas, m, KeptDeltas(deltas, target));
  }

  lemma KeptCount(t: Trail, deltas: seq<StateDelta>, target: Height, m: nat)
    requires TrailOk(t) && DeltasAre(t, deltas) && SplitsAt(t, target, m) && |t.blocks| - |deltas| <= m
    ensures |deltas| <= |t.blocks| && KeptDeltas(deltas, target) == m - (|t.blocks| - |deltas|)
  {
    var lo, n := |t.blocks| - |deltas|, KeptDeltas(deltas, target);
    assert |deltas| <= |t.blocks| by {
      hide StepOk;
    }
    hide TrailOk, DeltasAre;
    if n > 0 {
      DeltaHeight(t, deltas, n - 1);
      assert t.blocks[lo + n - 1].height <= target;
    }
    if n < |deltas| {
      DeltaHeight(t, deltas, n);
      assert t.blocks[lo + n].height > target;
    }
  }

  lemma DeltasCut(t: Trail, deltas: seq<StateDelta>, m: nat, n: nat)
    requires |t.states| == |t.blocks| + 1 && |t.deltas| == |t.blocks| && m <= |t.blocks| && n <= |deltas|
    requires DeltasAre(t, deltas) && n == m - (|t.blocks| - |deltas|)
    ensures DeltasAre(t.Upto(m), deltas[..n])
  {
    assert deltas[..n] == t.deltas[..m][m - n..];
  }

  lemma UptoOk(t: Trail, m: nat)
    requires TrailOk(t) && m <= |t.blocks|
    ensures TrailOk(t.Upto(m)) && t.Upto(m).Last() == t.states[m]
  {
    hide StepOk;
    var u := t.Upto(m);
    forall k | 0 <= k < |u.blocks|
      ensures StepOk(u.states[k], u.blocks[k], u.states[k + 1], u.deltas[k])
    {
      var b := t.blocks[k];
    }
  }

  /** Snapshots at or below the target sit within the surviving prefix. */
  lemma KeptSnapshotsAre(t: Trail, snapshots: seq<Snapshot>, at: seq<nat>, target: Height, m: nat, n: nat)
    requires TrailOk(t) && SnapshotsAre(t, snapshots, at) && SplitsAt(t, target, m) && n <= |at|
    requires n > 0 ==> snapshots[n - 1].height <= target
    ensures SnapshotsAre(t.Upto(m), snapshots[..n], at[..n])
    ensures n > 0 ==> at[n - 1] <= m
  {
    hide StepOk;
    if n > 0 {
      assert SnapshotIs(t, at[n - 1], snapshots[n - 1]);
    }
    forall i | 0 <= i < n
      ensures SnapshotIs(t.Upto(m), at[i], snapshots[i])
    {
      assert SnapshotIs(t, at[i], snapshots[i]);
      assert i < n - 1 ==> at[i] < at[n - 1];
    }
  }

  /**
   * Rollback is exact. For any target the journal reaches, below the tip, it
   * never fails, the state is the trail's at the split, and the journal tracks
   * the surviving prefix.
   */
  lemma RollbackTracks(t: Trail, j: Journal, at: seq<nat>, target: Height) returns (m: nat, kept: seq<nat>)
    requires TrailOk(t) && Tracks(t, j, at)
    requires t.Last().tip.Some? && target < t.Last().tip.value && Refusal(j, t.Last().tip, target).None?
    ensures 0 < m < |t.blocks| && SplitsAt(t, target, m)
    ensures RollBack(j, t.Last(), target) == (Truncated(j, target), t.states[m], Ok(()))
    ensures TrailOk(t.Upto(m)) && t.Upto(m).Last() == t.states[m]
    ensures Tracks(t.Upto(m), Truncated(j, target), kept)
  {
    hide StepOk, TransparentStep, UndoBlock, PoolsOk, SnapshotIs, RollBack;
    m := SplitExists(t, j, at, target);
    UptoOk(t, m);
    kept := at[..NewestBase(j.snapshots, target, |j.snapshots|)];
    hide TrailOk, SnapshotsAre, DeltasAre, SplitsAt;
    RollBackLands(t, j, at, target, m);
    TruncatedTracks(t, j, at, target, m, |kept|);
  }

  lemma RollBackLands(t: Trail, j: Journal, at: seq<nat>, target: Height, m: nat)
    requires TrailOk(t) && Tracks(t, j, at) && SplitsAt(t, target, m) && 0 < m < |t.blocks|
    requires at != [] && |t.blocks| - |j.deltas| <= at[0] <= m
    requires t.Last().tip.Some? && target < t.Last().tip.value && Refusal(j, t.Last().tip, target).None?
    ensures NewestBase(j.snapshots, target, |j.snapshots|) > 0
    ensures |t.states| == |t.blocks| + 1
    ensures RollBack(j, t.Last(), target) == (Truncated(j, target), t.states[m], Ok(()))
  {
    hide StepOk, TransparentStep, UndoBlock, PoolsOk, SnapshotIs;
    UndoReachesSplit(t, j.deltas, target, m, |j.deltas|);
    SplitState(t, target, m);
    var s, base := t.Last(), NewestBase(j.snapshots, target, |j.snapshots|);
    hide UndoAbove, Restored, TrailOk, SnapshotsAre, DeltasAre, SplitsAt;
    RestoreReachesSplit(t, j, at, target, m, base, ChainState(s.depth, t.states[m].pools, s.forest, s.index, s.tip));
  }

  lemma {:induction false} SameDepth(t: Trail, k: nat)
    requires TrailOk(t) && k < |t.states|
    ensures t.states[k].depth == t.states[0].depth
  {
    hide StepOk, UndoBlock, TransparentStep, PoolsOk;
    if k > 0 {
      SameDepth(t, k - 1);
      TrailUndoable(t, k - 1);
    }
  }

  /** The state at the split has the target as its tip. */
  lemma SplitState(t: Trail, target: Height, m: nat)
    requires TrailOk(t) && SplitsAt(t, target, m) && 0 < m < |t.blocks|
    ensures t.states[m].depth == t.Last().depth && t.states[m].tip == Some(target)
  {
    hide StepOk, UndoBlock, TransparentStep, PoolsOk;
    SameDepth(t, m);
    SameDepth(t, |t.blocks|);
    TrailUndoable(t, m - 1);
    TrailContiguous(t);
    var b, c := t.blocks[m - 1], t.blocks[m];
    assert b.height <= target < c.height && Follows(t.blocks, m);
  }

  lemma SplitExists(t: Trail, j: Journal, at: seq<nat>, target: Height) returns (m: nat)
    requires TrailOk(t) && Tracks(t, j, at)
    requires t.Last().tip.Some? && target < t.Last().tip.value && Refusal(j, t.Last().tip, target).None?
    ensures at != [] && at[0] <= m < |t.blocks| && 0 < m && SplitsAt(t, target, m)
    ensures |t.blocks| - |j.deltas| <= at[0]
  {
    hide StepOk;
    JournalKnowsTip(t, j, at);
    TrailContiguous(t);
    assert SnapshotIs(t, at[0], j.snapshots[0]);
    m := BlocksUpTo(t.blocks, at[0] - 1, target);
  }

  lemma RestoreReachesSplit(t: Trail, j: Journal, at: seq<nat>, target: Height, m: nat, base: nat, s: ChainState)
    requires TrailOk(t) && Tracks(t, j, at) && SplitsAt(t, target, m) && 0 < m < |t.blocks| && target < MAX_HEIGHT
    requires at != [] && |t.blocks| - |j.deltas| <= at[0]
    requires j.snapshots[0].height <= target && base == NewestBase(j.snapshots, target, |j.snapshots|)
    ensures base > 0
    ensures Restored(j, s, target)
         == (Truncated(j, target), ChainState(s.depth, s.pools, t.states[m].forest, t.states[m].index, Some(target)),
           Ok(()))
  {
    hide StepOk, Replay, Truncated;
    assert base > 0;
    ReplayReachesSplit(t, j, at, target, m, base);
  }

  lemma ReplayReachesSplit(t: Trail, j: Journal, at: seq<nat>, target: Height, m: nat, base: nat)
    requires TrailOk(t) && Tracks(t, j, at) && SplitsAt(t, target, m) && 0 < m < |t.blocks| && target < MAX_HEIGHT
    requires at != [] && |t.blocks| - |j.deltas| <= at[0] && 0 < base <= |at| && j.snapshots[base - 1].height <= target
    ensures var snapshot := j.snapshots[base - 1];
      Replay(snapshot.forest, snapshot.index, j.deltas, NextHeight(snapshot.height), target + 1)
        == Outcome(t.states[m].forest, t.states[m].index, Ok(()))
  {
    hide StepOk, Replay;
    var snapshot, a := j.snapshots[base - 1], at[base - 1];
    assert SnapshotIs(t, a, snapshot);
    assert base > 1 ==> at[0] < at[base - 1];
    TrailContiguous(t);
    DistanceToSplit(t.blocks, a, target, m);
    ReplayFollowsTrail(t, j.deltas, a, snapshot.height + 1, target + 1);
  }

  lemma DistanceToSplit(blocks: seq<BlockSummary>, a: nat, target: Height, m: nat)
    requires Contiguous(blocks) && 1 <= a <= |blocks| && 0 < m < |blocks| && target < MAX_HEIGHT
    requires forall k {:trigger blocks[k]} :: 0 <= k < |blocks| ==> (blocks[k].height <= target <==> k < m)
    requires blocks[a - 1].height <= target
    ensures a <= m && m - a == target - blocks[a - 1].height
  {
    assert blocks[m].height > target && blocks[m - 1].height <= target;
    HeightsClimb(blocks, a - 1, m - 1);
    HeightsClimb(blocks, a - 1, m);
  }

  lemma TruncatedTracks(t: Trail, j: Journal, at: seq<nat>, target: Height, m: nat, base: nat)
    requires TrailOk(t) && Tracks(t, j, at) && SplitsAt(t, target, m) && 0 < m < |t.blocks|
    requires at != [] && |t.blocks| - |j.deltas| <= at[0] <= m
    requires base == NewestBase(j.snapshots, target, |j.snapshots|) && base > 0
    ensures Tracks(t.Upto(m), Truncated(j, target), at[..base])
  {
    hide StepOk, SnapshotIs;
    assert base == KeptSnapshots(j.snapshots, target);
    KeptSnapshotsAre(t, j.snapshots, at, target, m, base);
    KeptDeltasAre(t, j.deltas, target, m);
    assert base > 1 ==> at[0] < at[base - 1];
  }
}
