// Reorg exactness: over every interleaving of blocks and rollbacks, the state
// is the one a cold replay of the surviving blocks reaches.
module Reorg {
  import opened Wrappers
  import opened Hashing
  import opened Transparent
  import opened Chain
  import opened ColdReplay
  import opened Rollback
  import opened UndoProofs

  /** A chain of accepted blocks with every state along it. */
  datatype Trail = Trail(states: seq<ChainState>, blocks: seq<BlockSummary>, deltas: seq<StateDelta>)
  {
    function Last(): ChainState
      requires |states| > 0
    {
      states[|states| - 1]
    }

    function Upto(m: nat): Trail
      requires m < |states| && m <= |blocks| && m <= |deltas|
    {
      Trail(states[..m + 1], blocks[..m], deltas[..m])
    }
  }

  ghost predicate TrailOk(t: Trail) {
    && |t.states| == |t.blocks| + 1 && |t.deltas| == |t.blocks|
    && forall k {:trigger t.blocks[k]} :: 0 <= k < |t.blocks| ==>
      StepOk(t.states[k], t.blocks[k], t.states[k + 1], t.deltas[k])
  }

  /** The states along a trail are those of a cold replay. */
  lemma {:induction false} TrailIsColdReplay(t: Trail, k: nat)
    requires TrailOk(t) && k < |t.states| && PoolsOk(t.states[0].depth, t.states[0].pools)
    ensures BridgeAfter(t.states[0], t.blocks, DEFAULT_OPTIONS, k) == Ok(t.states[k])
  {
    hide StepOk, BridgeTakes, PoolsOk;
    if k > 0 {
      TrailIsColdReplay(t, k - 1);
      var b := t.blocks[k - 1];
      StepIsTaken(t.states[k - 1], b, t.states[k], t.deltas[k - 1]);
    }
  }

  lemma StepIsTaken(s: ChainState, b: BlockSummary, after: ChainState, delta: StateDelta)
    requires StepOk(s, b, after, delta)
    ensures PoolsOk(s.depth, s.pools) && BridgeTakes(s, b, DEFAULT_OPTIONS) == Ok(after)
  {
  }

  lemma TrailUndoable(t: Trail, k: nat)
    requires TrailOk(t) && k < |t.blocks|
    ensures Undoable(t.states[k], t.blocks[k], t.states[k + 1], t.deltas[k])
  {
    hide StepOk;
    assert StepOk(t.states[k], t.blocks[k], t.states[k + 1], t.deltas[k]) by {
      var b := t.blocks[k];
    }
    AcceptedIsUndoable(t.states[k], t.blocks[k], t.states[k + 1], t.deltas[k]);
  }

  // ---- heights along a trail ----

  lemma TrailContiguous(t: Trail)
    requires TrailOk(t)
    ensures Contiguous(t.blocks)
  {
    hide StepOk, Undoable;
    forall k | 0 < k < |t.blocks|
      ensures Follows(t.blocks, k)
    {
      HeightFollows(t, k);
    }
  }

  lemma HeightFollows(t: Trail, k: nat)
    requires TrailOk(t) && 0 < k < |t.blocks|
    ensures t.blocks[k].height == NextHeight(t.blocks[k - 1].height)
  {
    hide StepOk, UndoBlock, TransparentStep, PoolsOk;
    TrailUndoable(t, k - 1);
    TrailUndoable(t, k);
  }

  function Least(a: nat, b: nat): nat {
    if a < b then a else b
  }

  /** Heights climb one by one and stick at the 32-bit limit. */
  lemma {:induction false} HeightsClimb(blocks: seq<BlockSummary>, i: nat, k: nat)
    requires Contiguous(blocks) && i <= k < |blocks|
    ensures blocks[k].height == Least(blocks[i].height + (k - i), MAX_HEIGHT)
  {
    if i < k {
      HeightsClimb(blocks, i, k - 1);
      assert Follows(blocks, k);
    }
  }

  /** The number of blocks up to `h`, counting from a block at or below it. */
  lemma BlocksUpTo(blocks: seq<BlockSummary>, i: nat, h: Height) returns (m: nat)
    requires Contiguous(blocks) && i < |blocks| && blocks[i].height <= h < blocks[|blocks| - 1].height
    ensures i < m < |blocks| && blocks[m - 1].height == h
    ensures forall k {:trigger blocks[k]} :: 0 <= k < |blocks| ==> (blocks[k].height <= h <==> k < m)
  {
    m := i + (h - blocks[i].height) + 1;
    HeightsClimb(blocks, i, |blocks| - 1);
    HeightsClimb(blocks, i, m - 1);
    forall k {:trigger blocks[k]} | 0 <= k < |blocks|
      ensures blocks[k].height <= h <==> k < m
    {
      if k < m {
        HeightsClimb(blocks, k, m - 1);
      } else {
        HeightsClimb(blocks, i, k);
      }
    }
  }

  // ---- the journal against the trail ----

  ghost predicate SnapshotIs(t: Trail, n: nat, snapshot: Snapshot) {
    && 1 <= n <= |t.blocks| && n < |t.states|
    && snapshot.height == t.blocks[n - 1].height
    && snapshot.forest == t.states[n].forest && snapshot.index == t.states[n].index
  }

  /** The journal's deltas are the trail's newest ones. */
  ghost predicate DeltasAre(t: Trail, deltas: seq<StateDelta>) {
    && |deltas| <= |t.deltas|
    && deltas == t.deltas[|t.deltas| - |deltas|..]
  }

  /** Snapshots at their positions, in order. */
  ghost predicate SnapshotsAre(t: Trail, snapshots: seq<Snapshot>, at: seq<nat>) {
    && |at| == |snapshots|
    && (forall i {:trigger at[i]} :: 0 <= i < |at| ==> SnapshotIs(t, at[i], snapshots[i]))
    && (forall i, k {:trigger at[i], at[k]} :: 0 <= i < k < |at| ==> at[i] < at[k])
  }

  /**
   * The journal records this trail: snapshots of its states at positions `at`,
   * and every delta since the oldest of them. Heights stop telling blocks apart
   * at the 32-bit limit, where no rollback can reach below the tip either.
   */
  ghost predicate Tracks(t: Trail, j: Journal, at: seq<nat>) {
    && j.interval > 0 && SnapshotsAre(t, j.snapshots, at)
    && DeltasAre(t, j.deltas)
    && (at == [] ==> j.deltas == [])
    && (at != [] && j.deltas == [] ==> at[|at| - 1] == |t.blocks|)
    && (at != [] && j.snapshots[0].height < MAX_HEIGHT ==> |t.blocks| - |j.deltas| <= at[0])
  }

  /** A journal that has recorded anything knows the trail's tip. */
  lemma JournalKnowsTip(t: Trail, j: Journal, at: seq<nat>)
    requires TrailOk(t) && Tracks(t, j, at) && at != []
    ensures t.blocks != [] && JournalTip(j) == Some(t.blocks[|t.blocks| - 1].height)
    ensures t.Last().tip == JournalTip(j)
  {
    hide StepOk, UndoBlock, TransparentStep, PoolsOk;
    var n := |t.blocks|;
    assert SnapshotIs(t, at[|at| - 1], j.snapshots[|at| - 1]);
    TrailUndoable(t, n - 1);
    if j.deltas != [] {
      assert j.deltas[|j.deltas| - 1] == t.deltas[n - 1];
    }
  }

  // ---- recording keeps the journal on the trail ----

  function Extended(t: Trail, b: BlockSummary, after: ChainState, delta: StateDelta): Trail {
    Trail(t.states + [after], t.blocks + [b], t.deltas + [delta])
  }

  lemma ExtendedOk(t: Trail, b: BlockSummary, after: ChainState, delta: StateDelta)
    requires TrailOk(t) && StepOk(t.Last(), b, after, delta)
    ensures TrailOk(Extended(t, b, after, delta))
  {
    hide StepOk;
    var e := Extended(t, b, after, delta);
    forall k | 0 <= k < |e.blocks|
      ensures StepOk(e.states[k], e.blocks[k], e.states[k + 1], e.deltas[k])
    {
      if k < |t.blocks| {
        var x := t.blocks[k];
      }
    }
  }

  /** A block no later than one below the limit is no higher than it. */
  lemma NotLater(blocks: seq<BlockSummary>, i: nat, k: nat)
    requires Contiguous(blocks) && i < |blocks| && k < |blocks|
    requires blocks[i].height <= blocks[k].height < MAX_HEIGHT
    ensures i <= k
  {
    if k < i {
      HeightsClimb(blocks, k, i);
    }
  }

  /** Pruning drops only deltas older than the oldest snapshot kept. */
  lemma PruneCovers(t: Trail, deltas: seq<StateDelta>, oldest: nat, c: nat)
    requires TrailOk(t) && DeltasAre(t, deltas) && 1 <= oldest <= |t.blocks| && c <= |deltas|
    requires t.blocks[oldest - 1].height < MAX_HEIGHT
    requires c > 0 ==> deltas[c - 1].height <= t.blocks[oldest - 1].height
    requires |t.blocks| - |deltas| <= oldest
    ensures |t.blocks| - |deltas| + c <= oldest
  {
    hide StepOk, UndoBlock, TransparentStep, PoolsOk;
    if c > 0 {
      var i := |t.deltas| - |deltas| + c - 1;
      assert deltas[c - 1] == t.deltas[i];
      TrailUndoable(t, i);
      TrailContiguous(t);
      NotLater(t.blocks, i, oldest - 1);
    }
  }

  lemma SnapshotExtends(t: Trail, e: Trail, n: nat, snapshot: Snapshot)
    requires SnapshotIs(t, n, snapshot) && |e.states| >= |t.states| && |e.blocks| >= |t.blocks|
    requires e.states[..|t.states|] == t.states && e.blocks[..|t.blocks|] == t.blocks
    ensures SnapshotIs(e, n, snapshot)
  {
    assert e.states[n] == e.states[..|t.states|][n] && e.blocks[n - 1] == e.blocks[..|t.blocks|][n - 1];
  }

  lemma SnapshotPushed(t: Trail, e: Trail, snapshots: seq<Snapshot>, at: seq<nat>, newest: Snapshot)
    requires SnapshotsAre(t, snapshots, at) && |e.states| > |t.states| && |e.blocks| == |t.blocks| + 1
    requires |t.states| == |t.blocks| + 1
    requires e.states[..|t.states|] == t.states && e.blocks[..|t.blocks|] == t.blocks
    requires SnapshotIs(e, |e.blocks|, newest)
    ensures SnapshotsAre(e, snapshots, at)
    ensures SnapshotsAre(e, snapshots + [newest], at + [|e.blocks|])
  {
    forall i | 0 <= i < |at|
      ensures SnapshotIs(e, at[i], snapshots[i]) && at[i] < |e.blocks|
    {
      SnapshotExtends(t, e, at[i], snapshots[i]);
    }
  }

  lemma DeltasExtend(t: Trail, e: Trail, deltas: seq<StateDelta>, delta: StateDelta)
    requires DeltasAre(t, deltas) && e.deltas == t.deltas + [delta]
    ensures DeltasAre(e, deltas + [delta])
  {
    var lo := |t.deltas| - |deltas|;
    assert (t.deltas + [delta])[lo..] == t.deltas[lo..] + [delta];
  }

  /**
   * Recording the block just applied never fails and keeps the journal on the
   * trail, whatever the interval and the depth.
   */
  lemma RecordTracks(t: Trail, j: Journal, at: seq<nat>, b: BlockSummary, after: ChainState,
          delta: StateDelta) returns (kept: seq<nat>)
    requires TrailOk(t) && Tracks(t, j, at) && StepOk(t.Last(), b, after, delta)
    ensures TrailOk(Extended(t, b, after, delta))
    ensures Record(j, after.forest, after.index, delta).Ok?
    ensures Tracks(Extended(t, b, after, delta), Record(j, after.forest, after.index, delta).value, kept)
  {
    hide StepOk, UndoBlock, TransparentStep, PoolsOk, Pruned;
    var e := Extended(t, b, after, delta);
    ExtendedOk(t, b, after, delta);
    AcceptedIsUndoable(t.Last(), b, after, delta);
    if at != [] {
      JournalKnowsTip(t, j, at);
    }
    var snapshot := Snapshot(delta.height, after.forest, after.index);
    assert e.states[..|t.states|] == t.states && e.blocks[..|t.blocks|] == t.blocks;
    SnapshotPushed(t, e, j.snapshots, at, snapshot);
    DeltasExtend(t, e, j.deltas, delta);
    if Boundary(j, delta.height) {
      kept := PushTracks(e, j, at, snapshot, delta);
    } else {
      kept := at;
    }
  }

  /** The boundary case: a snapshot is pushed, then the journal pruned. */
  lemma PushTracks(e: Trail, j: Journal, at: seq<nat>, snapshot: Snapshot, delta: StateDelta) returns (kept: seq<nat>)
    requires TrailOk(e) && e.blocks != [] && j.interval > 0
    requires SnapshotsAre(e, j.snapshots + [snapshot], at + [|e.blocks|]) && DeltasAre(e, j.deltas + [delta])
    requires at == [] ==> j.deltas == []
    requires at != [] && j.snapshots[0].height < MAX_HEIGHT ==> |e.blocks| - 1 - |j.deltas| <= at[0]
    ensures var pruned := Pruned(j.(snapshots := j.snapshots + [snapshot]));
      Tracks(e, pruned.(deltas := pruned.deltas + [delta]), kept)
  {
    hide StepOk, TrailOk, SnapshotIs;
    var snapshots, all := j.snapshots + [snapshot], at + [|e.blocks|];
    var d := Droppable(snapshots, Horizon(snapshots[|snapshots| - 1].height, j.maxDepth));
    kept := all[d..];
    var c := Covered(j.deltas, snapshots[d].height);
    assert (j.deltas + [delta])[c..] == j.deltas[c..] + [delta];
    SnapshotsDropped(e, snapshots, all, d);
    PushCovers(e, snapshots, all, d, j.deltas + [delta], c);
  }

  lemma PushCovers(e: Trail, snapshots: seq<Snapshot>, at: seq<nat>, d: nat, deltas: seq<StateDelta>, c: nat)
    requires TrailOk(e) && SnapshotsAre(e, snapshots, at) && DeltasAre(e, deltas) && d < |at| && c <= |deltas|
    requires c > 0 ==> deltas[c - 1].height <= snapshots[d].height
    requires snapshots[0].height < MAX_HEIGHT ==> |e.blocks| - |deltas| <= at[0]
    ensures snapshots[d].height < MAX_HEIGHT ==> |e.blocks| - |deltas| + c <= at[d]
  {
    hide StepOk;
    assert SnapshotIs(e, at[d], snapshots[d]);
    if snapshots[d].height < MAX_HEIGHT {
      FrontIsLower(e, snapshots, at, d);
      PruneCovers(e, deltas, at[d], c);
    }
  }

  lemma SnapshotsDropped(t: Trail, snapshots: seq<Snapshot>, at: seq<nat>, d: nat)
    requires SnapshotsAre(t, snapshots, at) && d <= |at|
    ensures SnapshotsAre(t, snapshots[d..], at[d..])
  {
    hide SnapshotIs;
    forall i | 0 <= i < |at| - d
      ensures SnapshotIs(t, at[d..][i], snapshots[d..][i])
    {
      assert at[d..][i] == at[d + i];
    }
  }

  lemma FrontIsLower(t: Trail, snapshots: seq<Snapshot>, at: seq<nat>, d: nat)
    requires TrailOk(t) && SnapshotsAre(t, snapshots, at) && d < |at|
    ensures at[0] <= at[d] && snapshots[0].height <= snapshots[d].height
  {
    hide StepOk;
    assert SnapshotIs(t, at[0], snapshots[0]) && SnapshotIs(t, at[d], snapshots[d]);
    TrailContiguous(t);
    assert d > 0 ==> at[0] < at[d];
    HeightsClimb(t.blocks, at[0] - 1, at[d] - 1);
  }
}
