// What the journal keeps, over any run of records and rollbacks.
module Retention {
  import opened Wrappers
  import opened Hashing
  import opened Transparent
  import opened Chain
  import opened Rollback

  /** Snapshot heights climb until they stick at the 32-bit limit. */
  ghost predicate Climbing(snapshots: seq<Snapshot>) {
    forall i, k {:trigger snapshots[i], snapshots[k]} :: 0 <= i < k < |snapshots| ==>
      snapshots[i].height < snapshots[k].height || snapshots[k].height == MAX_HEIGHT
  }

  ghost predicate NoGap(deltas: seq<StateDelta>) {
    forall k {:trigger FollowsOn(deltas, k)} :: 0 < k < |deltas| ==> FollowsOn(deltas, k)
  }

  predicate FollowsOn(deltas: seq<StateDelta>, k: nat)
    requires 0 < k < |deltas|
  {
    deltas[k].height == NextHeight(deltas[k - 1].height)
  }

  function Newest(j: Journal): Height
    requires j.snapshots != []
  {
    j.snapshots[|j.snapshots| - 1].height
  }

  function Higher(a: nat, b: nat): nat {
    if a < b then b else a
  }

  /**
   * The oldest delta kept is the one just above the earliest restorable height.
   * Only beside a single snapshot may it be that snapshot's own.
   */
  ghost predicate StartsAbove(snapshots: seq<Snapshot>, oldest: StateDelta)
    requires snapshots != []
  {
    var earliest := snapshots[0].height;
    && earliest <= oldest.height <= NextHeight(earliest)
    && (oldest.height == earliest ==> |snapshots| == 1 || earliest == MAX_HEIGHT)
  }

  predicate HasSnapshot(snapshots: seq<Snapshot>, h: nat) {
    exists i {:trigger snapshots[i]} :: 0 <= i < |snapshots| && snapshots[i].height == h
  }

  /** Snapshots stand at every multiple of the interval up to the tip, and nowhere else but at the first height. */
  ghost predicate AtMultiples(snapshots: seq<Snapshot>, interval: nat, first: Height, tip: Height)
    requires interval > 0 && snapshots != []
  {
    && (forall i {:trigger snapshots[i]} :: 0 <= i < |snapshots| ==>
      snapshots[i].height == first || snapshots[i].height % interval == 0)
    && forall h: nat {:trigger HasSnapshot(snapshots, h)} ::
      snapshots[0].height < h <= tip && h % interval == 0 ==> HasSnapshot(snapshots, h)
  }

  /** No snapshot is spare: without the oldest one, less than `maxDepth` blocks would be left below the newest. */
  ghost predicate NoneSpare(snapshots: seq<Snapshot>, maxDepth: nat) {
    |snapshots| > 1 ==> snapshots[1].height + maxDepth > snapshots[|snapshots| - 1].height
  }

  /**
   * The deltas run without a gap from just above the earliest restorable
   * height to the tip; that height is the first ever recorded or lies at least
   * `maxDepth` below the highest snapshot ever taken, `peak`; and the snapshots
   * are those of the interval, none of them spare.
   */
  ghost predicate Retains(j: Journal, first: Height, peak: nat) {
    && j.interval > 0 && j.snapshots != []
    && Climbing(j.snapshots) && NoGap(j.deltas)
    && (j.deltas != [] ==> StartsAbove(j.snapshots, j.deltas[0]))
    && (j.deltas == [] ==> Newest(j) == Earliest(j).value)
    && Newest(j) <= JournalTip(j).value && Newest(j) <= peak
    && (Earliest(j) == Some(first) || Earliest(j).value + j.maxDepth <= peak)
    && NoneSpare(j.snapshots, j.maxDepth)
    && AtMultiples(j.snapshots, j.interval, first, JournalTip(j).value)
  }

  /** The journal with its first record. */
  function FirstOf(j: Journal, snapshot: Snapshot, delta: StateDelta): Journal {
    Journal(j.interval, j.maxDepth, [snapshot], [delta])
  }

  lemma NothingRecorded(j: Journal, height: Height)
    requires j.interval > 0 && j.snapshots == [] && j.deltas == []
    ensures JournalTip(j) == None && Boundary(j, height)
  {
  }

  lemma FirstRecord(j: Journal, forest: Forest, index: Index, delta: StateDelta)
    requires j.interval > 0 && j.snapshots == [] && j.deltas == []
    ensures Record(j, forest, index, delta) == Ok(FirstOf(j, Snapshot(delta.height, forest, index), delta))
  {
    hide Boundary, JournalTip, Pruned, NextHeight;
    NothingRecorded(j, delta.height);
    var snapshot := Snapshot(delta.height, forest, index);
    assert j.snapshots + [snapshot] == [snapshot] && j.deltas + [delta] == [delta];
    FirstStays(j, snapshot);
  }

  lemma FirstStays(j: Journal, snapshot: Snapshot)
    requires j.deltas == []
    ensures Pruned(j.(snapshots := [snapshot])) == j.(snapshots := [snapshot])
  {
  }

  /** The first record always succeeds, and from it on the journal retains. */
  lemma FirstRecordRetains(j: Journal, forest: Forest, index: Index, delta: StateDelta)
    requires j.interval > 0 && j.snapshots == [] && j.deltas == []
    ensures var r := Record(j, forest, index, delta);
      r.Ok? && Retains(r.value, delta.height, delta.height)
  {
    hide *;
    FirstRecord(j, forest, index, delta);
    FirstRetains(j, Snapshot(delta.height, forest, index), delta);
  }

  lemma FirstRetains(j: Journal, snapshot: Snapshot, delta: StateDelta)
    requires j.interval > 0 && snapshot.height == delta.height
    ensures Retains(FirstOf(j, snapshot, delta), delta.height, delta.height)
  {
    FirstAtMultiples(snapshot, j.interval, delta);
    hide AtMultiples, StartsAbove;
  }

  lemma FirstAtMultiples(snapshot: Snapshot, interval: nat, delta: StateDelta)
    requires interval > 0 && snapshot.height == delta.height
    ensures AtMultiples([snapshot], interval, delta.height, delta.height) && StartsAbove([snapshot], delta)
  {
  }

  /** The deltas left by pruning, with the new one, still start just above the oldest snapshot. */
  lemma PruneLeavesNoGap(deltas: seq<StateDelta>, delta: StateDelta, oldest: Height, c: nat)
    requires NoGap(deltas) && (deltas != [] ==> delta.height == NextHeight(deltas[|deltas| - 1].height))
    requires c == Covered(deltas, oldest) && (if deltas != [] then deltas[0] else delta).height <= NextHeight(oldest)
    ensures NoGap(deltas[c..] + [delta]) && (deltas[c..] + [delta])[0].height <= NextHeight(oldest)
    ensures c < |deltas| ==> deltas[c].height > oldest
  {
    var left := deltas[c..] + [delta];
    forall k | 0 < k < |left|
      ensures FollowsOn(left, k)
    {
      assert c + k < |deltas| ==> FollowsOn(deltas, c + k);
    }
    assert 0 < c < |deltas| ==> FollowsOn(deltas, c);
  }

  lemma AppendLeavesNoGap(deltas: seq<StateDelta>, delta: StateDelta)
    requires NoGap(deltas) && (deltas != [] ==> delta.height == NextHeight(deltas[|deltas| - 1].height))
    ensures NoGap(deltas + [delta])
  {
    var grown := deltas + [delta];
    forall k | 0 < k < |grown|
      ensures FollowsOn(grown, k)
    {
      assert k < |deltas| ==> FollowsOn(deltas, k);
    }
  }

  lemma ClimbingSuffix(snapshots: seq<Snapshot>, d: nat)
    requires Climbing(snapshots) && d < |snapshots|
    ensures Climbing(snapshots[d..]) && snapshots[0].height <= snapshots[d].height
    ensures d > 0 ==> snapshots[d].height > 0
  {
    assert d > 0 ==> snapshots[0].height < snapshots[d].height || snapshots[d].height == MAX_HEIGHT;
  }

  /** What pruning leaves at the front reaches deep enough. */
  lemma FrontReaches(j: Journal, first: Height, peak: nat, snapshots: seq<Snapshot>, d: nat, newest: Height)
    requires j.snapshots != [] && |snapshots| == |j.snapshots| + 1 && snapshots[..|j.snapshots|] == j.snapshots
    requires Climbing(snapshots) && snapshots[|snapshots| - 1].height == newest
    requires Earliest(j) == Some(first) || Earliest(j).value + j.maxDepth <= peak
    requires d == Droppable(snapshots, Horizon(newest, j.maxDepth))
    ensures snapshots[d].height == first || snapshots[d].height + j.maxDepth <= Higher(peak, newest)
  {
    assert snapshots[0] == snapshots[..|j.snapshots|][0];
    ClimbingSuffix(snapshots, d);
  }

  /** The journal left when `d` snapshots and `c` deltas go and a new delta comes. */
  lemma CutRetains(j: Journal, first: Height, peak: nat, snapshots: seq<Snapshot>, d: nat, c: nat, delta: StateDelta,
          pruned: Journal)
    requires j.interval > 0 && d < |snapshots| && c <= |j.deltas| && Climbing(snapshots[d..])
    requires NoGap(j.deltas[c..] + [delta])
    requires StartsAbove(snapshots[d..], (j.deltas[c..] + [delta])[0])
    requires AtMultiples(snapshots[d..], j.interval, first, delta.height)
    requires snapshots[|snapshots| - 1].height <= delta.height && snapshots[|snapshots| - 1].height <= peak
    requires snapshots[d].height == first || snapshots[d].height + j.maxDepth <= peak
    requires NoneSpare(snapshots[d..], j.maxDepth)
    requires pruned == Journal(j.interval, j.maxDepth, snapshots[d..], j.deltas[c..])
    ensures Retains(pruned.(deltas := pruned.deltas + [delta]), first, peak)
  {
    hide NoGap, Climbing, StartsAbove, AtMultiples, NoneSpare;
  }

  /** The horizon lies `maxDepth` below the newest snapshot: what is dropped is spare, what is kept is not. */
  lemma DropLeavesNoneSpare(snapshots: seq<Snapshot>, d: nat, maxDepth: nat)
    requires snapshots != []
    requires d == Droppable(snapshots, Horizon(snapshots[|snapshots| - 1].height, maxDepth))
    ensures d < |snapshots| && NoneSpare(snapshots[d..], maxDepth)
  {
  }

  /** The delta left at the front stands just above the snapshot left at the front. */
  lemma FrontStandsAbove(deltas: seq<StateDelta>, delta: StateDelta, snapshots: seq<Snapshot>, d: nat, c: nat)
    requires d < |snapshots| && c <= |deltas| && Climbing(snapshots)
    requires (deltas[c..] + [delta])[0].height <= NextHeight(snapshots[d].height)
    requires c < |deltas| ==> deltas[c].height > snapshots[d].height
    requires snapshots[|snapshots| - 1].height == delta.height
    ensures StartsAbove(snapshots[d..], (deltas[c..] + [delta])[0])
  {
    if c == |deltas| && d < |snapshots| - 1 {
      assert snapshots[d].height < snapshots[|snapshots| - 1].height || delta.height == MAX_HEIGHT;
    }
  }

  /** A block at a multiple of the interval brings its snapshot; what pruning drops lies at or below the new front. */
  lemma PushedAtMultiples(j: Journal, first: Height, peak: nat, snapshot: Snapshot, d: nat)
    requires Retains(j, first, peak) && snapshot.height == NextHeight(JournalTip(j).value)
    requires snapshot.height % j.interval == 0
    requires d <= |j.snapshots| && Climbing(j.snapshots + [snapshot])
    ensures AtMultiples((j.snapshots + [snapshot])[d..], j.interval, first, snapshot.height)
  {
    var all := j.snapshots + [snapshot];
    var kept := all[d..];
    hide NoGap, StartsAbove, NoneSpare;
    forall i | 0 <= i < |kept|
      ensures kept[i].height == first || kept[i].height % j.interval == 0
    {
      assert kept[i] == all[d + i];
      assert d + i < |j.snapshots| ==> all[d + i] == j.snapshots[d + i];
    }
    forall h: nat | kept[0].height < h <= snapshot.height && h % j.interval == 0
      ensures HasSnapshot(kept, h)
    {
      if h == snapshot.height {
        assert kept[|kept| - 1].height == h;
      } else {
        ClimbingSuffix(all, d);
        assert all[0] == j.snapshots[0] && HasSnapshot(j.snapshots, h);
        var i :| 0 <= i < |j.snapshots| && j.snapshots[i].height == h;
        assert all[i].height == h;
        assert i >= d;
        assert kept[i - d].height == h;
      }
    }
  }

  /** Between two multiples nothing is due. */
  lemma NoMultiplePassed(j: Journal, first: Height, peak: nat, height: Height)
    requires Retains(j, first, peak) && height == NextHeight(JournalTip(j).value) && height % j.interval != 0
    ensures AtMultiples(j.snapshots, j.interval, first, height)
  {
    hide NoGap, Climbing, StartsAbove, NoneSpare;
    forall h: nat | j.snapshots[0].height < h <= height && h % j.interval == 0
      ensures HasSnapshot(j.snapshots, h)
    {
      assert h <= JournalTip(j).value;
    }
  }

  /** A snapshot and a delta for the height after the journal's tip. */
  ghost predicate ComesNext(j: Journal, first: Height, peak: nat, snapshot: Snapshot, delta: StateDelta) {
    Retains(j, first, peak) && snapshot.height == delta.height == NextHeight(JournalTip(j).value)
  }

  lemma PushClimbs(j: Journal, first: Height, peak: nat, snapshot: Snapshot, delta: StateDelta)
    requires ComesNext(j, first, peak, snapshot, delta)
    ensures j.interval > 0 && j.snapshots != [] && Climbing(j.snapshots + [snapshot])
    ensures snapshot.height == delta.height
    ensures NoGap(j.deltas) && (j.deltas != [] ==> delta.height == NextHeight(j.deltas[|j.deltas| - 1].height))
  {
    hide NoGap, Climbing, StartsAbove, NoneSpare, AtMultiples;
    SnapshotsClimb(j.snapshots, snapshot, JournalTip(j).value);
  }

  /** The front left reaches deep enough, and the deltas start no later than just above it. */
  lemma PushReaches(j: Journal, first: Height, peak: nat, snapshot: Snapshot, delta: StateDelta, d: nat)
    requires ComesNext(j, first, peak, snapshot, delta) && d < |j.snapshots| + 1
    requires d == Droppable(j.snapshots + [snapshot], Horizon(snapshot.height, j.maxDepth))
    ensures var front := (j.snapshots + [snapshot])[d].height;
      && (front == first || front + j.maxDepth <= Higher(peak, delta.height))
      && (if j.deltas != [] then j.deltas[0] else delta).height <= NextHeight(front)
  {
    PushClimbs(j, first, peak, snapshot, delta);
    var snapshots := j.snapshots + [snapshot];
    ClimbingSuffix(snapshots, d);
    assert snapshots[..|j.snapshots|] == j.snapshots && snapshots[0] == j.snapshots[0];
    hide NoGap, Climbing, Droppable, Horizon, StartsAbove, NoneSpare, AtMultiples;
    FrontReaches(j, first, peak, snapshots, d, delta.height);
    FrontStarts(j, first, peak, snapshots, d, delta);
  }

  /** What pruning leaves in front. */
  lemma PushFront(j: Journal, first: Height, peak: nat, snapshot: Snapshot, delta: StateDelta, d: nat, c: nat)
    requires ComesNext(j, first, peak, snapshot, delta)
    requires d == Droppable(j.snapshots + [snapshot], Horizon(snapshot.height, j.maxDepth))
    requires d < |j.snapshots| + 1 && c == Covered(j.deltas, (j.snapshots + [snapshot])[d].height)
    ensures c <= |j.deltas| && NoGap(j.deltas[c..] + [delta])
    ensures StartsAbove((j.snapshots + [snapshot])[d..], (j.deltas[c..] + [delta])[0])
    ensures var front := (j.snapshots + [snapshot])[d].height;
      front == first || front + j.maxDepth <= Higher(peak, delta.height)
  {
    hide *;
    PushClimbs(j, first, peak, snapshot, delta);
    var snapshots := j.snapshots + [snapshot];
    ClimbingSuffix(snapshots, d);
    PushReaches(j, first, peak, snapshot, delta, d);
    PruneLeavesNoGap(j.deltas, delta, snapshots[d].height, c);
    FrontStandsAbove(j.deltas, delta, snapshots, d, c);
  }

  /** A snapshot pushed and the journal pruned: the promise holds of what is left. */
  lemma PushRetains(j: Journal, first: Height, peak: nat, snapshot: Snapshot, delta: StateDelta, pruned: Journal)
    requires ComesNext(j, first, peak, snapshot, delta) && j.interval > 0 && delta.height % j.interval == 0
    requires pruned == Pruned(Pushed(j, snapshot))
    ensures Retains(pruned.(deltas := pruned.deltas + [delta]), first, Higher(peak, delta.height))
  {
    PushClimbs(j, first, peak, snapshot, delta);
    hide NoGap, Climbing, Droppable, Covered, Pruned, Horizon, StartsAbove, NoneSpare, AtMultiples, Retains;
    var snapshots := j.snapshots + [snapshot];
    var d := Droppable(snapshots, Horizon(delta.height, j.maxDepth));
    var c := Covered(j.deltas, snapshots[d].height);
    PushFront(j, first, peak, snapshot, delta, d, c);
    DropLeavesNoneSpare(snapshots, d, j.maxDepth);
    PushedAtMultiples(j, first, peak, snapshot, d);
    ClimbingSuffix(snapshots, d);
    PrunedIs(j, snapshot, d, c);
    CutRetains(j, first, Higher(peak, delta.height), snapshots, d, c, delta, pruned);
  }

  /** The first delta after a record starts no later than just above the front snapshot. */
  lemma FrontStarts(j: Journal, first: Height, peak: nat, snapshots: seq<Snapshot>, d: nat, delta: StateDelta)
    requires Retains(j, first, peak) && delta.height == NextHeight(JournalTip(j).value) && d < |snapshots|
    requires snapshots[0].height == Earliest(j).value <= snapshots[d].height
    ensures (if j.deltas != [] then j.deltas[0] else delta).height <= NextHeight(snapshots[d].height)
  {
    hide NoGap, Climbing, NoneSpare, AtMultiples;
  }

  function Pushed(j: Journal, snapshot: Snapshot): Journal {
    Journal(j.interval, j.maxDepth, j.snapshots + [snapshot], j.deltas)
  }

  lemma PrunedIs(j: Journal, snapshot: Snapshot, d: nat, c: nat)
    requires var snapshots := j.snapshots + [snapshot];
      d == Droppable(snapshots, Horizon(snapshot.height, j.maxDepth)) && c == Covered(j.deltas, snapshots[d].height)
    ensures Pruned(Pushed(j, snapshot)) ==
      Journal(j.interval, j.maxDepth, (j.snapshots + [snapshot])[d..], j.deltas[c..])
  {
  }

  /** Every further record that is taken keeps the promise. */
  lemma RecordRetains(j: Journal, first: Height, peak: nat, forest: Forest, index: Index, delta: StateDelta)
    requires Retains(j, first, peak) && Record(j, forest, index, delta).Ok?
    ensures var after := Record(j, forest, index, delta).value;
      after.snapshots != [] && Retains(after, first, Higher(peak, Newest(after)))
    ensures Newest(j) <= Newest(Record(j, forest, index, delta).value)
  {
    if Boundary(j, delta.height) {
      var snapshot := Snapshot(delta.height, forest, index);
      PushRetains(j, first, peak, snapshot, delta, Pruned(Pushed(j, snapshot)));
      hide Retains;
      NewestPushed(j, snapshot);
      hide Pruned;
    } else {
      NoMultiplePassed(j, first, peak, delta.height);
      hide NoGap, Climbing, Pruned, NoneSpare, AtMultiples;
      AppendLeavesNoGap(j.deltas, delta);
    }
  }

  /** A journal takes exactly the record that follows its tip, and otherwise names the height it waits for. */
  lemma RecordTakenExactly(j: Journal, first: Height, peak: nat, forest: Forest, index: Index, delta: StateDelta)
    requires Retains(j, first, peak)
    ensures JournalTip(j).Some?
    ensures var expected := NextHeight(JournalTip(j).value);
      && (Record(j, forest, index, delta).Ok? <==> delta.height == expected)
      && (Record(j, forest, index, delta).Err? ==>
        Record(j, forest, index, delta) == Err(RecordOutOfOrder(expected, delta.height)))
  {
    hide NoGap, Climbing, StartsAbove, NoneSpare, AtMultiples, Pruned;
  }

  lemma NewestPushed(j: Journal, snapshot: Snapshot)
    ensures Pruned(Pushed(j, snapshot)).snapshots != [] && Newest(Pruned(Pushed(j, snapshot))) == snapshot.height
  {
  }

  lemma SnapshotsClimb(snapshots: seq<Snapshot>, snapshot: Snapshot, tip: Height)
    requires Climbing(snapshots) && snapshots != [] && snapshots[|snapshots| - 1].height <= tip
    requires snapshot.height == NextHeight(tip)
    ensures Climbing(snapshots + [snapshot])
  {
    var last := |snapshots| - 1;
    forall i | 0 <= i <= last
      ensures snapshots[i].height < snapshot.height || snapshot.height == MAX_HEIGHT
    {
      assert i < last ==> snapshots[i].height < snapshots[last].height || snapshots[last].height == MAX_HEIGHT;
    }
  }

  datatype Recorded = Recorded(forest: Forest, index: Index, delta: StateDelta)

  /** The journal after the first `n` records were offered; a refused one leaves it as it was. */
  function RecordRun(interval: nat, maxDepth: nat, records: seq<Recorded>, n: nat): (j: Journal)
    requires n <= |records|
    ensures j.interval == Higher(interval, 1) && j.maxDepth == maxDepth
  {
    if n == 0 then EmptyJournal(interval, maxDepth)
    else
      var before := RecordRun(interval, maxDepth, records, n - 1);
      var r := Record(before, records[n - 1].forest, records[n - 1].index, records[n - 1].delta);
      if r.Ok? then r.value else before
  }

  /** Retention over any run of records, any interval and any depth; the peak is then the newest snapshot. */
  lemma {:induction false} RunRetains(interval: nat, maxDepth: nat, records: seq<Recorded>, n: nat)
    requires 0 < n <= |records|
    ensures var j := RecordRun(interval, maxDepth, records, n);
      && j.interval == Higher(interval, 1) && j.maxDepth == maxDepth
      && j.snapshots != [] && Retains(j, records[0].delta.height, Newest(j))
  {
    hide Retains, Record;
    var before, x := RecordRun(interval, maxDepth, records, n - 1), records[n - 1];
    if n == 1 {
      FirstRecordRetains(before, x.forest, x.index, x.delta);
      FirstIsNewest(before, x.forest, x.index, x.delta);
    } else {
      RunRetains(interval, maxDepth, records, n - 1);
      if Record(before, x.forest, x.index, x.delta).Ok? {
        RecordRetains(before, records[0].delta.height, Newest(before), x.forest, x.index, x.delta);
      }
    }
  }

  lemma FirstIsNewest(j: Journal, forest: Forest, index: Index, delta: StateDelta)
    requires j.interval > 0 && j.snapshots == [] && j.deltas == []
    ensures var r := Record(j, forest, index, delta);
      r.Ok? && r.value.snapshots != [] && Newest(r.value) == delta.height
  {
  }

  // ---- rollbacks in between ----

  lemma KeptAreDeltas(deltas: seq<StateDelta>, target: Height, m: nat)
    requires NoGap(deltas) && m == KeptDeltas(deltas, target)
    ensures m <= |deltas| && NoGap(deltas[..m])
    ensures m > 0 ==> deltas[m - 1].height <= target
    ensures 0 < m < |deltas| ==> deltas[m - 1].height == target
    ensures m == 0 && deltas != [] ==> deltas[0].height > target
  {
    forall k | 0 < k < m
      ensures FollowsOn(deltas[..m], k)
    {
      assert FollowsOn(deltas, k);
    }
    assert 0 < m < |deltas| ==> FollowsOn(deltas, m);
  }

  lemma KeptAreSnapshots(snapshots: seq<Snapshot>, target: Height, n: nat)
    requires Climbing(snapshots) && snapshots != [] && snapshots[0].height <= target
    requires n == KeptSnapshots(snapshots, target)
    ensures 0 < n <= |snapshots| && Climbing(snapshots[..n])
    ensures snapshots[0].height <= snapshots[n - 1].height <= target
    ensures snapshots[n - 1].height <= snapshots[|snapshots| - 1].height
    ensures n > 1 ==> snapshots[0].height < snapshots[n - 1].height || snapshots[n - 1].height == MAX_HEIGHT
  {
    assert n > 0;
    assert snapshots[n - 1].height <= snapshots[|snapshots| - 1].height;
  }

  /** The journal cut back to its first `n` snapshots and `m` deltas. */
  function CutBack(j: Journal, m: nat, n: nat): Journal
    requires m <= |j.deltas| && n <= |j.snapshots|
  {
    Journal(j.interval, j.maxDepth, j.snapshots[..n], j.deltas[..m])
  }

  /** Where the cut leaves the tip. */
  lemma CutBackTip(j: Journal, first: Height, peak: nat, target: Height, m: nat, n: nat)
    requires Retains(j, first, peak) && Earliest(j).value <= target <= JournalTip(j).value
    requires m == KeptDeltas(j.deltas, target) && n == KeptSnapshots(j.snapshots, target)
    ensures n > 0 && JournalTip(CutBack(j, m, n)) == Some(target)
    ensures m == 0 ==> j.snapshots[n - 1].height == target == Earliest(j).value
  {
    KeptAreDeltas(j.deltas, target, m);
    KeptAreSnapshots(j.snapshots, target, n);
    hide NoGap, Climbing, KeptDeltas, KeptSnapshots;
  }

  /** Cutting the snapshots above the target leaves those at or below it. */
  lemma CutAtMultiples(j: Journal, first: Height, peak: nat, target: Height, n: nat)
    requires Retains(j, first, peak) && Earliest(j).value <= target <= JournalTip(j).value
    requires n == KeptSnapshots(j.snapshots, target) && 0 < n
    ensures AtMultiples(j.snapshots[..n], j.interval, first, target)
  {
    hide NoGap, Climbing, StartsAbove, NoneSpare;
    var kept := j.snapshots[..n];
    forall h: nat | kept[0].height < h <= target && h % j.interval == 0
      ensures HasSnapshot(kept, h)
    {
      assert HasSnapshot(j.snapshots, h);
      var i :| 0 <= i < |j.snapshots| && j.snapshots[i].height == h;
      assert i < n && kept[i].height == h;
    }
  }

  /** A rollback within reach keeps the promise and the earliest height, and its target becomes the tip. */
  lemma TruncationRetains(j: Journal, first: Height, peak: nat, target: Height)
    requires Retains(j, first, peak) && Earliest(j).value <= target <= JournalTip(j).value
    ensures Retains(Truncated(j, target), first, peak)
    ensures Earliest(Truncated(j, target)) == Earliest(j) && JournalTip(Truncated(j, target)) == Some(target)
  {
    var m, n := KeptDeltas(j.deltas, target), KeptSnapshots(j.snapshots, target);
    KeptAreDeltas(j.deltas, target, m);
    KeptAreSnapshots(j.snapshots, target, n);
    CutBackTip(j, first, peak, target, m, n);
    CutAtMultiples(j, first, peak, target, n);
    assert Truncated(j, target) == CutBack(j, m, n);
    hide NoGap, Climbing, KeptDeltas, KeptSnapshots, Truncated, JournalTip, AtMultiples;
  }
}
