// Whole runs of blocks and rollbacks, and what the journal retains.
module ReorgRuns {
  import opened Wrappers
  import opened Hashing
  import opened Transparent
  import opened Chain
  import opened Transition
  import opened ColdReplay
  import opened Rollback
  import opened UndoProofs
  import opened Reorg
  import opened ReorgRollback

  datatype Event = Arrive(block: BlockSummary) | Back(target: Height)

  /** A bridge, its journal, and the blocks that have survived so far. */
  datatype World = World(journal: Journal, state: ChainState, blocks: seq<BlockSummary>)

  /** How many blocks stay once those above `target` are popped off the end. */
  function Survivors(blocks: seq<BlockSummary>, target: Height): (n: nat)
    ensures n <= |blocks|
    ensures n > 0 ==> blocks[n - 1].height <= target
    ensures forall i {:trigger blocks[i]} :: n <= i < |blocks| ==> blocks[i].height > target
  {
    KeptUpTo(blocks, (block: BlockSummary) => block.height, target)
  }

  /** Apply-then-record, or roll back. */
  ghost function Next(w: World, e: Event): (r: World)
    requires Histories(w.state.pools) && w.journal.interval > 0
    ensures Histories(r.state.pools) && r.journal.interval == w.journal.interval
    ensures r.journal.maxDepth == w.journal.maxDepth
  {
    match e
    case Arrive(b) =>
      var (after, applied) := ApplyBlock(w.state, b, DEFAULT_OPTIONS);
      if applied.Err? then World(w.journal, after, w.blocks)
      else
        var recorded := Record(w.journal, after.forest, after.index, applied.value.delta);
        World(if recorded.Ok? then recorded.value else w.journal, after, w.blocks + [b])
    case Back(target) =>
      var (journal, state, verdict) := RollBack(w.journal, w.state, target);
      World(journal, state, if verdict.Ok? then w.blocks[..Survivors(w.blocks, target)] else w.blocks)
  }

  /** The journal tracks a trail from `start` through the surviving blocks to the current state. */
  ghost predicate OnTrail(start: ChainState, w: World, t: Trail, at: seq<nat>) {
    TrailOk(t) && t.states[0] == start && t.blocks == w.blocks && t.Last() == w.state && Tracks(t, w.journal, at)
  }

  ghost predicate Consistent(start: ChainState, w: World) {
    exists t: Trail, at: seq<nat> :: OnTrail(start, w, t, at)
  }

  /** A block the state takes, or refuses before anything moved. */
  ghost predicate Clean(s: ChainState, e: Event)
    requires Histories(s.pools)
  {
    e.Arrive? ==> ApplyBlock(s, e.block, DEFAULT_OPTIONS).1.Ok? || LeavesNoTrace(s, e.block, DEFAULT_OPTIONS)
  }

  lemma {:induction false} TrailPoolsOk(t: Trail, k: nat)
    requires TrailOk(t) && k < |t.states| && PoolsOk(t.states[0].depth, t.states[0].pools)
    ensures PoolsOk(t.states[k].depth, t.states[k].pools)
  {
    hide StepOk, PoolsOk, UndoBlock, TransparentStep;
    if k > 0 {
      TrailUndoable(t, k - 1);
    }
  }

  /** An accepted block is recorded without fail, and the world stays consistent. */
  lemma ArriveConsistent(start: ChainState, w: World, b: BlockSummary)
    requires PoolsOk(start.depth, start.pools) && Consistent(start, w) && Histories(w.state.pools)
    requires w.journal.interval > 0
    requires Clean(w.state, Arrive(b))
    ensures Consistent(start, Next(w, Arrive(b)))
    ensures var (after, applied) := ApplyBlock(w.state, b, DEFAULT_OPTIONS);
      if applied.Ok? then Record(w.journal, after.forest, after.index, applied.value.delta).Ok?
      else Next(w, Arrive(b)) == w
  {
    hide Tracks, TrailOk;
    var t, at :| OnTrail(start, w, t, at);
    var (after, applied) := ApplyBlock(w.state, b, DEFAULT_OPTIONS);
    assert PoolsOk(w.state.depth, w.state.pools) by {
      LastPoolsOk(start, w, t, at);
    }
    hide PoolsOk, ApplyBlock, LeavesNoTrace;
    if applied.Ok? {
      var delta := applied.value.delta;
      assert StepOk(w.state, b, after, delta);
      var kept := RecordTracks(t, w.journal, at, b, after, delta);
      ExtendedOnTrail(start, w, t, at, b, after, delta, kept);
    } else {
      RejectedUntouchedExactly(w.state, b, DEFAULT_OPTIONS);
    }
  }

  lemma LastPoolsOk(start: ChainState, w: World, t: Trail, at: seq<nat>)
    requires OnTrail(start, w, t, at) && PoolsOk(start.depth, start.pools)
    ensures PoolsOk(w.state.depth, w.state.pools)
  {
    TrailPoolsOk(t, |t.blocks|);
  }

  lemma ExtendedOnTrail(start: ChainState, w: World, t: Trail, at: seq<nat>, b: BlockSummary, after: ChainState,
          delta: StateDelta, kept: seq<nat>)
    requires OnTrail(start, w, t, at) && TrailOk(Extended(t, b, after, delta))
    requires w.journal.interval > 0 && Record(w.journal, after.forest, after.index, delta).Ok?
    requires Tracks(Extended(t, b, after, delta), Record(w.journal, after.forest, after.index, delta).value, kept)
    ensures Consistent(start, World(Record(w.journal, after.forest, after.index, delta).value, after, w.blocks + [b]))
  {
    hide Tracks, StepOk, Record;
    var next := World(Record(w.journal, after.forest, after.index, delta).value, after, w.blocks + [b]);
    assert OnTrail(start, next, Extended(t, b, after, delta), kept);
  }

  /**
   * A rollback succeeds exactly when its target is within reach, and then the
   * surviving blocks are those at or below it; a refused one changes nothing.
   */
  lemma BackConsistent(start: ChainState, w: World, target: Height)
    requires PoolsOk(start.depth, start.pools) && Consistent(start, w) && Histories(w.state.pools)
    requires w.journal.interval > 0
    ensures Consistent(start, Next(w, Back(target)))
    ensures RollBack(w.journal, w.state, target).2.Ok? <==> Refusal(w.journal, w.state.tip, target).None?
    ensures RollBack(w.journal, w.state, target).2.Err? ==> Next(w, Back(target)) == w
  {
    var t, at :| OnTrail(start, w, t, at);
    hide StepOk, Tracks, PoolsOk;
    if Refusal(w.journal, w.state.tip, target).None? {
      if w.state.tip == Some(target) {
        TipSurvives(t, target);
        assert Next(w, Back(target)) == w;
      } else {
        hide UndoAbove, Restored;
        var m, kept := RollbackTracks(t, w.journal, at, target);
        SurvivorsAre(t, target, m);
        assert OnTrail(start, Next(w, Back(target)), t.Upto(m), kept);
      }
    }
  }

  lemma SurvivorsAre(t: Trail, target: Height, m: nat)
    requires SplitsAt(t, target, m)
    ensures Survivors(t.blocks, target) == m
  {
    var n := Survivors(t.blocks, target);
    assert n < |t.blocks| ==> t.blocks[n].height > target;
    assert m > 0 ==> t.blocks[m - 1].height <= target;
  }

  lemma TipSurvives(t: Trail, target: Height)
    requires TrailOk(t) && t.Last().tip == Some(target)
    ensures Survivors(t.blocks, target) == |t.blocks|
  {
    hide StepOk, UndoBlock, TransparentStep, PoolsOk;
    if t.blocks != [] {
      TrailUndoable(t, |t.blocks| - 1);
    }
  }

  // ---- runs ----

  ghost function Run(start: ChainState, interval: nat, maxDepth: nat, events: seq<Event>, n: nat): (w: World)
    requires Histories(start.pools) && n <= |events|
    ensures Histories(w.state.pools) && w.journal.interval > 0
  {
    if n == 0 then World(EmptyJournal(interval, maxDepth), start, [])
    else Next(Run(start, interval, maxDepth, events, n - 1), events[n - 1])
  }

  ghost predicate CleanThroughout(start: ChainState, interval: nat, maxDepth: nat, events: seq<Event>, n: nat)
    requires Histories(start.pools) && n <= |events|
  {
    forall k {:trigger CleanAt(start, interval, maxDepth, events, k)} :: 0 <= k < n ==>
      CleanAt(start, interval, maxDepth, events, k)
  }

  ghost predicate CleanAt(start: ChainState, interval: nat, maxDepth: nat, events: seq<Event>, k: nat)
    requires Histories(start.pools) && k < |events|
  {
    Clean(Run(start, interval, maxDepth, events, k).state, events[k])
  }

  lemma NothingYet(start: ChainState, interval: nat, maxDepth: nat)
    ensures Consistent(start, World(EmptyJournal(interval, maxDepth), start, []))
  {
    assert OnTrail(start, World(EmptyJournal(interval, maxDepth), start, []), Trail([start], [], []), []);
  }

  /** A start with sound pools, and `n` events none of which left a trace. */
  ghost predicate CleanRun(start: ChainState, interval: nat, maxDepth: nat, events: seq<Event>, n: nat) {
    && PoolsOk(start.depth, start.pools) && Histories(start.pools) && n <= |events|
    && CleanThroughout(start, interval, maxDepth, events, n)
  }

  ghost predicate ConsistentRun(start: ChainState, interval: nat, maxDepth: nat, events: seq<Event>, n: nat) {
    Histories(start.pools) && n <= |events| && Consistent(start, Run(start, interval, maxDepth, events, n))
  }

  lemma {:induction false} CleanRunConsistent(start: ChainState, interval: nat, maxDepth: nat, events: seq<Event>,
          n: nat)
    requires CleanRun(start, interval, maxDepth, events, n)
    ensures ConsistentRun(start, interval, maxDepth, events, n)
  {
    hide *;
    if n == 0 {
      StartsConsistent(start, interval, maxDepth, events);
    } else {
      CleanBefore(start, interval, maxDepth, events, n);
      CleanRunConsistent(start, interval, maxDepth, events, n - 1);
      StepConsistent(start, interval, maxDepth, events, n);
    }
  }

  lemma RunConsistent(start: ChainState, interval: nat, maxDepth: nat, events: seq<Event>, n: nat)
    requires PoolsOk(start.depth, start.pools) && n <= |events| && CleanThroughout(start, interval, maxDepth, events, n)
    ensures Consistent(start, Run(start, interval, maxDepth, events, n))
  {
    hide Consistent, Run, CleanThroughout;
    CleanRunConsistent(start, interval, maxDepth, events, n);
  }

  lemma StartsConsistent(start: ChainState, interval: nat, maxDepth: nat, events: seq<Event>)
    requires CleanRun(start, interval, maxDepth, events, 0)
    ensures ConsistentRun(start, interval, maxDepth, events, 0)
  {
    NothingYet(start, interval, maxDepth);
    hide PoolsOk, Histories, Consistent, CleanThroughout;
  }

  lemma CleanBefore(start: ChainState, interval: nat, maxDepth: nat, events: seq<Event>, n: nat)
    requires n > 0 && CleanRun(start, interval, maxDepth, events, n)
    ensures CleanRun(start, interval, maxDepth, events, n - 1)
  {
    hide PoolsOk, Histories, CleanAt;
  }

  lemma StepConsistent(start: ChainState, interval: nat, maxDepth: nat, events: seq<Event>, n: nat)
    requires n > 0 && CleanRun(start, interval, maxDepth, events, n)
    requires ConsistentRun(start, interval, maxDepth, events, n - 1)
    ensures ConsistentRun(start, interval, maxDepth, events, n)
  {
    hide PoolsOk, Next, Histories, Consistent, Clean;
    assert CleanAt(start, interval, maxDepth, events, n - 1);
    NextConsistent(start, Run(start, interval, maxDepth, events, n - 1), events[n - 1]);
  }

  lemma NextConsistent(start: ChainState, w: World, e: Event)
    requires PoolsOk(start.depth, start.pools) && Consistent(start, w) && Histories(w.state.pools)
    requires w.journal.interval > 0
    requires Clean(w.state, e)
    ensures Consistent(start, Next(w, e))
  {
    hide PoolsOk, Next, Histories, Consistent, Clean, Record, RollBack, ApplyBlock;
    match e {
      case Arrive(b) => ArriveConsistent(start, w, b);
      case Back(target) => BackConsistent(start, w, target);
    }
  }

  /** After the first `n` events the state is what a cold replay of the surviving blocks reaches. */
  ghost predicate ColdAt(start: ChainState, interval: nat, maxDepth: nat, events: seq<Event>, n: nat)
    requires PoolsOk(start.depth, start.pools) && n <= |events|
  {
    var w := Run(start, interval, maxDepth, events, n);
    BridgeAfter(start, w.blocks, DEFAULT_OPTIONS, |w.blocks|) == Ok(w.state)
  }

  /**
   * Reorg exactness. After any interleaving of blocks and rollbacks in which no
   * refused block left a trace, the whole state is what a cold replay of the
   * surviving blocks reaches.
   */
  lemma ReorgExact(start: ChainState, interval: nat, maxDepth: nat, events: seq<Event>, n: nat)
    requires PoolsOk(start.depth, start.pools) && n <= |events| && CleanThroughout(start, interval, maxDepth, events, n)
    ensures ColdAt(start, interval, maxDepth, events, n)
  {
    RunConsistent(start, interval, maxDepth, events, n);
    hide PoolsOk, Run, Tracks;
    var w := Run(start, interval, maxDepth, events, n);
    var t, at :| OnTrail(start, w, t, at);
    TrailIsColdReplay(t, |t.blocks|);
  }

  /** A block whose refusal left a trace puts the state off the replay of the very same blocks. */
  lemma TraceShows(start: ChainState, interval: nat, maxDepth: nat, events: seq<Event>, n: nat)
    requires PoolsOk(start.depth, start.pools) && n < |events| && CleanThroughout(start, interval, maxDepth, events, n)
    requires ColdAt(start, interval, maxDepth, events, n) && ColdAt(start, interval, maxDepth, events, n + 1)
    ensures CleanAt(start, interval, maxDepth, events, n)
  {
    var w, e := Run(start, interval, maxDepth, events, n), events[n];
    RunConsistent(start, interval, maxDepth, events, n);
    if e.Arrive? && ApplyBlock(w.state, e.block, DEFAULT_OPTIONS).1.Err? {
      var t, at :| OnTrail(start, w, t, at);
      LastPoolsOk(start, w, t, at);
      RejectedUntouchedExactly(w.state, e.block, DEFAULT_OPTIONS);
      hide PoolsOk, ApplyBlock, LeavesNoTrace, OnTrail;
      assert Run(start, interval, maxDepth, events, n + 1) == Next(w, e);
    }
  }

  ghost predicate ColdThroughout(start: ChainState, interval: nat, maxDepth: nat, events: seq<Event>, n: nat)
    requires PoolsOk(start.depth, start.pools) && n <= |events|
  {
    forall k {:trigger ColdAt(start, interval, maxDepth, events, k)} :: 0 <= k <= n ==>
      ColdAt(start, interval, maxDepth, events, k)
  }

  lemma OneEventMore(start: ChainState, interval: nat, maxDepth: nat, events: seq<Event>, n: nat)
    requires PoolsOk(start.depth, start.pools) && n < |events|
    ensures CleanThroughout(start, interval, maxDepth, events, n + 1)
       <==> CleanThroughout(start, interval, maxDepth, events, n) && CleanAt(start, interval, maxDepth, events, n)
    ensures ColdThroughout(start, interval, maxDepth, events, n + 1)
       <==> ColdThroughout(start, interval, maxDepth, events, n) && ColdAt(start, interval, maxDepth, events, n + 1)
  {
    assert Histories(start.pools);
    hide PoolsOk, ColdAt, CleanAt, Histories;
  }

  lemma NoEventYet(start: ChainState, interval: nat, maxDepth: nat, events: seq<Event>)
    requires PoolsOk(start.depth, start.pools)
    ensures CleanThroughout(start, interval, maxDepth, events, 0)
    ensures ColdThroughout(start, interval, maxDepth, events, 0)
  {
    assert Histories(start.pools);
    assert CleanThroughout(start, interval, maxDepth, events, 0);
    ReorgExact(start, interval, maxDepth, events, 0);
    hide PoolsOk, Run, BridgeAfter, ColdAt, CleanAt;
  }

  lemma ColdBefore(start: ChainState, interval: nat, maxDepth: nat, events: seq<Event>, n: nat)
    requires PoolsOk(start.depth, start.pools) && 0 < n <= |events|
    requires ColdThroughout(start, interval, maxDepth, events, n)
    ensures ColdAt(start, interval, maxDepth, events, n - 1) && ColdAt(start, interval, maxDepth, events, n)
  {
    hide PoolsOk, ColdAt;
  }

  /**
   * And that is the exact condition: the state equals a cold replay after every
   * event of a run if and only if every refused block was refused before
   * anything moved.
   */
  lemma {:induction false} ColdThroughoutExactly(start: ChainState, interval: nat, maxDepth: nat, events: seq<Event>,
          n: nat)
    requires PoolsOk(start.depth, start.pools) && n <= |events|
    ensures CleanThroughout(start, interval, maxDepth, events, n) <==>
      ColdThroughout(start, interval, maxDepth, events, n)
  {
    assert Histories(start.pools);
    hide *;
    if n == 0 {
      NoEventYet(start, interval, maxDepth, events);
    } else {
      OneEventMore(start, interval, maxDepth, events, n - 1);
      ColdThroughoutExactly(start, interval, maxDepth, events, n - 1);
      if CleanThroughout(start, interval, maxDepth, events, n) {
        ReorgExact(start, interval, maxDepth, events, n);
      } else if ColdThroughout(start, interval, maxDepth, events, n) {
        ColdBefore(start, interval, maxDepth, events, n);
        TraceShows(start, interval, maxDepth, events, n - 1);
      }
    }
  }

  /**
   * Along such a run a rollback at any point succeeds for every target from
   * the earliest restorable height up to the tip, and for no other; a refusal
   * names the tip or the earliest height that stood in the way.
   */
  lemma RollbackReaches(start: ChainState, interval: nat, maxDepth: nat, events: seq<Event>, target: Height)
    requires PoolsOk(start.depth, start.pools) && CleanThroughout(start, interval, maxDepth, events, |events|)
    ensures var w := Run(start, interval, maxDepth, events, |events|);
      RollBack(w.journal, w.state, target).2.Ok? <==>
        w.state.tip.Some? && target <= w.state.tip.value
        && (target == w.state.tip.value || (Earliest(w.journal).Some? && Earliest(w.journal).value <= target))
    ensures var w := Run(start, interval, maxDepth, events, |events|);
      match RollBack(w.journal, w.state, target).2
      case Ok(_) => true
      case Err(NotBehindTip(asked, tip)) =>
        asked == target && tip == w.state.tip && (tip.Some? ==> target > tip.value)
      case Err(BeyondJournal(asked, earliest)) =>
        asked == target && target < earliest && (Earliest(w.journal).Some? ==> Earliest(w.journal) == Some(earliest))
      case _ => false
  {
    RunConsistent(start, interval, maxDepth, events, |events|);
    BackConsistent(start, Run(start, interval, maxDepth, events, |events|), target);
    hide Run, PoolsOk, CleanThroughout, RollBack, Refusal;
    var w := Run(start, interval, maxDepth, events, |events|);
    RefusalReads(w.journal, w.state, target);
  }

  /** What is refused before anything is touched, and what the refusal names. */
  lemma RefusalReads(j: Journal, s: ChainState, target: Height)
    ensures Refusal(j, s.tip, target).None? <==>
      && s.tip.Some? && target <= s.tip.value
      && (target == s.tip.value || (Earliest(j).Some? && Earliest(j).value <= target))
    ensures Refusal(j, s.tip, target).Some? ==> RollBack(j, s, target).2 == Err(Refusal(j, s.tip, target).value)
    ensures match Refusal(j, s.tip, target)
      case None => true
      case Some(NotBehindTip(asked, tip)) => asked == target && tip == s.tip && (tip.Some? ==> target > tip.value)
      case Some(BeyondJournal(asked, earliest)) =>
        asked == target && target < earliest && (Earliest(j).Some? ==> Earliest(j) == Some(earliest))
      case _ => false
  {
    hide UndoAbove, Restored;
  }
}
