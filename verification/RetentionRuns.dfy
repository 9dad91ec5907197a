// What the journal keeps over whole runs of blocks and rollbacks.
module RetentionRuns {
  import opened Wrappers
  import opened Hashing
  import opened ImtProofs
  import opened Transparent
  import opened Chain
  import opened Rollback
  import opened ReorgRuns
  import opened Retention

  /** The first height recorded along a run, and the highest snapshot taken. */
  datatype Marks = Marks(first: Option<Height>, peak: nat)

  function Marked(m: Marks, j: Journal): Marks {
    if j.snapshots == [] then m
    else Marks(if m.first.None? then Earliest(j) else m.first, Higher(m.peak, Newest(j)))
  }

  ghost function MarksAfter(start: ChainState, interval: nat, maxDepth: nat, events: seq<Event>, n: nat): Marks
    requires Histories(start.pools) && n <= |events|
  {
    if n == 0 then Marks(None, 0)
    else Marked(MarksAfter(start, interval, maxDepth, events, n - 1), Run(start, interval, maxDepth, events, n).journal)
  }

  /** Nothing recorded yet, or the journal's tip is the state's and its promise holds. */
  ghost predicate InReach(w: World, m: Marks) {
    if w.journal.snapshots == [] then w.journal.interval > 0 && w.journal.deltas == [] && m == Marks(None, 0)
    else m.first.Some? && JournalTip(w.journal) == w.state.tip && Retains(w.journal, m.first.value, m.peak)
  }

  lemma TipMoves(s: ChainState, b: BlockSummary)
    requires Histories(s.pools)
    ensures var (after, r) := ApplyBlock(s, b, DEFAULT_OPTIONS);
      && (r.Err? ==> after.tip == s.tip)
      && (r.Ok? ==> InOrder(s.tip, b.height, true) && after.tip == Some(b.height) && r.value.delta.height == b.height)
  {
  }

  /** A record taken by a journal in reach. */
  lemma RecordInReach(j: Journal, m: Marks, forest: Forest, index: Index, delta: StateDelta)
    requires m.first.Some? && Retains(j, m.first.value, m.peak)
    requires JournalTip(j).Some? && delta.height == NextHeight(JournalTip(j).value)
    ensures j.interval > 0 && Record(j, forest, index, delta).Ok?
    ensures var after := Record(j, forest, index, delta).value;
      && after.snapshots != [] && JournalTip(after) == Some(delta.height)
      && Marked(m, after).first == m.first && Retains(after, m.first.value, Marked(m, after).peak)
  {
    assert j.interval > 0;
    hide Retains, Pruned;
    RecordTaken(j, forest, index, delta);
    hide Record;
    RecordRetains(j, m.first.value, m.peak, forest, index, delta);
  }

  /** The first record of all. */
  lemma FirstInReach(j: Journal, m: Marks, forest: Forest, index: Index, delta: StateDelta)
    requires j.interval > 0 && j.snapshots == [] && j.deltas == [] && m.first == None && m.peak == 0
    ensures Record(j, forest, index, delta).Ok?
    ensures var after := Record(j, forest, index, delta).value;
      && after.snapshots != [] && JournalTip(after) == Some(delta.height)
      && Marked(m, after) == Marks(Some(delta.height), delta.height)
      && Retains(after, delta.height, delta.height)
  {
    FirstRecordRetains(j, forest, index, delta);
    FirstIsNewest(j, forest, index, delta);
    hide Retains;
  }

  /** A block, recorded when it is accepted. */
  lemma ArriveInReach(w: World, m: Marks, b: BlockSummary)
    requires Histories(w.state.pools) && InReach(w, m) && w.journal.interval > 0
    ensures InReach(Next(w, Arrive(b)), Marked(m, Next(w, Arrive(b)).journal))
  {
    TipMoves(w.state, b);
    hide ApplyBlock, Retains, Record, JournalTip, Histories;
    var (after, applied) := ApplyBlock(w.state, b, DEFAULT_OPTIONS);
    if applied.Err? {
      PeakCovers(w, m);
    } else if w.journal.snapshots == [] {
      FirstInReach(w.journal, m, after.forest, after.index, applied.value.delta);
    } else {
      TipPresent(w.journal, m);
      RecordInReach(w.journal, m, after.forest, after.index, applied.value.delta);
    }
  }

  lemma TipPresent(j: Journal, m: Marks)
    requires m.first.Some? && Retains(j, m.first.value, m.peak)
    ensures JournalTip(j).Some?
  {
  }

  lemma RecordTaken(j: Journal, forest: Forest, index: Index, delta: StateDelta)
    requires j.interval > 0 && JournalTip(j).Some? && delta.height == NextHeight(JournalTip(j).value)
    ensures Record(j, forest, index, delta).Ok?
    ensures JournalTip(Record(j, forest, index, delta).value) == Some(delta.height)
  {
  }

  lemma PeakCovers(w: World, m: Marks)
    requires InReach(w, m)
    ensures Marked(m, w.journal) == m
  {
  }

  /** A rollback, carried out or refused, never moves the earliest restorable height. */
  lemma BackInReach(w: World, m: Marks, target: Height)
    requires Histories(w.state.pools) && InReach(w, m) && w.journal.interval > 0
    ensures var next := Next(w, Back(target));
      InReach(next, Marked(m, next.journal)) && Earliest(next.journal) == Earliest(w.journal)
  {
    var (journal, state, verdict) := RollBack(w.journal, w.state, target);
    PeakCovers(w, m);
    RollBackJournal(w.journal, w.state, target);
    hide RollBack;
    if journal != w.journal {
      TruncationRetains(w.journal, m.first.value, m.peak, target);
      PeakCovers(World(journal, state, []), m);
    }
  }

  /** What a rollback does to the journal and the tip. */
  lemma RollBackJournal(j: Journal, s: ChainState, target: Height)
    ensures var (journal, state, verdict) := RollBack(j, s, target);
      || (journal == j && state.tip == s.tip)
      || (journal == Truncated(j, target) && state.tip == Some(target) && s.tip.Some? && target <= s.tip.value
          && Earliest(j).Some? && Earliest(j).value <= target)
  {
    hide UndoAbove, Replay, Truncated, NewestBase;
  }

  /**
   * Retention over any interleaving of blocks and rollbacks, for any interval
   * and any depth: once something is recorded, the deltas run without a gap
   * from the earliest restorable height to the tip; that height is the first
   * ever recorded or at least the depth below the highest snapshot taken; and
   * the snapshots are those of the interval, none of them spare.
   */
  lemma {:induction false} RunStaysInReach(start: ChainState, interval: nat, maxDepth: nat, events: seq<Event>, n: nat)
    requires Histories(start.pools) && n <= |events|
    ensures InReach(Run(start, interval, maxDepth, events, n), MarksAfter(start, interval, maxDepth, events, n))
  {
    hide *;
    if n == 0 {
      StartsInReach(start, interval, maxDepth, events);
    } else {
      RunStaysInReach(start, interval, maxDepth, events, n - 1);
      StepInReach(start, interval, maxDepth, events, n);
    }
  }

  lemma StartsInReach(start: ChainState, interval: nat, maxDepth: nat, events: seq<Event>)
    requires Histories(start.pools)
    ensures InReach(Run(start, interval, maxDepth, events, 0), MarksAfter(start, interval, maxDepth, events, 0))
  {
    hide Histories;
  }

  lemma StepInReach(start: ChainState, interval: nat, maxDepth: nat, events: seq<Event>, n: nat)
    requires Histories(start.pools) && 0 < n <= |events|
    requires InReach(Run(start, interval, maxDepth, events, n - 1),
      MarksAfter(start, interval, maxDepth, events, n - 1))
    ensures InReach(Run(start, interval, maxDepth, events, n), MarksAfter(start, interval, maxDepth, events, n))
  {
    hide Next, InReach, Marked, Histories;
    var w, m := Run(start, interval, maxDepth, events, n - 1), MarksAfter(start, interval, maxDepth, events, n - 1);
    match events[n - 1] {
      case Arrive(b) => ArriveInReach(w, m, b);
      case Back(target) => BackInReach(w, m, target);
    }
  }

  /** Neither blocks nor rollbacks touch the settings; an interval of zero was raised to one. */
  lemma {:induction false} RunKeepsSettings(start: ChainState, interval: nat, maxDepth: nat, events: seq<Event>,
          n: nat)
    requires Histories(start.pools) && n <= |events|
    ensures var j := Run(start, interval, maxDepth, events, n).journal;
      j.interval == Higher(interval, 1) && j.maxDepth == maxDepth
  {
    hide Next, Histories;
    if n > 0 {
      RunKeepsSettings(start, interval, maxDepth, events, n - 1);
    }
  }
}
