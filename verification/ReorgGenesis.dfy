// Reorg exactness from genesis, where no deletion is ever refused.
module ReorgGenesis {
  import opened Wrappers
  import opened Hashing
  import opened ImtProofs
  import opened Transparent
  import opened Chain
  import opened Transition
  import opened ColdReplay
  import opened Rollback
  import opened ReorgRuns

  /** Every block that arrives creates outputs that carry their own outpoints. */
  ghost predicate ArrivalsCarryOwn(events: seq<Event>) {
    forall k {:trigger events[k]} :: 0 <= k < |events| && events[k].Arrive? ==> CarryOwn(events[k].block)
  }

  /** Event `k` is no block that is refused after something moved. */
  ghost predicate InTimeAt(start: ChainState, interval: nat, maxDepth: nat, events: seq<Event>, k: nat)
    requires Histories(start.pools) && k < |events|
  {
    var s := Run(start, interval, maxDepth, events, k).state;
    events[k].Arrive? && ApplyBlock(s, events[k].block, DEFAULT_OPTIONS).1.Err? ==>
      RefusedInTime(s, events[k].block, DEFAULT_OPTIONS)
  }

  ghost predicate InTimeThroughout(start: ChainState, interval: nat, maxDepth: nat, events: seq<Event>, n: nat)
    requires Histories(start.pools) && n <= |events|
  {
    forall k {:trigger InTimeAt(start, interval, maxDepth, events, k)} :: 0 <= k < n ==>
      InTimeAt(start, interval, maxDepth, events, k)
  }

  lemma NextCarryOwn(w: World, e: Event)
    requires Histories(w.state.pools) && w.journal.interval > 0
    requires AllCarryOwn(w.blocks) && (e.Arrive? ==> CarryOwn(e.block))
    ensures AllCarryOwn(Next(w, e).blocks)
  {
    hide CarryOwn, ApplyBlock, RollBack, Record, Histories;
  }

  lemma ArrivalCarriesOwn(events: seq<Event>, k: nat)
    requires ArrivalsCarryOwn(events) && k < |events|
    ensures events[k].Arrive? ==> CarryOwn(events[k].block)
  {
    hide CarryOwn;
  }

  /** The blocks that survive are among those that arrived. */
  ghost predicate SurvivorsOwn(start: ChainState, interval: nat, maxDepth: nat, events: seq<Event>, n: nat)
    requires Histories(start.pools) && n <= |events|
  {
    AllCarryOwn(Run(start, interval, maxDepth, events, n).blocks)
  }

  lemma SurvivorsStep(start: ChainState, interval: nat, maxDepth: nat, events: seq<Event>, n: nat)
    requires Histories(start.pools) && 0 < n <= |events| && ArrivalsCarryOwn(events)
    requires SurvivorsOwn(start, interval, maxDepth, events, n - 1)
    ensures SurvivorsOwn(start, interval, maxDepth, events, n)
  {
    ArrivalCarriesOwn(events, n - 1);
    NextCarryOwn(Run(start, interval, maxDepth, events, n - 1), events[n - 1]);
    hide ArrivalsCarryOwn, CarryOwn, AllCarryOwn, Next, Histories;
  }

  lemma {:induction false} SurvivorsCarryOwn(start: ChainState, interval: nat, maxDepth: nat, events: seq<Event>,
          n: nat)
    requires Histories(start.pools) && n <= |events| && ArrivalsCarryOwn(events)
    ensures SurvivorsOwn(start, interval, maxDepth, events, n)
  {
    hide *;
    if n == 0 {
      NoSurvivorYet(start, interval, maxDepth, events);
    } else {
      SurvivorsCarryOwn(start, interval, maxDepth, events, n - 1);
      SurvivorsStep(start, interval, maxDepth, events, n);
    }
  }

  lemma NoSurvivorYet(start: ChainState, interval: nat, maxDepth: nat, events: seq<Event>)
    requires Histories(start.pools)
    ensures SurvivorsOwn(start, interval, maxDepth, events, 0)
  {
  }

  /** A usable start, and outputs that carry their own outpoints. */
  ghost predicate Sound(start: ChainState, events: seq<Event>) {
    Usable(start) && Histories(start.pools) && ArrivalsCarryOwn(events)
  }

  /** As long as no refused block left a trace, the state is usable. */
  lemma CleanStateUsable(start: ChainState, interval: nat, maxDepth: nat, events: seq<Event>, n: nat)
    requires Usable(start) && n <= |events| && ArrivalsCarryOwn(events)
    requires CleanThroughout(start, interval, maxDepth, events, n)
    ensures Usable(Run(start, interval, maxDepth, events, n).state)
  {
    ReorgExact(start, interval, maxDepth, events, n);
    SurvivorsCarryOwn(start, interval, maxDepth, events, n);
    var w := Run(start, interval, maxDepth, events, n);
    hide Run, CarryOwn, BridgeAfter;
    UsableAfter(start, w.blocks, DEFAULT_OPTIONS, |w.blocks|);
  }

  /** On a usable state a refused block leaves no trace exactly when it was refused in time. */
  lemma CleanIsInTime(start: ChainState, interval: nat, maxDepth: nat, events: seq<Event>, k: nat)
    requires Sound(start, events) && k < |events|
    requires CleanThroughout(start, interval, maxDepth, events, k)
    ensures CleanAt(start, interval, maxDepth, events, k) <==> InTimeAt(start, interval, maxDepth, events, k)
  {
    CleanStateUsable(start, interval, maxDepth, events, k);
    var s, e := Run(start, interval, maxDepth, events, k).state, events[k];
    if e.Arrive? && ApplyBlock(s, e.block, DEFAULT_OPTIONS).1.Err? {
      RejectedUntouchedExactly(s, e.block, DEFAULT_OPTIONS);
    }
    hide Run, ApplyBlock, LeavesNoTrace, RefusedInTime, Usable;
  }

  lemma OneMoreInTime(start: ChainState, interval: nat, maxDepth: nat, events: seq<Event>, n: nat)
    requires Histories(start.pools) && n < |events|
    ensures InTimeThroughout(start, interval, maxDepth, events, n + 1)
       <==> InTimeThroughout(start, interval, maxDepth, events, n) && InTimeAt(start, interval, maxDepth, events, n)
  {
    hide Histories, InTimeAt;
  }

  ghost predicate SameSoFar(start: ChainState, interval: nat, maxDepth: nat, events: seq<Event>, n: nat)
    requires Sound(start, events) && n <= |events|
  {
    CleanThroughout(start, interval, maxDepth, events, n) <==> InTimeThroughout(start, interval, maxDepth, events, n)
  }

  lemma SameAtFirst(start: ChainState, interval: nat, maxDepth: nat, events: seq<Event>)
    requires Sound(start, events)
    ensures SameSoFar(start, interval, maxDepth, events, 0)
  {
    hide Usable, ArrivalsCarryOwn, CleanAt, InTimeAt;
  }

  lemma SameStep(start: ChainState, interval: nat, maxDepth: nat, events: seq<Event>, n: nat)
    requires Sound(start, events) && 0 < n <= |events| && SameSoFar(start, interval, maxDepth, events, n - 1)
    ensures SameSoFar(start, interval, maxDepth, events, n)
  {
    hide Usable, Histories, ArrivalsCarryOwn, InTimeThroughout, InTimeAt, CleanThroughout, CleanAt, ColdThroughout,
      ColdAt, Run, PoolsOk;
    MoreOfBoth(start, interval, maxDepth, events, n - 1);
    if CleanThroughout(start, interval, maxDepth, events, n - 1) {
      CleanIsInTime(start, interval, maxDepth, events, n - 1);
    }
  }

  lemma MoreOfBoth(start: ChainState, interval: nat, maxDepth: nat, events: seq<Event>, n: nat)
    requires Sound(start, events) && n < |events|
    ensures CleanThroughout(start, interval, maxDepth, events, n + 1)
       <==> CleanThroughout(start, interval, maxDepth, events, n) && CleanAt(start, interval, maxDepth, events, n)
    ensures InTimeThroughout(start, interval, maxDepth, events, n + 1)
       <==> InTimeThroughout(start, interval, maxDepth, events, n) && InTimeAt(start, interval, maxDepth, events, n)
  {
    OneEventMore(start, interval, maxDepth, events, n);
    OneMoreInTime(start, interval, maxDepth, events, n);
    hide *;
  }

  lemma {:induction false} CleanThroughoutIsInTime(start: ChainState, interval: nat, maxDepth: nat, events: seq<Event>,
          n: nat)
    requires Sound(start, events) && n <= |events|
    ensures SameSoFar(start, interval, maxDepth, events, n)
  {
    hide *;
    if n == 0 {
      SameAtFirst(start, interval, maxDepth, events);
    } else {
      CleanThroughoutIsInTime(start, interval, maxDepth, events, n - 1);
      SameStep(start, interval, maxDepth, events, n);
    }
  }

  /**
   * Reorg exactness from genesis. Over any interleaving of blocks and rollbacks,
   * the state equals a cold replay of the surviving blocks after every event if
   * and only if every refused block was refused by staging, or by a full pool
   * before anything else had changed.
   */
  lemma GenesisColdExactly(depth: nat, interval: nat, maxDepth: nat, events: seq<Event>)
    requires ValidDepth(depth) && ArrivalsCarryOwn(events)
    ensures PoolsOk(depth, Genesis(depth).pools)
    ensures InTimeThroughout(Genesis(depth), interval, maxDepth, events, |events|)
       <==> ColdThroughout(Genesis(depth), interval, maxDepth, events, |events|)
  {
    GenesisOk(depth);
    CleanThroughoutIsInTime(Genesis(depth), interval, maxDepth, events, |events|);
    ColdThroughoutExactly(Genesis(depth), interval, maxDepth, events, |events|);
  }
}
