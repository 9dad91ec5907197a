// What an accepted run says about the snapshot, and what a served run settles.
module SortedProofs {
  import opened Wrappers
  import opened Arith
  import opened Hashing
  import opened LinkedSet
  import opened Prefix
  import opened Cohort
  import opened Sorted

  /** The nodes are the tree's own run, `d` levels above its leaves. */
  ghost predicate RunMatches(pool: PoolId, values: seq<Value>, index: nat, nodes: seq<Hash>, d: nat) {
    forall j {:trigger nodes[j]} :: 0 <= j < |nodes| ==> nodes[j] == SortedSubtree(pool, values, d, index + j)
  }

  lemma NextRunShape(cohort: SortedCohort, level: nat, index: nat, nodes: seq<Hash>, up: nat)
    requires nodes != [] && index + |nodes| <= Pow2(up) && up > 0
    ensures NextRun(cohort, level, index, nodes) != []
    ensures index / 2 + |NextRun(cohort, level, index, nodes)| <= Pow2(up - 1)
  {
    assert Pow2(up) == 2 * Pow2(up - 1);
  }

  /** Descending one level: matching parents have matching children. */
  lemma RunDown(pool: PoolId, values: seq<Value>, cohort: SortedCohort, level: nat, index: nat, nodes: seq<Hash>,
          d: int)
    requires nodes != [] && d >= -1
    requires RunMatches(pool, values, index / 2, NextRun(cohort, level, index, nodes), d + 1)
    ensures d >= 0 && cohort.pool == pool && RunMatches(pool, values, index, nodes, d)
  {
    var parents := NextRun(cohort, level, index, nodes);
    assert parents[0] == ParentInRun(cohort, level, index, nodes, index / 2);
    assert parents[0] == SortedSubtree(pool, values, d + 1, index / 2);
    forall j | 0 <= j < |nodes|
      ensures nodes[j] == SortedSubtree(pool, values, d, index + j)
    {
      var c := index + j;
      var k := c / 2 - index / 2;
      assert parents[k] == ParentInRun(cohort, level, index, nodes, c / 2);
      assert parents[k] == SortedSubtree(pool, values, d + 1, c / 2);
      assert c == 2 * (c / 2) || c == 2 * (c / 2) + 1;
    }
  }

  lemma {:induction false} RunsMatch(pool: PoolId, values: seq<Value>, depth: nat, cohort: SortedCohort, level: nat,
          index: nat, nodes: seq<Hash>, d: int)
    requires level <= cohort.depth && d == depth - (cohort.depth - level)
    requires nodes != [] && index + |nodes| <= Pow2(cohort.depth - level)
    requires var top := TopRun(cohort, level, index, nodes);
      top != [] && top[0] == SortedSubtree(pool, values, depth, 0)
    ensures d >= 0 && RunMatches(pool, values, index, nodes, d)
    ensures level < cohort.depth ==> cohort.pool == pool
    decreases cohort.depth - level
  {
    if level < cohort.depth {
      var next := NextRun(cohort, level, index, nodes);
      NextRunShape(cohort, level, index, nodes, cohort.depth - level);
      RunsMatch(pool, values, depth, cohort, level + 1, index / 2, next, d + 1);
      RunDown(pool, values, cohort, level, index, nodes, d);
    }
  }

  /**
   * An accepted run is this snapshot's own: same pool and depth, and exactly
   * the consecutive values at its claimed position.
   */
  lemma AcceptedRunIsTheTrees(t: SortedTree, cohort: SortedCohort)
    requires ValidTree(t) && SortedVerdict(t.Root(), cohort).Ok?
    ensures cohort.pool == t.pool && cohort.depth == t.depth
    ensures cohort.values != [] && cohort.startIndex + |cohort.values| <= |t.values|
    ensures cohort.values == t.values[cohort.startIndex..cohort.startIndex + |cohort.values|]
  {
    RootIsTop(t);
    var nodes, d := LeafRun(cohort.pool, cohort.values), t.depth - cohort.depth;
    RunsMatch(t.pool, t.values, t.depth, cohort, 0, cohort.startIndex, nodes, d);
    assert nodes[0] == SortedSubtree(t.pool, t.values, d, cohort.startIndex);
    assert d == 0;
    RunOfLeaves(t, cohort);
  }

  lemma RunOfLeaves(t: SortedTree, cohort: SortedCohort)
    requires cohort.values != []
    requires RunMatches(t.pool, t.values, cohort.startIndex, LeafRun(cohort.pool, cohort.values), 0)
    ensures cohort.startIndex + |cohort.values| <= |t.values|
    ensures cohort.values == t.values[cohort.startIndex..cohort.startIndex + |cohort.values|]
  {
    var nodes, last := LeafRun(cohort.pool, cohort.values), |cohort.values| - 1;
    assert nodes[last] == SortedSubtree(t.pool, t.values, 0, cohort.startIndex + last);
    forall j | 0 <= j < |cohort.values|
      ensures cohort.startIndex + j < |t.values| && cohort.values[j] == t.values[cohort.startIndex + j]
    {
      assert nodes[j] == SortedSubtree(t.pool, t.values, 0, cohort.startIndex + j);
    }
  }

  lemma RootIsTop(t: SortedTree)
    requires ValidTree(t)
    ensures t.Root() == SortedSubtree(t.pool, t.values, t.depth, 0)
  {
    var top := t.levels[t.depth];
    assert |top| == Pow2(0) && LevelIs(t.pool, t.values, t.depth, top);
    assert top[0] == SortedSubtree(t.pool, t.values, t.depth, 0);
  }

  // ---- reading an answer ----

  /** What sorted `resolve` answers: a binary search over the run. */
  function SortedAnswer(values: seq<Value>, range: PrefixRange, v: Value): Result<Status, CohortError> {
    if !range.Contains(v) then Err(LeafOutOfRange)
    else if v in values then Ok(Spent)
    else
      var position := PartitionPoint(values, v);
      if position == 0 then Err(LeafOutOfRange)
      else
        Ok(Unspent(Leaf(values[position - 1], if position < |values| then values[position] else 0, 0)))
  }

  /** `low` and `next` lie next to `v` in `values`; `next` is 0 when nothing lies above. */
  ghost predicate Brackets(values: seq<Value>, v: Value, low: Value, next: Value) {
    && low in values && low < v && (forall x: Value :: x in values && x < v ==> x <= low)
    && (next == 0 ==> forall x: Value :: x in values ==> x < v)
    && (next != 0 ==> next in values && next > v && forall x: Value :: x in values && x > v ==> next <= x)
  }

  lemma GapBrackets(values: seq<Value>, i: nat, v: Value)
    requires Ascending(values) && i < |values| && values[i] < v && (i + 1 < |values| ==> v < values[i + 1])
    ensures Brackets(values, v, values[i], if i + 1 < |values| then values[i + 1] else 0)
  {
    forall x: Value | x in values
      ensures x < v ==> x <= values[i]
      ensures x > v ==> i + 1 < |values| && values[i + 1] <= x
    {
      var j :| 0 <= j < |values| && values[j] == x;
    }
  }

  /**
   * What an ascending run answers, exactly: a value outside the range, or below
   * the whole run, is refused; a member is spent; any other value lies between
   * its two neighbours in the run.
   */
  lemma SortedAnswerExactly(values: seq<Value>, range: PrefixRange, v: Value)
    requires Ascending(values)
    ensures var answer := SortedAnswer(values, range, v);
      && (answer == Err(LeafOutOfRange) <==>
           !range.Contains(v) || (v !in values && forall x: Value :: x in values ==> x > v))
      && (answer.Err? ==> answer == Err(LeafOutOfRange))
      && (answer == Ok(Spent) ==> v in values)
      && (answer.Ok? && answer.value.Unspent? ==>
           && v !in values && answer.value.low.nextIndex == 0
           && Brackets(values, v, answer.value.low.value, answer.value.low.nextValue))
  {
    PartitionMeaning(values, v);
    var p := PartitionPoint(values, v);
    if range.Contains(v) && v !in values {
      if p > 0 {
        assert values[p - 1] in values && (p < |values| ==> values[p] in values);
        GapBrackets(values, p - 1, v);
      }
    }
    hide PartitionPoint, Ascending, Brackets;
  }

  /** An answer that says of `v` what the snapshot says. */
  ghost predicate Agrees(t: SortedTree, cohort: SortedCohort, v: Value) {
    var answer := SortedAnswer(cohort.values, cohort.range, v);
    answer.Ok? ==> (answer.value == Spent <==> v in t.values)
  }

  /** The run stops short: the snapshot holds an in-range value after it. */
  ghost predicate StopsShort(t: SortedTree, cohort: SortedCohort) {
    exists i :: cohort.startIndex + |cohort.values| <= i < |t.values| && cohort.range.Contains(t.values[i])
  }

  /** What an accepted run holds is in the snapshot; an in-range member it lacks lies below it or past it. */
  lemma LackingIsOutside(t: SortedTree, cohort: SortedCohort, v: Value)
    requires ValidTree(t) && SortedVerdict(t.Root(), cohort).Ok? && !StopsShort(t, cohort)
    ensures Ascending(cohort.values)
    ensures v in cohort.values ==> v in t.values
    ensures v in t.values && cohort.range.Contains(v) && v !in cohort.values ==>
      forall x: Value :: x in cohort.values ==> x > v
  {
    AcceptedRunIsTheTrees(t, cohort);
    hide SortedVerdict, LevelIs;
    var start, n := cohort.startIndex, |cohort.values|;
    assert forall j :: 0 <= j < n ==> cohort.values[j] == t.values[start + j];
    if v in t.values && cohort.range.Contains(v) && v !in cohort.values {
      var i :| 0 <= i < |t.values| && t.values[i] == v;
      assert i < start;
    }
  }

  /** An accepted run answers wrongly about a value only if that value sits in range after it. */
  lemma WrongOnlyPastTheRun(t: SortedTree, cohort: SortedCohort, v: Value)
    requires ValidTree(t) && SortedVerdict(t.Root(), cohort).Ok?
    requires !StopsShort(t, cohort)
    ensures Agrees(t, cohort, v)
  {
    hide SortedVerdict, SortedAnswer, ValidTree, StopsShort, Ascending, Brackets;
    LackingIsOutside(t, cohort, v);
    SortedAnswerExactly(cohort.values, cohort.range, v);
  }

  /**
   * Exactly when an accepted run can be believed: its answers agree with the
   * snapshot on every value if and only if it does not stop short.
   */
  lemma TruthfulExactly(t: SortedTree, cohort: SortedCohort)
    requires ValidTree(t) && SortedVerdict(t.Root(), cohort).Ok?
    ensures (forall v: Value :: Agrees(t, cohort, v)) <==> !StopsShort(t, cohort)
  {
    if !StopsShort(t, cohort) {
      forall v: Value
        ensures Agrees(t, cohort, v)
      {
        WrongOnlyPastTheRun(t, cohort, v);
      }
    } else {
      AcceptedRunIsTheTrees(t, cohort);
      var i :| cohort.startIndex + |cohort.values| <= i < |t.values| && cohort.range.Contains(t.values[i]);
      MissedValueReadsUnspent(t, cohort, i);
    }
  }

  lemma MissedValueReadsUnspent(t: SortedTree, cohort: SortedCohort, i: nat)
    requires ValidTree(t) && SortedVerdict(t.Root(), cohort).Ok?
    requires cohort.startIndex + |cohort.values| <= i < |t.values| && cohort.range.Contains(t.values[i])
    ensures !Agrees(t, cohort, t.values[i])
  {
    AcceptedRunIsTheTrees(t, cohort);
    NeighboursSuffice(cohort.values);
    var v := t.values[i];
    forall j | 0 <= j < |cohort.values|
      ensures cohort.values[j] < v
    {
      assert cohort.values[j] == t.values[cohort.startIndex + j];
    }
    PartitionMeaning(cohort.values, v);
    assert cohort.values[|cohort.values| - 1] < v;
  }

  /**
   * What a caller can check to be sure: the claimed leaf count is the
   * snapshot's, and the range has an upper bound or the run ends with the tree.
   */
  lemma CheckedRunIsTruthful(t: SortedTree, cohort: SortedCohort, v: Value)
    requires ValidTree(t) && SortedVerdict(t.Root(), cohort).Ok?
    requires cohort.leafCount == |t.values|
    requires cohort.range.hi.Some? || cohort.startIndex + |cohort.values| == cohort.leafCount
    ensures Agrees(t, cohort, v)
  {
    AcceptedRunIsTheTrees(t, cohort);
    var end := cohort.startIndex + |cohort.values|;
    assert cohort.values[|cohort.values| - 1] == t.values[end - 1];
    forall i | end <= i < |t.values|
      ensures !cohort.range.Contains(t.values[i])
    {
      assert t.values[end - 1] < t.values[i];
    }
    WrongOnlyPastTheRun(t, cohort, v);
  }

  /**
   * Without an upper bound nothing forces a run to go on: a snapshot of one
   * nullifier in the topmost range accepts a run that leaves it out, and the
   * run then reads it as unspent.
   */
  lemma TopmostRunMayStopShort(t: SortedTree, v: Value)
    requires ValidTree(t) && t.values == [0, v] && t.depth == 1
    requires v == VALUE_LIMIT - 1
    ensures var range := CoveringOf(v, 1);
      var cohort := SortedCohort(t.pool, 1, t.height, 2, range, 0, [0], map[(0, 1) := SortedLeaf(t.pool, v)]);
      && SortedVerdict(t.Root(), cohort) == Ok([0])
      && SortedAnswer([0], range, v) == Ok(Unspent(Leaf(0, 0, 0)))
      && v in t.values
  {
    var range := CoveringOf(v, 1);
    var cohort := SortedCohort(t.pool, 1, t.height, 2, range, 0, [0], map[(0, 1) := SortedLeaf(t.pool, v)]);
    TopmostRange(v);
    RootIsTop(t);
    var leaves := LeafRun(t.pool, [0]);
    assert leaves == [SortedLeaf(t.pool, 0)];
    var next := NextRun(cohort, 0, 0, leaves);
    assert |next| == 1 && next[0] == ParentInRun(cohort, 0, 0, leaves, 0);
    assert TopRun(cohort, 0, 0, leaves) == TopRun(cohort, 1, 0, next);
    assert SortedSubtree(t.pool, t.values, 0, 0) == SortedLeaf(t.pool, 0);
    assert SortedSubtree(t.pool, t.values, 0, 1) == SortedLeaf(t.pool, v);
    assert Pow2(1) == 2;
  }

  lemma TopmostRange(v: Value)
    requires v == VALUE_LIMIT - 1
    ensures CoveringOf(v, 1).hi.None? && CoveringOf(v, 1).Contains(v)
  {
    Buckets(1);
    var size := BucketSize(1);
    assert Pow2(1) == 2;
    QuotientUnique(v, Quotient(v, size), 1, size);
    TopmostExactly(v, 1);
    ContainsMeansEqualPrefix(v, v, 1);
  }

  // ---- completeness ----

  /** What the verifier takes for a digest outside the run: the one sent, or padding. */
  function Beside(cohort: SortedCohort, level: nat, c: nat): Hash {
    if (level, c) in cohort.siblings then cohort.siblings[(level, c)] else SortedPad(cohort.pool)
  }

  /** Every digest the fold needs from outside the run is the snapshot's. */
  ghost predicate FringeRight(t: SortedTree, cohort: SortedCohort, start: nat, end: nat)
    requires start < end
  {
    forall l: nat, c: nat {:trigger Beside(cohort, l, c)} :: l < t.depth && OnFringe(start, end, l, c) ==>
      Beside(cohort, l, c) == SortedSubtree(t.pool, t.values, l, c)
  }

  /** At `level` a served run spans the ancestors of its ends. */
  ghost predicate SpansRun(start: nat, end: nat, level: nat, index: nat, nodes: seq<Hash>)
    requires start < end
  {
    index == Ancestor(start, level) && index + |nodes| == Ancestor(end - 1, level) + 1
  }

  lemma NextSpans(cohort: SortedCohort, start: nat, end: nat, level: nat, index: nat, nodes: seq<Hash>)
    requires start < end && SpansRun(start, end, level, index, nodes)
    ensures nodes != [] && SpansRun(start, end, level + 1, index / 2, NextRun(cohort, level, index, nodes))
  {
    AncestorMonotone(start, end - 1, level);
  }

  lemma NextRunIsTheTrees(t: SortedTree, cohort: SortedCohort, start: nat, end: nat, level: nat, index: nat,
          nodes: seq<Hash>)
    requires start < end && cohort.pool == t.pool && level < t.depth
    requires FringeRight(t, cohort, start, end)
    requires SpansRun(start, end, level, index, nodes) && RunMatches(t.pool, t.values, index, nodes, level)
    ensures RunMatches(t.pool, t.values, index / 2, NextRun(cohort, level, index, nodes), level + 1)
  {
    var next := NextRun(cohort, level, index, nodes);
    NextSpans(cohort, start, end, level, index, nodes);
    forall j | 0 <= j < |next|
      ensures next[j] == SortedSubtree(t.pool, t.values, level + 1, index / 2 + j)
    {
      var p := index / 2 + j;
      assert next[j] == ParentInRun(cohort, level, index, nodes, p);
      RunChildIsTheTrees(t, cohort, start, end, level, index, nodes, 2 * p);
      RunChildIsTheTrees(t, cohort, start, end, level, index, nodes, 2 * p + 1);
    }
  }

  lemma RunChildIsTheTrees(t: SortedTree, cohort: SortedCohort, start: nat, end: nat, level: nat, index: nat,
          nodes: seq<Hash>, c: nat)
    requires start < end && cohort.pool == t.pool && level < t.depth
    requires FringeRight(t, cohort, start, end)
    requires SpansRun(start, end, level, index, nodes) && RunMatches(t.pool, t.values, index, nodes, level)
    requires index / 2 <= c / 2 <= (index + |nodes| - 1) / 2 && nodes != []
    ensures RunChild(cohort, level, index, nodes, c) == SortedSubtree(t.pool, t.values, level, c)
  {
    if !(index <= c < index + |nodes|) {
      assert OnFringe(start, end, level, c);
      assert Beside(cohort, level, c) == SortedSubtree(t.pool, t.values, level, c);
    }
  }

  lemma {:induction false} RunReachesRoot(t: SortedTree, cohort: SortedCohort, start: nat, end: nat, level: nat,
          index: nat, nodes: seq<Hash>)
    requires start < end <= Pow2(t.depth) && level <= t.depth == cohort.depth && cohort.pool == t.pool
    requires FringeRight(t, cohort, start, end)
    requires SpansRun(start, end, level, index, nodes) && RunMatches(t.pool, t.values, index, nodes, level)
    ensures var top := TopRun(cohort, level, index, nodes);
      top != [] && top[0] == SortedSubtree(t.pool, t.values, t.depth, 0)
    decreases t.depth - level
  {
    AncestorMonotone(start, end - 1, level);
    if level == t.depth {
      AncestorZero(start, level);
    } else {
      NextSpans(cohort, start, end, level, index, nodes);
      NextRunIsTheTrees(t, cohort, start, end, level, index, nodes);
      RunReachesRoot(t, cohort, start, end, level + 1, index / 2, NextRun(cohort, level, index, nodes));
    }
  }

  lemma ServedFringe(t: SortedTree, range: PrefixRange, cohort: SortedCohort)
    requires ValidTree(t) && IsRunOf(t, range, cohort)
    ensures FringeRight(t, cohort, cohort.startIndex, RunEnd(t.values, range))
  {
    var start, end := cohort.startIndex, RunEnd(t.values, range);
    forall l: nat, c: nat | l < t.depth && OnFringe(start, end, l, c)
      ensures Beside(cohort, l, c) == SortedSubtree(t.pool, t.values, l, c)
    {
      assert (l, c) in cohort.siblings;
    }
  }

  /** A served run folds to its own snapshot's root. */
  lemma ServedRunFolds(t: SortedTree, range: PrefixRange, cohort: SortedCohort)
    requires ValidTree(t) && IsRunOf(t, range, cohort)
    ensures var top := TopRun(cohort, 0, cohort.startIndex, LeafRun(cohort.pool, cohort.values));
      top != [] && top[0] == t.Root()
  {
    var start, end, nodes := cohort.startIndex, RunEnd(t.values, range), LeafRun(t.pool, cohort.values);
    RootIsTop(t);
    forall j | 0 <= j < |nodes|
      ensures nodes[j] == SortedSubtree(t.pool, t.values, 0, start + j)
    {
      assert cohort.values[j] == t.values[start + j];
    }
    ServedFringe(t, range, cohort);
    RunReachesRoot(t, cohort, start, end, 0, start, nodes);
  }

  /** A served run holds every in-range value of its snapshot. */
  lemma ServedRunHoldsTheRange(t: SortedTree, range: PrefixRange, cohort: SortedCohort, v: Value)
    requires ValidTree(t) && IsRunOf(t, range, cohort) && v in t.values && range.Contains(v)
    ensures v in cohort.values
  {
    RunBounds(t.values, range);
    var i :| 0 <= i < |t.values| && t.values[i] == v;
    assert cohort.values[i - cohort.startIndex] == v;
  }

  /** A served run always verifies against its own snapshot. */
  lemma ServedRunVerifies(t: SortedTree, range: PrefixRange, cohort: SortedCohort)
    requires ValidTree(t) && IsRunOf(t, range, cohort)
    ensures SortedVerdict(t.Root(), cohort) == Ok(cohort.values)
  {
    var start, end, n := cohort.startIndex, RunEnd(t.values, range), |cohort.values|;
    RunBounds(t.values, range);
    NeighboursSuffice(cohort.values);
    assert cohort.values[0] == t.values[start];
    assert cohort.values[n - 1] == t.values[end - 1];
    assert start + n == end;
    ServedRunFolds(t, range, cohort);
  }

  /** A served run settles every value of its range, and rightly. */
  lemma ServedRunSettles(t: SortedTree, range: PrefixRange, cohort: SortedCohort, v: Value)
    requires ValidTree(t) && IsRunOf(t, range, cohort) && range.Contains(v)
    ensures SortedAnswer(cohort.values, range, v).Ok?
    ensures SortedAnswer(cohort.values, range, v).value == Spent <==> v in t.values
  {
    ServedRunVerifies(t, range, cohort);
    RunBounds(t.values, range);
    NeighboursSuffice(cohort.values);
    PartitionMeaning(cohort.values, v);
    assert cohort.values[0] == t.values[cohort.startIndex];
    forall i | cohort.startIndex + |cohort.values| <= i < |t.values|
      ensures !range.Contains(t.values[i])
    {
    }
    WrongOnlyPastTheRun(t, cohort, v);
  }
}
