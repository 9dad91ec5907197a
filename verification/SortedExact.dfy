// Exactly which runs are served, which are accepted, and which accepted runs
// hold their whole range.
module SortedExact {
  import opened Wrappers
  import opened Arith
  import opened Hashing
  import opened LinkedSet
  import opened Prefix
  import opened Cohort
  import opened Sorted
  import opened SortedProofs

  // ---- what is served ----

  /** Position `i` holds the greatest value below the range. */
  ghost predicate JustBelow(values: seq<Value>, range: PrefixRange, i: nat) {
    i < |values| && values[i] < range.lo && (i + 1 < |values| ==> values[i + 1] >= range.lo)
  }

  /** Position `i` holds the least value past the range. */
  ghost predicate JustPast(values: seq<Value>, range: PrefixRange, i: nat) {
    && i < |values| && range.hi.Some?
    && values[i] >= range.hi.value && (i > 0 ==> values[i - 1] < range.hi.value)
  }

  /** A served run is the range with the nearest value on each side of it, and nothing else. */
  lemma ServedRunExactly(t: SortedTree, range: PrefixRange, cohort: SortedCohort, i: nat)
    requires ValidTree(t) && IsRunOf(t, range, cohort) && ValidRange(range) && i < |t.values|
    ensures cohort.startIndex <= i < cohort.startIndex + |cohort.values| <==>
      range.Contains(t.values[i]) || JustBelow(t.values, range, i) || JustPast(t.values, range, i)
  {
    PartitionMeaning(t.values, range.lo);
    if range.hi.Some? {
      PartitionMeaning(t.values, range.hi.value);
    }
    hide FringeBelow, PartitionPoint;
  }

  /** Between its two ends a served run holds the range alone, whatever the range. */
  lemma ServedRunIsTight(t: SortedTree, range: PrefixRange, cohort: SortedCohort, i: nat)
    requires ValidTree(t) && IsRunOf(t, range, cohort) && 1 <= i < |cohort.values| - 1
    ensures range.Contains(cohort.values[i])
  {
    PartitionMeaning(t.values, range.lo);
    if range.hi.Some? {
      PartitionMeaning(t.values, range.hi.value);
    }
    hide FringeBelow, PartitionPoint;
    assert cohort.values[i] == t.values[cohort.startIndex + i];
  }

  // ---- what is accepted ----

  /**
   * A run of the snapshot's consecutive values with the digests around it, that
   * starts at the first leaf or outside the range and reaches the claimed leaf
   * count or past the range.
   */
  ghost predicate IsAcceptable(t: SortedTree, cohort: SortedCohort) {
    var start, end := cohort.startIndex, cohort.startIndex + |cohort.values|;
    && cohort.pool == t.pool && cohort.depth == t.depth && cohort.leafCount <= Pow2(t.depth)
    && start < end <= |t.values| && cohort.values == t.values[start..end]
    && FringeRight(t, cohort, start, end)
    && (start > 0 ==> !cohort.range.Contains(t.values[start]))
    && (cohort.leafCount > end && cohort.range.hi.Some? ==> t.values[end - 1] >= cohort.range.hi.value)
  }

  /** Matching parents have matching children, in the run and beside it. */
  lemma FringeDown(t: SortedTree, cohort: SortedCohort, level: nat, index: nat, nodes: seq<Hash>, c: nat)
    requires nodes != [] && cohort.pool == t.pool
    requires RunMatches(t.pool, t.values, index / 2, NextRun(cohort, level, index, nodes), level + 1)
    requires index / 2 <= c / 2 <= (index + |nodes| - 1) / 2
    ensures RunChild(cohort, level, index, nodes, c) == SortedSubtree(t.pool, t.values, level, c)
  {
    var parents := NextRun(cohort, level, index, nodes);
    var k := c / 2 - index / 2;
    assert parents[k] == ParentInRun(cohort, level, index, nodes, c / 2);
    assert parents[k] == SortedSubtree(t.pool, t.values, level + 1, c / 2);
    assert c == 2 * (c / 2) || c == 2 * (c / 2) + 1;
  }

  /** A fold that ends at the root was given the snapshot's own fringe. */
  lemma {:induction false} FoldedFringe(t: SortedTree, cohort: SortedCohort, start: nat, end: nat, level: nat,
          index: nat, nodes: seq<Hash>, l: nat, c: nat)
    requires start < end && level <= l < t.depth == cohort.depth && cohort.pool == t.pool
    requires SpansRun(start, end, level, index, nodes) && index + |nodes| <= Pow2(t.depth - level)
    requires var top := TopRun(cohort, level, index, nodes);
      top != [] && top[0] == SortedSubtree(t.pool, t.values, t.depth, 0)
    requires OnFringe(start, end, l, c)
    ensures Beside(cohort, l, c) == SortedSubtree(t.pool, t.values, l, c)
    decreases l - level
  {
    AncestorMonotone(start, end - 1, level);
    var next := NextRun(cohort, level, index, nodes);
    NextRunShape(cohort, level, index, nodes, t.depth - level);
    NextSpans(cohort, start, end, level, index, nodes);
    if level < l {
      FoldedFringe(t, cohort, start, end, level + 1, index / 2, next, l, c);
    } else {
      RunsMatch(t.pool, t.values, t.depth, cohort, level + 1, index / 2, next, level + 1);
      FringeDown(t, cohort, level, index, nodes, c);
    }
  }

  /** The verifier is exact: it accepts acceptable runs, no others, and answers with their values. */
  lemma AcceptedExactly(t: SortedTree, cohort: SortedCohort)
    requires ValidTree(t)
    ensures SortedVerdict(t.Root(), cohort).Ok? <==> IsAcceptable(t, cohort)
    ensures SortedVerdict(t.Root(), cohort).Ok? ==> SortedVerdict(t.Root(), cohort).value == cohort.values
  {
    if SortedVerdict(t.Root(), cohort).Ok? {
      AcceptedIsAcceptable(t, cohort);
    }
    if IsAcceptable(t, cohort) {
      AcceptableIsAccepted(t, cohort);
    }
    hide SortedVerdict, IsAcceptable;
  }

  lemma AcceptedIsAcceptable(t: SortedTree, cohort: SortedCohort)
    requires ValidTree(t) && SortedVerdict(t.Root(), cohort).Ok?
    ensures IsAcceptable(t, cohort) && SortedVerdict(t.Root(), cohort).value == cohort.values
  {
    AcceptedRunIsTheTrees(t, cohort);
    RootIsTop(t);
    var start, end := cohort.startIndex, cohort.startIndex + |cohort.values|;
    var nodes := LeafRun(cohort.pool, cohort.values);
    forall l: nat, c: nat | l < t.depth && OnFringe(start, end, l, c)
      ensures Beside(cohort, l, c) == SortedSubtree(t.pool, t.values, l, c)
    {
      FoldedFringe(t, cohort, start, end, 0, start, nodes, l, c);
    }
    hide TopRun, OnFringe, Beside, NeighboursAscend, LevelIs;
  }

  lemma AcceptableFolds(t: SortedTree, cohort: SortedCohort)
    requires ValidTree(t) && IsAcceptable(t, cohort)
    ensures cohort.depth == t.depth <= MAX_SORTED_DEPTH && |t.values| <= Pow2(t.depth)
    ensures var top := TopRun(cohort, 0, cohort.startIndex, LeafRun(cohort.pool, cohort.values));
      top != [] && top[0] == t.Root()
  {
    var start, end, nodes := cohort.startIndex, cohort.startIndex + |cohort.values|, LeafRun(t.pool, cohort.values);
    RootIsTop(t);
    hide FringeRight, LevelIs, Ascending;
    forall j | 0 <= j < |nodes|
      ensures nodes[j] == SortedSubtree(t.pool, t.values, 0, start + j)
    {
      assert cohort.values[j] == t.values[start + j];
    }
    RunReachesRoot(t, cohort, start, end, 0, start, nodes);
  }

  lemma AcceptableIsAccepted(t: SortedTree, cohort: SortedCohort)
    requires ValidTree(t) && IsAcceptable(t, cohort)
    ensures SortedVerdict(t.Root(), cohort).Ok?
  {
    AcceptableFolds(t, cohort);
    AcceptableAscends(t, cohort);
    NeighboursSuffice(cohort.values);
    hide TopRun, FringeRight, NeighboursAscend, Ascending, ValidTree, LeafRun;
  }

  lemma AcceptableAscends(t: SortedTree, cohort: SortedCohort)
    requires ValidTree(t) && IsAcceptable(t, cohort)
    ensures Ascending(cohort.values)
  {
    hide FringeRight, LevelIs;
  }

  /** A refused run is refused for the reason given. */
  lemma RunRefusal(root: Hash, cohort: SortedCohort)
    requires SortedVerdict(root, cohort).Err?
    ensures match SortedVerdict(root, cohort).error
      case InvalidPrefixBits(found, limit) => found == cohort.depth && limit == MAX_SORTED_DEPTH && found > limit
      case UnsortedValues => cohort.values == [] || !Ascending(cohort.values)
      case UnorderedLeaves =>
        cohort.startIndex + |cohort.values| > Pow2(cohort.depth) || cohort.leafCount > Pow2(cohort.depth)
      case LeafOutOfRange =>
        && cohort.values != []
        && ((cohort.startIndex > 0 && cohort.range.Contains(cohort.values[0])) ||
          (cohort.startIndex + |cohort.values| < cohort.leafCount && !PastHi(cohort)))
      case RootMismatch =>
        !([root] <= TopRun(cohort, 0, cohort.startIndex, LeafRun(cohort.pool, cohort.values)))
      case _ => false
  {
    NeighboursSuffice(cohort.values);
    hide TopRun, Ascending, NeighboursAscend, PastHi, LeafRun;
  }

  // ---- completeness ----

  /** Nothing in range was left out before the run, if the run holds anything in range. */
  lemma NothingSkipped(t: SortedTree, cohort: SortedCohort, j: nat, i: nat)
    requires ValidTree(t) && SortedVerdict(t.Root(), cohort).Ok?
    requires j < |cohort.values| && cohort.range.Contains(cohort.values[j]) && i < cohort.startIndex
    ensures i < |t.values| && !cohort.range.Contains(t.values[i])
  {
    AcceptedIsAcceptable(t, cohort);
    hide SortedVerdict, FringeRight;
    assert cohort.values[j] == t.values[cohort.startIndex + j];
    assert t.values[i] < t.values[cohort.startIndex] <= t.values[cohort.startIndex + j];
  }

  /** The run holds every value of the snapshot that lies in its range. */
  ghost predicate HoldsRange(t: SortedTree, cohort: SortedCohort) {
    forall i {:trigger t.values[i]} :: 0 <= i < |t.values| && cohort.range.Contains(t.values[i]) ==>
      cohort.startIndex <= i < cohort.startIndex + |cohort.values|
  }

  /** The run starts past its range, and the snapshot holds an in-range value before it. */
  ghost predicate StartsLate(t: SortedTree, cohort: SortedCohort) {
    && cohort.values != [] && cohort.range.hi.Some? && cohort.values[0] >= cohort.range.hi.value
    && exists i {:trigger t.values[i]} ::
      0 <= i < cohort.startIndex && i < |t.values| && cohort.range.Contains(t.values[i])
  }

  /** The promised completeness, exactly: an accepted run holds its range unless it stops short or starts late. */
  lemma CompleteExactly(t: SortedTree, cohort: SortedCohort)
    requires ValidTree(t) && SortedVerdict(t.Root(), cohort).Ok?
    ensures HoldsRange(t, cohort) <==> !StopsShort(t, cohort) && !StartsLate(t, cohort)
  {
    AcceptedIsAcceptable(t, cohort);
    hide SortedVerdict, FringeRight;
    assert cohort.values[0] == t.values[cohort.startIndex];
    forall i | 0 <= i < cohort.startIndex && cohort.range.Contains(t.values[i])
      ensures StartsLate(t, cohort)
    {
      assert t.values[i] < t.values[cohort.startIndex];
    }
  }

  /**
   * What a caller can check to be sure: that the claimed leaf count is the
   * snapshot's, that a range without upper bound ends with the tree, and that
   * the run does not start past its range.
   */
  lemma CheckedRunIsComplete(t: SortedTree, cohort: SortedCohort)
    requires ValidTree(t) && SortedVerdict(t.Root(), cohort).Ok?
    requires cohort.leafCount == |t.values|
    requires cohort.range.hi.Some? || cohort.startIndex + |cohort.values| == cohort.leafCount
    ensures cohort.startIndex == 0 || (cohort.range.hi.Some? ==> cohort.values[0] < cohort.range.hi.value) ==>
      HoldsRange(t, cohort)
  {
    AcceptedIsAcceptable(t, cohort);
    hide SortedVerdict, FringeRight;
    CompleteExactly(t, cohort);
    var end := cohort.startIndex + |cohort.values|;
    forall i | end <= i < |t.values|
      ensures !cohort.range.Contains(t.values[i])
    {
      assert t.values[end - 1] < t.values[i];
    }
  }

  /** A run may start past its range and hold none of it: a snapshot of one nullifier in the upper half. */
  lemma RunMayStartLate(t: SortedTree, v: Value)
    requires ValidTree(t) && t.values == [0, v] && t.depth == 1 && v == VALUE_LIMIT - 1
    ensures var range := CoveringOf(0, 1);
      var cohort := SortedCohort(t.pool, 1, t.height, 2, range, 1, [v], map[(0, 0) := SortedLeaf(t.pool, 0)]);
      && SortedVerdict(t.Root(), cohort) == Ok([v])
      && range.Contains(0) && !HoldsRange(t, cohort)
  {
    var range := CoveringOf(0, 1);
    var cohort := SortedCohort(t.pool, 1, t.height, 2, range, 1, [v], map[(0, 0) := SortedLeaf(t.pool, 0)]);
    TopmostRange(v);
    LowerHalf(v);
    forall l: nat, c: nat | l < 1 && OnFringe(1, 2, l, c)
      ensures Beside(cohort, l, c) == SortedSubtree(t.pool, t.values, l, c)
    {
      assert c == 0;
    }
    assert t.values[1..2] == [v] && Pow2(1) == 2;
    assert range.Contains(t.values[0]);
    AcceptedExactly(t, cohort);
  }

  lemma LowerHalf(v: Value)
    requires v == VALUE_LIMIT - 1
    ensures CoveringOf(0, 1).Contains(0) && CoveringOf(0, 1).hi.Some? && v >= CoveringOf(0, 1).hi.value
  {
    Buckets(1);
    var size := BucketSize(1);
    assert Pow2(1) == 2;
    QuotientUnique(0, 0, Quotient(0, size), size);
  }
}
