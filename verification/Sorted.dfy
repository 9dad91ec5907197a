// The value-ordered snapshot tree and its range proofs: a cohort is one
// contiguous run of values plus at most two fringe digests per level.
module Sorted {
  import opened Wrappers
  import opened Arith
  import opened Hashing
  import opened LinkedSet
  import opened Prefix
  import opened Cohort

  const MAX_SORTED_DEPTH: nat := 32

  type Fringe = map<(nat, nat), Hash>

  /** The subtree `level` levels high at `index`, over values and then padding. */
  function SortedSubtree(pool: PoolId, values: seq<Value>, level: nat, index: nat): Hash {
    if level == 0 then (if index < |values| then SortedLeaf(pool, values[index]) else SortedPad(pool))
    else SortedNode(pool, SortedSubtree(pool, values, level - 1, 2 * index),
      SortedSubtree(pool, values, level - 1, 2 * index + 1))
  }

  datatype SortedTree = SortedTree(pool: PoolId, height: nat, depth: nat, values: seq<Value>, levels: seq<seq<Hash>>)
  {
    function Root(): Hash {
      if levels != [] && levels[|levels| - 1] != [] then levels[|levels| - 1][0] else Foreign(0)
    }
  }

  ghost predicate LevelIs(pool: PoolId, values: seq<Value>, l: nat, row: seq<Hash>) {
    forall i {:trigger row[i]} :: 0 <= i < |row| ==> row[i] == SortedSubtree(pool, values, l, i)
  }

  /** The snapshot's depth is the least that holds its values, and every level is the tree's. */
  ghost predicate ValidTree(t: SortedTree) {
    && t.depth <= MAX_SORTED_DEPTH
    && |t.values| > 0 && t.values[0] == 0 && Ascending(t.values)
    && |t.values| <= Pow2(t.depth)
    && (t.depth > 0 ==> Pow2(t.depth - 1) < |t.values|)
    && |t.levels| == t.depth + 1
    && forall l {:trigger t.levels[l]} :: 0 <= l <= t.depth ==>
      |t.levels[l]| == Pow2(t.depth - l) && LevelIs(t.pool, t.values, l, t.levels[l])
  }

  /** The prover's and the verifier's order check, on neighbours only. */
  predicate NeighboursAscend(values: seq<Value>) {
    forall i :: 0 < i < |values| ==> values[i - 1] < values[i]
  }

  lemma {:induction false} NeighboursSuffice(values: seq<Value>)
    ensures NeighboursAscend(values) <==> Ascending(values)
  {
    if NeighboursAscend(values) {
      forall i, j | 0 <= i < j < |values|
        ensures values[i] < values[j]
      {
        FarNeighbours(values, i, j);
      }
    }
  }

  lemma {:induction false} FarNeighbours(values: seq<Value>, i: nat, j: nat)
    requires NeighboursAscend(values) && i < j < |values|
    ensures values[i] < values[j]
  {
    if i < j - 1 {
      FarNeighbours(values, i, j - 1);
    }
  }

  /** The least depth whose tree holds `count` leaves. */
  method DepthFor(count: nat) returns (r: Result<nat, CohortError>)
    ensures r.Ok? <==> count <= Pow2(MAX_SORTED_DEPTH)
    ensures r.Err? ==> r.error == InvalidPrefixBits(33, 32)
    ensures r.Ok? ==> r.value <= MAX_SORTED_DEPTH && count <= Pow2(r.value)
    ensures r.Ok? && r.value > 0 ==> Pow2(r.value - 1) < count
  {
    var depth := 0;
    while Pow2(depth) < count
      invariant depth <= MAX_SORTED_DEPTH
      invariant depth > 0 ==> Pow2(depth - 1) < count
      decreases MAX_SORTED_DEPTH - depth
    {
      if depth == MAX_SORTED_DEPTH {
        return Err(InvalidPrefixBits(depth + 1, MAX_SORTED_DEPTH));
      }
      depth := depth + 1;
    }
    Pow2Monotone(depth, MAX_SORTED_DEPTH);
    return Ok(depth);
  }

  /** The values with the sentinel in front, where the caller left it out. */
  function WithSentinel(values: seq<Value>): seq<Value> {
    if values == [] || values[0] != 0 then [0] + values else values
  }

  /** Builds the snapshot over an ascending value list, refusing any other. */
  method FromSortedValues(pool: PoolId, height: nat, values: seq<Value>) returns (r: Result<SortedTree, CohortError>)
    ensures r.Ok? <==> Ascending(WithSentinel(values)) && |WithSentinel(values)| <= Pow2(MAX_SORTED_DEPTH)
    ensures r.Ok? ==> ValidTree(r.value) && r.value.values == WithSentinel(values)
    ensures r.Ok? ==> r.value.pool == pool && r.value.height == height
    ensures r.Err? ==>
      r.error == (if Ascending(WithSentinel(values)) then InvalidPrefixBits(33, 32) else UnsortedValues)
  {
    var all := WithSentinel(values);
    NeighboursSuffice(all);
    var ascending := CheckNeighbours(all);
    if !ascending {
      return Err(UnsortedValues);
    }
    hide Ascending, NeighboursAscend, LevelIs;
    var sized := DepthFor(|all|);
    if sized.Err? {
      return Err(sized.error);
    }
    var levels := BuildLevels(pool, all, sized.value);
    return Ok(SortedTree(pool, height, sized.value, all, levels));
  }

  method CheckNeighbours(values: seq<Value>) returns (ascending: bool)
    ensures ascending <==> NeighboursAscend(values)
  {
    var k := 1;
    while k < |values|
      invariant forall i :: 0 < i < k && i < |values| ==> values[i - 1] < values[i]
    {
      if values[k - 1] >= values[k] {
        return false;
      }
      k := k + 1;
    }
    return true;
  }

  method BuildLevels(pool: PoolId, values: seq<Value>, depth: nat) returns (levels: seq<seq<Hash>>)
    requires |values| <= Pow2(depth)
    ensures |levels| == depth + 1
    ensures forall l {:trigger levels[l]} :: 0 <= l <= depth ==>
      |levels[l]| == Pow2(depth - l) && LevelIs(pool, values, l, levels[l])
  {
    var level := seq(Pow2(depth), i requires 0 <= i =>
      if i < |values| then SortedLeaf(pool, values[i]) else SortedPad(pool));
    levels := [];
    for l := 0 to depth
      invariant |level| == Pow2(depth - l) && LevelIs(pool, values, l, level)
      invariant |levels| == l
      invariant forall k {:trigger levels[k]} :: 0 <= k < l ==>
        |levels[k]| == Pow2(depth - k) && LevelIs(pool, values, k, levels[k])
    {
      var up := PairRow(pool, values, l, level);
      levels := levels + [level];
      level := up;
    }
    levels := levels + [level];
  }

  method PairRow(pool: PoolId, ghost values: seq<Value>, l: nat, row: seq<Hash>) returns (up: seq<Hash>)
    requires |row| % 2 == 0 && LevelIs(pool, values, l, row)
    ensures |up| == |row| / 2 && LevelIs(pool, values, l + 1, up)
  {
    up := [];
    var at := 0;
    while at < |row|
      invariant at == 2 * |up| <= |row|
      invariant LevelIs(pool, values, l + 1, up)
    {
      var right := if at + 1 < |row| then row[at + 1] else SortedPad(pool);
      up := up + [SortedNode(pool, row[at], right)];
      at := at + 2;
    }
  }

  // ---- serving a range ----

  datatype SortedCohort = SortedCohort(
    pool: PoolId,
    depth: nat,
    height: nat,
    leafCount: nat,
    range: PrefixRange,
    startIndex: nat,
    values: seq<Value>,
    siblings: Fringe)

  /** How many leading values are below `x`. */
  function PartitionPoint(values: seq<Value>, x: Value): (p: nat)
    ensures p <= |values|
  {
    if values == [] then 0
    else if values[|values| - 1] < x then |values|
    else PartitionPoint(values[..|values| - 1], x)
  }

  lemma {:induction false} PartitionMeaning(values: seq<Value>, x: Value)
    requires Ascending(values)
    ensures forall i :: 0 <= i < PartitionPoint(values, x) ==> values[i] < x
    ensures forall i :: PartitionPoint(values, x) <= i < |values| ==> x <= values[i]
  {
    if values != [] && values[|values| - 1] >= x {
      PartitionMeaning(values[..|values| - 1], x);
    }
  }

  /** The run served for a range: one leaf below it, the range, and one leaf past it. */
  function RunStart(values: seq<Value>, range: PrefixRange): nat {
    var first := PartitionPoint(values, range.lo);
    if first == 0 then 0 else first - 1
  }

  function RunEnd(values: seq<Value>, range: PrefixRange): nat {
    var start := RunStart(values, range);
    var end := if range.hi.Some? then PartitionPoint(values, range.hi.value) + 1 else |values|;
    var atLeast := if end < start + 1 then start + 1 else end;
    if atLeast > |values| then |values| else atLeast
  }

  lemma RunBounds(values: seq<Value>, range: PrefixRange)
    requires Ascending(values) && |values| > 0 && values[0] == 0
    ensures RunStart(values, range) < RunEnd(values, range) <= |values|
    ensures RunStart(values, range) > 0 ==> values[RunStart(values, range)] < range.lo
    ensures forall i :: 0 <= i < |values| && range.Contains(values[i]) ==>
      RunStart(values, range) <= i < RunEnd(values, range)
    ensures RunEnd(values, range) < |values| ==> range.hi.Some? && values[RunEnd(values, range) - 1] >= range.hi.value
  {
    PartitionMeaning(values, range.lo);
    if range.hi.Some? {
      PartitionMeaning(values, range.hi.value);
    }
  }

  /** An odd left edge needs its left sibling, an even right edge its right one. */
  ghost predicate OnFringe(start: nat, end: nat, l: nat, c: nat)
    requires start < end
  {
    var lo, hi := Ancestor(start, l), Ancestor(end - 1, l);
    (lo % 2 == 1 && c == lo - 1) || (hi % 2 == 0 && c == hi + 1)
  }

  ghost predicate FringeBelow(pool: PoolId, values: seq<Value>, start: nat, end: nat, siblings: Fringe, level: nat)
    requires start < end
  {
    forall l: nat, c: nat {:trigger (l, c) in siblings} ::
      && ((l, c) in siblings <==> l < level && OnFringe(start, end, l, c))
      && ((l, c) in siblings ==> siblings[(l, c)] == SortedSubtree(pool, values, l, c))
  }

  /** The fringe of the run `[start, end)`; never more than two digests per level. */
  method RangeSiblings(t: SortedTree, start: nat, end: nat) returns (siblings: Fringe)
    requires ValidTree(t) && start < end <= |t.values|
    ensures FringeBelow(t.pool, t.values, start, end, siblings, t.depth)
    ensures |siblings| <= 2 * t.depth
  {
    hide ValidTree, FringeBelow;
    siblings := NoFringe(t, start, end);
    var lo, hi := start, end - 1;
    for level := 0 to t.depth
      invariant lo == Ancestor(start, level) && hi == Ancestor(end - 1, level)
      invariant FringeBelow(t.pool, t.values, start, end, siblings, level)
      invariant |siblings| <= 2 * level
    {
      siblings := LevelSiblings(t, start, end, siblings, level, lo, hi);
      lo := lo / 2;
      hi := hi / 2;
    }
  }

  function NoFringe(t: SortedTree, start: nat, end: nat): (siblings: Fringe)
    requires start < end
    ensures siblings == map[] && FringeBelow(t.pool, t.values, start, end, siblings, 0)
  {
    map[]
  }

  /** One level's edges: the left sibling of an odd left edge, the right one of an even right edge. */
  method LevelSiblings(t: SortedTree, ghost start: nat, ghost end: nat, before: Fringe, level: nat, lo: nat,
          hi: nat) returns (siblings: Fringe)
    requires ValidTree(t) && start < end <= |t.values| && level < t.depth
    requires lo == Ancestor(start, level) && hi == Ancestor(end - 1, level)
    requires FringeBelow(t.pool, t.values, start, end, before, level)
    ensures FringeBelow(t.pool, t.values, start, end, siblings, level + 1)
    ensures |siblings| <= |before| + 2
  {
    AncestorMonotone(start, end - 1, level);
    siblings := before;
    if lo % 2 == 1 {
      LevelHolds(t, level, end - 1, lo - 1);
      siblings := siblings[(level, lo - 1) := LevelAt(t, level, lo - 1)];
    }
    if hi % 2 == 0 {
      LevelHolds(t, level, end - 1, hi + 1);
      siblings := siblings[(level, hi + 1) := LevelAt(t, level, hi + 1)];
    }
    hide ValidTree;
    FringeStep(t.pool, t.values, start, end, before, siblings, level);
  }

  /** The stored level holds the tree's digest up to one past every occupied ancestor's pair. */
  lemma LevelHolds(t: SortedTree, level: nat, i: nat, c: nat)
    requires ValidTree(t) && i < |t.values| && level < t.depth
    requires c <= Ancestor(i, level) || (Ancestor(i, level) % 2 == 0 && c == Ancestor(i, level) + 1)
    ensures LevelAt(t, level, c) == SortedSubtree(t.pool, t.values, level, c)
  {
    PositionInLevel(t, i, level);
  }

  lemma FringeStep(pool: PoolId, values: seq<Value>, start: nat, end: nat, before: Fringe, after: Fringe, level: nat)
    requires start < end && FringeBelow(pool, values, start, end, before, level)
    requires var lo, hi := Ancestor(start, level), Ancestor(end - 1, level);
      var left := if lo % 2 == 1 then before[(level, lo - 1) := SortedSubtree(pool, values, level, lo - 1)] else before;
      after == if hi % 2 == 0 then left[(level, hi + 1) := SortedSubtree(pool, values, level, hi + 1)] else left
    ensures FringeBelow(pool, values, start, end, after, level + 1)
  {
  }

  /** Row `level` reaches at least one position past every occupied ancestor's pair. */
  lemma PositionInLevel(t: SortedTree, i: nat, level: nat)
    requires ValidTree(t) && i < |t.values| && level < t.depth
    ensures Ancestor(i, level) < Pow2(t.depth - level)
    ensures Ancestor(i, level) % 2 == 0 ==> Ancestor(i, level) + 1 < Pow2(t.depth - level)
  {
    AncestorZero(i, t.depth);
    AncestorAdd(i, level, t.depth - level);
    AncestorZero(Ancestor(i, level), t.depth - level);
    assert Pow2(t.depth - level) == 2 * Pow2(t.depth - level - 1);
  }

  function LevelAt(t: SortedTree, level: nat, index: nat): Hash {
    if level < |t.levels| && index < |t.levels[level]| then t.levels[level][index] else SortedPad(t.pool)
  }

  /** `cohort` is what the snapshot serves for `range`. */
  ghost predicate IsRunOf(t: SortedTree, range: PrefixRange, cohort: SortedCohort)
    requires ValidTree(t)
  {
    var start, end := RunStart(t.values, range), RunEnd(t.values, range);
    && start < end <= |t.values|
    && cohort.pool == t.pool && cohort.depth == t.depth && cohort.height == t.height
    && cohort.leafCount == |t.values| && cohort.range == range
    && cohort.startIndex == start && cohort.values == t.values[start..end]
    && FringeBelow(t.pool, t.values, start, end, cohort.siblings, t.depth)
  }

  method ProvePrefixCohort(t: SortedTree, range: PrefixRange) returns (cohort: SortedCohort)
    requires ValidTree(t)
    ensures IsRunOf(t, range, cohort)
    ensures |cohort.siblings| <= 2 * t.depth
  {
    RunBounds(t.values, range);
    var start, end := RunStart(t.values, range), RunEnd(t.values, range);
    var siblings := RangeSiblings(t, start, end);
    cohort := SortedCohort(t.pool, t.depth, t.height, |t.values|, range, start, t.values[start..end], siblings);
  }

  // ---- checking a run ----

  /** A digest at position `c`: part of the run, or supplied, or taken to be padding. */
  function RunChild(cohort: SortedCohort, level: nat, index: nat, nodes: seq<Hash>, c: nat): Hash {
    if index <= c < index + |nodes| then nodes[c - index]
    else if (level, c) in cohort.siblings then cohort.siblings[(level, c)]
    else SortedPad(cohort.pool)
  }

  function ParentInRun(cohort: SortedCohort, level: nat, index: nat, nodes: seq<Hash>, p: nat): Hash {
    SortedNode(cohort.pool, RunChild(cohort, level, index, nodes, 2 * p),
      RunChild(cohort, level, index, nodes, 2 * p + 1))
  }

  /** One level of the fold: the run at `index` becomes the run at `index / 2`. */
  function NextRun(cohort: SortedCohort, level: nat, index: nat, nodes: seq<Hash>): seq<Hash> {
    seq((index % 2 + |nodes| + 1) / 2, j requires 0 <= j => ParentInRun(cohort, level, index, nodes, index / 2 + j))
  }

  function TopRun(cohort: SortedCohort, level: nat, index: nat, nodes: seq<Hash>): seq<Hash>
    requires level <= cohort.depth
    decreases cohort.depth - level
  {
    if level == cohort.depth then nodes
    else TopRun(cohort, level + 1, index / 2, NextRun(cohort, level, index, nodes))
  }

  function LeafRun(pool: PoolId, values: seq<Value>): seq<Hash> {
    seq(|values|, i requires 0 <= i < |values| => SortedLeaf(pool, values[i]))
  }

  /** What sorted `verify_cohort` answers. */
  function SortedVerdict(root: Hash, cohort: SortedCohort): Result<seq<Value>, CohortError> {
    if cohort.depth > MAX_SORTED_DEPTH then Err(InvalidPrefixBits(cohort.depth, MAX_SORTED_DEPTH))
    else if cohort.values == [] then Err(UnsortedValues)
    else
      var slots := Pow2(cohort.depth);
      var end := cohort.startIndex + |cohort.values|;
      if end > slots || cohort.leafCount > slots then Err(UnorderedLeaves)
      else if !NeighboursAscend(cohort.values) then Err(UnsortedValues)
      else if cohort.range.Contains(cohort.values[0]) && cohort.startIndex != 0 then Err(LeafOutOfRange)
      else if !(end >= cohort.leafCount || PastHi(cohort)) then Err(LeafOutOfRange)
      else
        var top := TopRun(cohort, 0, cohort.startIndex, LeafRun(cohort.pool, cohort.values));
        if top == [] || top[0] != root then Err(CohortError.RootMismatch)
        else Ok(cohort.values)
  }

  /** The run's last value reaches past the range; said of every run when the range has no bound. */
  predicate PastHi(cohort: SortedCohort) {
    cohort.range.hi.Some? ==> cohort.values != [] && cohort.values[|cohort.values| - 1] >= cohort.range.hi.value
  }

  method VerifySortedCohort(root: Hash, cohort: SortedCohort) returns (r: Result<seq<Value>, CohortError>)
    ensures r == SortedVerdict(root, cohort)
  {
    if cohort.depth > MAX_SORTED_DEPTH {
      return Err(InvalidPrefixBits(cohort.depth, MAX_SORTED_DEPTH));
    }
    if cohort.values == [] {
      return Err(UnsortedValues);
    }
    var slots := Pow2(cohort.depth);
    var end := cohort.startIndex + |cohort.values|;
    if end > slots || cohort.leafCount > slots {
      return Err(UnorderedLeaves);
    }
    var ascending := CheckNeighbours(cohort.values);
    if !ascending {
      return Err(UnsortedValues);
    }
    if cohort.range.Contains(cohort.values[0]) && cohort.startIndex != 0 {
      return Err(LeafOutOfRange);
    }
    if !(end >= cohort.leafCount) && !PastHi(cohort) {
      return Err(LeafOutOfRange);
    }
    var index := cohort.startIndex;
    var levelNodes := LeafRun(cohort.pool, cohort.values);
    for level := 0 to cohort.depth
      invariant levelNodes != []
      invariant TopRun(cohort, level, index, levelNodes) ==
        TopRun(cohort, 0, cohort.startIndex, LeafRun(cohort.pool, cohort.values))
    {
      levelNodes := FoldRun(cohort, level, index, levelNodes);
      index := index / 2;
    }
    if levelNodes == [] || levelNodes[0] != root {
      return Err(CohortError.RootMismatch);
    }
    return Ok(cohort.values);
  }

  /** One level, with its left and right fringe. */
  method FoldRun(cohort: SortedCohort, level: nat, index: nat, nodes: seq<Hash>) returns (parents: seq<Hash>)
    requires nodes != []
    ensures parents == NextRun(cohort, level, index, nodes)
  {
    parents := [];
    var cursor, position := index, 0;
    if cursor % 2 == 1 {
      var sibling := RunChild(cohort, level, index, nodes, cursor - 1);
      parents := [SortedNode(cohort.pool, sibling, nodes[0])];
      position, cursor := 1, cursor + 1;
    }
    while position < |nodes|
      invariant cursor == index + position && cursor % 2 == 0
      invariant |parents| == cursor / 2 - index / 2
      invariant position <= |nodes| + 1
      invariant forall j {:trigger parents[j]} :: 0 <= j < |parents| ==>
        parents[j] == ParentInRun(cohort, level, index, nodes, index / 2 + j)
    {
      var right :=
        if position + 1 < |nodes| then nodes[position + 1] else RunChild(cohort, level, index, nodes, cursor + 1);
      parents := parents + [SortedNode(cohort.pool, nodes[position], right)];
      position, cursor := position + 2, cursor + 2;
    }
  }
}
