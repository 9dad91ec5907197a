// The two cohort proofs over one set: scattered leaves of the insertion-ordered
// tree, and a run of the value-ordered snapshot taken from it.
module CohortForms {
  import opened Wrappers
  import opened Arith
  import opened Hashing
  import opened Merkle
  import opened LinkedSet
  import opened ImtProofs
  import opened Imt
  import opened Prefix
  import opened Cohort
  import CohortServing
  import opened Sorted
  import opened SortedProofs

  /** A snapshot that holds exactly the values of a history. */
  ghost predicate SnapshotOf(t: SortedTree, pool: PoolId, all: seq<Value>) {
    ValidTree(t) && t.pool == pool && forall v: Value :: v in t.values <==> v in all
  }

  /** Puts one more value in its place. */
  method PlaceValue(values: seq<Value>, v: Value) returns (grown: seq<Value>)
    requires Ascending(values) && v !in values
    ensures Ascending(grown) && forall x: Value :: x in grown <==> x in values || x == v
  {
    PartitionMeaning(values, v);
    var p := PartitionPoint(values, v);
    grown := values[..p] + [v] + values[p..];
    assert values == values[..p] + values[p..];
    assert p < |values| ==> values[p] in values;
  }

  /** The tree's values in ascending order: the keys of its value index. */
  method SortedValues(tree: IndexedMerkleTree) returns (values: seq<Value>)
    requires tree.Valid()
    ensures Ascending(values) && forall v: Value :: v in values <==> v in tree.Values()
  {
    values := [];
    var rest := tree.indexByValue.Keys;
    while rest != {}
      decreases rest
      invariant rest <= tree.indexByValue.Keys && Ascending(values)
      invariant forall v: Value :: v in values <==> v in tree.indexByValue && v !in rest
    {
      var v :| v in rest;
      values := PlaceValue(values, v);
      rest := rest - {v};
    }
  }

  lemma StartsAtZero(all: seq<Value>, values: seq<Value>)
    requires History(all) && Ascending(values) && forall v: Value :: v in values <==> v in all
    ensures values != [] && values[0] == 0
  {
    assert all[0] in all;
    var i :| 0 <= i < |values| && values[i] == 0;
    assert values[0] <= values[i];
  }

  /** A snapshot of a tree holds the tree's set, whatever order the values came in. */
  method FromImt(tree: IndexedMerkleTree, height: nat) returns (r: Result<SortedTree, CohortError>)
    requires tree.Valid()
    ensures r.Ok? <==> |tree.Values()| <= Pow2(MAX_SORTED_DEPTH)
    ensures r.Ok? ==> SnapshotOf(r.value, tree.pool, tree.Values()) && r.value.height == height
    ensures r.Err? ==> r.error == InvalidPrefixBits(33, 32)
  {
    ghost var all := tree.Values();
    var values := SortedValues(tree);
    StartsAtZero(all, values);
    DistinctCardinality(all);
    DistinctCardinality(values);
    assert Elements(all) == Elements(values);
    r := FromSortedValues(tree.pool, height, values);
  }

  /** The neighbours of an absent value are fixed by the set alone. */
  lemma NeighboursFixed(all: seq<Value>, v: Value, low: Value, next: Value)
    requires History(all) && v !in all && Brackets(all, v, low, next)
    ensures LowIndex(all, v) < |all|
    ensures LeafOf(all, LowIndex(all, v)).value == low && LeafOf(all, LowIndex(all, v)).nextValue == next
  {
    LowIndexInRange(all, v);
    PredecessorIsGreatestBelow(all, v);
    SuccessorIsLeastAbove(all, low);
    forall x: Value | x in all && low < x
      ensures next != 0 && next <= x
    {
      assert !(x < v) && x != v;
    }
  }

  /** What a served run says of an absent value: its neighbours in the whole snapshot. */
  lemma RunNeighbours(t: SortedTree, range: PrefixRange, cohort: SortedCohort, v: Value)
    requires ValidTree(t) && IsRunOf(t, range, cohort) && range.Contains(v) && v !in t.values
    ensures var answer := SortedAnswer(cohort.values, range, v);
      answer.Ok? && answer.value.Unspent? && Brackets(t.values, v, answer.value.low.value, answer.value.low.nextValue)
  {
    ServedRunSettles(t, range, cohort, v);
    RunAscends(t, range, cohort);
    var p := PartitionPoint(cohort.values, v);
    RunGap(t, range, cohort, v, p);
    hide ValidTree, IsRunOf, PartitionPoint, Brackets;
    GapBrackets(t.values, cohort.startIndex + p - 1, v);
  }

  /** The cut in the run is a cut in the snapshot. */
  lemma RunGap(t: SortedTree, range: PrefixRange, cohort: SortedCohort, v: Value, p: nat)
    requires ValidTree(t) && IsRunOf(t, range, cohort) && range.Contains(v) && v !in t.values
    requires p == PartitionPoint(cohort.values, v) && p > 0
    ensures var start, n := cohort.startIndex, |cohort.values|;
      && start + p <= |t.values| && cohort.values[p - 1] == t.values[start + p - 1] < v
      && (p < n ==> start + p < |t.values| && cohort.values[p] == t.values[start + p] > v)
      && (p == n ==> start + p == |t.values|)
  {
    RunAscends(t, range, cohort);
    PartitionMeaning(cohort.values, v);
    RunEndsPast(t, range, cohort);
    hide ValidTree, FringeBelow, Ascending, RunStart, RunEnd, PartitionPoint;
    var start := cohort.startIndex;
    assert start + |cohort.values| <= |t.values|;
    hide IsRunOf;
    assert cohort.values[p - 1] == t.values[start + p - 1];
    if p < |cohort.values| {
      assert cohort.values[p] == t.values[start + p];
      assert t.values[start + p] in t.values;
    }
  }

  /** A run is a slice of the snapshot, and when it stops early its last value lies past the range. */
  lemma RunEndsPast(t: SortedTree, range: PrefixRange, cohort: SortedCohort)
    requires ValidTree(t) && IsRunOf(t, range, cohort)
    ensures var start, n := cohort.startIndex, |cohort.values|;
      && 0 < n <= start + n <= |t.values| && cohort.values == t.values[start..start + n]
      && (start + n < |t.values| ==> range.hi.Some? && cohort.values[n - 1] >= range.hi.value)
  {
    assert |t.values| > 0 && t.values[0] == 0 && Ascending(t.values);
    RunBounds(t.values, range);
    hide ValidTree, FringeBelow, Ascending, RunStart, RunEnd;
  }

  lemma RunAscends(t: SortedTree, range: PrefixRange, cohort: SortedCohort)
    requires ValidTree(t) && IsRunOf(t, range, cohort)
    ensures Ascending(cohort.values) && Ascending(t.values) && cohort.startIndex + |cohort.values| <= |t.values|
  {
    ServedRunVerifies(t, range, cohort);
    NeighboursSuffice(cohort.values);
  }

  /**
   * Served by either form, a range reads the same: every value in it is settled,
   * spent by both or by neither, and an absent one lies between the same two
   * neighbours.
   */
  lemma FormsSettleAlike(pool: PoolId, depth: nat, all: seq<Value>, t: SortedTree, range: PrefixRange,
          proof: CohortProof, cohort: SortedCohort, v: Value)
    requires History(all) && Fits(depth, all) && SnapshotOf(t, pool, all) && ValidRange(range)
    requires CohortServing.IsCohortOf(pool, depth, all, range, proof) && IsRunOf(t, range, cohort) && range.Contains(v)
    ensures var direct := Answer(SortByValue(LeavesOnly(proof.leaves)), range, v);
      var sorted := SortedAnswer(cohort.values, range, v);
      && direct.Ok? && sorted.Ok?
      && (direct.value == Spent <==> sorted.value == Spent)
      && (direct.value.Unspent? ==>
           && direct.value.low.value == sorted.value.low.value
           && direct.value.low.nextValue == sorted.value.low.nextValue)
  {
    CohortServing.ServedCohortSettles(pool, depth, all, range, proof, v);
    ServedRunSettles(t, range, cohort, v);
    if v !in all {
      RunNeighbours(t, range, cohort, v);
      var low := SortedAnswer(cohort.values, range, v).value.low;
      NeighboursFixed(all, v, low.value, low.nextValue);
    }
  }

  /**
   * And no two accepted proofs, however built, contradict each other: an
   * insertion-ordered cohort whose indices the tree has, and a run that meets
   * the caller's check.
   */
  lemma FormsNeverDisagree(pool: PoolId, depth: nat, all: seq<Value>, t: SortedTree, proof: CohortProof,
          range: PrefixRange, cohort: SortedCohort, v: Value)
    requires History(all) && Fits(depth, all) && SnapshotOf(t, pool, all)
    requires forall k :: 0 <= k < |proof.leaves| ==> proof.leaves[k].0 < Pow2(depth)
    requires cohort.leafCount == |t.values|
    requires cohort.range.hi.Some? || cohort.startIndex + |cohort.values| == cohort.leafCount
    requires SortedVerdict(t.Root(), cohort).Ok? && SortedAnswer(cohort.values, cohort.range, v).Ok?
    requires var verdict := CohortVerdict(Subtree(pool, LeavesOf(all), depth, 0), proof);
      verdict.Ok? && Answer(verdict.value, range, v).Ok?
    ensures var verdict := CohortVerdict(Subtree(pool, LeavesOf(all), depth, 0), proof);
      Answer(verdict.value, range, v).value == Spent <==> SortedAnswer(cohort.values, cohort.range, v).value == Spent
  {
    AnswersAgreeWithSet(pool, depth, all, proof, range, v);
    CheckedRunIsTruthful(t, cohort, v);
  }
}
