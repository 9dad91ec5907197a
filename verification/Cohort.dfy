// Prefix cohorts over the insertion-ordered tree: one deduplicated proof for
// scattered leaves, checked by recomputing the root level by level.
module Cohort {
  import opened Wrappers
  import opened Arith
  import opened Hashing
  import opened Merkle
  import opened LinkedSet
  import opened ImtProofs
  import opened Prefix

  datatype CohortError =
    | InvalidPrefixBits(bits: nat, max: nat)
    | Tree(error: ImtError)
    | RootMismatch
    | UnorderedLeaves
    | LeafOutOfRange
    | UnsortedValues

  type Row = map<nat, Hash>

  datatype CohortProof = CohortProof(
    pool: PoolId,
    depth: nat,
    range: PrefixRange,
    leaves: seq<(nat, Leaf)>,
    nodes: map<(nat, nat), Hash>)

  datatype Status = Spent | Unspent(low: Leaf)

  predicate AscendingIndices(leaves: seq<(nat, Leaf)>) {
    forall k :: 0 < k < |leaves| ==> leaves[k - 1].0 < leaves[k].0
  }

  /** Level 0 of the verifier's fold: the first `n` supplied leaves, hashed. */
  function LeafRowTo(pool: PoolId, leaves: seq<(nat, Leaf)>, n: nat): Row
    requires n <= |leaves|
  {
    if n == 0 then map[]
    else LeafRowTo(pool, leaves, n - 1)[leaves[n - 1].0 := LeafDigest(pool, leaves[n - 1].1)]
  }

  function LeafRow(pool: PoolId, leaves: seq<(nat, Leaf)>): Row {
    LeafRowTo(pool, leaves, |leaves|)
  }

  /** A child's digest: known, else sent, else taken to be the empty subtree. */
  function Child(proof: CohortProof, row: Row, level: nat, c: nat): Hash {
    if c in row then row[c]
    else if (level, c) in proof.nodes then proof.nodes[(level, c)]
    else Zero(proof.pool, level)
  }

  function Parents(s: set<nat>): set<nat> {
    set i | i in s :: i / 2
  }

  function NextRow(proof: CohortProof, row: Row, level: nat): Row {
    map p | p in Parents(row.Keys) ::
      Node(proof.pool, Child(proof, row, level, 2 * p), Child(proof, row, level, 2 * p + 1))
  }

  /** What the verifier's row at `level` folds to at the top. */
  function TopRow(proof: CohortProof, row: Row, level: nat): Row
    requires level <= proof.depth
    decreases proof.depth - level
  {
    if level == proof.depth then row else TopRow(proof, NextRow(proof, row, level), level + 1)
  }

  function InsertByValue(sorted: seq<Leaf>, leaf: Leaf): seq<Leaf> {
    if sorted == [] || sorted[|sorted| - 1].value <= leaf.value then sorted + [leaf]
    else InsertByValue(sorted[..|sorted| - 1], leaf) + [sorted[|sorted| - 1]]
  }

  /** A stable sort by value. */
  function SortByValue(leaves: seq<Leaf>): seq<Leaf> {
    if leaves == [] then [] else InsertByValue(SortByValue(leaves[..|leaves| - 1]), leaves[|leaves| - 1])
  }

  function LeavesOnly(leaves: seq<(nat, Leaf)>): (r: seq<Leaf>)
    ensures |r| == |leaves|
  {
    seq(|leaves|, k requires 0 <= k < |leaves| => leaves[k].1)
  }

  /** What `verify_cohort` answers. */
  function CohortVerdict(root: Hash, proof: CohortProof): Result<seq<Leaf>, CohortError> {
    if !ValidDepth(proof.depth) then Err(Tree(InvalidDepth(proof.depth)))
    else if !AscendingIndices(proof.leaves) then Err(UnorderedLeaves)
    else
      var top := TopRow(proof, LeafRow(proof.pool, proof.leaves), 0);
      if 0 !in top || top[0] != root then Err(CohortError.RootMismatch)
      else Ok(SortByValue(LeavesOnly(proof.leaves)))
  }

  /** The level-by-level loop of `verify_cohort`. */
  method VerifyCohort(root: Hash, proof: CohortProof) returns (r: Result<seq<Leaf>, CohortError>)
    ensures r == CohortVerdict(root, proof)
  {
    if !ValidDepth(proof.depth) {
      return Err(Tree(InvalidDepth(proof.depth)));
    }
    var k := 1;
    while k < |proof.leaves|
      invariant forall j :: 0 < j < k && j < |proof.leaves| ==> proof.leaves[j - 1].0 < proof.leaves[j].0
    {
      if proof.leaves[k].0 <= proof.leaves[k - 1].0 {
        return Err(UnorderedLeaves);
      }
      k := k + 1;
    }
    var levelNodes := LeafRow(proof.pool, proof.leaves);
    for level := 0 to proof.depth
      invariant TopRow(proof, levelNodes, level) == TopRow(proof, LeafRow(proof.pool, proof.leaves), 0)
    {
      levelNodes := FoldRow(proof, levelNodes, level);
    }
    if 0 !in levelNodes || levelNodes[0] != root {
      return Err(CohortError.RootMismatch);
    }
    return Ok(SortByValue(LeavesOnly(proof.leaves)));
  }

  /** One level: combines every node with its sibling into their parent. */
  method FoldRow(proof: CohortProof, row: Row, level: nat) returns (parents: Row)
    ensures parents == NextRow(proof, row, level)
  {
    parents := map[];
    var rest := row.Keys;
    while rest != {}
      decreases rest
      invariant rest <= row.Keys
      invariant parents.Keys == Parents(row.Keys - rest)
      invariant forall p :: p in parents ==>
        parents[p] == Node(proof.pool, Child(proof, row, level, 2 * p), Child(proof, row, level, 2 * p + 1))
    {
      var index :| index in rest;
      var sibling := Child(proof, row, level, Sibling(index));
      var parent :=
        if index % 2 == 0 then Node(proof.pool, row[index], sibling) else Node(proof.pool, sibling, row[index]);
      assert row.Keys - (rest - {index}) == (row.Keys - rest) + {index};
      assert Parents(row.Keys - (rest - {index})) == Parents(row.Keys - rest) + {index / 2};
      parents := parents[index / 2 := parent];
      rest := rest - {index};
    }
    assert row.Keys - {} == row.Keys;
  }

  // ---- soundness ----

  lemma {:induction false} AscendingFar(leaves: seq<(nat, Leaf)>, j: nat, k: nat)
    requires AscendingIndices(leaves) && j < k < |leaves|
    ensures leaves[j].0 < leaves[k].0
  {
    if j < k - 1 {
      AscendingFar(leaves, j, k - 1);
    }
  }

  lemma {:induction false} LeafRowEntries(pool: PoolId, leaves: seq<(nat, Leaf)>, n: nat)
    requires AscendingIndices(leaves) && n <= |leaves|
    ensures forall k :: 0 <= k < n ==>
      leaves[k].0 in LeafRowTo(pool, leaves, n) && LeafRowTo(pool, leaves, n)[leaves[k].0] ==
        LeafDigest(pool, leaves[k].1)
    ensures forall i :: i in LeafRowTo(pool, leaves, n) ==> exists k :: 0 <= k < n && leaves[k].0 == i
  {
    if n > 0 {
      LeafRowEntries(pool, leaves, n - 1);
      forall k | 0 <= k < n - 1
        ensures leaves[k].0 != leaves[n - 1].0
      {
        AscendingFar(leaves, k, n - 1);
      }
    }
  }

  /** A position of a row that ends up under the root, `up` levels above. */
  ghost predicate UnderRoot(row: Row, up: nat, i: nat) {
    i in row && Ancestor(i, up) == 0
  }

  /** Every node of the row that ends up under the root is the tree's node `d` levels above the leaves. */
  ghost predicate RowMatches(pool: PoolId, leaves: seq<Leaf>, row: Row, up: nat, d: nat) {
    forall i {:trigger row[i]} :: UnderRoot(row, up, i) ==> row[i] == Subtree(pool, leaves, d, i)
  }

  /** A parent is the node over its two children, at least one of which was known. */
  lemma ParentOf(proof: CohortProof, row: Row, level: nat, p: nat)
    requires p in NextRow(proof, row, level)
    ensures 2 * p in row || 2 * p + 1 in row
    ensures NextRow(proof, row, level)[p] ==
      Node(proof.pool, Child(proof, row, level, 2 * p), Child(proof, row, level, 2 * p + 1))
  {
    var i :| i in row && i / 2 == p;
    assert i == 2 * p || i == 2 * p + 1;
  }

  /** Descending one level: a matching parent has matching children, sent or known. */
  lemma ChildMatches(pool: PoolId, leaves: seq<Leaf>, proof: CohortProof, row: Row, level: nat, d: int, c: nat)
    requires d >= -1 && c / 2 in NextRow(proof, row, level)
    requires NextRow(proof, row, level)[c / 2] == Subtree(pool, leaves, d + 1, c / 2)
    ensures d >= 0 && proof.pool == pool
    ensures Child(proof, row, level, c) == Subtree(pool, leaves, d, c)
  {
    ParentOf(proof, row, level, c / 2);
    SiblingFacts(c);
  }

  lemma OneDown(pool: PoolId, leaves: seq<Leaf>, proof: CohortProof, row: Row, level: nat, up: nat, d: int, i: nat)
    requires d >= -1 && up > 0 && UnderRoot(row, up, i)
    requires RowMatches(pool, leaves, NextRow(proof, row, level), up - 1, d + 1)
    ensures d >= 0 && row[i] == Subtree(pool, leaves, d, i)
    ensures UnderRoot(NextRow(proof, row, level), up - 1, i / 2)
    ensures NextRow(proof, row, level)[i / 2] == Subtree(pool, leaves, d + 1, i / 2)
  {
    AncestorShift(i, up - 1);
    assert i / 2 in Parents(row.Keys);
    ChildMatches(pool, leaves, proof, row, level, d, i);
  }

  lemma StepDown(pool: PoolId, leaves: seq<Leaf>, proof: CohortProof, row: Row, level: nat, up: nat, d: int,
          above: nat) returns (below: nat)
    requires d >= -1 && up > 0 && UnderRoot(NextRow(proof, row, level), up - 1, above)
    requires RowMatches(pool, leaves, NextRow(proof, row, level), up - 1, d + 1)
    ensures d >= 0 && UnderRoot(row, up, below)
    ensures RowMatches(pool, leaves, row, up, d)
  {
    below :| below in row && below / 2 == above;
    AncestorShift(below, up - 1);
    OneDown(pool, leaves, proof, row, level, up, d, below);
    forall i | UnderRoot(row, up, i)
      ensures row[i] == Subtree(pool, leaves, d, i)
    {
      OneDown(pool, leaves, proof, row, level, up, d, i);
    }
  }

  /** A row that folds to the tree's root is, under the root, the tree's own row. */
  lemma {:induction false} RowsMatch(pool: PoolId, leaves: seq<Leaf>, depth: nat, proof: CohortProof, row: Row,
          level: nat, d: int) returns (below: nat)
    requires level <= proof.depth && d == depth - (proof.depth - level)
    requires var top := TopRow(proof, row, level);
      0 in top && top[0] == Subtree(pool, leaves, depth, 0)
    ensures d >= 0
    ensures UnderRoot(row, proof.depth - level, below)
    ensures RowMatches(pool, leaves, row, proof.depth - level, d)
    decreases proof.depth - level
  {
    if level == proof.depth {
      below := 0;
    } else {
      var above := RowsMatch(pool, leaves, depth, proof, NextRow(proof, row, level), level + 1, d + 1);
      below := StepDown(pool, leaves, proof, row, level, proof.depth - level, d, above);
    }
  }

  /** `(index, leaf)` is what the tree holds at that index. */
  predicate IsTreeLeaf(all: seq<Value>, entry: (nat, Leaf)) {
    entry.0 < |all| && entry.1 == LeafOf(all, entry.0)
  }

  /**
   * An accepted cohort is one of this very tree, whatever pool and depth it
   * claims, and each leaf it carries is the tree's leaf at its index exactly
   * when that index is one the tree has.
   */
  lemma AcceptedLeavesExact(pool: PoolId, depth: nat, all: seq<Value>, proof: CohortProof, k: nat)
    requires Fits(depth, all)
    requires CohortVerdict(Subtree(pool, LeavesOf(all), depth, 0), proof).Ok?
    requires k < |proof.leaves|
    ensures proof.pool == pool && proof.depth == depth
    ensures IsTreeLeaf(all, proof.leaves[k]) <==> proof.leaves[k].0 < Pow2(depth)
  {
    var row, d := LeafRow(proof.pool, proof.leaves), depth - proof.depth;
    var below := RowsMatch(pool, LeavesOf(all), depth, proof, row, 0, d);
    assert row[below].LeafDigest? by {
      LeafRowEntries(proof.pool, proof.leaves, |proof.leaves|);
    }
    assert d == 0;
    AncestorZero(proof.leaves[k].0, depth);
    LeafRowEntries(proof.pool, proof.leaves, |proof.leaves|);
    assert UnderRoot(row, depth, proof.leaves[k].0) <==> proof.leaves[k].0 < Pow2(depth);
  }

  /**
   * A leaf index past the tree is not checked: an accepted cohort can carry a leaf
   * the tree never held, and then reads a value that was never spent as spent.
   */
  lemma LeafPastTheTreeForgesSpent()
    ensures var forged, range := Leaf(5, 0, 0), CoveringOf(0, 1);
      var proof := CohortProof(Orchard, 1, range, [(0, SENTINEL), (2, forged)], map[]);
      var verdict := CohortVerdict(Subtree(Orchard, LeavesOf([0]), 1, 0), proof);
      && verdict.Ok? && forged in verdict.value
      && Answer(verdict.value, range, 5) == Ok(Spent) && 5 !in [0]
  {
    var forged, range := Leaf(5, 0, 0), CoveringOf(0, 1);
    var leaves: seq<(nat, Leaf)> := [(0, SENTINEL), (2, forged)];
    var proof := CohortProof(Orchard, 1, range, leaves, map[]);
    assert LeavesOnly(leaves) == [SENTINEL, forged];
    assert range.Contains(5) by {
      assert CoveringOf(0, 1).lo == 0;
    }
    ForgedRow(proof, forged);
    SentinelRoot();
    ForgedReadsSpent(range, forged);
    hide SortByValue, Answer, TopRow, Subtree, CoveringOf;
  }

  lemma SortedPair(low: Leaf, high: Leaf)
    requires low.value <= high.value
    ensures SortByValue([low, high]) == [low, high]
  {
    assert [low, high][..1] == [low] && [low][..0] == [];
    assert SortByValue([low]) == InsertByValue(SortByValue([]), low) == [low];
    assert SortByValue([low, high]) == InsertByValue(SortByValue([low]), high);
  }

  /** Delivered beside the sentinel, a leaf answers for its own value. */
  lemma ForgedReadsSpent(range: PrefixRange, forged: Leaf)
    requires forged.value == 5 && range.Contains(5)
    ensures SortByValue([SENTINEL, forged]) == [SENTINEL, forged]
    ensures Answer([SENTINEL, forged], range, 5) == Ok(Spent)
  {
    SortedPair(SENTINEL, forged);
    hide SortByValue, PrefixRange.Contains;
    assert ScanTo([SENTINEL, forged], 5, 0) == Below(None);
    assert ScanTo([SENTINEL, forged], 5, 1) == Below(Some(SENTINEL));
  }

  lemma ForgedRow(proof: CohortProof, forged: Leaf)
    requires proof.pool == Orchard && proof.depth == 1 && proof.nodes == map[]
    requires proof.leaves == [(0, SENTINEL), (2, forged)]
    ensures var top := TopRow(proof, LeafRow(Orchard, proof.leaves), 0);
      0 in top && top[0] == Node(Orchard, LeafDigest(Orchard, SENTINEL), EmptyLeaf(Orchard))
  {
    assert LeafRowTo(Orchard, proof.leaves, 0) == map[];
    assert LeafRowTo(Orchard, proof.leaves, 1) == map[0 := LeafDigest(Orchard, SENTINEL)];
    var row := LeafRow(Orchard, proof.leaves);
    assert row == map[0 := LeafDigest(Orchard, SENTINEL), 2 := LeafDigest(Orchard, forged)];
    assert 0 in row.Keys && 0 in Parents(row.Keys);
    assert TopRow(proof, row, 0) == TopRow(proof, NextRow(proof, row, 0), 1);
  }

  lemma SentinelRoot()
    ensures Subtree(Orchard, LeavesOf([0]), 1, 0) == Node(Orchard, LeafDigest(Orchard, SENTINEL), EmptyLeaf(Orchard))
  {
    assert LeafOf([0], 0) == SENTINEL by {
      SuccessorIsLeastAbove([0], 0);
    }
    assert Subtree(Orchard, LeavesOf([0]), 0, 1) == EmptyLeaf(Orchard);
  }

  ghost predicate SortedLeaves(s: seq<Leaf>) {
    forall i, j :: 0 <= i < j < |s| ==> s[i].value <= s[j].value
  }

  lemma {:induction false} InsertKeepsElements(sorted: seq<Leaf>, leaf: Leaf)
    ensures |InsertByValue(sorted, leaf)| == |sorted| + 1
    ensures forall x :: x in InsertByValue(sorted, leaf) <==> x in sorted || x == leaf
    ensures multiset(InsertByValue(sorted, leaf)) == multiset(sorted) + multiset{leaf}
  {
    if sorted != [] && sorted[|sorted| - 1].value > leaf.value {
      var n := |sorted| - 1;
      InsertKeepsElements(sorted[..n], leaf);
      assert sorted == sorted[..n] + [sorted[n]];
    }
  }

  lemma {:induction false} InsertKeepsSorted(sorted: seq<Leaf>, leaf: Leaf)
    requires SortedLeaves(sorted)
    ensures SortedLeaves(InsertByValue(sorted, leaf))
  {
    if sorted != [] && sorted[|sorted| - 1].value > leaf.value {
      var n := |sorted| - 1;
      InsertKeepsSorted(sorted[..n], leaf);
      InsertKeepsElements(sorted[..n], leaf);
      AppendLargest(InsertByValue(sorted[..n], leaf), sorted[n]);
    }
  }

  lemma AppendLargest(s: seq<Leaf>, last: Leaf)
    requires SortedLeaves(s) && forall x :: x in s ==> x.value <= last.value
    ensures SortedLeaves(s + [last])
  {
  }

  lemma {:induction false} SortKeepsLeaves(leaves: seq<Leaf>)
    ensures var r := SortByValue(leaves);
      && SortedLeaves(r) && |r| == |leaves| && multiset(r) == multiset(leaves)
      && forall x :: x in r <==> x in leaves
  {
    if leaves != [] {
      var n := |leaves| - 1;
      SortKeepsLeaves(leaves[..n]);
      InsertKeepsElements(SortByValue(leaves[..n]), leaves[n]);
      InsertKeepsSorted(SortByValue(leaves[..n]), leaves[n]);
      assert leaves == leaves[..n] + [leaves[n]];
    }
  }

  // ---- reading an answer ----

  /** What the scan over the first `n` leaves found. */
  datatype Scan = Hit | Unsorted | Below(low: Option<Leaf>)

  function ScanTo(leaves: seq<Leaf>, v: Value, n: nat): Scan
    requires n <= |leaves|
  {
    if n == 0 then Below(None)
    else
      match ScanTo(leaves, v, n - 1)
      case Hit => Hit
      case Unsorted => Unsorted
      case Below(low) =>
        var leaf := leaves[n - 1];
        if n > 1 && leaf.value < leaves[n - 2].value then Unsorted
        else if leaf.value == v then Hit
        else if leaf.value < v then Below(Some(leaf))
        else Below(low)
  }

  /** What `resolve` answers. */
  function Answer(leaves: seq<Leaf>, range: PrefixRange, v: Value): Result<Status, CohortError> {
    if !range.Contains(v) then Err(LeafOutOfRange)
    else
      match ScanTo(leaves, v, |leaves|)
      case Hit => Ok(Spent)
      case Unsorted => Err(UnsortedValues)
      case Below(None) => Err(LeafOutOfRange)
      case Below(Some(low)) => if low.Covers(v) then Ok(Unspent(low)) else Err(UnsortedValues)
  }

  /** The loop of `resolve`. */
  method Resolve(leaves: seq<Leaf>, range: PrefixRange, v: Value) returns (r: Result<Status, CohortError>)
    ensures r == Answer(leaves, range, v)
  {
    if !range.Contains(v) {
      return Err(LeafOutOfRange);
    }
    var low: Option<Leaf> := None;
    var previous: Option<Value> := None;
    for n := 0 to |leaves|
      invariant ScanTo(leaves, v, n) == Below(low)
      invariant previous == if n == 0 then None else Some(leaves[n - 1].value)
    {
      var leaf := leaves[n];
      if previous.Some? && leaf.value < previous.value {
        ScanStops(leaves, v, n + 1);
        return Err(UnsortedValues);
      }
      previous := Some(leaf.value);
      if leaf.value == v {
        ScanStops(leaves, v, n + 1);
        return Ok(Spent);
      }
      if leaf.value < v {
        low := Some(leaf);
      }
    }
    if low.None? {
      return Err(LeafOutOfRange);
    }
    if !low.value.Covers(v) {
      return Err(UnsortedValues);
    }
    return Ok(Unspent(low.value));
  }

  lemma {:induction false} ScanStops(leaves: seq<Leaf>, v: Value, n: nat)
    requires n <= |leaves| && !ScanTo(leaves, v, n).Below?
    ensures ScanTo(leaves, v, |leaves|) == ScanTo(leaves, v, n)
    decreases |leaves| - n
  {
    if n < |leaves| {
      ScanStops(leaves, v, n + 1);
    }
  }

  /** On sorted leaves the scan hits a leaf holding `v`, or ends on the greatest below it. */
  lemma {:induction false} ScanMeaning(leaves: seq<Leaf>, v: Value, n: nat)
    requires SortedLeaves(leaves) && n <= |leaves|
    ensures match ScanTo(leaves, v, n)
      case Hit => exists k :: 0 <= k < n && leaves[k].value == v
      case Unsorted => false
      case Below(None) => forall k :: 0 <= k < n ==> leaves[k].value > v
      case Below(Some(low)) =>
        && low in leaves && low.value < v
        && (forall k :: 0 <= k < n ==> leaves[k].value <= low.value || leaves[k].value > v)
  {
    if n > 0 {
      ScanMeaning(leaves, v, n - 1);
    }
  }

  /**
   * Answers agree with the set. Whatever was left out of an accepted cohort,
   * `Spent` is said only of members and `Unspent` only of non-members, as
   * long as its indices are ones the tree has.
   */
  lemma AnswersAgreeWithSet(pool: PoolId, depth: nat, all: seq<Value>, proof: CohortProof, range: PrefixRange, v: Value)
    requires History(all) && Fits(depth, all)
    requires var verdict := CohortVerdict(Subtree(pool, LeavesOf(all), depth, 0), proof);
      verdict.Ok? && Answer(verdict.value, range, v).Ok?
    requires forall k :: 0 <= k < |proof.leaves| ==> proof.leaves[k].0 < Pow2(depth)
    ensures var verdict := CohortVerdict(Subtree(pool, LeavesOf(all), depth, 0), proof);
      Answer(verdict.value, range, v).value == Spent <==> v in all
  {
    var delivered := LeavesOnly(proof.leaves);
    var sorted := SortByValue(delivered);
    SortKeepsLeaves(delivered);
    ScanMeaning(sorted, v, |sorted|);
    match ScanTo(sorted, v, |sorted|)
    case Hit =>
      var k :| 0 <= k < |sorted| && sorted[k].value == v;
      var i := TreeLeafBehind(pool, depth, all, proof, sorted[k]);
      assert all[i] == v;
    case Below(Some(low)) =>
      var i := TreeLeafBehind(pool, depth, all, proof, low);
      CoversExactlyPredecessor(all, i, v);
    case _ =>
  }

  lemma TreeLeafBehind(pool: PoolId, depth: nat, all: seq<Value>, proof: CohortProof, leaf: Leaf) returns (i: nat)
    requires Fits(depth, all)
    requires CohortVerdict(Subtree(pool, LeavesOf(all), depth, 0), proof).Ok?
    requires forall k :: 0 <= k < |proof.leaves| ==> proof.leaves[k].0 < Pow2(depth)
    requires leaf in SortByValue(LeavesOnly(proof.leaves))
    ensures i < |all| && leaf == LeafOf(all, i)
  {
    SortKeepsLeaves(LeavesOnly(proof.leaves));
    var k :| 0 <= k < |proof.leaves| && LeavesOnly(proof.leaves)[k] == leaf;
    AcceptedLeavesExact(pool, depth, all, proof, k);
    i := proof.leaves[k].0;
  }
}
