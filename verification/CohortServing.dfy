// The bridge's side of a prefix cohort: which leaves it must hold, which nodes
// must travel with them, and that nothing sent could be left out.
module CohortServing {
  import opened Wrappers
  import opened Arith
  import opened Hashing
  import opened Merkle
  import opened LinkedSet
  import opened ImtProofs
  import opened Imt
  import opened Prefix
  import opened Cohort

  /** The cohort holds every in-range leaf and the greatest leaf below the range. */
  ghost predicate InCohort(all: seq<Value>, range: PrefixRange, i: nat) {
    i < |all| && (range.Contains(all[i]) || (range.lo > 0 && all[i] == Predecessor(all, range.lo)))
  }

  ghost function IndexSet(leaves: seq<(nat, Leaf)>): set<nat> {
    set k | 0 <= k < |leaves| :: leaves[k].0
  }

  /** The positions whose digests the verifier can compute at `level`. */
  ghost function Known(s: set<nat>, level: nat): set<nat> {
    if level == 0 then s else Parents(Known(s, level - 1))
  }

  /** A node travels only if it is a needed sibling, not computable, and not empty. */
  ghost predicate Needed(pool: PoolId, leaves: seq<Leaf>, s: set<nat>, l: nat, c: nat) {
    Sibling(c) in Known(s, l) && c !in Known(s, l) && Subtree(pool, leaves, l, c) != Zero(pool, l)
  }

  ghost predicate DedupedBelow(pool: PoolId, leaves: seq<Leaf>, s: set<nat>, nodes: map<(nat, nat), Hash>, level: nat) {
    forall l: nat, c: nat {:trigger (l, c) in nodes} ::
      && ((l, c) in nodes <==> l < level && Needed(pool, leaves, s, l, c))
      && ((l, c) in nodes ==> nodes[(l, c)] == Subtree(pool, leaves, l, c))
  }

  /** `proof` is what a tree with history `all` serves for `range`. */
  ghost predicate IsCohortOf(pool: PoolId, depth: nat, all: seq<Value>, range: PrefixRange, proof: CohortProof) {
    && proof.pool == pool && proof.depth == depth && proof.range == range
    && AscendingIndices(proof.leaves)
    && (forall k :: 0 <= k < |proof.leaves| ==> IsTreeLeaf(all, proof.leaves[k]))
    && (forall i: nat :: i in IndexSet(proof.leaves) <==> InCohort(all, range, i))
    && DedupedBelow(pool, LeavesOf(all), IndexSet(proof.leaves), proof.nodes, depth)
  }

  // ---- building ----

  method ProvePrefixCohort(tree: IndexedMerkleTree, range: PrefixRange) returns (r: Result<CohortProof, CohortError>)
    requires tree.Valid()
    ensures r.Ok? && IsCohortOf(tree.pool, tree.depth, tree.Values(), range, r.value)
  {
    ghost var all := tree.Values();
    assert tree.leaves == LeavesOf(all);
    hide IndexedMerkleTree.Valid, IndexedMerkleTree.Values, InCohort, DedupedBelow;
    var indices := CohortIndices(tree, range);
    var leaves: seq<(nat, Leaf)> := [];
    for index := 0 to |tree.leaves|
      invariant forall i: nat :: i in IndexSet(leaves) <==> i < index && i in indices
      invariant forall k :: 0 <= k < |leaves| ==> leaves[k].0 < index && IsTreeLeaf(all, leaves[k])
      invariant AscendingIndices(leaves)
    {
      if index in indices {
        assert IndexSet(leaves + [(index, tree.leaves[index])]) == IndexSet(leaves) + {index} by {
          IndexSetAppend(leaves, (index, tree.leaves[index]));
        }
        leaves := leaves + [(index, tree.leaves[index])];
      }
    }
    assert IndexSet(leaves) == indices;
    var nodes := DedupPaths(tree, indices);
    return Ok(CohortProof(tree.pool, tree.depth, range, leaves, nodes));
  }

  lemma IndexSetAppend(leaves: seq<(nat, Leaf)>, entry: (nat, Leaf))
    ensures IndexSet(leaves + [entry]) == IndexSet(leaves) + {entry.0}
  {
    var grown := leaves + [entry];
    assert grown[|leaves|] == entry;
    forall i | i in IndexSet(leaves)
      ensures i in IndexSet(grown)
    {
      var k :| 0 <= k < |leaves| && leaves[k].0 == i;
      assert grown[k].0 == i;
    }
  }

  /** The predecessor's index and every in-range one, read off the value index. */
  method CohortIndices(tree: IndexedMerkleTree, range: PrefixRange) returns (indices: set<nat>)
    requires tree.Valid()
    ensures forall i: nat :: i in indices <==> InCohort(tree.Values(), range, i)
  {
    var below := PredecessorIndex(tree, range.lo);
    indices := InRangeIndices(tree, range, below);
  }

  method PredecessorIndex(tree: IndexedMerkleTree, lo: Value) returns (indices: set<nat>)
    requires tree.Valid()
    ensures forall i: nat :: i in indices <==>
      i < |tree.Values()| && lo > 0 && tree.Values()[i] == Predecessor(tree.Values(), lo)
  {
    ghost var all := tree.Values();
    indices := {};
    if lo > 0 {
      PredecessorIsGreatestBelow(all, lo);
      LowIndexInRange(all, lo);
      assert all[0] in all && all[0] in tree.indexByValue;
      var entry := tree.FloorEntry(lo - 1);
      if entry.Some? {
        indices := {entry.value.1};
        OnlyPosition(all, Predecessor(all, lo));
      }
    }
  }

  method InRangeIndices(tree: IndexedMerkleTree, range: PrefixRange, below: set<nat>) returns (indices: set<nat>)
    requires tree.Valid()
    ensures forall i: nat :: i in indices <==> i in below || (i < |tree.Values()| && range.Contains(tree.Values()[i]))
  {
    ghost var all := tree.Values();
    indices := below;
    var rest := tree.indexByValue.Keys;
    while rest != {}
      decreases rest
      invariant rest <= tree.indexByValue.Keys
      invariant CollectedBut(all, range, below, rest, indices)
    {
      var v :| v in rest;
      CollectOne(all, range, below, rest, indices, v);
      rest := rest - {v};
      if range.Contains(v) {
        indices := indices + {tree.indexByValue[v]};
      }
    }
  }

  /** All of `below`, and every in-range position whose value is no longer waiting in `rest`. */
  ghost predicate CollectedBut(all: seq<Value>, range: PrefixRange, below: set<nat>, rest: set<Value>,
          indices: set<nat>) {
    forall i: nat {:trigger i in indices} {:trigger all[i]} ::
      i in indices <==> i in below || (i < |all| && all[i] !in rest && range.Contains(all[i]))
  }

  lemma CollectOne(all: seq<Value>, range: PrefixRange, below: set<nat>, rest: set<Value>, indices: set<nat>, v: Value)
    requires Distinct(all) && v in all && v in rest && CollectedBut(all, range, below, rest, indices)
    ensures CollectedBut(all, range, below, rest - {v},
      if range.Contains(v) then indices + {IndexOf(all, v)} else indices)
  {
    OnlyPosition(all, v);
  }

  /** Every sibling some path needs and the delivered leaves do not give. */
  method DedupPaths(tree: IndexedMerkleTree, indices: set<nat>) returns (nodes: map<(nat, nat), Hash>)
    requires tree.Valid()
    ensures DedupedBelow(tree.pool, tree.leaves, indices, nodes, tree.depth)
  {
    nodes := map[];
    var known := indices;
    for level := 0 to tree.depth
      invariant known == Known(indices, level)
      invariant DedupedBelow(tree.pool, tree.leaves, indices, nodes, level)
    {
      nodes := EmitLevel(tree, indices, known, level, nodes);
      known := Parents(known);
    }
  }

  method EmitLevel(tree: IndexedMerkleTree, ghost indices: set<nat>, known: set<nat>, level: nat,
          before: map<(nat, nat), Hash>)
    returns (nodes: map<(nat, nat), Hash>)
    requires tree.Valid() && level < tree.depth && known == Known(indices, level)
    requires DedupedBelow(tree.pool, tree.leaves, indices, before, level)
    ensures DedupedBelow(tree.pool, tree.leaves, indices, nodes, level + 1)
  {
    nodes := before;
    var rest := known;
    while rest != {}
      decreases rest
      invariant rest <= known
      invariant forall l: nat, c: nat {:trigger (l, c) in nodes} ::
        && ((l, c) in nodes <==>
             ((l, c) in before || (l == level && Sibling(c) !in rest && Needed(tree.pool, tree.leaves, indices, l, c))))
        && ((l, c) in nodes ==> nodes[(l, c)] == Subtree(tree.pool, tree.leaves, l, c))
    {
      var index :| index in rest;
      rest := rest - {index};
      var sibling := Sibling(index);
      SiblingFacts(index);
      assert forall c: nat :: Sibling(c) == index <==> c == sibling;
      if sibling !in known {
        tree.NodeIsSubtree(level, sibling);
        var digest := tree.NodeAt(level, sibling);
        if digest != tree.ZeroAt(level) {
          nodes := nodes[(level, sibling) := digest];
        }
      }
    }
  }

  // ---- completeness ----

  lemma LeafRowKeys(proof: CohortProof)
    requires AscendingIndices(proof.leaves)
    ensures LeafRow(proof.pool, proof.leaves).Keys == Known(IndexSet(proof.leaves), 0)
  {
    LeafRowEntries(proof.pool, proof.leaves, |proof.leaves|);
  }

  /** `row` is level `l` of the tree, over the known positions. */
  ghost predicate RowIs(pool: PoolId, leaves: seq<Leaf>, s: set<nat>, row: Row, l: nat) {
    && row.Keys == Known(s, l)
    && forall i {:trigger row[i]} :: i in row ==> row[i] == Subtree(pool, leaves, l, i)
  }

  /** From the tree's own row the verifier recomputes the tree's own nodes, up to the top. */
  lemma {:induction false} RowsAreTheTrees(pool: PoolId, leaves: seq<Leaf>, s: set<nat>, proof: CohortProof, row: Row,
          level: nat)
    requires proof.pool == pool && DedupedBelow(pool, leaves, s, proof.nodes, proof.depth)
    requires level <= proof.depth && RowIs(pool, leaves, s, row, level)
    ensures RowIs(pool, leaves, s, TopRow(proof, row, level), proof.depth)
    decreases proof.depth - level
  {
    if level < proof.depth {
      NextRowIsTheTrees(pool, leaves, proof.depth, s, proof, row, level);
      RowsAreTheTrees(pool, leaves, s, proof, NextRow(proof, row, level), level + 1);
    }
  }

  lemma NextRowIsTheTrees(pool: PoolId, leaves: seq<Leaf>, depth: nat, s: set<nat>, proof: CohortProof, row: Row,
          l: nat)
    requires proof.pool == pool && DedupedBelow(pool, leaves, s, proof.nodes, depth) && l < depth
    requires RowIs(pool, leaves, s, row, l)
    ensures RowIs(pool, leaves, s, NextRow(proof, row, l), l + 1)
  {
    forall p | p in NextRow(proof, row, l)
      ensures NextRow(proof, row, l)[p] == Subtree(pool, leaves, l + 1, p)
    {
      var i :| i in row && i / 2 == p;
      ParentOf(proof, row, l, p);
      hide DedupedBelow, RowIs, Known, Subtree, NextRow, Child;
      ChildrenAreTheTrees(pool, leaves, depth, s, proof, row, l, i, p);
    }
  }

  lemma ChildrenAreTheTrees(pool: PoolId, leaves: seq<Leaf>, depth: nat, s: set<nat>, proof: CohortProof, row: Row,
          l: nat, i: nat, p: nat)
    requires proof.pool == pool && DedupedBelow(pool, leaves, s, proof.nodes, depth) && l < depth
    requires RowIs(pool, leaves, s, row, l) && i in row && p == i / 2
    ensures Node(pool, Child(proof, row, l, 2 * p), Child(proof, row, l, 2 * p + 1)) == Subtree(pool, leaves, l + 1, p)
  {
    SiblingFacts(i);
    ChildIsTheTrees(pool, leaves, depth, s, proof, row, l, i);
    ChildIsTheTrees(pool, leaves, depth, s, proof, row, l, Sibling(i));
    hide DedupedBelow, RowIs, Known, Child;
    CombineSubtrees(pool, leaves, l, i);
  }

  lemma LeafRowIsTheTrees(pool: PoolId, depth: nat, all: seq<Value>, range: PrefixRange, proof: CohortProof)
    requires IsCohortOf(pool, depth, all, range, proof)
    ensures RowIs(pool, LeavesOf(all), IndexSet(proof.leaves), LeafRow(pool, proof.leaves), 0)
  {
    LeafRowEntries(proof.pool, proof.leaves, |proof.leaves|);
    LeafRowKeys(proof);
    var row := LeafRow(pool, proof.leaves);
    forall i | i in row
      ensures row[i] == Subtree(pool, LeavesOf(all), 0, i)
    {
      var k :| 0 <= k < |proof.leaves| && proof.leaves[k].0 == i;
      assert IsTreeLeaf(all, proof.leaves[k]);
    }
  }

  lemma ChildIsTheTrees(pool: PoolId, leaves: seq<Leaf>, depth: nat, s: set<nat>, proof: CohortProof, row: Row,
          l: nat, c: nat)
    requires proof.pool == pool && DedupedBelow(pool, leaves, s, proof.nodes, depth) && l < depth
    requires RowIs(pool, leaves, s, row, l)
    requires c in row || (Sibling(c) in row && Sibling(Sibling(c)) == c)
    ensures Child(proof, row, l, c) == Subtree(pool, leaves, l, c)
  {
  }

  lemma {:induction false} KnownIsAncestors(s: set<nat>, level: nat)
    ensures forall i :: i in s ==> Ancestor(i, level) in Known(s, level)
    ensures forall p :: p in Known(s, level) ==> exists i :: i in s && Ancestor(i, level) == p
  {
    if level > 0 {
      KnownIsAncestors(s, level - 1);
    }
  }

  /** Every range has a leaf to serve: the sentinel, or something below the range. */
  lemma CohortNotEmpty(all: seq<Value>, range: PrefixRange) returns (i: nat)
    requires History(all) && ValidRange(range)
    ensures InCohort(all, range, i)
  {
    if range.lo == 0 {
      i := 0;
    } else {
      LowIndexInRange(all, range.lo);
      i := LowIndex(all, range.lo);
    }
  }

  /**
   * A leaf below the range is served exactly when the range does not start at
   * zero; the range that does holds the sentinel itself.
   */
  lemma PredecessorServedExactly(all: seq<Value>, range: PrefixRange)
    requires History(all) && ValidRange(range)
    ensures (exists i: nat {:trigger InCohort(all, range, i)} :: InCohort(all, range, i) && all[i] < range.lo) <==>
      range.lo > 0
    ensures range.lo == 0 ==> InCohort(all, range, 0) && range.Contains(all[0])
  {
    if range.lo > 0 {
      LowIndexInRange(all, range.lo);
      PredecessorIsGreatestBelow(all, range.lo);
      assert all[0] in all;
      assert InCohort(all, range, LowIndex(all, range.lo));
    }
  }

  /** A served cohort always verifies against its own tree's root. */
  lemma ServedCohortVerifies(pool: PoolId, depth: nat, all: seq<Value>, range: PrefixRange, proof: CohortProof)
    requires History(all) && Fits(depth, all) && ValidRange(range)
    requires IsCohortOf(pool, depth, all, range, proof)
    ensures CohortVerdict(Subtree(pool, LeavesOf(all), depth, 0), proof) == Ok(SortByValue(LeavesOnly(proof.leaves)))
  {
    var i := CohortNotEmpty(all, range);
    LeafRowIsTheTrees(pool, depth, all, range, proof);
    RowsAreTheTrees(pool, LeavesOf(all), IndexSet(proof.leaves), proof, LeafRow(pool, proof.leaves), 0);
    KnownIsAncestors(IndexSet(proof.leaves), depth);
    AncestorZero(i, depth);
    assert i in IndexSet(proof.leaves);
  }

  /**
   * A served cohort settles every value of its range, and with the same low
   * leaf as a direct proof of absence.
   */
  lemma ServedCohortSettles(pool: PoolId, depth: nat, all: seq<Value>, range: PrefixRange, proof: CohortProof, v: Value)
    requires History(all) && Fits(depth, all) && ValidRange(range)
    requires IsCohortOf(pool, depth, all, range, proof)
    requires range.Contains(v)
    ensures v in all ==> Answer(SortByValue(LeavesOnly(proof.leaves)), range, v) == Ok(Spent)
    ensures v !in all ==>
      Answer(SortByValue(LeavesOnly(proof.leaves)), range, v) ==
        Ok(Unspent(NonMembershipProofOf(pool, depth, all, v).lowLeaf))
  {
    var delivered := LeavesOnly(proof.leaves);
    var sorted := SortByValue(delivered);
    SortKeepsLeaves(delivered);
    ScanMeaning(sorted, v, |sorted|);
    if v in all {
      var i := IndexOf(all, v);
      Delivered(pool, depth, all, range, proof, i);
    } else {
      LowIndexInRange(all, v);
      var low := LowIndex(all, v);
      PredecessorDelivered(all, range, v);
      Delivered(pool, depth, all, range, proof, low);
      CoversExactlyPredecessor(all, low, v);
      PredecessorIsGreatestBelow(all, v);
      ScanFindsGreatest(all, proof, sorted, v, low);
    }
    if v in all {
      ScanHits(sorted, v, LeafOf(all, IndexOf(all, v)));
    }
  }

  lemma Delivered(pool: PoolId, depth: nat, all: seq<Value>, range: PrefixRange, proof: CohortProof, i: nat)
    requires IsCohortOf(pool, depth, all, range, proof) && InCohort(all, range, i)
    ensures LeafOf(all, i) in SortByValue(LeavesOnly(proof.leaves))
  {
    assert i in IndexSet(proof.leaves);
    var k :| 0 <= k < |proof.leaves| && proof.leaves[k].0 == i;
    assert IsTreeLeaf(all, proof.leaves[k]);
    assert LeavesOnly(proof.leaves)[k] == LeafOf(all, i);
    SortKeepsLeaves(LeavesOnly(proof.leaves));
  }

  /** The low leaf of an in-range value is in range or is the range's own predecessor. */
  lemma PredecessorDelivered(all: seq<Value>, range: PrefixRange, v: Value)
    requires History(all) && range.Contains(v) && v !in all
    ensures InCohort(all, range, LowIndex(all, v))
  {
    LowIndexInRange(all, v);
    PredecessorIsGreatestBelow(all, v);
    PredecessorIsGreatestBelow(all, range.lo);
    assert all[0] in all;
    var p := Predecessor(all, v);
    assert p in all;
    if p < range.lo {
      assert p <= Predecessor(all, range.lo);
    }
  }

  lemma {:induction false} ScanHits(sorted: seq<Leaf>, v: Value, hit: Leaf)
    requires SortedLeaves(sorted) && hit in sorted && hit.value == v
    ensures ScanTo(sorted, v, |sorted|) == Hit
  {
    ScanMeaning(sorted, v, |sorted|);
  }

  /** The scan ends on the leaf that no other leaf below `v` exceeds. */
  lemma ScanEndsOn(sorted: seq<Leaf>, v: Value, best: Leaf)
    requires SortedLeaves(sorted) && best in sorted && best.value < v
    requires forall leaf :: leaf in sorted ==> leaf.value != v
    requires forall leaf :: leaf in sorted && leaf.value < v ==> leaf == best || leaf.value < best.value
    ensures ScanTo(sorted, v, |sorted|) == Below(Some(best))
  {
    ScanMeaning(sorted, v, |sorted|);
    var k :| 0 <= k < |sorted| && sorted[k] == best;
  }

  lemma ScanFindsGreatest(all: seq<Value>, proof: CohortProof, sorted: seq<Leaf>, v: Value, low: nat)
    requires History(all) && v !in all && low < |all|
    requires sorted == SortByValue(LeavesOnly(proof.leaves))
    requires forall k :: 0 <= k < |proof.leaves| ==> IsTreeLeaf(all, proof.leaves[k])
    requires LeafOf(all, low) in sorted && all[low] < v
    requires forall x :: x in all && x < v ==> x <= all[low]
    ensures ScanTo(sorted, v, |sorted|) == Below(Some(LeafOf(all, low)))
  {
    SortKeepsLeaves(LeavesOnly(proof.leaves));
    forall leaf | leaf in sorted
      ensures leaf.value != v
      ensures leaf.value < v ==> leaf == LeafOf(all, low) || leaf.value < all[low]
    {
      var k :| 0 <= k < |proof.leaves| && LeavesOnly(proof.leaves)[k] == leaf;
      assert IsTreeLeaf(all, proof.leaves[k]);
      assert leaf.value == all[proof.leaves[k].0] && leaf.value in all;
    }
    ScanEndsOn(sorted, v, LeafOf(all, low));
  }

  /** If the fold still reached the root, the missing node would have to be the empty one. */
  lemma MissingNodeWouldBeEmpty(pool: PoolId, leaves: seq<Leaf>, short: CohortProof, row: Row, l: nat, up: nat, c: nat)
    requires up > 0 && RowMatches(pool, leaves, NextRow(short, row, l), up - 1, l + 1)
    requires UnderRoot(row, up, Sibling(c)) && c !in row && (l, c) !in short.nodes
    ensures short.pool == pool && Subtree(pool, leaves, l, c) == Zero(pool, l)
  {
    OneDown(pool, leaves, short, row, l, up, l, Sibling(c));
    SiblingFacts(c);
    ChildMatches(pool, leaves, short, row, l, l, c);
  }

  lemma NeededMeans(pool: PoolId, leaves: seq<Leaf>, s: set<nat>, row: Row, l: nat, up: nat, c: nat)
    requires row.Keys == Known(s, l) && Needed(pool, leaves, s, l, c) && Ancestor(Sibling(c), up) == 0
    ensures c !in row && UnderRoot(row, up, Sibling(c)) && Subtree(pool, leaves, l, c) != Zero(pool, l)
  {
    hide Subtree, Known, Ancestor;
  }

  lemma TopOfNext(proof: CohortProof, row: Row, level: nat)
    requires level < proof.depth
    ensures TopRow(proof, row, level) == TopRow(proof, NextRow(proof, row, level), level + 1)
  {
  }

  /** The row at the level of the node that is lacking. */
  lemma LackingAtItsLevel(pool: PoolId, leaves: seq<Leaf>, depth: nat, s: set<nat>, short: CohortProof, row: Row,
          l: nat, c: nat)
    requires short.depth == depth && l < depth && row.Keys == Known(s, l)
    requires Needed(pool, leaves, s, l, c) && (l, c) !in short.nodes && Ancestor(Sibling(c), depth - l) == 0
    ensures var top := TopRow(short, row, l);
      0 !in top || top[0] != Subtree(pool, leaves, depth, 0)
  {
    hide *;
    NeededMeans(pool, leaves, s, row, l, depth - l, c);
    TopOfNext(short, row, l);
    if 0 in TopRow(short, row, l) && TopRow(short, row, l)[0] == Subtree(pool, leaves, depth, 0) {
      var _ := RowsMatch(pool, leaves, depth, short, NextRow(short, row, l), l + 1, l + 1);
      MissingNodeWouldBeEmpty(pool, leaves, short, row, l, depth - l, c);
    }
  }

  /** The rows of a proof that lacks a needed node cannot fold to the root. */
  lemma {:induction false} LackingRowMissesRoot(pool: PoolId, leaves: seq<Leaf>, depth: nat, s: set<nat>,
          short: CohortProof, row: Row, level: nat, l: nat, c: nat)
    requires short.depth == depth && level <= l < depth && row.Keys == Known(s, level)
    requires Needed(pool, leaves, s, l, c) && (l, c) !in short.nodes
    requires Ancestor(Sibling(c), depth - l) == 0
    ensures var top := TopRow(short, row, level);
      0 !in top || top[0] != Subtree(pool, leaves, depth, 0)
    decreases l - level
  {
    hide Subtree, Needed, Ancestor;
    if level < l {
      LackingRowMissesRoot(pool, leaves, depth, s, short, NextRow(short, row, level), level + 1, l, c);
    } else {
      LackingAtItsLevel(pool, leaves, depth, s, short, row, l, c);
    }
  }

  /** No emitted node is spare: take one away and the fold ends at another root. */
  lemma EveryNodeIsNeeded(pool: PoolId, depth: nat, all: seq<Value>, range: PrefixRange, proof: CohortProof,
          key: (nat, nat))
    requires History(all) && Fits(depth, all)
    requires IsCohortOf(pool, depth, all, range, proof) && key in proof.nodes
    ensures var short := proof.(nodes := proof.nodes - {key});
      CohortVerdict(Subtree(pool, LeavesOf(all), depth, 0), short) == Err(CohortError.RootMismatch)
  {
    var short := proof.(nodes := proof.nodes - {key});
    var (l, c) := key;
    var s := IndexSet(proof.leaves);
    assert (l, c) in proof.nodes && (l, c) !in short.nodes;
    assert Needed(pool, LeavesOf(all), s, l, c);
    LeafRowKeys(short);
    SiblingUnderRoot(depth, all, range, s, l, c);
    LackingRowMissesRoot(pool, LeavesOf(all), depth, s, short, LeafRow(pool, short.leaves), 0, l, c);
  }

  lemma SiblingUnderRoot(depth: nat, all: seq<Value>, range: PrefixRange, s: set<nat>, l: nat, c: nat)
    requires |all| <= Pow2(depth) && l < depth
    requires forall i :: i in s ==> InCohort(all, range, i)
    requires Sibling(c) in Known(s, l)
    ensures Ancestor(Sibling(c), depth - l) == 0
  {
    KnownIsAncestors(s, l);
    var i :| i in s && Ancestor(i, l) == Sibling(c);
    AncestorZero(i, depth);
    AncestorAdd(i, l, depth - l);
  }
}
