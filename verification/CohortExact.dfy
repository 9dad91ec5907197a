// Exactly which cohorts are accepted, and exactly how a cohort answers.
module CohortExact {
  import opened Wrappers
  import opened Arith
  import opened Hashing
  import opened Merkle
  import opened LinkedSet
  import opened ImtProofs
  import opened Prefix
  import opened Cohort
  import opened CohortServing

  // ---- acceptance ----

  /** What the verifier takes for a node it cannot compute: the one sent, or the empty subtree. */
  function Sent(proof: CohortProof, level: nat, c: nat): Hash {
    if (level, c) in proof.nodes then proof.nodes[(level, c)] else Zero(proof.pool, level)
  }

  /** Every node the fold to the root needs and cannot compute is the tree's. */
  ghost predicate NodesRight(pool: PoolId, leaves: seq<Leaf>, s: set<nat>, proof: CohortProof, depth: nat) {
    forall l: nat, c: nat {:trigger Sent(proof, l, c)} ::
      l < depth && Sibling(c) in Known(s, l) && c !in Known(s, l) && Ancestor(c, depth - l) == 0 ==>
        Sent(proof, l, c) == Subtree(pool, leaves, l, c)
  }

  /**
   * Of this tree, its indices ascending and at least one below 2^depth; the leaves
   * at such indices are the tree's, and so are the nodes beside their paths.
   */
  ghost predicate IsAcceptable(pool: PoolId, depth: nat, all: seq<Value>, proof: CohortProof) {
    && proof.pool == pool && proof.depth == depth && AscendingIndices(proof.leaves)
    && (exists k {:trigger proof.leaves[k]} :: 0 <= k < |proof.leaves| && proof.leaves[k].0 < Pow2(depth))
    && (forall k {:trigger proof.leaves[k]} :: 0 <= k < |proof.leaves| && proof.leaves[k].0 < Pow2(depth) ==>
      IsTreeLeaf(all, proof.leaves[k]))
    && NodesRight(pool, LeavesOf(all), IndexSet(proof.leaves), proof, depth)
  }

  /** A fold that ends at the root was given the tree's own nodes. */
  lemma {:induction false} FoldedNode(pool: PoolId, leaves: seq<Leaf>, s: set<nat>, proof: CohortProof, row: Row,
          level: nat, l: nat, c: nat)
    requires level <= l < proof.depth && row.Keys == Known(s, level) && proof.pool == pool
    requires var top := TopRow(proof, row, level);
      0 in top && top[0] == Subtree(pool, leaves, proof.depth, 0)
    requires Sibling(c) in Known(s, l) && c !in Known(s, l) && Ancestor(c, proof.depth - l) == 0
    ensures Sent(proof, l, c) == Subtree(pool, leaves, l, c)
    decreases l - level
  {
    var next := NextRow(proof, row, level);
    TopOfNext(proof, row, level);
    if level < l {
      hide Subtree, TopRow, Sent, Ancestor;
      FoldedNode(pool, leaves, s, proof, next, level + 1, l, c);
    } else {
      hide TopRow, Subtree;
      var _ := RowsMatch(pool, leaves, proof.depth, proof, next, l + 1, l + 1);
      NodeBeside(pool, leaves, proof, row, l, proof.depth - l, c);
    }
  }

  /** A node beside a known one, under a row that is the tree's. */
  lemma NodeBeside(pool: PoolId, leaves: seq<Leaf>, proof: CohortProof, row: Row, l: nat, up: nat, c: nat)
    requires up > 0 && RowMatches(pool, leaves, NextRow(proof, row, l), up - 1, l + 1)
    requires Sibling(c) in row && c !in row && Ancestor(c, up) == 0
    ensures Sent(proof, l, c) == Subtree(pool, leaves, l, c)
  {
    hide Subtree;
    SiblingFacts(c);
    AncestorShift(c, up - 1);
    assert Sibling(c) / 2 in Parents(row.Keys);
    assert UnderRoot(NextRow(proof, row, l), up - 1, c / 2);
    ChildMatches(pool, leaves, proof, row, l, l, c);
  }

  /** Under the root, the next row of the tree's own row is the tree's. */
  lemma NextRowMatches(pool: PoolId, leaves: seq<Leaf>, s: set<nat>, proof: CohortProof, row: Row, l: nat)
    requires proof.pool == pool && l < proof.depth && NodesRight(pool, leaves, s, proof, proof.depth)
    requires row.Keys == Known(s, l) && RowMatches(pool, leaves, row, proof.depth - l, l)
    ensures RowMatches(pool, leaves, NextRow(proof, row, l), proof.depth - l - 1, l + 1)
  {
    var next, up := NextRow(proof, row, l), proof.depth - l;
    forall p | UnderRoot(next, up - 1, p)
      ensures next[p] == Subtree(pool, leaves, l + 1, p)
    {
      var i :| i in row && i / 2 == p;
      ParentOf(proof, row, l, p);
      SiblingFacts(i);
      hide NextRow, Known, Subtree, NodesRight;
      AncestorShift(i, up - 1);
      AncestorShift(Sibling(i), up - 1);
      ChildUnderRoot(pool, leaves, s, proof, row, l, i);
      ChildUnderRoot(pool, leaves, s, proof, row, l, Sibling(i));
      CombineSubtrees(pool, leaves, l, i);
    }
  }

  lemma ChildUnderRoot(pool: PoolId, leaves: seq<Leaf>, s: set<nat>, proof: CohortProof, row: Row, l: nat, c: nat)
    requires proof.pool == pool && l < proof.depth && NodesRight(pool, leaves, s, proof, proof.depth)
    requires row.Keys == Known(s, l) && RowMatches(pool, leaves, row, proof.depth - l, l)
    requires Ancestor(c, proof.depth - l) == 0 && (c in row || Sibling(c) in row)
    ensures Child(proof, row, l, c) == Subtree(pool, leaves, l, c)
  {
    if c in row {
      assert UnderRoot(row, proof.depth - l, c);
    } else {
      assert Sent(proof, l, c) == Subtree(pool, leaves, l, c);
    }
  }

  lemma {:induction false} RowsReachRoot(pool: PoolId, leaves: seq<Leaf>, s: set<nat>, proof: CohortProof, row: Row,
          level: nat)
    requires proof.pool == pool && level <= proof.depth && NodesRight(pool, leaves, s, proof, proof.depth)
    requires row.Keys == Known(s, level) && RowMatches(pool, leaves, row, proof.depth - level, level)
    ensures var top := TopRow(proof, row, level);
      top.Keys == Known(s, proof.depth) && (0 in top ==> top[0] == Subtree(pool, leaves, proof.depth, 0))
    decreases proof.depth - level
  {
    if level < proof.depth {
      NextRowMatches(pool, leaves, s, proof, row, level);
      RowsReachRoot(pool, leaves, s, proof, NextRow(proof, row, level), level + 1);
    } else if 0 in row {
      assert UnderRoot(row, 0, 0);
    }
  }

  lemma AcceptedLeaves(pool: PoolId, depth: nat, all: seq<Value>, proof: CohortProof)
    requires Fits(depth, all) && CohortVerdict(Subtree(pool, LeavesOf(all), depth, 0), proof).Ok?
    ensures proof.pool == pool && proof.depth == depth && AscendingIndices(proof.leaves)
    ensures exists k {:trigger proof.leaves[k]} :: 0 <= k < |proof.leaves| && proof.leaves[k].0 < Pow2(depth)
    ensures forall k {:trigger proof.leaves[k]} :: 0 <= k < |proof.leaves| && proof.leaves[k].0 < Pow2(depth) ==>
      IsTreeLeaf(all, proof.leaves[k])
  {
    var row := LeafRow(proof.pool, proof.leaves);
    var below := RowsMatch(pool, LeavesOf(all), depth, proof, row, 0, depth - proof.depth);
    LeafRowEntries(proof.pool, proof.leaves, |proof.leaves|);
    hide TopRow, Subtree, IsTreeLeaf, LeafRowTo;
    var first :| 0 <= first < |proof.leaves| && proof.leaves[first].0 == below;
    AcceptedLeavesExact(pool, depth, all, proof, first);
    AncestorZero(below, depth);
    forall k | 0 <= k < |proof.leaves| && proof.leaves[k].0 < Pow2(depth)
      ensures IsTreeLeaf(all, proof.leaves[k])
    {
      AcceptedLeavesExact(pool, depth, all, proof, k);
    }
  }

  lemma AcceptedNodes(pool: PoolId, depth: nat, all: seq<Value>, proof: CohortProof)
    requires Fits(depth, all) && CohortVerdict(Subtree(pool, LeavesOf(all), depth, 0), proof).Ok?
    requires proof.pool == pool && proof.depth == depth
    ensures NodesRight(pool, LeavesOf(all), IndexSet(proof.leaves), proof, depth)
  {
    var row, s := LeafRow(pool, proof.leaves), IndexSet(proof.leaves);
    LeafRowKeys(proof);
    hide TopRow, Subtree, Known, LeafRow, Sent;
    forall l: nat, c: nat |
      l < depth && Sibling(c) in Known(s, l) && c !in Known(s, l) && Ancestor(c, depth - l) == 0
      ensures Sent(proof, l, c) == Subtree(pool, LeavesOf(all), l, c)
    {
      FoldedNode(pool, LeavesOf(all), s, proof, row, 0, l, c);
    }
  }

  lemma AcceptedIsAcceptable(pool: PoolId, depth: nat, all: seq<Value>, proof: CohortProof)
    requires Fits(depth, all) && CohortVerdict(Subtree(pool, LeavesOf(all), depth, 0), proof).Ok?
    ensures IsAcceptable(pool, depth, all, proof)
  {
    hide CohortVerdict, NodesRight, IsTreeLeaf, AscendingIndices, Subtree;
    AcceptedLeaves(pool, depth, all, proof);
    AcceptedNodes(pool, depth, all, proof);
  }

  lemma LeavesMatch(pool: PoolId, depth: nat, all: seq<Value>, proof: CohortProof)
    requires IsAcceptable(pool, depth, all, proof)
    ensures var row := LeafRow(pool, proof.leaves);
      row.Keys == Known(IndexSet(proof.leaves), 0) && RowMatches(pool, LeavesOf(all), row, depth, 0)
  {
    hide NodesRight;
    var row := LeafRow(pool, proof.leaves);
    LeafRowEntries(pool, proof.leaves, |proof.leaves|);
    LeafRowKeys(proof);
    forall i | UnderRoot(row, depth, i)
      ensures row[i] == Subtree(pool, LeavesOf(all), 0, i)
    {
      var k :| 0 <= k < |proof.leaves| && proof.leaves[k].0 == i;
      AncestorZero(i, depth);
      assert IsTreeLeaf(all, proof.leaves[k]);
    }
  }

  /** The root is over an index below 2^depth. */
  lemma TopIsKnown(depth: nat, s: set<nat>, i: nat)
    requires i in s && i < Pow2(depth)
    ensures 0 in Known(s, depth)
  {
    KnownIsAncestors(s, depth);
    AncestorZero(i, depth);
  }

  lemma AcceptableIsAccepted(pool: PoolId, depth: nat, all: seq<Value>, proof: CohortProof)
    requires Fits(depth, all) && IsAcceptable(pool, depth, all, proof)
    ensures CohortVerdict(Subtree(pool, LeavesOf(all), depth, 0), proof).Ok?
  {
    LeavesMatch(pool, depth, all, proof);
    hide NodesRight, RowMatches, Known, TopRow, Subtree, LeafRow, AscendingIndices;
    var row, s := LeafRow(pool, proof.leaves), IndexSet(proof.leaves);
    var first :| 0 <= first < |proof.leaves| && proof.leaves[first].0 < Pow2(depth);
    assert proof.leaves[first].0 in s;
    TopIsKnown(depth, s, proof.leaves[first].0);
    RowsReachRoot(pool, LeavesOf(all), s, proof, row, 0);
  }

  /**
   * The verifier is exact: it accepts acceptable cohorts and no others, and
   * answers with their leaves, ordered by value.
   */
  lemma AcceptedExactly(pool: PoolId, depth: nat, all: seq<Value>, proof: CohortProof)
    requires Fits(depth, all)
    ensures var verdict := CohortVerdict(Subtree(pool, LeavesOf(all), depth, 0), proof);
      && (verdict.Ok? <==> IsAcceptable(pool, depth, all, proof))
      && (verdict.Ok? ==>
           && SortedLeaves(verdict.value) && |verdict.value| == |proof.leaves|
           && multiset(verdict.value) == multiset(LeavesOnly(proof.leaves)))
      && (verdict == Err(Tree(InvalidDepth(proof.depth))) <==> !ValidDepth(proof.depth))
      && (verdict == Err(UnorderedLeaves) <==> ValidDepth(proof.depth) && !AscendingIndices(proof.leaves))
  {
    var verdict := CohortVerdict(Subtree(pool, LeavesOf(all), depth, 0), proof);
    if verdict.Ok? {
      AcceptedIsAcceptable(pool, depth, all, proof);
      SortKeepsLeaves(LeavesOnly(proof.leaves));
    }
    if IsAcceptable(pool, depth, all, proof) {
      AcceptableIsAccepted(pool, depth, all, proof);
    }
    hide IsAcceptable, SortByValue, TopRow, Subtree, SortedLeaves;
  }

  // ---- answers, whatever leaves are shown ----

  /** The first `n` leaves are in value order and none holds `v`. */
  ghost predicate Clear(leaves: seq<Leaf>, v: Value, n: nat)
    requires n <= |leaves|
  {
    forall k {:trigger leaves[k]} :: 0 <= k < n ==>
      leaves[k].value != v && (k > 0 ==> leaves[k - 1].value <= leaves[k].value)
  }

  /** After clear leaves, leaf `k` is in order and holds `v`. */
  ghost predicate FoundAt(leaves: seq<Leaf>, v: Value, k: nat) {
    && k < |leaves| && Clear(leaves, v, k)
    && leaves[k].value == v && (k > 0 ==> leaves[k - 1].value <= leaves[k].value)
  }

  /** After clear leaves, leaf `k` is out of order. */
  ghost predicate BrokenAt(leaves: seq<Leaf>, v: Value, k: nat) {
    0 < k < |leaves| && Clear(leaves, v, k) && leaves[k].value < leaves[k - 1].value
  }

  /** Leaf `i` is the last of the first `n` that holds a value below `v`. */
  ghost predicate LastBelow(leaves: seq<Leaf>, v: Value, n: nat, i: nat)
    requires n <= |leaves|
  {
    i < n && leaves[i].value < v && forall k {:trigger leaves[k]} :: i < k < n ==> leaves[k].value > v
  }

  ghost predicate ScanIs(leaves: seq<Leaf>, v: Value, n: nat, scan: Scan)
    requires n <= |leaves|
  {
    match scan
    case Hit => exists k {:trigger FoundAt(leaves, v, k)} :: 0 <= k < n && FoundAt(leaves, v, k)
    case Unsorted => exists k {:trigger BrokenAt(leaves, v, k)} :: 0 <= k < n && BrokenAt(leaves, v, k)
    case Below(None) => Clear(leaves, v, n) && forall k {:trigger leaves[k]} :: 0 <= k < n ==> leaves[k].value > v
    case Below(Some(low)) =>
      && Clear(leaves, v, n)
      && exists i: nat {:trigger LastBelow(leaves, v, n, i)} :: LastBelow(leaves, v, n, i) && leaves[i] == low
  }

  lemma ClearGrows(leaves: seq<Leaf>, v: Value, k: nat)
    requires k < |leaves| && Clear(leaves, v, k) && leaves[k].value != v
    requires k > 0 ==> leaves[k - 1].value <= leaves[k].value
    ensures Clear(leaves, v, k + 1)
  {
  }

  /** One leaf more, none before it having decided. */
  lemma ScanNext(leaves: seq<Leaf>, v: Value, k: nat, low: Option<Leaf>)
    requires k < |leaves| && ScanTo(leaves, v, k) == Below(low) && ScanIs(leaves, v, k, Below(low))
    ensures ScanIs(leaves, v, k + 1, ScanTo(leaves, v, k + 1))
  {
    var leaf := leaves[k];
    hide Clear;
    if k > 0 && leaf.value < leaves[k - 1].value {
      assert BrokenAt(leaves, v, k);
    } else if leaf.value == v {
      assert FoundAt(leaves, v, k);
    } else {
      ClearGrows(leaves, v, k);
      if leaf.value < v {
        assert LastBelow(leaves, v, k + 1, k);
      } else if low.Some? {
        var i: nat :| LastBelow(leaves, v, k, i) && leaves[i] == low.value;
        assert LastBelow(leaves, v, k + 1, i);
      }
    }
  }

  lemma {:induction false} ScanExactly(leaves: seq<Leaf>, v: Value, n: nat)
    requires n <= |leaves|
    ensures ScanIs(leaves, v, n, ScanTo(leaves, v, n))
  {
    if n > 0 {
      ScanExactly(leaves, v, n - 1);
      hide Clear, FoundAt, BrokenAt, LastBelow;
      match ScanTo(leaves, v, n - 1)
      case Hit =>
      case Unsorted =>
      case Below(low) => ScanNext(leaves, v, n - 1, low);
    }
  }

  /**
   * What `resolve` answers, for any leaves at all: a value outside the range is
   * refused; otherwise the first leaf that is out of order, or holds the value,
   * decides; and if there is none, the last leaf below the value, which must
   * bracket it.
   */
  lemma AnswerExactly(leaves: seq<Leaf>, range: PrefixRange, v: Value)
    ensures match Answer(leaves, range, v)
      case Ok(Spent) => range.Contains(v) && exists k {:trigger FoundAt(leaves, v, k)} :: FoundAt(leaves, v, k)
      case Ok(Unspent(low)) =>
        && range.Contains(v) && Clear(leaves, v, |leaves|) && low.Covers(v)
        && exists i: nat {:trigger LastBelow(leaves, v, |leaves|, i)} ::
          LastBelow(leaves, v, |leaves|, i) && leaves[i] == low
      case Err(LeafOutOfRange) =>
        !range.Contains(v) || (Clear(leaves, v, |leaves|) && forall k {:trigger leaves[k]} ::
          0 <= k < |leaves| ==> leaves[k].value > v)
      case Err(UnsortedValues) =>
        && range.Contains(v)
        && ((exists k {:trigger BrokenAt(leaves, v, k)} :: BrokenAt(leaves, v, k)) ||
          (Clear(leaves, v, |leaves|) && exists i: nat {:trigger LastBelow(leaves, v, |leaves|, i)} ::
            LastBelow(leaves, v, |leaves|, i) && !leaves[i].Covers(v)))
      case _ => false
  {
    ScanExactly(leaves, v, |leaves|);
    hide Clear, FoundAt, BrokenAt, LastBelow, ScanTo;
  }
}
