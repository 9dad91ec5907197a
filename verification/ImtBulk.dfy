// The two routes to a tree that do not replay insertions: folding values
// bottom-up into a whole tree, and recomputing a root from stored values.
module ImtBulk {
  import opened Wrappers
  import opened Arith
  import opened Hashing
  import opened Merkle
  import opened LinkedSet
  import opened ImtProofs
  import opened NodeMap
  import opened Imt

  type Pair = (Value, nat)

  ghost predicate SortedByValue(s: seq<Pair>) {
    forall i, j :: 0 <= i < j < |s| ==> s[i].0 <= s[j].0
  }

  /** Each value beside its position. */
  function Positions(all: seq<Value>): (s: seq<Pair>)
    ensures |s| == |all|
  {
    seq(|all|, i requires 0 <= i < |all| => (all[i], i))
  }

  method InsertPair(sorted: seq<Pair>, x: Pair) returns (grown: seq<Pair>)
    requires SortedByValue(sorted)
    ensures SortedByValue(grown) && multiset(grown) == multiset(sorted) + multiset{x}
  {
    var at := 0;
    while at < |sorted| && sorted[at].0 <= x.0
      invariant at <= |sorted|
      invariant forall i :: 0 <= i < at ==> sorted[i].0 <= x.0
    {
      at := at + 1;
    }
    SpliceSorted(sorted, at, x);
    SpliceMultiset(sorted, at, x);
    grown := sorted[..at] + [x] + sorted[at..];
  }

  lemma SpliceSorted(sorted: seq<Pair>, at: nat, x: Pair)
    requires SortedByValue(sorted) && at <= |sorted|
    requires forall i :: 0 <= i < at ==> sorted[i].0 <= x.0
    requires at < |sorted| ==> x.0 < sorted[at].0
    ensures SortedByValue(sorted[..at] + [x] + sorted[at..])
  {
    var front, back := sorted[..at], sorted[at..];
    ConcatSorted(front, [x]);
    forall i, j | 0 <= i < |front + [x]| && 0 <= j < |back|
      ensures (front + [x])[i].0 <= back[j].0
    {
      assert x.0 <= back[0].0 <= back[j].0;
    }
    ConcatSorted(front + [x], back);
  }

  lemma SpliceMultiset(sorted: seq<Pair>, at: nat, x: Pair)
    requires at <= |sorted|
    ensures multiset(sorted[..at] + [x] + sorted[at..]) == multiset(sorted) + multiset{x}
  {
    assert sorted == sorted[..at] + sorted[at..];
  }

  lemma ConcatSorted(a: seq<Pair>, b: seq<Pair>)
    requires SortedByValue(a) && SortedByValue(b)
    requires forall i, j :: 0 <= i < |a| && 0 <= j < |b| ==> a[i].0 <= b[j].0
    ensures SortedByValue(a + b)
  {
  }

  /** Sorts pairs by value: the standard library's sort, with its contract. */
  method SortPairs(s: seq<Pair>) returns (sorted: seq<Pair>)
    ensures SortedByValue(sorted) && multiset(sorted) == multiset(s)
  {
    sorted := [];
    for n := 0 to |s|
      invariant SortedByValue(sorted) && multiset(sorted) == multiset(s[..n])
    {
      assert s[..n + 1] == s[..n] + [s[n]];
      sorted := InsertPair(sorted, s[n]);
    }
    assert s[..|s|] == s;
  }

  lemma PermutationKeepsElements(a: seq<Pair>, b: seq<Pair>)
    requires multiset(a) == multiset(b)
    ensures |a| == |b|
    ensures forall x :: x in a <==> x in b
  {
    assert |a| == |multiset(a)| && |b| == |multiset(b)|;
    assert forall x :: x in a <==> x in multiset(a);
    assert forall x :: x in b <==> x in multiset(b);
  }

  /** A permutation of distinct pairs has distinct pairs. */
  lemma PermutationKeepsDistinct(sorted: seq<Pair>, all: seq<Value>, p: nat, q: nat)
    requires multiset(sorted) == multiset(Positions(all))
    requires p < q < |sorted|
    ensures sorted[p] != sorted[q]
  {
    if sorted[p] == sorted[q] {
      var x := sorted[p];
      assert sorted == sorted[..q] + sorted[q..];
      assert x == sorted[..q][p] && x == sorted[q..][0];
      assert multiset(sorted)[x] >= 2;
      PositionsOnce(all, x);
    }
  }

  lemma {:induction false} PositionsOnce(all: seq<Value>, x: Pair)
    ensures multiset(Positions(all))[x] <= 1
  {
    if all != [] {
      var n := |all| - 1;
      PositionsOnce(all[..n], x);
      assert Positions(all) == Positions(all[..n]) + [(all[n], n)];
      if x == (all[n], n) {
        assert x !in Positions(all[..n]);
      }
    }
  }

  /** The first place where two neighbours of the sorted list share a value, if any. */
  method HasEqualNeighbours(sorted: seq<Pair>) returns (found: bool)
    ensures found <==> exists p :: 0 < p < |sorted| && sorted[p - 1].0 == sorted[p].0
  {
    var p := 1;
    while p < |sorted|
      invariant forall k :: 0 < k < p && k < |sorted| ==> sorted[k - 1].0 != sorted[k].0
    {
      if sorted[p - 1].0 == sorted[p].0 {
        return true;
      }
      p := p + 1;
    }
    return false;
  }

  lemma EqualNeighboursMeanDuplicate(all: seq<Value>, sorted: seq<Pair>)
    requires SortedByValue(sorted) && multiset(sorted) == multiset(Positions(all))
    ensures Distinct(all) <==> forall p :: 0 < p < |sorted| ==> sorted[p - 1].0 != sorted[p].0
  {
    PermutationKeepsElements(sorted, Positions(all));
    if Distinct(all) {
      forall p | 0 < p < |sorted|
        ensures sorted[p - 1].0 != sorted[p].0
      {
        PermutationKeepsDistinct(sorted, all, p - 1, p);
        assert sorted[p - 1] in Positions(all) && sorted[p] in Positions(all);
      }
    } else {
      var i, j :| 0 <= i < j < |all| && all[i] == all[j];
      assert Positions(all)[i] in sorted && Positions(all)[j] in sorted;
      var p :| 0 <= p < |sorted| && sorted[p] == (all[i], i);
      var q :| 0 <= q < |sorted| && sorted[q] == (all[j], j);
      var low := if p < q then p else q;
      assert sorted[low].0 == sorted[low + 1].0;
    }
  }

  lemma PairIsPosition(all: seq<Value>, sorted: seq<Pair>, p: nat)
    requires multiset(sorted) == multiset(Positions(all)) && p < |sorted|
    ensures sorted[p].1 < |all| && all[sorted[p].1] == sorted[p].0
  {
    PermutationKeepsElements(sorted, Positions(all));
    assert sorted[p] in Positions(all);
  }

  /** In sorted order, the next pair is the successor and where it sits. */
  lemma NextInOrderIsSuccessor(all: seq<Value>, sorted: seq<Pair>, p: nat)
    requires Distinct(all) && p < |sorted|
    requires SortedByValue(sorted) && multiset(sorted) == multiset(Positions(all))
    requires p + 1 < |sorted| ==> sorted[p + 1].0 != 0
    ensures sorted[p].1 < |all| && all[sorted[p].1] == sorted[p].0
    ensures LeafOf(all, sorted[p].1)
         == if p + 1 < |sorted| then Leaf(sorted[p].0, sorted[p + 1].0, sorted[p + 1].1) else Leaf(sorted[p].0, 0, 0)
  {
    PermutationKeepsElements(sorted, Positions(all));
    EqualNeighboursMeanDuplicate(all, sorted);
    PairIsPosition(all, sorted, p);
    var v := sorted[p].0;
    SuccessorIsLeastAbove(all, v);
    forall x | x in all && v < x
      ensures p + 1 < |sorted| && sorted[p + 1].0 <= x
    {
      var i :| 0 <= i < |all| && all[i] == x;
      assert Positions(all)[i] in sorted;
      var q :| 0 <= q < |sorted| && sorted[q] == (x, i);
    }
    if p + 1 < |sorted| {
      PairIsPosition(all, sorted, p + 1);
      assert sorted[p].0 < sorted[p + 1].0;
      assert all[sorted[p + 1].1] in all;
      assert Successor(all, v) == sorted[p + 1].0;
      DistinctIndexOf(all, sorted[p + 1].1);
    }
  }

  /** The leaf that the pair at `p` of a sorted list makes: linked to the next pair. */
  function LinkAt(sorted: seq<Pair>, p: nat): Leaf
    requires p < |sorted|
  {
    if p + 1 < |sorted| then Leaf(sorted[p].0, sorted[p + 1].0, sorted[p + 1].1) else Leaf(sorted[p].0, 0, 0)
  }

  /** Every leaf is linked along the sorted list. */
  ghost predicate LinkedAlong(leaves: seq<Leaf>, sorted: seq<Pair>) {
    && |leaves| == |sorted|
    && forall p {:trigger sorted[p]} :: 0 <= p < |sorted| ==>
      sorted[p].1 < |leaves| && leaves[sorted[p].1] == LinkAt(sorted, p)
  }

  lemma PositionsApart(all: seq<Value>, sorted: seq<Pair>, p: nat, q: nat)
    requires multiset(sorted) == multiset(Positions(all)) && p < q < |sorted|
    ensures sorted[p].1 != sorted[q].1
  {
    PairIsPosition(all, sorted, p);
    PairIsPosition(all, sorted, q);
    PermutationKeepsDistinct(sorted, all, p, q);
  }

  lemma PositionListed(all: seq<Value>, sorted: seq<Pair>, i: nat) returns (p: nat)
    requires multiset(sorted) == multiset(Positions(all)) && i < |all|
    ensures p < |sorted| && sorted[p].1 == i
  {
    PermutationKeepsElements(sorted, Positions(all));
    assert Positions(all)[i] in sorted;
    p :| 0 <= p < |sorted| && sorted[p] == (all[i], i);
  }

  /** One list of leaves is linked along a sorted list. */
  lemma LinkedOneWay(all: seq<Value>, sorted: seq<Pair>, a: seq<Leaf>, b: seq<Leaf>)
    requires multiset(sorted) == multiset(Positions(all)) && |a| == |all|
    requires LinkedAlong(a, sorted)
    ensures LinkedAlong(b, sorted) <==> a == b
  {
    PermutationKeepsElements(sorted, Positions(all));
    if LinkedAlong(b, sorted) {
      forall i | 0 <= i < |a|
        ensures a[i] == b[i]
      {
        var p := PositionListed(all, sorted, i);
      }
    }
  }

  /** On distinct values that start at zero, the sorted links are the successor links. */
  lemma LinkedAlongIsLeavesOf(all: seq<Value>, sorted: seq<Pair>)
    requires Distinct(all) && all != [] && all[0] == 0
    requires SortedByValue(sorted) && multiset(sorted) == multiset(Positions(all))
    ensures LinkedAlong(LeavesOf(all), sorted)
  {
    PermutationKeepsElements(sorted, Positions(all));
    forall p | 0 <= p < |sorted|
      ensures sorted[p].1 < |all| && LeavesOf(all)[sorted[p].1] == LinkAt(sorted, p)
    {
      ZeroSortsFirst(all, sorted, p);
      NextInOrderIsSuccessor(all, sorted, p);
    }
  }

  /** Rebuilds every leaf from the sorted order instead of trusting stored links. */
  method RelinkedLeaves(all: seq<Value>, sorted: seq<Pair>) returns (rebuilt: seq<Leaf>)
    requires SortedByValue(sorted) && multiset(sorted) == multiset(Positions(all))
    ensures |rebuilt| == |all| && LinkedAlong(rebuilt, sorted)
    ensures Distinct(all) && all != [] && all[0] == 0 ==> rebuilt == LeavesOf(all)
  {
    PermutationKeepsElements(sorted, Positions(all));
    rebuilt := seq(|all|, _ => SENTINEL);
    for p := 0 to |sorted|
      invariant |rebuilt| == |all|
      invariant forall k {:trigger sorted[k]} :: 0 <= k < p ==>
        sorted[k].1 < |all| && rebuilt[sorted[k].1] == LinkAt(sorted, k)
    {
      PairIsPosition(all, sorted, p);
      forall k | 0 <= k < p
        ensures sorted[k].1 != sorted[p].1
      {
        PositionsApart(all, sorted, k, p);
      }
      var (value, index) := sorted[p];
      var (nextValue, nextIndex) := if p + 1 < |sorted| then sorted[p + 1] else (0, 0);
      rebuilt := rebuilt[index := Leaf(value, nextValue, nextIndex)];
    }
    if Distinct(all) && all != [] && all[0] == 0 {
      LinkedAlongIsLeavesOf(all, sorted);
      LinkedOneWay(all, sorted, LeavesOf(all), rebuilt);
    }
  }

  lemma ZeroSortsFirst(all: seq<Value>, sorted: seq<Pair>, p: nat)
    requires Distinct(all) && all != [] && all[0] == 0
    requires SortedByValue(sorted) && multiset(sorted) == multiset(Positions(all))
    ensures p + 1 < |sorted| ==> sorted[p + 1].0 != 0
  {
    EqualNeighboursMeanDuplicate(all, sorted);
    if p + 1 < |sorted| {
      assert sorted[p].0 < sorted[p + 1].0;
    }
  }

  /** Whether replaying `values` in order into an empty tree succeeds throughout. */
  predicate ReplayAccepts(depth: nat, values: seq<Value>) {
    ValidDepth(depth)
    && forall k :: 0 <= k < |values| ==> Insertable(depth, [0] + values[..k], values[k])
  }

  /** Replay accepts exactly the histories that fit. */
  lemma {:induction false} ReplayAcceptsHistories(depth: nat, values: seq<Value>)
    requires ValidDepth(depth)
    ensures ReplayAccepts(depth, values) <==> History([0] + values) && |values| + 1 <= Pow2(depth)
  {
    var all := [0] + values;
    if ReplayAccepts(depth, values) {
      forall i, j | 0 <= i < j < |all|
        ensures all[i] != all[j]
      {
        assert all[i] == ([0] + values[..j - 1])[i];
      }
      if values != [] {
        var k := |values| - 1;
        assert Insertable(depth, [0] + values[..k], values[k]);
      }
    } else {
      var k :| 0 <= k < |values| && !Insertable(depth, [0] + values[..k], values[k]);
      assert all[k + 1] == values[k];
      assert forall i :: 0 <= i <= k ==> all[i] == ([0] + values[..k])[i];
    }
  }

  lemma InsertOkExactly(pool: PoolId, depth: nat, all: seq<Value>, v: Value)
    requires History(all) && ValidDepth(depth)
    ensures InsertResult(pool, depth, all, v).Ok? <==> Insertable(depth, all, v)
  {
  }

  /** A tree grown value by value. */
  method FromValues(pool: PoolId, depth: nat, values: seq<Value>) returns (r: Result<IndexedMerkleTree, ImtError>)
    ensures r.Ok? <==> ReplayAccepts(depth, values)
    ensures r.Ok? ==> fresh(r.value) && r.value.Valid() && r.value.pool == pool && r.value.depth == depth
    ensures r.Ok? ==> r.value.Values() == [0] + values
    ensures r.Err? ==>
      if ValidDepth(depth) then ReplayCause(pool, depth, values, r.error) else r.error == InvalidDepth(depth)
  {
    if !ValidDepth(depth) {
      return Err(InvalidDepth(depth));
    }
    var tree := new IndexedMerkleTree.WithDepth(pool, depth);
    var inserted := InsertEach(tree, values);
    if inserted.Err? {
      return Err(inserted.error);
    }
    r := Ok(tree);
  }

  lemma ReplayStops(depth: nat, values: seq<Value>, k: nat)
    requires k < |values| && !Insertable(depth, [0] + values[..k], values[k])
    ensures !ReplayAccepts(depth, values)
  {
  }

  lemma FullReplayAccepted(tree: IndexedMerkleTree, values: seq<Value>)
    requires tree.Valid() && tree.Values() == [0] + values[..|values|]
    ensures ReplayAccepts(tree.depth, values) && tree.Values() == [0] + values
  {
    assert values[..|values|] == values;
    ReplayAcceptsHistories(tree.depth, values);
  }

  /** The tree that holds the values before position `k` refuses the one there for this reason. */
  ghost predicate RefusedAt(pool: PoolId, depth: nat, values: seq<Value>, k: nat, e: ImtError) {
    && k < |values| && History([0] + values[..k])
    && InsertResult(pool, depth, [0] + values[..k], values[k]) == Err(e)
  }

  /** Why replay refuses a list: what the tree said of the first value it would not take. */
  ghost predicate ReplayCause(pool: PoolId, depth: nat, values: seq<Value>, e: ImtError) {
    exists k: nat {:trigger RefusedAt(pool, depth, values, k, e)} :: RefusedAt(pool, depth, values, k, e)
  }

  /** Inserts `values` in order, stopping at the first refusal. */
  method InsertEach(tree: IndexedMerkleTree, values: seq<Value>) returns (r: Result<(), ImtError>)
    requires tree.Valid() && tree.Values() == [0]
    modifies tree
    ensures tree.Valid()
    ensures r.Ok? <==> ReplayAccepts(tree.depth, values)
    ensures r.Ok? ==> tree.Values() == [0] + values
    ensures r.Err? ==> ReplayCause(tree.pool, tree.depth, values, r.error)
  {
    hide ReplayAccepts, IndexedMerkleTree.Valid, IndexedMerkleTree.Values, History, Insertable, InsertResult;
    assert [0] + values[..0] == [0];
    for k := 0 to |values|
      invariant tree.Valid() && tree.Values() == [0] + values[..k]
    {
      ghost var all := tree.Values();
      tree.HoldsHistory();
      InsertOkExactly(tree.pool, tree.depth, all, values[k]);
      var inserted := tree.Insert(values[k]);
      if inserted.Err? {
        ReplayStops(tree.depth, values, k);
        assert RefusedAt(tree.pool, tree.depth, values, k, inserted.error);
        return Err(inserted.error);
      }
      assert [0] + values[..k + 1] == all + [values[k]];
    }
    tree.HoldsHistory();
    FullReplayAccepted(tree, values);
    r := Ok(());
  }

  function DivCeil(n: nat, p: nat): nat
    requires n > 0 && p > 0
  {
    Quotient(n + p - 1, p)
  }

  /** The number of nodes above a dense prefix of `n` leaves. */
  lemma SpanIsLastAncestor(n: nat, level: nat)
    requires n > 0
    ensures DivCeil(n, Pow2(level)) == Ancestor(n - 1, level) + 1
  {
    AncestorIsDiv(n - 1, level);
    CeilingIsNext(n, Ancestor(n - 1, level), Pow2(level));
  }

  lemma CeilingIsNext(n: nat, a: nat, p: nat)
    requires n > 0 && a * p <= n - 1 < a * p + p
    ensures Quotient(n + p - 1, p) == a + 1
  {
    assert (a + 1) * p == a * p + p;
    QuotientUnique(n + p - 1, Quotient(n + p - 1, p), a + 1, p);
  }

  /** Level `l` holds at most the spine entry left by an empty tree. */
  ghost predicate OnlySpine(nodes: Nodes, l: nat) {
    forall i: nat {:trigger (l, i) in nodes} :: (l, i) in nodes ==> i == 0
  }

  /** Why the bottom-up build refuses a list: the first of its checks that fails. */
  predicate BulkCause(depth: nat, values: seq<Value>, e: ImtError) {
    e ==
      if !ValidDepth(depth) then InvalidDepth(depth)
      else if |values| >= Pow2(depth) then CapacityExhausted(depth, Pow2(depth))
      else if 0 in values then ReservedValue
      else DuplicateValue
  }

  /**
   * Builds the whole tree bottom-up. It accepts exactly what replay accepts
   * and yields the same leaves, value index and node map.
   */
  method FromValuesBulk(pool: PoolId, depth: nat, values: seq<Value>) returns (r: Result<IndexedMerkleTree, ImtError>)
    ensures r.Ok? <==> ReplayAccepts(depth, values)
    ensures r.Ok? ==> fresh(r.value) && r.value.Valid() && r.value.pool == pool && r.value.depth == depth
    ensures r.Ok? ==> r.value.Values() == [0] + values
    ensures r.Err? ==> BulkCause(depth, values, r.error)
  {
    if !ValidDepth(depth) {
      return Err(InvalidDepth(depth));
    }
    ReplayAcceptsHistories(depth, values);
    var tree := new IndexedMerkleTree.WithDepth(pool, depth);
    if |values| + 1 > tree.Capacity() {
      return Err(CapacityExhausted(depth, tree.Capacity()));
    }
    if values == [] {
      return Ok(tree);
    }
    var all := [0] + values;
    for k := 0 to |values|
      invariant forall i :: 0 <= i < k ==> values[i] != 0
    {
      if values[k] == 0 {
        assert all[0] == all[k + 1];
        return Err(ReservedValue);
      }
    }
    var sorted := SortPairs(Positions(all));
    var duplicate := HasEqualNeighbours(sorted);
    EqualNeighboursMeanDuplicate(all, sorted);
    if duplicate {
      return Err(DuplicateValue);
    }
    var leaves := RelinkedLeaves(all, sorted);
    Install(tree, all, leaves);
    r := Ok(tree);
  }

  /** Fills a fresh tree's three structures from the finished leaves. */
  method Install(tree: IndexedMerkleTree, all: seq<Value>, leaves: seq<Leaf>)
    requires tree.Valid() && tree.Values() == [0]
    requires History(all) && Fits(tree.depth, all) && leaves == LeavesOf(all)
    modifies tree
    ensures tree.Valid() && tree.Values() == all
  {
    FillLeafLevel(tree, all, leaves);
    tree.leaves := leaves;
    ValuesOfLeaves(all);
    for level := 0 to tree.depth
      modifies tree`nodes
      invariant forall k: (nat, nat) :: k in tree.nodes ==> k.0 <= tree.depth
      invariant forall l: nat :: l <= level ==> LevelMatches(tree.pool, tree.nodes, tree.leaves, l)
      invariant forall l: nat :: level < l <= tree.depth ==> OnlySpine(tree.nodes, l)
    {
      FoldLevel(tree, level);
    }
  }

  /** Level 0 and the value index, in one pass over the leaves. */
  method FillLeafLevel(tree: IndexedMerkleTree, all: seq<Value>, leaves: seq<Leaf>)
    requires tree.Valid() && tree.Values() == [0]
    requires History(all) && Fits(tree.depth, all) && leaves == LeavesOf(all)
    modifies tree`nodes, tree`indexByValue
    ensures IndexMatches(tree.indexByValue, all)
    ensures forall k: (nat, nat) :: k in tree.nodes ==> k.0 <= tree.depth
    ensures LevelMatches(tree.pool, tree.nodes, leaves, 0)
    ensures forall l: nat :: 0 < l <= tree.depth ==> OnlySpine(tree.nodes, l)
  {
    FreshSpine(tree);
    assert OnlySpine(tree.nodes, 0);
    hide IndexedMerkleTree.Valid, IndexedMerkleTree.Values, OnlySpine, LevelMatches, LeavesOf, History;
    for index := 0 to |leaves|
      modifies tree`nodes, tree`indexByValue
      invariant IndexedTo(tree.indexByValue, all, index)
      invariant LeavesFilledTo(tree.pool, tree.nodes, leaves, index)
      invariant forall k: (nat, nat) :: k in tree.nodes ==> k.0 <= tree.depth
      invariant forall l: nat :: 0 < l <= tree.depth ==> OnlySpine(tree.nodes, l)
    {
      ghost var before := tree.nodes;
      tree.nodes := tree.nodes[(0, index) := LeafDigest(tree.pool, leaves[index])];
      SpineFrame(before, tree.nodes, (0, index), tree.depth);
      LeavesFilledStep(tree.pool, before, leaves, index);
      hide LeavesFilledTo;
      IndexedToStep(tree.indexByValue, all, index);
      if index > 0 {
        tree.indexByValue := tree.indexByValue[leaves[index].value := index];
      }
    }
    LeavesFilled(tree.pool, tree.nodes, leaves);
    AllIndexed(tree.indexByValue, all);
  }

  lemma AllIndexed(index: map<Value, nat>, all: seq<Value>)
    requires History(all) && IndexedTo(index, all, |all|)
    ensures IndexMatches(index, all)
  {
    assert all[..|all|] == all;
    assert all[0] in all;
  }

  /** Above the leaves a new tree holds one node a level. */
  lemma FreshSpine(tree: IndexedMerkleTree)
    requires tree.Valid() && tree.Values() == [0]
    ensures forall l: nat :: l <= tree.depth ==> OnlySpine(tree.nodes, l)
    ensures forall k: (nat, nat) :: k in tree.nodes ==> k.0 <= tree.depth
  {
    forall l: nat | l <= tree.depth
      ensures OnlySpine(tree.nodes, l)
    {
      assert LevelMatches(tree.pool, tree.nodes, tree.leaves, l);
      AncestorOfZero(l);
    }
  }

  /** The value index once the first `n` leaves were entered; the sentinel is always there. */
  ghost predicate IndexedTo(index: map<Value, nat>, all: seq<Value>, n: nat)
    requires n <= |all|
  {
    && (forall v :: v in index <==> v == 0 || v in all[..n])
    && (forall v :: v in index ==> index[v] == IndexOf(all, v))
  }

  lemma IndexedToStep(index: map<Value, nat>, all: seq<Value>, n: nat)
    requires History(all) && n < |all| && IndexedTo(index, all, n)
    ensures IndexedTo(if n > 0 then index[all[n] := n] else index, all, n + 1)
  {
    DistinctIndexOf(all, n);
    assert all[..n + 1] == all[..n] + [all[n]];
  }

  ghost predicate LeavesFilledTo(pool: PoolId, nodes: Nodes, leaves: seq<Leaf>, n: nat)
    requires n <= |leaves|
  {
    && (forall i: nat {:trigger (0, i) in nodes} :: (0, i) in nodes ==> i < |leaves|)
    && (forall i: nat {:trigger (0, i) in nodes} :: i < n ==>
      (0, i) in nodes && nodes[(0, i)] == LeafDigest(pool, leaves[i]))
  }

  lemma LeavesFilledStep(pool: PoolId, before: Nodes, leaves: seq<Leaf>, n: nat)
    requires n < |leaves| && LeavesFilledTo(pool, before, leaves, n)
    ensures LeavesFilledTo(pool, before[(0, n) := LeafDigest(pool, leaves[n])], leaves, n + 1)
  {
  }

  lemma LeavesFilled(pool: PoolId, nodes: Nodes, leaves: seq<Leaf>)
    requires LeavesFilledTo(pool, nodes, leaves, |leaves|)
    ensures LevelMatches(pool, nodes, leaves, 0)
  {
  }

  lemma DistinctIndexOf(all: seq<Value>, i: nat)
    requires Distinct(all) && i < |all|
    ensures IndexOf(all, all[i]) == i
  {
  }

  lemma SpineFrame(a: Nodes, b: Nodes, i: (nat, nat), depth: nat)
    requires forall l: nat :: 0 < l <= depth ==> OnlySpine(a, l)
    requires i in b && i.0 == 0 && b == a[i := b[i]]
    ensures forall l: nat :: 0 < l <= depth ==> OnlySpine(b, l)
  {
    forall l: nat | 0 < l <= depth
      ensures OnlySpine(b, l)
    {
      forall j: nat | (l, j) in b
        ensures j == 0
      {
        assert (l, j) in a;
        assert OnlySpine(a, l);
      }
    }
  }

  /** Folds one level into the next over the dense prefix. */
  method FoldLevel(tree: IndexedMerkleTree, level: nat)
    requires level < tree.depth && ValidDepth(tree.depth) && |tree.leaves| > 0
    requires LadderMatches(tree.pool, tree.depth, tree.zeros)
    requires forall k: (nat, nat) :: k in tree.nodes ==> k.0 <= tree.depth
    requires forall l: nat :: l <= level ==> LevelMatches(tree.pool, tree.nodes, tree.leaves, l)
    requires forall l: nat :: level < l <= tree.depth ==> OnlySpine(tree.nodes, l)
    modifies tree`nodes
    ensures forall k: (nat, nat) :: k in tree.nodes ==> k.0 <= tree.depth
    ensures forall l: nat :: l <= level + 1 ==> LevelMatches(tree.pool, tree.nodes, tree.leaves, l)
    ensures forall l: nat :: level + 1 < l <= tree.depth ==> OnlySpine(tree.nodes, l)
  {
    ghost var before := tree.nodes;
    ghost var pool := tree.pool;
    var occupied := tree.LeafCount();
    var span := DivCeil(occupied, Pow2(level + 1));
    if span < 1 {
      span := 1;
    }
    SpanIsLastAncestor(occupied, level + 1);
    assert OnlySpine(before, level + 1);
    for parent := 0 to span
      modifies tree`nodes
      invariant forall k: (nat, nat) :: k in tree.nodes ==> k.0 <= tree.depth
      invariant forall l: nat :: l != level + 1 ==> SameLevel(before, tree.nodes, l)
      invariant forall i: nat {:trigger (level + 1, i) in tree.nodes} :: (level + 1, i) in tree.nodes ==>
        i == 0 || i < parent
      invariant forall i: nat {:trigger (level + 1, i) in tree.nodes} :: i < parent ==>
        (level + 1, i) in tree.nodes && tree.nodes[(level + 1, i)] == Subtree(pool, tree.leaves, level + 1, i)
    {
      LevelFrame(pool, before, tree.nodes, tree.leaves, level);
      ReadNode(pool, tree.nodes, tree.leaves, level, 2 * parent);
      ReadNode(pool, tree.nodes, tree.leaves, level, 2 * parent + 1);
      var left := tree.NodeAt(level, parent * 2);
      var right := tree.NodeAt(level, parent * 2 + 1);
      ghost var previous := tree.nodes;
      tree.nodes := tree.nodes[(level + 1, parent) := Node(tree.pool, left, right)];
      SetKeepsOtherLevels(before, previous, tree.nodes, (level + 1, parent));
    }
    forall l: nat | l <= level
      ensures LevelMatches(pool, tree.nodes, tree.leaves, l)
    {
      LevelFrame(pool, before, tree.nodes, tree.leaves, l);
    }
    forall l: nat | level + 1 < l <= tree.depth
      ensures OnlySpine(tree.nodes, l)
    {
      assert SameLevel(before, tree.nodes, l);
      assert OnlySpine(before, l);
    }
  }

  /** Level `height` of the dense prefix, one digest a node. */
  ghost predicate DenseLevel(pool: PoolId, leaves: seq<Leaf>, height: nat, level: seq<Hash>) {
    && |leaves| > 0
    && |level| == Ancestor(|leaves| - 1, height) + 1
    && forall i :: 0 <= i < |level| ==> level[i] == Subtree(pool, leaves, height, i)
  }

  /** Pairs up one dense level, filling a missing right neighbour with the empty digest. */
  method PairUp(pool: PoolId, ghost leaves: seq<Leaf>, height: nat, level: seq<Hash>,
          filler: Hash) returns (parents: seq<Hash>)
    requires DenseLevel(pool, leaves, height, level) && filler == Zero(pool, height)
    ensures DenseLevel(pool, leaves, height + 1, parents)
  {
    parents := [];
    var at := 0;
    while at < |level|
      invariant at == 2 * |parents|
      invariant |parents| <= (|level| + 1) / 2
      invariant forall i :: 0 <= i < |parents| ==> parents[i] == Subtree(pool, leaves, height + 1, i)
    {
      if at + 1 >= |level| {
        EmptyExactlyUnoccupied(pool, leaves, height, at + 1);
      }
      var right := if at + 1 < |level| then level[at + 1] else filler;
      parents := parents + [Node(pool, level[at], right)];
      at := at + 2;
    }
  }

  /**
   * Recomputes the root from the stored values alone, by sorting them and
   * folding the dense prefix, whatever values and links the tree stores. Equal
   * values may come in any order.
   */
  method RebuildRoot(tree: IndexedMerkleTree) returns (root: Hash, ghost sorted: seq<Pair>, ghost rebuilt: seq<Leaf>)
    requires tree.Cached()
    ensures SortedByValue(sorted) && multiset(sorted) == multiset(Positions(tree.Values()))
    ensures |rebuilt| == |tree.leaves| && LinkedAlong(rebuilt, sorted)
    ensures root == Subtree(tree.pool, rebuilt, tree.depth, 0)
    ensures History(tree.Values()) ==> rebuilt == LeavesOf(tree.Values())
  {
    var all := ValuesOf(tree.leaves);
    var pairs := SortPairs(Positions(all));
    var relinked := RelinkedLeaves(all, pairs);
    sorted, rebuilt := pairs, relinked;
    var level := seq(|relinked|, i requires 0 <= i < |relinked| => LeafDigest(tree.pool, relinked[i]));
    var height := 0;
    AncestorZero(|rebuilt| - 1, tree.depth);
    while height < tree.depth
      invariant height <= tree.depth
      invariant DenseLevel(tree.pool, rebuilt, height, level)
    {
      if |level| == 1 {
        root := level[0];
        for remaining := height to tree.depth
          invariant root == Subtree(tree.pool, rebuilt, remaining, 0)
          invariant Ancestor(|rebuilt| - 1, remaining) == 0
        {
          EmptyExactlyUnoccupied(tree.pool, rebuilt, remaining, 1);
          root := Node(tree.pool, root, tree.ZeroAt(remaining));
        }
        return;
      }
      level := PairUp(tree.pool, rebuilt, height, level, tree.ZeroAt(height));
      height := height + 1;
    }
    root := level[0];
  }

  /**
   * What the comparison with `RebuildRoot` catches: on a tree whose cached
   * nodes match its stored leaves, the two roots agree exactly when every
   * stored link is the one the sort gives. For a history these are the
   * successor links; and linked that way, values repeat exactly when some leaf
   * before the last links to its own value.
   */
  lemma RebuildAgreesExactly(tree: IndexedMerkleTree, sorted: seq<Pair>, rebuilt: seq<Leaf>)
    requires tree.Cached() && SortedByValue(sorted) && multiset(sorted) == multiset(Positions(tree.Values()))
    requires |rebuilt| == |tree.leaves| && LinkedAlong(rebuilt, sorted)
    ensures tree.Root() == Subtree(tree.pool, rebuilt, tree.depth, 0) <==> LinkedAlong(tree.leaves, sorted)
    ensures History(tree.Values()) ==> (LinkedAlong(tree.leaves, sorted) <==> tree.leaves == LeavesOf(tree.Values()))
    ensures LinkedAlong(tree.leaves, sorted) ==>
      (Distinct(tree.Values()) <==>
        forall p {:trigger LinkAt(sorted, p)} :: 0 <= p < |sorted| - 1 ==>
          LinkAt(sorted, p).nextValue != LinkAt(sorted, p).value)
  {
    var all := tree.Values();
    tree.NodeIsSubtree(tree.depth, 0);
    LinkedOneWay(all, sorted, rebuilt, tree.leaves);
    if tree.Root() == Subtree(tree.pool, rebuilt, tree.depth, 0) {
      RootBinds(tree.pool, tree.leaves, rebuilt, tree.depth);
    }
    if History(all) {
      LinkedAlongIsLeavesOf(all, sorted);
      LinkedOneWay(all, sorted, LeavesOf(all), tree.leaves);
    }
    EqualNeighboursMeanDuplicate(all, sorted);
    EqualNeighboursSelfLink(sorted);
  }

  /** Two neighbours share a value exactly when the first links to its own. */
  lemma EqualNeighboursSelfLink(sorted: seq<Pair>)
    ensures (forall p :: 0 < p < |sorted| ==> sorted[p - 1].0 != sorted[p].0) <==>
      forall p {:trigger LinkAt(sorted, p)} :: 0 <= p < |sorted| - 1 ==>
        LinkAt(sorted, p).nextValue != LinkAt(sorted, p).value
  {
    if p :| 0 < p < |sorted| && sorted[p - 1].0 == sorted[p].0 {
      assert LinkAt(sorted, p - 1).nextValue == LinkAt(sorted, p - 1).value;
    } else {
      forall p | 0 <= p < |sorted| - 1
        ensures LinkAt(sorted, p).nextValue != LinkAt(sorted, p).value
      {
        var q := p + 1;
        assert sorted[q - 1].0 != sorted[q].0;
      }
    }
  }
}
