// The links between leaves as a function of the insertion-ordered values
// alone: followed from the sentinel they ascend.
//
// A nullifier set is a sequence `all`: the sentinel 0 at position 0, then the
// inserted values in insertion order. `LeavesOf(all)` derives every successor
// link from scratch by searching `all`, which is what the naive model does.
module LinkedSet {
  import opened Hashing

  ghost predicate Distinct(s: seq<Value>) {
    forall i, j :: 0 <= i < j < |s| ==> s[i] != s[j]
  }

  /** A reachable insertion history: the sentinel first and nothing twice. */
  ghost predicate History(all: seq<Value>) {
    |all| > 0 && all[0] == 0 && Distinct(all)
  }

  /** The smallest element of `all` above `v`, or 0 when there is none. */
  function Successor(all: seq<Value>, v: Value): Value {
    if all == [] then 0
    else
      var x, r := all[|all| - 1], Successor(all[..|all| - 1], v);
      if v < x && (r == 0 || x < r) then x else r
  }

  /** The position of `x` in `all`; its length when absent. */
  function IndexOf(all: seq<Value>, x: Value): (i: nat)
    ensures i <= |all|
    ensures i < |all| ==> all[i] == x && x !in all[..i]
    ensures i == |all| <==> x !in all
  {
    if all == [] then 0
    else
      var n := |all| - 1;
      var i := IndexOf(all[..n], x);
      assert all == all[..n] + [all[n]];
      if i < n then (assert all[..n][..i] == all[..i]; i) else if all[n] == x then n else n + 1
  }

  /** A history holds each value at one position only. */
  lemma OnlyPosition(all: seq<Value>, v: Value)
    requires Distinct(all) && v in all
    ensures forall i: nat {:trigger all[i]} :: i < |all| && all[i] == v <==> i == IndexOf(all, v)
  {
  }

  /** The leaf that holds the value at position `i`, links derived from scratch. */
  function LeafOf(all: seq<Value>, i: nat): Leaf
    requires i < |all|
  {
    var next := Successor(all, all[i]);
    Leaf(all[i], next, if next == 0 then 0 else IndexOf(all, next))
  }

  function LeavesOf(all: seq<Value>): (leaves: seq<Leaf>)
    ensures |leaves| == |all|
  {
    seq(|all|, i requires 0 <= i < |all| => LeafOf(all, i))
  }

  /** `Successor` is the least strictly greater element. */
  lemma {:induction false} SuccessorIsLeastAbove(all: seq<Value>, v: Value)
    ensures var s := Successor(all, v);
      && (s != 0 ==> s in all && v < s)
      && (forall x :: x in all && v < x ==> s != 0 && s <= x)
  {
    if all != [] {
      var n := |all| - 1;
      SuccessorIsLeastAbove(all[..n], v);
      assert all == all[..n] + [all[n]];
    }
  }

  /** The greatest element of `all` strictly below `v`, or 0. */
  function Predecessor(all: seq<Value>, v: Value): Value {
    if all == [] then 0
    else
      var x, r := all[|all| - 1], Predecessor(all[..|all| - 1], v);
      if x < v && r < x then x else r
  }

  lemma {:induction false} PredecessorIsGreatestBelow(all: seq<Value>, v: Value)
    ensures var p := Predecessor(all, v);
      && (p != 0 ==> p in all && p < v)
      && (forall x :: x in all && x < v ==> x <= p)
  {
    if all != [] {
      var n := |all| - 1;
      PredecessorIsGreatestBelow(all[..n], v);
      assert all == all[..n] + [all[n]];
    }
  }

  /** The position of the leaf that brackets an absent value. */
  function LowIndex(all: seq<Value>, v: Value): nat {
    IndexOf(all, Predecessor(all, v))
  }

  lemma LowIndexInRange(all: seq<Value>, v: Value)
    requires History(all)
    ensures LowIndex(all, v) < |all|
    ensures all[LowIndex(all, v)] == Predecessor(all, v)
  {
    PredecessorIsGreatestBelow(all, v);
    assert all[0] in all;
  }

  /**
   * A leaf of the list brackets `v` exactly when `v` is absent and the leaf
   * holds the greatest value below it, so one leaf settles absence.
   */
  lemma CoversExactlyPredecessor(all: seq<Value>, i: nat, v: Value)
    requires History(all) && i < |all|
    ensures LeafOf(all, i).Covers(v) <==> v != 0 && v !in all && i == LowIndex(all, v)
  {
    SuccessorIsLeastAbove(all, all[i]);
    PredecessorIsGreatestBelow(all, v);
    LowIndexInRange(all, v);
    var low := LowIndex(all, v);
    assert all[i] in all && all[low] in all && all[0] in all;
    var s := Successor(all, all[i]);
    if LeafOf(all, i).Covers(v) {
      assert v !in all;
      assert all[i] == all[low];
    }
  }

  function WithSuccessor(leaf: Leaf, v: Value, index: nat): Leaf {
    Leaf(leaf.value, v, index)
  }

  lemma IndexOfAppend(all: seq<Value>, v: Value, x: Value)
    requires v !in all
    ensures IndexOf(all + [v], x) == if x in all then IndexOf(all, x) else if x == v then |all| else |all| + 1
  {
    assert (all + [v])[..|all|] == all;
  }

  /**
   * Splicing is exact: appending an absent value rewrites only its low leaf, to
   * point at the appended one, which points where the low leaf did.
   */
  lemma SpliceIsExact(all: seq<Value>, v: Value)
    requires History(all) && v != 0 && v !in all
    ensures History(all + [v])
    ensures LowIndex(all, v) < |all|
    ensures var low := LowIndex(all, v);
      var lowLeaf := LeafOf(all, low);
      LeavesOf(all + [v]) == LeavesOf(all)[low := WithSuccessor(lowLeaf, v, |all|)] +
        [Leaf(v, lowLeaf.nextValue, lowLeaf.nextIndex)]
  {
    LowIndexInRange(all, v);
    var low := LowIndex(all, v);
    var grown := all + [v];
    forall i | 0 <= i < |all|
      ensures LeafOf(grown, i) == if i == low then WithSuccessor(LeafOf(all, low), v, |all|) else LeafOf(all, i)
    {
      SpliceLeaf(all, v, i);
    }
    SpliceNewLeaf(all, v);
  }

  lemma SpliceLeaf(all: seq<Value>, v: Value, i: nat)
    requires History(all) && v != 0 && v !in all && i < |all|
    ensures LeafOf(all + [v], i)
      == if i == LowIndex(all, v) then WithSuccessor(LeafOf(all, i), v, |all|) else LeafOf(all, i)
  {
    var grown := all + [v];
    assert grown[..|all|] == all && grown[i] == all[i];
    CoversExactlyPredecessor(all, i, v);
    SuccessorIsLeastAbove(all, all[i]);
    IndexOfAppend(all, v, Successor(grown, all[i]));
  }

  lemma SpliceNewLeaf(all: seq<Value>, v: Value)
    requires History(all) && v != 0 && v !in all
    ensures LowIndex(all, v) < |all|
    ensures var lowLeaf := LeafOf(all, LowIndex(all, v));
      LeafOf(all + [v], |all|) == Leaf(v, lowLeaf.nextValue, lowLeaf.nextIndex)
  {
    LowIndexInRange(all, v);
    var low := LowIndex(all, v);
    var grown := all + [v];
    assert grown[..|all|] == all && grown[|all|] == v;
    CoversExactlyPredecessor(all, low, v);
    SuccessorIsLeastAbove(all, all[low]);
    SuccessorIsLeastAbove(all, v);
    assert Successor(all, v) == Successor(all, all[low]);
    IndexOfAppend(all, v, Successor(all, v));
  }

  /** The values reached by following `nextIndex` from leaf `i`, at most `fuel` of them. */
  function Walk(leaves: seq<Leaf>, i: nat, fuel: nat): seq<Value>
    decreases fuel
  {
    if fuel == 0 || i >= |leaves| then []
    else
      var leaf := leaves[i];
      if leaf.nextValue == 0 then [leaf.value] else [leaf.value] + Walk(leaves, leaf.nextIndex, fuel - 1)
  }

  ghost predicate Ascending(s: seq<Value>) {
    forall i, j :: 0 <= i < j < |s| ==> s[i] < s[j]
  }

  ghost function Elements(s: seq<Value>): set<Value> {
    set x | x in s
  }

  ghost function From(all: seq<Value>, v: Value): set<Value> {
    set x | x in all && v <= x
  }

  /** `w` lists the set `s` once, in ascending order. */
  ghost predicate Lists(w: seq<Value>, s: set<Value>) {
    Ascending(w) && Elements(w) == s && |w| == |s|
  }

  /** `Walk` by value instead of by position. */
  ghost function Follow(all: seq<Value>, v: Value, fuel: nat): seq<Value>
    decreases fuel
  {
    if fuel == 0 then []
    else if Successor(all, v) == 0 then [v]
    else [v] + Follow(all, Successor(all, v), fuel - 1)
  }

  lemma WalkStep(all: seq<Value>, leaves: seq<Leaf>, i: nat, fuel: nat, v: Value, next: Value)
    requires leaves == LeavesOf(all) && i < |all| && fuel > 0
    requires v == all[i] && next == Successor(all, v)
    ensures next != 0 ==> next in all
    ensures Walk(leaves, i, fuel) == if next == 0 then [v] else [v] + Walk(leaves, IndexOf(all, next), fuel - 1)
  {
    SuccessorIsLeastAbove(all, v);
    assert leaves[i] == LeafOf(all, i);
  }

  lemma {:induction false} WalkIsFollow(all: seq<Value>, leaves: seq<Leaf>, i: nat, fuel: nat, v: Value)
    requires leaves == LeavesOf(all) && i < |all| && v == all[i]
    ensures Walk(leaves, i, fuel) == Follow(all, v, fuel)
    decreases fuel
  {
    if fuel > 0 {
      var next := Successor(all, v);
      WalkStep(all, leaves, i, fuel, v, next);
      if next != 0 {
        WalkIsFollow(all, leaves, IndexOf(all, next), fuel - 1, next);
      }
    }
  }

  lemma {:induction false} FollowLists(all: seq<Value>, v: Value, fuel: nat)
    requires v in all
    requires fuel >= |From(all, v)|
    ensures Lists(Follow(all, v, fuel), From(all, v))
    decreases fuel
  {
    var next := Successor(all, v);
    FromSuccessor(all, v);
    if next == 0 {
      SingletonLists(v);
    } else {
      FollowLists(all, next, fuel - 1);
      PrependLists(v, Follow(all, next, fuel - 1), From(all, next));
    }
  }

  lemma SingletonLists(v: Value)
    ensures Lists([v], {v})
  {
  }

  lemma FromSuccessor(all: seq<Value>, v: Value)
    requires v in all
    ensures |From(all, v)| > 0
    ensures var next := Successor(all, v);
      if next == 0 then From(all, v) == {v}
      else
        && next in all && v < next
        && From(all, v) == {v} + From(all, next)
        && |From(all, v)| == |From(all, next)| + 1
  {
    SuccessorIsLeastAbove(all, v);
    var next, here := Successor(all, v), From(all, v);
    assert v in here;
    if next == 0 {
      assert here == {v};
    } else {
      var above := From(all, next);
      assert here == {v} + above;
      assert v !in above;
    }
  }

  lemma PrependLists(v: Value, rest: seq<Value>, s: set<Value>)
    requires Lists(rest, s)
    requires forall x :: x in s ==> v < x
    ensures Lists([v] + rest, {v} + s)
  {
    forall k | 0 <= k < |rest|
      ensures v < rest[k]
    {
      assert rest[k] in Elements(rest);
    }
  }

  /** Following the links from the sentinel lists the whole set once, in ascending order. */
  lemma WalkListsTheSet(all: seq<Value>)
    requires History(all)
    ensures Lists(Walk(LeavesOf(all), 0, |all|), Elements(all))
  {
    assert From(all, 0) == Elements(all);
    DistinctCardinality(all);
    WalkIsFollow(all, LeavesOf(all), 0, |all|, 0);
    FollowLists(all, 0, |all|);
  }

  lemma {:induction false} DistinctCardinality(s: seq<Value>)
    requires Distinct(s)
    ensures |Elements(s)| == |s|
  {
    if s != [] {
      var n := |s| - 1;
      DistinctCardinality(s[..n]);
      assert s == s[..n] + [s[n]];
      assert Elements(s) == Elements(s[..n]) + {s[n]};
    }
  }
}
