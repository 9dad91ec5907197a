// The reference model of one nullifier set, which keeps values only: each root
// links and hashes everything anew.
module Naive {
  import opened Wrappers
  import opened Arith
  import opened Hashing
  import opened Merkle
  import opened LinkedSet
  import opened ImtProofs
  import opened Imt

  const MAX_NAIVE_DEPTH: nat := 16

  datatype NaiveError = BadDepth(depth: nat) | Duplicate | Reserved | Full

  class NaiveImt {
    const pool: PoolId
    const depth: nat
    var order: seq<Value>
    var sorted: set<Value>

    ghost function Values(): seq<Value>
      reads this
    {
      [0] + order
    }

    ghost predicate Valid()
      reads this
    {
      && 0 < depth <= MAX_NAIVE_DEPTH
      && History(Values())
      && |Values()| <= Pow2(depth)
      && sorted == Elements(order)
    }

    static method New(pool: PoolId, depth: nat) returns (r: Result<NaiveImt, NaiveError>)
      ensures r.Ok? <==> 0 < depth <= MAX_NAIVE_DEPTH
      ensures r.Ok? ==> fresh(r.value) && r.value.Valid() && r.value.pool == pool && r.value.depth == depth
      ensures r.Ok? ==> r.value.order == []
    {
      if depth == 0 || depth > MAX_NAIVE_DEPTH {
        return Err(BadDepth(depth));
      }
      var model := new NaiveImt.Empty(pool, depth);
      r := Ok(model);
    }

    constructor Empty(pool: PoolId, depth: nat)
      requires 0 < depth <= MAX_NAIVE_DEPTH
      ensures Valid() && this.pool == pool && this.depth == depth && order == []
    {
      this.pool, this.depth := pool, depth;
      this.order, this.sorted := [], {};
    }

    /** The sentinel counts as present. */
    predicate Contains(v: Value)
      reads this
    {
      v == 0 || v in sorted
    }

    method Insert(v: Value) returns (r: Result<(), NaiveError>)
      requires Valid()
      modifies this
      ensures Valid()
      ensures r.Ok? <==> Insertable(depth, old(Values()), v)
      ensures r.Ok? ==> order == old(order) + [v]
      ensures r.Err? ==> unchanged(this)
      ensures r.Err? ==> r.error == if v == 0 then Reserved else if v in old(order) then Duplicate else Full
    {
      if v == 0 {
        return Err(Reserved);
      }
      if v in sorted {
        return Err(Duplicate);
      }
      if |order| + 1 >= Pow2(depth) {
        return Err(Full);
      }
      ghost var all := Values();
      order := order + [v];
      sorted := sorted + {v};
      assert Values() == all + [v];
      r := Ok(());
    }

    /** The first of the sorted values above `v`, or 0. */
    method LeastAbove(v: Value) returns (least: Value)
      requires Valid()
      ensures least == Successor(Values(), v)
    {
      least := 0;
      var rest := sorted;
      while rest != {}
        decreases rest
        invariant rest <= sorted
        invariant least != 0 ==> least in sorted && v < least
        invariant forall x :: x in sorted && x !in rest && v < x ==> least != 0 && least <= x
      {
        var x :| x in rest;
        rest := rest - {x};
        if v < x && (least == 0 || x < least) {
          least := x;
        }
      }
      ghost var all := Values();
      SuccessorIsLeastAbove(all, v);
      forall x | x in all && v < x
        ensures x in sorted
      {
        assert x != 0;
        var k :| 0 <= k < |all| && all[k] == x;
        assert order[k - 1] == x;
      }
      assert least != 0 ==> least in all by {
        if least != 0 {
          var k :| 0 <= k < |order| && order[k] == least;
          assert all[k + 1] == least;
        }
      }
    }

    /** Linear search over every leaf; the last match, 0 when none. */
    static method PositionOf(values: seq<Value>, needle: Value) returns (found: nat)
      requires Distinct(values)
      ensures needle in values ==> found == IndexOf(values, needle)
    {
      found := 0;
      for i := 0 to |values|
        invariant forall k :: 0 <= k < i && values[k] == needle ==> found == k
        invariant found < |values| || found == 0
      {
        if values[i] == needle {
          found := i;
        }
      }
    }

    /** Rebuilds every leaf by searching, materialises all 2^depth positions and folds them. */
    method Root() returns (root: Hash)
      requires Valid()
      ensures root == Subtree(pool, LeavesOf(Values()), depth, 0)
    {
      var values := [0] + order;
      var cells: seq<Hash> := seq(Pow2(depth), _ => EmptyLeaf(pool));
      for index := 0 to |values|
        invariant |cells| == Pow2(depth)
        invariant forall i :: 0 <= i < |cells| ==>
          cells[i] == if i < index then Cell(pool, LeavesOf(values), i) else EmptyLeaf(pool)
      {
        var nextValue := LeastAbove(values[index]);
        SuccessorIsLeastAbove(values, values[index]);
        var nextIndex := 0;
        if nextValue != 0 {
          nextIndex := PositionOf(values, nextValue);
        }
        cells := cells[index := LeafDigest(pool, Leaf(values[index], nextValue, nextIndex))];
      }
      root := FoldAll(pool, LeavesOf(values), depth, cells);
    }

    /** Halves a full row, level by level, down to its root. */
    static method FoldAll(pool: PoolId, ghost leaves: seq<Leaf>, ghost depth: nat,
            cells: seq<Hash>) returns (root: Hash)
      requires |cells| == Pow2(depth)
      requires forall i :: 0 <= i < |cells| ==> cells[i] == Cell(pool, leaves, i)
      ensures root == Subtree(pool, leaves, depth, 0)
    {
      var level := cells;
      ghost var height := 0;
      while |level| > 1
        invariant height <= depth && |level| == Pow2(depth - height)
        invariant forall i :: 0 <= i < |level| ==> level[i] == Subtree(pool, leaves, height, i)
      {
        var parents: seq<Hash> := [];
        var at := 0;
        while at < |level|
          invariant at == 2 * |parents| <= |level|
          invariant forall i :: 0 <= i < |parents| ==> parents[i] == Subtree(pool, leaves, height + 1, i)
        {
          var right := if at + 1 < |level| then level[at + 1] else EmptyLeaf(pool);
          parents := parents + [Node(pool, level[at], right)];
          at := at + 2;
        }
        level := parents;
        height := height + 1;
      }
      Pow2AtMostOne(depth - height);
      root := level[0];
    }
  }

  /**
   * The incremental tree and the naive model agree whenever they saw the same
   * values: same root, and the same verdict on every further value.
   */
  lemma TreeAgreesWithModel(tree: IndexedMerkleTree, model: NaiveImt, v: Value)
    requires tree.Valid() && model.Valid()
    requires tree.pool == model.pool && tree.depth == model.depth && tree.Values() == model.Values()
    ensures tree.Root() == Subtree(model.pool, LeavesOf(model.Values()), model.depth, 0)
    ensures tree.Contains(v) == model.Contains(v)
    ensures InsertResult(tree.pool, tree.depth, tree.Values(), v).Ok? <==> Insertable(model.depth, model.Values(), v)
  {
    tree.RootIsFromScratch();
    assert forall x :: x in model.Values() <==> x == 0 || x in model.order;
  }
}
