// The sparse node map against the from-scratch tree: the writes along one
// path keep the two equal.
module NodeMap {
  import opened Arith
  import opened Hashing
  import opened Merkle

  type Nodes = map<(nat, nat), Hash>

  /** Level `l` holds exactly the nodes above some leaf, each with its digest. */
  ghost predicate LevelMatches(pool: PoolId, nodes: Nodes, leaves: seq<Leaf>, l: nat) {
    forall i: nat {:trigger (l, i) in nodes} {:trigger nodes[(l, i)]} ::
      && ((l, i) in nodes <==> Occupied(|leaves|, l, i))
      && ((l, i) in nodes ==> nodes[(l, i)] == Subtree(pool, leaves, l, i))
  }

  /** The map holds exactly the ancestors of occupied leaves, each with its digest. */
  ghost predicate NodesMatch(pool: PoolId, depth: nat, nodes: Nodes, leaves: seq<Leaf>) {
    && (forall k: (nat, nat) :: k in nodes ==> k.0 <= depth)
    && (forall l: nat :: l <= depth ==> LevelMatches(pool, nodes, leaves, l))
  }

  /** A missing entry stands for an empty subtree, so every node can be read. */
  lemma ReadNode(pool: PoolId, nodes: Nodes, leaves: seq<Leaf>, l: nat, i: nat)
    requires LevelMatches(pool, nodes, leaves, l)
    ensures (if (l, i) in nodes then nodes[(l, i)] else Zero(pool, l)) == Subtree(pool, leaves, l, i)
  {
    EmptyExactlyUnoccupied(pool, leaves, l, i);
  }

  ghost predicate SameLevel(a: Nodes, b: Nodes, l: nat) {
    forall i: nat {:trigger (l, i) in a} {:trigger (l, i) in b} ::
      && ((l, i) in a <==> (l, i) in b)
      && ((l, i) in a ==> a[(l, i)] == b[(l, i)])
  }

  /** Writing one entry touches one level only. */
  lemma SetKeepsOtherLevels(before: Nodes, a: Nodes, b: Nodes, k: (nat, nat))
    requires k in b && b == a[k := b[k]]
    requires forall l: nat :: l != k.0 ==> SameLevel(before, a, l)
    ensures forall l: nat :: l != k.0 ==> SameLevel(before, b, l)
  {
    forall l: nat | l != k.0
      ensures SameLevel(before, b, l)
    {
      assert SameLevel(before, a, l);
    }
  }

  lemma LevelFrame(pool: PoolId, a: Nodes, b: Nodes, leaves: seq<Leaf>, l: nat)
    requires SameLevel(a, b, l)
    requires LevelMatches(pool, a, leaves, l)
    ensures LevelMatches(pool, b, leaves, l)
  {
    forall i: nat
      ensures (l, i) in b <==> Occupied(|leaves|, l, i)
      ensures (l, i) in b ==> b[(l, i)] == Subtree(pool, leaves, l, i)
    {
      assert (l, i) in a <==> (l, i) in b;
    }
  }

  /** `after` is `before` with cell `index` rewritten in place or appended. */
  ghost predicate OneCellWritten(pool: PoolId, before: seq<Leaf>, after: seq<Leaf>, index: nat) {
    && SameExcept(pool, before, after, index)
    && index < |after|
    && (|after| == |before| || (|after| == |before| + 1 && index == |before|))
  }

  /** Setting one entry per level brings the level up to date with one written cell. */
  lemma LevelWritten(pool: PoolId, nodes: Nodes, before: seq<Leaf>, after: seq<Leaf>, index: nat, l: nat)
    requires OneCellWritten(pool, before, after, index)
    requires LevelMatches(pool, nodes, before, l)
    ensures var j := Ancestor(index, l);
      LevelMatches(pool, nodes[(l, j) := Subtree(pool, after, l, j)], after, l)
  {
    var j := Ancestor(index, l);
    var written := nodes[(l, j) := Subtree(pool, after, l, j)];
    AncestorMonotone(index, |after| - 1, l);
    forall i: nat
      ensures (l, i) in written <==> Occupied(|after|, l, i)
      ensures (l, i) in written ==> written[(l, i)] == Subtree(pool, after, l, i)
    {
      OccupiedStep(|before|, l, i);
      if i != j {
        SubtreeUnaffected(pool, before, after, index, l, i);
        assert (l, i) in nodes <==> (l, i) in written;
      }
    }
  }

  /** Dropping the last leaf leaves, on each level, its path's entry either gone or rewritten. */
  lemma LevelCleared(pool: PoolId, nodes: Nodes, before: seq<Leaf>, l: nat)
    requires |before| > 0
    requires LevelMatches(pool, nodes, before, l)
    ensures var after := before[..|before| - 1];
      var j := Ancestor(|before| - 1, l);
      var digest := Subtree(pool, after, l, j);
      LevelMatches(pool, if digest == Zero(pool, l) then nodes - {(l, j)} else nodes[(l, j) := digest], after, l)
  {
    var after := before[..|before| - 1];
    var j := Ancestor(|before| - 1, l);
    var digest := Subtree(pool, after, l, j);
    var cleared := if digest == Zero(pool, l) then nodes - {(l, j)} else nodes[(l, j) := digest];
    EmptyExactlyUnoccupied(pool, after, l, j);
    forall i: nat
      ensures (l, i) in cleared <==> Occupied(|after|, l, i)
      ensures (l, i) in cleared ==> cleared[(l, i)] == Subtree(pool, after, l, i)
    {
      OccupiedStep(|after|, l, i);
      if i != j {
        SubtreeUnaffected(pool, before, after, |after|, l, i);
        assert (l, i) in nodes <==> (l, i) in cleared;
      }
    }
  }

  /** The node map of a tree is determined by its leaves. */
  lemma NodesUnique(pool: PoolId, depth: nat, a: Nodes, b: Nodes, leaves: seq<Leaf>)
    requires NodesMatch(pool, depth, a, leaves) && NodesMatch(pool, depth, b, leaves)
    ensures a == b
  {
    forall k: (nat, nat) | k in a || k in b
      ensures k in a && k in b && a[k] == b[k]
    {
      assert k.0 <= depth;
      assert k == (k.0, k.1);
      assert LevelMatches(pool, a, leaves, k.0) && LevelMatches(pool, b, leaves, k.0);
    }
  }
}
