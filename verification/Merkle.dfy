// The fixed-depth Merkle tree over a sequence of leaves, defined from scratch,
// and what a sibling path says about it.
module Merkle {
  import opened Arith
  import opened Hashing

  /** The digest at leaf position `i`: a leaf, or the empty leaf past the end. */
  function Cell(pool: PoolId, leaves: seq<Leaf>, i: nat): Hash {
    if i < |leaves| then LeafDigest(pool, leaves[i]) else EmptyLeaf(pool)
  }

  /** The digest of the subtree `level` levels high at position `index`. */
  function Subtree(pool: PoolId, leaves: seq<Leaf>, level: nat, index: nat): Hash {
    if level == 0 then Cell(pool, leaves, index)
    else Node(pool, Subtree(pool, leaves, level - 1, 2 * index), Subtree(pool, leaves, level - 1, 2 * index + 1))
  }

  /** What a subtree without leaves folds to. */
  function Zero(pool: PoolId, level: nat): Hash {
    if level == 0 then EmptyLeaf(pool) else Node(pool, Zero(pool, level - 1), Zero(pool, level - 1))
  }

  function Combine(pool: PoolId, node: Hash, index: nat, sibling: Hash): Hash {
    if index % 2 == 0 then Node(pool, node, sibling) else Node(pool, sibling, node)
  }

  /** Folds a leaf digest with the first `n` siblings of its path, leaf level first. */
  function FoldUpTo(pool: PoolId, leaf: Hash, index: nat, siblings: seq<Hash>, n: nat): Hash
    requires n <= |siblings|
  {
    if n == 0 then leaf
    else Combine(pool, FoldUpTo(pool, leaf, index, siblings, n - 1), Ancestor(index, n - 1), siblings[n - 1])
  }

  /** The root a leaf digest and a whole sibling path fold to. */
  function RootFromPath(pool: PoolId, leaf: Hash, index: nat, siblings: seq<Hash>): Hash {
    FoldUpTo(pool, leaf, index, siblings, |siblings|)
  }

  /** The loop of `root_from_path`. */
  method FoldPath(pool: PoolId, leaf: Hash, index: nat, siblings: seq<Hash>) returns (node: Hash)
    ensures node == RootFromPath(pool, leaf, index, siblings)
  {
    node := leaf;
    var idx := index;
    for level := 0 to |siblings|
      invariant idx == Ancestor(index, level)
      invariant node == FoldUpTo(pool, leaf, index, siblings, level)
    {
      var sibling := siblings[level];
      node := if idx % 2 == 0 then Node(pool, node, sibling) else Node(pool, sibling, node);
      idx := idx / 2;
    }
  }

  /** What leaf `index` is folded with, going up `depth` levels. */
  function PathSiblings(pool: PoolId, leaves: seq<Leaf>, depth: nat, index: nat): (path: seq<Hash>)
    ensures |path| == depth
  {
    seq(depth, level requires 0 <= level < depth => Subtree(pool, leaves, level, Sibling(Ancestor(index, level))))
  }

  lemma CombineSubtrees(pool: PoolId, leaves: seq<Leaf>, level: nat, index: nat)
    ensures Combine(pool, Subtree(pool, leaves, level, index), index, Subtree(pool, leaves, level, Sibling(index)))
         == Subtree(pool, leaves, level + 1, index / 2)
  {
  }

  lemma {:induction false} PathFoldsUpTo(pool: PoolId, leaves: seq<Leaf>, index: nat, siblings: seq<Hash>, n: nat)
    requires n <= |siblings|
    requires forall k {:trigger siblings[k]} :: 0 <= k < n ==>
      siblings[k] == Subtree(pool, leaves, k, Sibling(Ancestor(index, k)))
    ensures FoldUpTo(pool, Cell(pool, leaves, index), index, siblings, n) ==
      Subtree(pool, leaves, n, Ancestor(index, n))
  {
    if n > 0 {
      PathFoldsUpTo(pool, leaves, index, siblings, n - 1);
      CombineSubtrees(pool, leaves, n - 1, Ancestor(index, n - 1));
    }
  }

  /** The tree's own path folds to the tree's own root. */
  lemma PathFolds(pool: PoolId, leaves: seq<Leaf>, depth: nat, index: nat)
    ensures RootFromPath(pool, Cell(pool, leaves, index), index, PathSiblings(pool, leaves, depth, index))
         == Subtree(pool, leaves, depth, Ancestor(index, depth))
  {
    PathFoldsUpTo(pool, leaves, index, PathSiblings(pool, leaves, depth, index), depth);
  }

  /** A path that folds to a tree's node is that tree's path, and its leaf that tree's cell. */
  lemma {:induction false} PathBindsUpTo(pool: PoolId, leaves: seq<Leaf>, leaf: Hash, index: nat, siblings: seq<Hash>,
          n: nat)
    requires n <= |siblings|
    requires FoldUpTo(pool, leaf, index, siblings, n) == Subtree(pool, leaves, n, Ancestor(index, n))
    ensures leaf == Cell(pool, leaves, index)
    ensures forall k {:trigger siblings[k]} :: 0 <= k < n ==>
      siblings[k] == Subtree(pool, leaves, k, Sibling(Ancestor(index, k)))
  {
    if n > 0 {
      CombineSubtrees(pool, leaves, n - 1, Ancestor(index, n - 1));
      PathBindsUpTo(pool, leaves, leaf, index, siblings, n - 1);
    }
  }

  lemma PathBinds(pool: PoolId, leaves: seq<Leaf>, leaf: Hash, index: nat, siblings: seq<Hash>)
    requires RootFromPath(pool, leaf, index, siblings)
          == Subtree(pool, leaves, |siblings|, Ancestor(index, |siblings|))
    ensures leaf == Cell(pool, leaves, index)
    ensures siblings == PathSiblings(pool, leaves, |siblings|, index)
  {
    PathBindsUpTo(pool, leaves, leaf, index, siblings, |siblings|);
  }

  ghost predicate SameExcept(pool: PoolId, a: seq<Leaf>, b: seq<Leaf>, j: nat) {
    forall c: nat :: c != j ==> Cell(pool, a, c) == Cell(pool, b, c)
  }

  /** Changing one cell changes no subtree off its path. */
  lemma {:induction false} SubtreeUnaffected(pool: PoolId, a: seq<Leaf>, b: seq<Leaf>, j: nat, level: nat, index: nat)
    requires SameExcept(pool, a, b, j)
    requires index != Ancestor(j, level)
    ensures Subtree(pool, a, level, index) == Subtree(pool, b, level, index)
  {
    if level > 0 {
      SubtreeUnaffected(pool, a, b, j, level - 1, 2 * index);
      SubtreeUnaffected(pool, a, b, j, level - 1, 2 * index + 1);
    }
  }

  lemma PathUnaffected(pool: PoolId, a: seq<Leaf>, b: seq<Leaf>, j: nat, depth: nat)
    requires SameExcept(pool, a, b, j)
    ensures PathSiblings(pool, a, depth, j) == PathSiblings(pool, b, depth, j)
  {
    forall level | 0 <= level < depth
      ensures PathSiblings(pool, a, depth, j)[level] == PathSiblings(pool, b, depth, j)[level]
    {
      SubtreeUnaffected(pool, a, b, j, level, Sibling(Ancestor(j, level)));
    }
  }

  /** Whether the subtree at `(level, index)` holds any of the first `n` positions. */
  predicate Occupied(n: nat, level: nat, index: nat) {
    n > 0 && index <= Ancestor(n - 1, level)
  }

  lemma OccupiedStep(n: nat, level: nat, index: nat)
    ensures Occupied(n + 1, level, index) <==> Occupied(n, level, index) || index == Ancestor(n, level)
  {
    if n > 0 {
      AncestorStep(n - 1, level);
    } else {
      AncestorMonotone(0, 0, level);
      AncestorOfZero(level);
    }
  }

  lemma {:induction false} AncestorOfZero(level: nat)
    ensures Ancestor(0, level) == 0
  {
    if level > 0 {
      AncestorOfZero(level - 1);
    }
  }

  /** A subtree folds to the empty digest exactly when it holds no leaf. */
  lemma {:induction false} EmptyExactlyUnoccupied(pool: PoolId, leaves: seq<Leaf>, level: nat, index: nat)
    ensures Subtree(pool, leaves, level, index) == Zero(pool, level) <==> !Occupied(|leaves|, level, index)
  {
    if level > 0 {
      EmptyExactlyUnoccupied(pool, leaves, level - 1, 2 * index);
      EmptyExactlyUnoccupied(pool, leaves, level - 1, 2 * index + 1);
    }
  }

  /** Equal subtrees hold equal cells. */
  lemma {:induction false} SubtreeBinds(pool: PoolId, a: seq<Leaf>, b: seq<Leaf>, level: nat, index: nat, i: nat)
    requires Subtree(pool, a, level, index) == Subtree(pool, b, level, index)
    requires Ancestor(i, level) == index
    ensures Cell(pool, a, i) == Cell(pool, b, i)
  {
    if level > 0 {
      SubtreeBinds(pool, a, b, level - 1, Ancestor(i, level - 1), i);
    }
  }

  /** The root of a tree that holds all its leaves determines them. */
  lemma RootBinds(pool: PoolId, a: seq<Leaf>, b: seq<Leaf>, depth: nat)
    requires |a| <= Pow2(depth) && |b| <= Pow2(depth)
    requires Subtree(pool, a, depth, 0) == Subtree(pool, b, depth, 0)
    ensures a == b
  {
    forall i: nat | i < Pow2(depth)
      ensures Cell(pool, a, i) == Cell(pool, b, i)
    {
      AncestorZero(i, depth);
      SubtreeBinds(pool, a, b, depth, 0, i);
    }
    assert |a| == |b| by {
      assert |a| < |b| ==> Cell(pool, a, |a|) == Cell(pool, b, |a|);
      assert |b| < |a| ==> Cell(pool, a, |b|) == Cell(pool, b, |b|);
    }
    forall i | 0 <= i < |a|
      ensures a[i] == b[i]
    {
      assert Cell(pool, a, i) == Cell(pool, b, i);
    }
  }
}
