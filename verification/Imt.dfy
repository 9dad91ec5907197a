// The complete indexed Merkle tree: leaves, value index and cached nodes, all
// updated in place.
module Imt {
  import opened Wrappers
  import opened Arith
  import opened Hashing
  import opened Merkle
  import opened LinkedSet
  import opened ImtProofs
  import opened NodeMap

  function ValuesOf(leaves: seq<Leaf>): (values: seq<Value>)
    ensures |values| == |leaves|
  {
    seq(|leaves|, i requires 0 <= i < |leaves| => leaves[i].value)
  }

  lemma ValuesOfLeaves(all: seq<Value>)
    ensures ValuesOf(LeavesOf(all)) == all
  {
  }

  /** The value index maps each value to the position that holds it, and nothing else. */
  ghost predicate IndexMatches(index: map<Value, nat>, all: seq<Value>) {
    && (forall v :: v in index <==> v in all)
    && (forall v :: v in index ==> index[v] == IndexOf(all, v))
  }

  lemma IndexUnique(a: map<Value, nat>, b: map<Value, nat>, all: seq<Value>)
    requires IndexMatches(a, all) && IndexMatches(b, all)
    ensures a == b
  {
  }

  ghost predicate LadderMatches(pool: PoolId, depth: nat, zeros: seq<Hash>) {
    && |zeros| == depth + 1
    && forall l :: 0 <= l <= depth ==> zeros[l] == Zero(pool, l)
  }

  /** What `insert` returns on a tree whose history is `all`. */
  function InsertResult(pool: PoolId, depth: nat, all: seq<Value>, v: Value): Result<InsertionProof, ImtError>
    requires History(all)
  {
    if v == 0 then Err(ReservedValue)
    else if |all| >= CapacityOf(depth) then Err(CapacityExhausted(depth, CapacityOf(depth)))
    else if v in all then Err(DuplicateValue)
    else Ok(InsertionProofOf(pool, depth, all, v))
  }

  /** Why a tree refuses a value: it is reserved, or the tree is full, or else it holds the value already. */
  lemma InsertRefusal(pool: PoolId, depth: nat, all: seq<Value>, v: Value)
    requires History(all) && Fits(depth, all)
    ensures var r := InsertResult(pool, depth, all, v);
      && (r.Ok? <==> Insertable(depth, all, v))
      && (r == Err(ReservedValue) <==> v == 0)
      && (r == Err(CapacityExhausted(depth, Pow2(depth))) <==> v != 0 && |all| == Pow2(depth))
      && (r == Err(DuplicateValue) <==> v != 0 && |all| < Pow2(depth) && v in all)
  {
  }

  /**
   * Whether `undo_insert` accepts: the newest value, at the newest index, and
   * the low leaf exactly as it stood before that insertion. Sibling paths are
   * not looked at.
   */
  ghost predicate UndoAccepts(all: seq<Value>, v: Value, proof: InsertionProof) {
    && History(all)
    && |all| >= 2
    && var before := all[..|all| - 1];
    && History(before)
    && v == all[|all| - 1]
    && proof.newLeafIndex == |before|
    && proof.lowLeafIndex == LowIndex(before, v)
    && proof.lowLeafIndex < |before|
    && proof.lowLeaf == LeafOf(before, proof.lowLeafIndex)
  }

  /** Why `undo_insert` refuses: the first of its checks that fails. */
  predicate UndoCause(all: seq<Value>, v: Value, proof: InsertionProof, e: ImtError) {
    && |all| > 0
    && var newest: nat := |all| - 1;
    e ==
      if v == 0 then ReservedValue
      else if proof.newLeafIndex != newest || newest == 0 then NotMostRecent(proof.newLeafIndex, newest)
      else if all[newest] == v && proof.lowLeafIndex > newest then CorruptTree
      else ProofMismatch
  }

  /** What an undo checks, in terms of the leaves as they stand. */
  lemma UndoChecks(all: seq<Value>, v: Value, proof: InsertionProof)
    requires History(all)
    ensures var leaves, newest, p := LeavesOf(all), |all| - 1, proof.lowLeafIndex;
      UndoAccepts(all, v, proof) <==>
        && v != 0 && newest > 0 && proof.newLeafIndex == newest && all[newest] == v && p <= newest
        && leaves[p].nextValue == v && leaves[p].nextIndex == newest && leaves[p].value == proof.lowLeaf.value
        && proof.lowLeaf.nextValue == leaves[newest].nextValue && proof.lowLeaf.nextIndex == leaves[newest].nextIndex
  {
    if |all| > 1 && all[|all| - 1] == v && proof.lowLeafIndex < |all| {
      var newest := |all| - 1;
      var before := all[..newest];
      assert all == before + [v];
      assert before[0] == all[0] == 0 && v != 0 && v !in before;
      OnlyLowLeafPointsAt(before, v, proof.lowLeafIndex);
      LowIndexInRange(before, v);
      SpliceNewLeaf(before, v);
      hide History;
    }
  }

  /** An accepted undo takes back the last splice. */
  lemma UndoIsSplice(all: seq<Value>, v: Value, proof: InsertionProof)
    requires UndoAccepts(all, v, proof)
    ensures var before := all[..|all| - 1];
      && all == before + [v] && proof.newLeafIndex == |before| && History(before) && v != 0 && v !in before
      && proof.lowLeafIndex == LowIndex(before, v) && proof.lowLeafIndex < |before|
      && proof.lowLeaf == LeafOf(before, proof.lowLeafIndex)
  {
    var before := all[..|all| - 1];
    assert all[0] == 0 && before[0] == 0;
    forall i | 0 <= i < |before|
      ensures before[i] != v
    {
      assert all[i] != all[|all| - 1];
    }
  }

  class IndexedMerkleTree {
    const pool: PoolId
    const depth: nat
    var zeros: seq<Hash>
    var leaves: seq<Leaf>
    var indexByValue: map<Value, nat>
    var nodes: Nodes

    /** The insertion history: the sentinel, then every value in insertion order. */
    ghost function Values(): seq<Value>
      reads this
    {
      ValuesOf(leaves)
    }

    /** The cached nodes are those of the stored leaves, whatever the leaves say. */
    ghost predicate Cached()
      reads this
    {
      && ValidDepth(depth)
      && LadderMatches(pool, depth, zeros)
      && 0 < |leaves| <= Pow2(depth)
      && NodesMatch(pool, depth, nodes, leaves)
    }

    /** All three redundant structures agree with one insertion history. */
    ghost predicate Valid()
      reads this
    {
      && Cached()
      && History(Values())
      && leaves == LeavesOf(Values())
      && IndexMatches(indexByValue, Values())
    }

    constructor WithDepth(pool: PoolId, depth: nat)
      requires ValidDepth(depth)
      ensures Valid() && this.pool == pool && this.depth == depth && Values() == [0]
    {
      this.pool := pool;
      this.depth := depth;
      this.leaves := [SENTINEL];
      this.indexByValue := map[0 := 0];
      this.nodes := map[];
      var ladder := Ladder(pool, depth);
      this.zeros := ladder;
      new;
      OnlySentinel();
      hide LadderMatches, LeavesOf;
      WriteLeaf(0, SENTINEL, []);
      assert Pow2(depth) >= 1;
    }

    /** The empty-subtree digest of every level. */
    static method Ladder(pool: PoolId, depth: nat) returns (zeros: seq<Hash>)
      ensures LadderMatches(pool, depth, zeros)
    {
      zeros := [EmptyLeaf(pool)];
      for level := 0 to depth
        invariant |zeros| == level + 1
        invariant forall l :: 0 <= l <= level ==> zeros[l] == Zero(pool, l)
      {
        zeros := zeros + [Node(pool, zeros[level], zeros[level])];
      }
    }

    static lemma OnlySentinel()
      ensures ValuesOf([SENTINEL]) == [0] && LeavesOf([0]) == [SENTINEL]
    {
      SuccessorIsLeastAbove([0], 0);
    }

    /** Refused unless the depth is valid. */
    static method New(pool: PoolId, depth: nat) returns (r: Result<IndexedMerkleTree, ImtError>)
      ensures r.Ok? <==> ValidDepth(depth)
      ensures r.Err? ==> r == Err(InvalidDepth(depth))
      ensures r.Ok? ==> fresh(r.value) && r.value.Valid() && r.value.pool == pool && r.value.depth == depth
      ensures r.Ok? ==> r.value.Values() == [0]
    {
      if !ValidDepth(depth) {
        return Err(InvalidDepth(depth));
      }
      var tree := new IndexedMerkleTree.WithDepth(pool, depth);
      return Ok(tree);
    }

    function LeafCount(): nat
      reads this
    {
      |leaves|
    }

    function Capacity(): nat {
      CapacityOf(depth)
    }

    /** What `level` holds where nothing is stored. */
    function ZeroAt(level: nat): Hash
      reads this
    {
      if level < |zeros| then zeros[level] else Foreign(0)
    }

    /** The node stored at `(level, index)`; an absent one counts as empty. */
    function NodeAt(level: nat, index: nat): Hash
      reads this
    {
      if (level, index) in nodes then nodes[(level, index)] else ZeroAt(level)
    }

    function Root(): Hash
      reads this
    {
      NodeAt(depth, 0)
    }

    function State(): ImtState
      reads this
    {
      ImtState(Root(), LeafCount())
    }

    predicate Contains(v: Value)
      reads this
    {
      v in indexByValue
    }

    lemma HoldsHistory()
      requires Valid()
      ensures History(Values()) && ValidDepth(depth)
    {
    }

    lemma NodeIsSubtree(level: nat, index: nat)
      requires Cached() && level <= depth
      ensures NodeAt(level, index) == Subtree(pool, leaves, level, index)
    {
      ReadNode(pool, nodes, leaves, level, index);
    }

    /** The incremental root is the from-scratch root of the history. */
    lemma RootIsFromScratch()
      requires Valid()
      ensures State() == StateOf(pool, depth, Values())
    {
      NodeIsSubtree(depth, 0);
    }

    /** The last entry of the value index at or below `v`. */
    method FloorEntry(v: Value) returns (entry: Option<(Value, nat)>)
      ensures entry.None? <==> forall k :: k in indexByValue ==> v < k
      ensures entry.Some? ==>
        && entry.value.0 in indexByValue && entry.value.0 <= v
        && entry.value.1 == indexByValue[entry.value.0]
        && forall k :: k in indexByValue && k <= v ==> k <= entry.value.0
    {
      entry := None;
      var rest := indexByValue.Keys;
      while rest != {}
        decreases rest
        invariant rest <= indexByValue.Keys
        invariant entry.None? ==> forall k :: k in indexByValue && k !in rest ==> v < k
        invariant entry.Some? ==>
          && entry.value.0 in indexByValue && entry.value.0 <= v
          && entry.value.1 == indexByValue[entry.value.0]
          && forall k :: k in indexByValue && k !in rest && k <= v ==> k <= entry.value.0
      {
        var k :| k in rest;
        rest := rest - {k};
        if k <= v && (entry.None? || entry.value.0 < k) {
          entry := Some((k, indexByValue[k]));
        }
      }
    }

    /** Finds the leaf bracketing `v`. On a valid tree it is never corrupt. */
    method LowLeaf(v: Value) returns (r: Result<(Leaf, nat), ImtError>)
      requires Valid() && v != 0
      ensures v in Values() ==> r == Err(ValueIsMember)
      ensures v !in Values() ==>
        && LowIndex(Values(), v) < |leaves|
        && r == Ok((leaves[LowIndex(Values(), v)], LowIndex(Values(), v)))
    {
      ghost var all := Values();
      var entry := FloorEntry(v);
      LowIndexInRange(all, v);
      PredecessorIsGreatestBelow(all, v);
      assert all[0] in all;
      assert 0 in indexByValue;
      if entry.None? {
        return Err(CorruptTree);
      }
      var (found, index) := entry.value;
      if found == v {
        return Err(ValueIsMember);
      }
      assert v !in indexByValue;
      assert found == Predecessor(all, v);
      assert index == LowIndex(all, v);
      if index >= |leaves| {
        return Err(CorruptTree);
      }
      var leaf := leaves[index];
      CoversExactlyPredecessor(all, index, v);
      if !leaf.Covers(v) {
        return Err(CorruptTree);
      }
      return Ok((leaf, index));
    }

    /** The path of leaf `index`, read level by level out of the node map. */
    method SiblingsOf(index: nat) returns (siblings: seq<Hash>)
      requires Cached()
      ensures siblings == PathSiblings(pool, leaves, depth, index)
    {
      siblings := [];
      var idx := index;
      for level := 0 to depth
        invariant idx == Ancestor(index, level)
        invariant |siblings| == level
        invariant forall l {:trigger siblings[l]} :: 0 <= l < level ==>
          siblings[l] == Subtree(pool, leaves, l, Sibling(Ancestor(index, l)))
      {
        NodeIsSubtree(level, Sibling(idx));
        siblings := siblings + [NodeAt(level, Sibling(idx))];
        idx := idx / 2;
      }
    }

    method ProveNonMembership(v: Value) returns (r: Result<NonMembershipProof, ImtError>)
      requires Valid()
      ensures r == if v == 0 then Err(ReservedValue) else if v in Values() then Err(ValueIsMember)
                   else Ok(NonMembershipProofOf(pool, depth, Values(), v))
    {
      if v == 0 {
        return Err(ReservedValue);
      }
      var found := LowLeaf(v);
      if found.Err? {
        return Err(found.error);
      }
      var (lowLeaf, low) := found.value;
      var siblings := SiblingsOf(low);
      return Ok(NonMembershipProof(lowLeaf, low, siblings));
    }

    /** Stores the digest of the leaf just written, then those of its ancestors up to the root. */
    method WriteLeaf(index: nat, leaf: Leaf, ghost before: seq<Leaf>)
      requires LadderMatches(pool, depth, zeros)
      requires OneCellWritten(pool, before, leaves, index) && leaves[index] == leaf
      requires NodesMatch(pool, depth, nodes, before)
      modifies this`nodes
      ensures NodesMatch(pool, depth, nodes, leaves)
    {
      var node := LeafDigest(pool, leaf);
      LevelWritten(pool, nodes, before, leaves, index, 0);
      SetNode(0, index, node, before, index);
      var idx := index;
      for level := 0 to depth
        modifies this`nodes
        invariant idx == Ancestor(index, level)
        invariant node == Subtree(pool, leaves, level, idx)
        invariant forall k: (nat, nat) :: k in nodes ==> k.0 <= depth
        invariant forall l: nat :: l <= level ==> LevelMatches(pool, nodes, leaves, l)
        invariant forall l: nat :: level < l <= depth ==> LevelMatches(pool, nodes, before, l)
      {
        ReadNode(pool, nodes, leaves, level, Sibling(idx));
        var sibling := NodeAt(level, Sibling(idx));
        CombineSubtrees(pool, leaves, level, idx);
        node := if idx % 2 == 0 then Node(pool, node, sibling) else Node(pool, sibling, node);
        idx := idx / 2;
        SetNode(level + 1, idx, node, before, index);
      }
    }

    /** One step of the climb: level `l` goes from describing `before` to describing `leaves`. */
    method SetNode(l: nat, idx: nat, node: Hash, ghost before: seq<Leaf>, ghost index: nat)
      requires l <= depth && idx == Ancestor(index, l)
      requires OneCellWritten(pool, before, leaves, index)
      requires node == Subtree(pool, leaves, l, idx)
      requires forall k: (nat, nat) :: k in nodes ==> k.0 <= depth
      requires forall m: nat :: m < l ==> LevelMatches(pool, nodes, leaves, m)
      requires forall m: nat :: l <= m <= depth ==> LevelMatches(pool, nodes, before, m)
      modifies this`nodes
      ensures nodes == old(nodes)[(l, idx) := node]
      ensures forall k: (nat, nat) :: k in nodes ==> k.0 <= depth
      ensures forall m: nat :: m <= l ==> LevelMatches(pool, nodes, leaves, m)
      ensures forall m: nat :: l < m <= depth ==> LevelMatches(pool, nodes, before, m)
    {
      LevelWritten(pool, nodes, before, leaves, index, l);
      nodes := nodes[(l, idx) := node];
      forall m: nat | m < l
        ensures LevelMatches(pool, nodes, leaves, m)
      {
        LevelFrame(pool, old(nodes), nodes, leaves, m);
      }
      forall m: nat | l < m <= depth
        ensures LevelMatches(pool, nodes, before, m)
      {
        LevelFrame(pool, old(nodes), nodes, before, m);
      }
    }

    /** Overwrites a leaf the tree already has; any other index is refused. */
    method SetLeaf(index: nat, leaf: Leaf) returns (r: Result<(), ImtError>)
      requires Cached()
      modifies this`leaves, this`nodes
      ensures r.Ok? <==> index < |old(leaves)|
      ensures r.Err? ==> r.error == CorruptTree
      ensures r.Ok? ==> leaves == old(leaves)[index := leaf] && Cached()
      ensures r.Err? ==> leaves == old(leaves) && nodes == old(nodes)
    {
      if index >= |leaves| {
        return Err(CorruptTree);
      }
      leaves := leaves[index := leaf];
      WriteLeaf(index, leaf, old(leaves));
      return Ok(());
    }

    /**
     * Inserts `v` and proves how the root moved. The history grows by `v` or,
     * on error, nothing changes.
     */
    method Insert(v: Value) returns (r: Result<InsertionProof, ImtError>)
      requires Valid()
      modifies this
      ensures Valid()
      ensures r == InsertResult(pool, depth, old(Values()), v)
      ensures r.Ok? ==> Values() == old(Values()) + [v]
      ensures r.Err? ==> unchanged(this)
    {
      if v == 0 {
        return Err(ReservedValue);
      }
      ghost var all := Values();
      var newLeafIndex := LeafCount();
      if newLeafIndex >= Capacity() {
        return Err(CapacityExhausted(depth, Capacity()));
      }
      var found := LowLeaf(v);
      if found.Err? {
        return Err(if found.error == ValueIsMember then DuplicateValue else found.error);
      }
      var (lowLeaf, low) := found.value;
      SpliceIsExact(all, v);
      var lowSiblings := SiblingsOf(low);
      var updated := SetLeaf(low, Leaf(lowLeaf.value, v, newLeafIndex));
      if updated.Err? {
        return Err(updated.error);
      }
      assert leaves == Respliced(all, v);
      var newSiblings := SiblingsOf(newLeafIndex);
      Append(v, Leaf(v, lowLeaf.nextValue, lowLeaf.nextIndex), all);
      return Ok(InsertionProof(lowLeaf, low, lowSiblings, newLeafIndex, newSiblings));
    }

    /** The second half of an insertion, after the low leaf was rewritten. */
    method Append(v: Value, newLeaf: Leaf, ghost all: seq<Value>)
      requires Cached() && History(all) && Insertable(depth, all, v)
      requires IndexMatches(indexByValue, all)
      requires leaves == Respliced(all, v)
      requires LeavesOf(all + [v]) == leaves + [newLeaf]
      modifies this`leaves, this`indexByValue, this`nodes
      ensures Valid() && Values() == all + [v]
    {
      AppendFacts(all, v, newLeaf);
      var newLeafIndex := LeafCount();
      leaves := leaves + [newLeaf];
      indexByValue := indexByValue[v := newLeafIndex];
      WriteLeaf(newLeafIndex, newLeaf, old(leaves));
    }

    lemma AppendFacts(all: seq<Value>, v: Value, newLeaf: Leaf)
      requires 0 < |leaves| && History(all) && Insertable(depth, all, v) && IndexMatches(indexByValue, all)
      requires leaves == Respliced(all, v) && LeavesOf(all + [v]) == leaves + [newLeaf]
      ensures OneCellWritten(pool, leaves, leaves + [newLeaf], |leaves|) && ValuesOf(leaves + [newLeaf]) == all + [v]
      ensures IndexMatches(indexByValue[v := |leaves|], all + [v]) && History(all + [v]) && |leaves| < Pow2(depth)
    {
      IndexGrows(indexByValue, all, v);
      ValuesOfLeaves(all + [v]);
      SpliceIsExact(all, v);
    }

    /**
     * Reverses the newest insertion. Any accepted undo is the true undo: the
     * history loses exactly its newest value, whatever proof was supplied.
     * Accepted exactly when `UndoAccepts`; a refusal changes nothing.
     */
    method UndoInsert(v: Value, proof: InsertionProof) returns (r: Result<(), ImtError>)
      requires Valid()
      modifies this
      ensures Valid()
      ensures r.Ok? <==> UndoAccepts(old(Values()), v, proof)
      ensures r.Ok? ==> Values() == old(Values())[..|old(Values())| - 1]
      ensures r.Err? ==> unchanged(this)
      ensures r.Err? ==> UndoCause(old(Values()), v, proof, r.error)
    {
      var refused := CheckUndo(v, proof);
      if refused.Some? {
        return Err(refused.value);
      }
      UndoIsSplice(Values(), v, proof);
      hide Valid, Values, UndoAccepts;
      ghost var before := Values()[..|Values()| - 1];
      r := Unsplice(v, proof.newLeafIndex, proof.lowLeafIndex, proof.lowLeaf, before);
    }

    /** The checks of an undo, none of which changes anything. */
    method CheckUndo(v: Value, proof: InsertionProof) returns (refused: Option<ImtError>)
      requires Valid()
      ensures refused.None? <==> UndoAccepts(Values(), v, proof)
      ensures refused.Some? ==> UndoCause(Values(), v, proof, refused.value)
    {
      ghost var all := Values();
      UndoChecks(all, v, proof);
      HistoryHeld();
      hide Valid, Values, UndoAccepts, LeavesOf, LeafOf, History;
      if v == 0 {
        return Some(ReservedValue);
      }
      var last := LeafCount() - 1;
      if proof.newLeafIndex != last || last == 0 {
        return Some(NotMostRecent(proof.newLeafIndex, last));
      }
      var appended := leaves[last];
      if appended.value != v {
        return Some(ProofMismatch);
      }
      if proof.lowLeafIndex >= |leaves| {
        return Some(CorruptTree);
      }
      var currentLow := leaves[proof.lowLeafIndex];
      if currentLow.nextValue != v || currentLow.nextIndex != proof.newLeafIndex {
        return Some(ProofMismatch);
      }
      if currentLow.value != proof.lowLeaf.value {
        return Some(ProofMismatch);
      }
      if proof.lowLeaf.nextValue != appended.nextValue || proof.lowLeaf.nextIndex != appended.nextIndex {
        return Some(ProofMismatch);
      }
      return None;
    }

    lemma HistoryHeld()
      requires Valid()
      ensures History(Values()) && leaves == LeavesOf(Values()) && |leaves| == |Values()| > 0
      ensures forall i {:trigger leaves[i]} :: 0 <= i < |leaves| ==> leaves[i].value == Values()[i]
    {
    }

    /** The mutating half of an undo: drop the last leaf, then restore the low leaf. */
    method Unsplice(v: Value, last: nat, lowIndex: nat, lowLeaf: Leaf,
            ghost before: seq<Value>) returns (r: Result<(), ImtError>)
      requires Valid() && Values() == before + [v] && last == |before|
      requires History(before) && v != 0 && v !in before
      requires lowIndex == LowIndex(before, v) && lowIndex < |before| && lowLeaf == LeafOf(before, lowIndex)
      modifies this`leaves, this`indexByValue, this`nodes
      ensures Valid() && r.Ok? && Values() == before
    {
      SpliceIsExact(before, v);
      leaves := leaves[..last];
      indexByValue := indexByValue - {v};
      ClearLeaf(last, old(leaves));
      r := SetLeaf(lowIndex, lowLeaf);
      assert leaves == LeavesOf(before);
      ValuesOfLeaves(before);
      IndexShrinks(old(indexByValue), before, v);
    }

    /** Forgets the last leaf: its node goes, and so does every ancestor left unoccupied. */
    method ClearLeaf(index: nat, ghost before: seq<Leaf>)
      requires LadderMatches(pool, depth, zeros)
      requires |before| > 1 && index == |before| - 1 && leaves == before[..index]
      requires NodesMatch(pool, depth, nodes, before)
      modifies this`nodes
      ensures NodesMatch(pool, depth, nodes, leaves)
    {
      ghost var entry := nodes;
      LevelCleared(pool, nodes, before, 0);
      nodes := nodes - {(0, index)};
      var node := ZeroAt(0);
      var idx := index;
      forall l: nat | 0 < l <= depth
        ensures LevelMatches(pool, nodes, before, l)
      {
        LevelFrame(pool, entry, nodes, before, l);
      }
      for level := 0 to depth
        modifies this`nodes
        invariant idx == Ancestor(index, level)
        invariant node == Subtree(pool, leaves, level, idx)
        invariant forall k: (nat, nat) :: k in nodes ==> k.0 <= depth
        invariant forall l: nat :: l <= level ==> LevelMatches(pool, nodes, leaves, l)
        invariant forall l: nat :: level < l <= depth ==> LevelMatches(pool, nodes, before, l)
      {
        ReadNode(pool, nodes, leaves, level, Sibling(idx));
        var sibling := NodeAt(level, Sibling(idx));
        CombineSubtrees(pool, leaves, level, idx);
        node := if idx % 2 == 0 then Node(pool, node, sibling) else Node(pool, sibling, node);
        idx := idx / 2;
        ResetNode(level + 1, idx, node, before);
      }
    }

    /** One step of the clearing climb. An entirely empty subtree loses its entry. */
    method ResetNode(l: nat, idx: nat, node: Hash, ghost before: seq<Leaf>)
      requires LadderMatches(pool, depth, zeros)
      requires l <= depth && |before| > 1 && idx == Ancestor(|before| - 1, l)
      requires leaves == before[..|before| - 1]
      requires node == Subtree(pool, leaves, l, idx)
      requires forall k: (nat, nat) :: k in nodes ==> k.0 <= depth
      requires forall m: nat :: m < l ==> LevelMatches(pool, nodes, leaves, m)
      requires forall m: nat :: l <= m <= depth ==> LevelMatches(pool, nodes, before, m)
      modifies this`nodes
      ensures forall k: (nat, nat) :: k in nodes ==> k.0 <= depth
      ensures forall m: nat :: m <= l ==> LevelMatches(pool, nodes, leaves, m)
      ensures forall m: nat :: l < m <= depth ==> LevelMatches(pool, nodes, before, m)
    {
      LevelCleared(pool, nodes, before, l);
      if node == ZeroAt(l) {
        nodes := nodes - {(l, idx)};
      } else {
        nodes := nodes[(l, idx) := node];
      }
      forall m: nat | m < l
        ensures LevelMatches(pool, nodes, leaves, m)
      {
        LevelFrame(pool, old(nodes), nodes, leaves, m);
      }
      forall m: nat | l < m <= depth
        ensures LevelMatches(pool, nodes, before, m)
      {
        LevelFrame(pool, old(nodes), nodes, before, m);
      }
    }
  }

  lemma IndexGrows(index: map<Value, nat>, all: seq<Value>, v: Value)
    requires v !in all && IndexMatches(index, all)
    ensures IndexMatches(index[v := |all|], all + [v])
  {
    forall x | x in index[v := |all|]
      ensures index[v := |all|][x] == IndexOf(all + [v], x)
    {
      IndexOfAppend(all, v, x);
    }
  }

  lemma IndexShrinks(index: map<Value, nat>, before: seq<Value>, v: Value)
    requires v !in before && IndexMatches(index, before + [v])
    ensures IndexMatches(index - {v}, before)
  {
    forall x | x in index - {v}
      ensures x in before && index[x] == IndexOf(before, x)
    {
      IndexOfAppend(before, v, x);
    }
  }

  /** After an insertion only the low leaf points at the appended one. */
  lemma OnlyLowLeafPointsAt(before: seq<Value>, v: Value, i: nat)
    requires History(before) && v != 0 && v !in before && i <= |before|
    ensures i == LowIndex(before, v) <==> LeafOf(before + [v], i).nextValue == v
    ensures i == LowIndex(before, v) ==> LeafOf(before + [v], i).nextIndex == |before|
  {
    LowIndexInRange(before, v);
    if i < |before| {
      SpliceLeaf(before, v, i);
      SuccessorIsLeastAbove(before, before[i]);
    } else {
      SpliceNewLeaf(before, v);
      SuccessorIsLeastAbove(before, before[LowIndex(before, v)]);
    }
  }

  /** Two valid trees with one history are identical field for field. */
  lemma HistoryDeterminesTree(a: IndexedMerkleTree, b: IndexedMerkleTree)
    requires a.Valid() && b.Valid()
    requires a.pool == b.pool && a.depth == b.depth && a.Values() == b.Values()
    ensures a.zeros == b.zeros && a.leaves == b.leaves && a.indexByValue == b.indexByValue && a.nodes == b.nodes
    ensures a.State() == b.State()
  {
    IndexUnique(a.indexByValue, b.indexByValue, a.Values());
    NodesUnique(a.pool, a.depth, a.nodes, b.nodes, a.leaves);
  }
}
