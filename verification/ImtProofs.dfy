// Indexed Merkle tree proofs and the two verifiers that hold only a root.
module ImtProofs {
  import opened Wrappers
  import opened Arith
  import opened Hashing
  import opened Merkle
  import opened LinkedSet

  const MIN_DEPTH: nat := 1
  const MAX_DEPTH: nat := 63
  const U64_LIMIT: nat := 0x1_0000_0000_0000_0000

  datatype ImtError =
    | ReservedValue
    | DuplicateValue
    | ValueIsMember
    | CapacityExhausted(depth: nat, capacity: nat)
    | InvalidDepth(depth: nat)
    | WrongPathLength(expected: nat, found: nat)
    | LowLeafDoesNotCover
    | NotMostRecent(asked: nat, newest: nat)
    | ProofMismatch
    | RootMismatch(trusted: Hash, computed: Hash)
    | IndexOutOfRange(index: nat, capacity: nat)
    | UnexpectedLeafIndex(expected: nat, found: nat)
    | AliasedLeafIndex(index: nat)
    | CorruptTree

  /** What a compact node holds for one pool. */
  datatype ImtState = ImtState(root: Hash, leafCount: nat)

  datatype NonMembershipProof = NonMembershipProof(lowLeaf: Leaf, lowLeafIndex: nat, siblings: seq<Hash>)

  datatype InsertionProof = InsertionProof(
    lowLeaf: Leaf,
    lowLeafIndex: nat,
    lowLeafSiblings: seq<Hash>,
    newLeafIndex: nat,
    newLeafSiblings: seq<Hash>)

  predicate ValidDepth(depth: nat) {
    MIN_DEPTH <= depth <= MAX_DEPTH
  }

  function CheckDepth(depth: nat): Result<(), ImtError> {
    if ValidDepth(depth) then Ok(()) else Err(InvalidDepth(depth))
  }

  function CapacityOf(depth: nat): nat {
    if depth > MAX_DEPTH then U64_LIMIT - 1 else Pow2(depth)
  }

  function CheckPath(depth: nat, index: nat, siblings: seq<Hash>): Result<(), ImtError> {
    var _ :- CheckDepth(depth);
    if |siblings| != depth then Err(WrongPathLength(depth, |siblings|))
    else if index >= CapacityOf(depth) then Err(IndexOutOfRange(index, CapacityOf(depth)))
    else Ok(())
  }

  function VerifyNonMembership(pool: PoolId, depth: nat, root: Hash, value: Value,
          proof: NonMembershipProof): Result<(), ImtError> {
    if value == 0 then Err(ReservedValue)
    else
      var _ :- CheckPath(depth, proof.lowLeafIndex, proof.siblings);
      if !proof.lowLeaf.Covers(value) then Err(LowLeafDoesNotCover)
      else
        var computed := RootFromPath(pool, LeafDigest(pool, proof.lowLeaf), proof.lowLeafIndex, proof.siblings);
        if computed != root then Err(RootMismatch(root, computed)) else Ok(())
  }

  function VerifyInsertion(pool: PoolId, depth: nat, state: ImtState, value: Value,
          proof: InsertionProof): Result<ImtState, ImtError> {
    if value == 0 then Err(ReservedValue)
    else
      var _ :- CheckPath(depth, proof.lowLeafIndex, proof.lowLeafSiblings);
      var _ :- CheckPath(depth, proof.newLeafIndex, proof.newLeafSiblings);
      if proof.newLeafIndex != state.leafCount then Err(UnexpectedLeafIndex(state.leafCount, proof.newLeafIndex))
      else if proof.lowLeafIndex == proof.newLeafIndex then Err(AliasedLeafIndex(proof.newLeafIndex))
      else if !proof.lowLeaf.Covers(value) then Err(LowLeafDoesNotCover)
      else
        var oldRoot := RootFromPath(pool, LeafDigest(pool, proof.lowLeaf), proof.lowLeafIndex, proof.lowLeafSiblings);
        if oldRoot != state.root then Err(RootMismatch(state.root, oldRoot))
        else
          var updatedLow := Leaf(proof.lowLeaf.value, value, proof.newLeafIndex);
          var intermediate := RootFromPath(pool, LeafDigest(pool, updatedLow), proof.lowLeafIndex,
            proof.lowLeafSiblings);
          var emptyRoot := RootFromPath(pool, EmptyLeaf(pool), proof.newLeafIndex, proof.newLeafSiblings);
          if emptyRoot != intermediate then Err(RootMismatch(intermediate, emptyRoot))
          else
            var newLeaf := Leaf(value, proof.lowLeaf.nextValue, proof.lowLeaf.nextIndex);
            var root := RootFromPath(pool, LeafDigest(pool, newLeaf), proof.newLeafIndex, proof.newLeafSiblings);
            if state.leafCount + 1 >= U64_LIMIT then Err(CorruptTree)
            else if state.leafCount + 1 > CapacityOf(depth) then Err(CapacityExhausted(depth, CapacityOf(depth)))
            else Ok(ImtState(root, state.leafCount + 1))
  }

  // ---- what a tree that holds the history `all` would say ----

  function StateOf(pool: PoolId, depth: nat, all: seq<Value>): ImtState {
    ImtState(Subtree(pool, LeavesOf(all), depth, 0), |all|)
  }

  /** The state of a tree that holds only the sentinel, without building the tree. */
  method NewState(pool: PoolId, depth: nat) returns (r: Result<ImtState, ImtError>)
    ensures r == if ValidDepth(depth) then Ok(StateOf(pool, depth, [0])) else Err(InvalidDepth(depth))
  {
    if !ValidDepth(depth) {
      return Err(InvalidDepth(depth));
    }
    assert LeavesOf([0]) == [SENTINEL] by {
      SuccessorIsLeastAbove([0], 0);
    }
    var node, empty := LeafDigest(pool, SENTINEL), EmptyLeaf(pool);
    for level := 0 to depth
      invariant node == Subtree(pool, [SENTINEL], level, 0) && empty == Zero(pool, level)
    {
      AncestorOfZero(level);
      EmptyExactlyUnoccupied(pool, [SENTINEL], level, 1);
      node, empty := Node(pool, node, empty), Node(pool, empty, empty);
    }
    return Ok(ImtState(node, 1));
  }

  predicate Fits(depth: nat, all: seq<Value>) {
    ValidDepth(depth) && |all| <= Pow2(depth)
  }

  /** Whether a tree of this depth and history takes `v`. */
  predicate Insertable(depth: nat, all: seq<Value>, v: Value) {
    v != 0 && v !in all && |all| < Pow2(depth)
  }

  function NonMembershipProofOf(pool: PoolId, depth: nat, all: seq<Value>, v: Value): NonMembershipProof
    requires History(all)
  {
    LowIndexInRange(all, v);
    var low := LowIndex(all, v);
    NonMembershipProof(LeafOf(all, low), low, PathSiblings(pool, LeavesOf(all), depth, low))
  }

  /** The leaves after the low leaf was rewritten and before the append. */
  function Respliced(all: seq<Value>, v: Value): (leaves: seq<Leaf>)
    requires History(all)
    ensures |leaves| == |all|
  {
    LowIndexInRange(all, v);
    var low := LowIndex(all, v);
    LeavesOf(all)[low := WithSuccessor(LeafOf(all, low), v, |all|)]
  }

  function InsertionProofOf(pool: PoolId, depth: nat, all: seq<Value>, v: Value): InsertionProof
    requires History(all)
  {
    LowIndexInRange(all, v);
    var low := LowIndex(all, v);
    InsertionProof(
      LeafOf(all, low),
      low,
      PathSiblings(pool, LeavesOf(all), depth, low),
      |all|,
      PathSiblings(pool, Respliced(all, v), depth, |all|))
  }

  // ---- soundness and completeness against a root ----

  /** A leaf digest whose path folds to a history's root is that history's leaf. */
  lemma LeafPathBinds(pool: PoolId, depth: nat, all: seq<Value>, leaf: Leaf, index: nat, siblings: seq<Hash>)
    requires |siblings| == depth && index < Pow2(depth)
    requires RootFromPath(pool, LeafDigest(pool, leaf), index, siblings) == Subtree(pool, LeavesOf(all), depth, 0)
    ensures index < |all| && leaf == LeafOf(all, index)
    ensures siblings == PathSiblings(pool, LeavesOf(all), depth, index)
  {
    AncestorZero(index, depth);
    PathBinds(pool, LeavesOf(all), LeafDigest(pool, leaf), index, siblings);
  }

  /**
   * Absence is provable exactly for absent values, and by exactly one proof:
   * the predecessor with the path that leads to it.
   */
  lemma NonMembershipExact(pool: PoolId, depth: nat, all: seq<Value>, v: Value, proof: NonMembershipProof)
    requires History(all) && Fits(depth, all)
    ensures VerifyNonMembership(pool, depth, Subtree(pool, LeavesOf(all), depth, 0), v, proof).Ok?
       <==> v != 0 && v !in all && proof == NonMembershipProofOf(pool, depth, all, v)
  {
    var leaves, root := LeavesOf(all), Subtree(pool, LeavesOf(all), depth, 0);
    if VerifyNonMembership(pool, depth, root, v, proof).Ok? {
      LeafPathBinds(pool, depth, all, proof.lowLeaf, proof.lowLeafIndex, proof.siblings);
      CoversExactlyPredecessor(all, proof.lowLeafIndex, v);
    }
    if v != 0 && v !in all && proof == NonMembershipProofOf(pool, depth, all, v) {
      LowIndexInRange(all, v);
      CoversExactlyPredecessor(all, proof.lowLeafIndex, v);
      AncestorZero(proof.lowLeafIndex, depth);
      PathFolds(pool, leaves, depth, proof.lowLeafIndex);
    }
  }

  /** Rewriting the low leaf and folding its old path reaches the intermediate root. */
  lemma RespliceRoot(pool: PoolId, depth: nat, all: seq<Value>, v: Value)
    requires History(all) && Fits(depth, all)
    ensures LowIndex(all, v) < |all|
    ensures var low := LowIndex(all, v);
      RootFromPath(pool, LeafDigest(pool, WithSuccessor(LeafOf(all, low), v, |all|)), low,
        PathSiblings(pool, LeavesOf(all), depth, low))
        == Subtree(pool, Respliced(all, v), depth, 0)
  {
    LowIndexInRange(all, v);
    var low := LowIndex(all, v);
    AncestorZero(low, depth);
    PathUnaffected(pool, LeavesOf(all), Respliced(all, v), low, depth);
    PathFolds(pool, Respliced(all, v), depth, low);
  }

  /** The next free position is still empty after the low leaf was rewritten; filling it reaches the final root. */
  lemma AppendRoot(pool: PoolId, depth: nat, all: seq<Value>, v: Value)
    requires History(all) && Fits(depth, all) && Insertable(depth, all, v)
    ensures LowIndex(all, v) < |all|
    ensures var path := PathSiblings(pool, Respliced(all, v), depth, |all|);
      var lowLeaf := LeafOf(all, LowIndex(all, v));
      && RootFromPath(pool, EmptyLeaf(pool), |all|, path) == Subtree(pool, Respliced(all, v), depth, 0)
      && RootFromPath(pool, LeafDigest(pool, Leaf(v, lowLeaf.nextValue, lowLeaf.nextIndex)), |all|, path)
           == Subtree(pool, LeavesOf(all + [v]), depth, 0)
  {
    AncestorZero(|all|, depth);
    SpliceIsExact(all, v);
    var mid, grown := Respliced(all, v), LeavesOf(all + [v]);
    PathFolds(pool, mid, depth, |all|);
    PathUnaffected(pool, mid, grown, |all|, depth);
    PathFolds(pool, grown, depth, |all|);
  }

  /** The shape checks all pass on the tree's own proof. */
  lemma OwnProofShape(pool: PoolId, depth: nat, all: seq<Value>, v: Value, proof: InsertionProof)
    requires History(all) && Fits(depth, all) && Insertable(depth, all, v)
    requires proof == InsertionProofOf(pool, depth, all, v)
    ensures CheckPath(depth, proof.lowLeafIndex, proof.lowLeafSiblings).Ok?
    ensures CheckPath(depth, proof.newLeafIndex, proof.newLeafSiblings).Ok?
    ensures proof.newLeafIndex == |all| != proof.lowLeafIndex && proof.lowLeaf.Covers(v)
    ensures RootFromPath(pool, LeafDigest(pool, proof.lowLeaf), proof.lowLeafIndex, proof.lowLeafSiblings) ==
      Subtree(pool, LeavesOf(all), depth, 0)
  {
    LowIndexInRange(all, v);
    var low := LowIndex(all, v);
    CoversExactlyPredecessor(all, low, v);
    AncestorZero(low, depth);
    PathFolds(pool, LeavesOf(all), depth, low);
    CapacityFitsU64(depth);
  }

  /** The proof `insert` hands out takes a root-only node to the state `insert` reaches. */
  lemma OwnProofAccepted(pool: PoolId, depth: nat, all: seq<Value>, v: Value)
    requires History(all) && Fits(depth, all) && Insertable(depth, all, v)
    ensures VerifyInsertion(pool, depth, StateOf(pool, depth, all), v, InsertionProofOf(pool, depth, all, v))
         == Ok(StateOf(pool, depth, all + [v]))
  {
    LowIndexInRange(all, v);
    CapacityFitsU64(depth);
    hide Subtree, PathSiblings, RootFromPath, LeafOf, LowIndex, CheckPath, LeavesOf, Respliced, History;
    OwnProofShape(pool, depth, all, v, InsertionProofOf(pool, depth, all, v));
    RespliceRoot(pool, depth, all, v);
    AppendRoot(pool, depth, all, v);
  }

  lemma CapacityFitsU64(depth: nat)
    requires ValidDepth(depth)
    ensures Pow2(depth) <= 0x8000_0000_0000_0000
  {
    Pow2Monotone(depth, 63);
    assert Pow2(63) == 0x8000_0000_0000_0000 by {
      Pow2At63();
    }
  }

  /** Nothing but the tree's own proof is accepted. */
  lemma OnlyOwnProofAccepted(pool: PoolId, depth: nat, all: seq<Value>, v: Value, proof: InsertionProof)
    requires History(all) && Fits(depth, all)
    requires VerifyInsertion(pool, depth, StateOf(pool, depth, all), v, proof).Ok?
    ensures Insertable(depth, all, v)
    ensures proof == InsertionProofOf(pool, depth, all, v)
  {
    LeafPathBinds(pool, depth, all, proof.lowLeaf, proof.lowLeafIndex, proof.lowLeafSiblings);
    CoversExactlyPredecessor(all, proof.lowLeafIndex, v);
    RespliceRoot(pool, depth, all, v);
    AncestorZero(|all|, depth);
    PathBinds(pool, Respliced(all, v), EmptyLeaf(pool), |all|, proof.newLeafSiblings);
  }

  /**
   * Root-only insertion is exact. Against the state of any reachable tree the
   * verifier accepts exactly when the tree itself would take the value and the
   * proof is the one the tree would give, and then the new state is the one
   * the tree reaches.
   */
  lemma InsertionExact(pool: PoolId, depth: nat, all: seq<Value>, v: Value, proof: InsertionProof)
    requires History(all) && Fits(depth, all)
    ensures VerifyInsertion(pool, depth, StateOf(pool, depth, all), v, proof).Ok?
       <==> Insertable(depth, all, v) && proof == InsertionProofOf(pool, depth, all, v)
    ensures VerifyInsertion(pool, depth, StateOf(pool, depth, all), v, proof).Ok?
        ==> VerifyInsertion(pool, depth, StateOf(pool, depth, all), v, proof).value == StateOf(pool, depth, all + [v])
  {
    if VerifyInsertion(pool, depth, StateOf(pool, depth, all), v, proof).Ok? {
      OnlyOwnProofAccepted(pool, depth, all, v, proof);
    }
    if Insertable(depth, all, v) {
      OwnProofAccepted(pool, depth, all, v);
    }
  }

  /** The overflow and capacity guards at the end of the verifier never decide a verdict. */
  lemma FinalGuardsNeverFire(pool: PoolId, depth: nat, state: ImtState, v: Value, proof: InsertionProof)
    ensures VerifyInsertion(pool, depth, state, v, proof) != Err(CorruptTree)
    ensures VerifyInsertion(pool, depth, state, v, proof) != Err(CapacityExhausted(depth, CapacityOf(depth)))
  {
    if ValidDepth(depth) {
      CapacityFitsU64(depth);
    }
  }
}
