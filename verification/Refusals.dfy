// A refusal tells the truth: whatever it names is so.
module Refusals {
  import opened Wrappers
  import opened Arith
  import opened Hashing
  import opened Merkle
  import opened LinkedSet
  import opened ImtProofs
  import opened Transparent
  import opened Chain
  import opened ChainProofs
  import opened Transition
  import opened Bundle
  import opened Csn

  /** Spend `k` names the outpoint of an earlier one. */
  ghost predicate SpentAgain(spends: seq<OutPoint>, o: OutPoint) {
    exists k {:trigger spends[k]} :: 0 <= k < |spends| && spends[k] == o && o in spends[..k]
  }

  // ---- a block ----

  lemma {:induction false} ResolveRefusal(index: Index, created: set<OutPoint>, height: Height, spends: seq<OutPoint>,
          allowUnknown: bool, n: nat)
    requires n <= |spends| && Resolve(index, created, height, spends, allowUnknown, n).Err?
    ensures match Resolve(index, created, height, spends, allowUnknown, n).error
      case DuplicateSpend(h, o) => h == height && SpentAgain(spends, o)
      case UnknownOutpoint(h, o) =>
        h == height && !allowUnknown && o in spends && o !in index && o !in created
      case _ => false
  {
    if Resolve(index, created, height, spends, allowUnknown, n - 1).Err? {
      ResolveRefusal(index, created, height, spends, allowUnknown, n - 1);
    } else {
      assert spends[n - 1] in spends;
    }
  }

  lemma {:induction false} StageRefusal(pools: Pools, b: BlockSummary, n: nat)
    requires n <= |ALL_POOLS| && Histories(pools) && (forall pool :: pool in pools)
    requires StagePools(pools, b, n).Err?
    ensures match StagePools(pools, b, n).error
      case DuplicateNullifier(h, pool) => h == b.height && !History(pools[pool] + b.NullifiersFor(pool))
      case _ => false
  {
    if StagePools(pools, b, n - 1).Err? {
      StageRefusal(pools, b, n - 1);
    } else {
      NoClashIsHistory(pools[ALL_POOLS[n - 1]], b.NullifiersFor(ALL_POOLS[n - 1]));
    }
    hide Clashes, History;
  }

  /** Why a block was refused. */
  ghost predicate BlockCause(s: ChainState, b: BlockSummary, options: ApplyOptions, e: ApplyError) {
    match e
    case OutOfOrder(expected, found) =>
      && options.enforceContiguous && s.tip.Some?
      && expected == NextHeight(s.tip.value) && found == b.height && expected != found
    case DuplicateSpend(h, o) => h == b.height && SpentAgain(b.spends, o)
    case UnknownOutpoint(h, o) =>
      h == b.height && !options.allowUnknownSpends && o in b.spends && o !in s.index && o !in b.Created()
    case DuplicateNullifier(h, pool) =>
      h == b.height && pool in s.pools && !History(s.pools[pool] + b.NullifiersFor(pool))
    case ApplyUtreexo(utreexo) => utreexo == UnknownLeaf && !Spendable(s.forest, s.index)
    case ApplyImt(imt) => imt == CapacityExhausted(s.depth, Pow2(s.depth)) && !HasRoom(s, b)
    case MissingPool(pool) => false
  }

  /** A refused block was refused for the reason given, and no pool is ever missing. */
  lemma BlockRefusal(s: ChainState, b: BlockSummary, options: ApplyOptions)
    requires PoolsOk(s.depth, s.pools) && ApplyBlock(s, b, options).1.Err?
    ensures BlockCause(s, b, options, ApplyBlock(s, b, options).1.error)
  {
    var resolved := Resolve(s.index, b.Created(), b.height, b.spends, options.allowUnknownSpends, |b.spends|);
    var staged := StagePools(s.pools, b, |ALL_POOLS|);
    if InOrder(s.tip, b.height, options.enforceContiguous) {
      if resolved.Err? {
        ResolveRefusal(s.index, b.Created(), b.height, b.spends, options.allowUnknownSpends, |b.spends|);
      } else if staged.Err? {
        StageRefusal(s.pools, b, |ALL_POOLS|);
      } else {
        MutateRefusal(s, b, options);
      }
    }
    hide Resolve, StagePools, Mutate, History, HasRoom, Spendable;
  }

  lemma MutateRefusal(s: ChainState, b: BlockSummary, options: ApplyOptions)
    requires PoolsOk(s.depth, s.pools) && ApplyBlock(s, b, options).1.Err?
    requires InOrder(s.tip, b.height, options.enforceContiguous) && StagePools(s.pools, b, |ALL_POOLS|).Ok?
    requires Resolve(s.index, b.Created(), b.height, b.spends, options.allowUnknownSpends, |b.spends|).Ok?
    ensures BlockCause(s, b, options, ApplyBlock(s, b, options).1.error)
  {
    ResolvesTo(s, b, options.allowUnknownSpends);
    StagesExactly(s, b);
    if TransparentStep(s.forest, s.index, SpentBy(s.index, b), CreatedBy(s.index, b)).Ok? {
      AcceptedExactly(s, b, options);
      StagedRejection(s, b, options);
    } else if Spendable(s.forest, s.index) {
      SpentIsIndexed(s, b);
      StepKeepsSpendable(s.forest, s.index, SpentBy(s.index, b), CreatedBy(s.index, b));
    }
    hide Resolve, StagePools, HasRoom, Spendable, PutPools, AllLive, IndexedSpends, Surviving, PoolsOk;
  }

  // ---- a bundle ----

  lemma {:induction false} MatchRefusal(created: set<OutPoint>, height: Height, spends: seq<OutPoint>,
          leaves: seq<UtxoLeaf>, n: nat)
    requires n <= |spends|
    ensures match MatchSpends(created, height, spends, leaves, n)
      case Ok(w) => w.cursor <= |leaves|
      case Err(SpentTwice(h, o)) => h == height && SpentAgain(spends, o)
      case Err(UnprovenSpend(h, o)) => h == height && o in spends && o !in created
      case _ => false
  {
    if n > 0 {
      MatchRefusal(created, height, spends, leaves, n - 1);
      assert spends[n - 1] in spends;
    }
  }

  lemma {:induction false} ProofRefusal(c: CompactState, b: BlockSummary, bundle: BlockProofBundle, n: nat)
    requires n <= |ALL_POOLS|
    ensures match StageProofs(c, b, bundle, n)
      case Ok(staged) => staged.Keys == c.nullifiers.Keys
      case Err(InsertionCountMismatch(h, pool, nullifiers, proofs)) =>
        && h == b.height && nullifiers == |b.NullifiersFor(pool)| && proofs == |bundle.InsertionsFor(pool)|
        && nullifiers != proofs && nullifiers != 0
      case Err(NoTree(pool)) => pool !in c.nullifiers
      case Err(CsnImt(imt)) => true
      case _ => false
  {
    hide ApplyProofs;
    if n > 0 {
      ProofRefusal(c, b, bundle, n - 1);
    }
  }

  lemma {:induction false} UnexpectedIs(b: BlockSummary, bundle: BlockProofBundle, n: nat)
    requires n <= |ALL_POOLS| && Unexpected(b, bundle, n).Some?
    ensures var pool := Unexpected(b, bundle, n).value;
      bundle.InsertionsFor(pool) != [] && b.NullifiersFor(pool) == []
  {
    if Unexpected(b, bundle, n - 1).Some? {
      UnexpectedIs(b, bundle, n - 1);
    }
  }

  /** Why a bundle was refused. */
  ghost predicate BundleCause(c: CompactState, b: BlockSummary, bundle: BlockProofBundle, e: CsnError) {
    match e
    case HeightMismatch(block, named) => block == b.height && named == bundle.height && block != named
    case BundleOutOfOrder(expected, found) =>
      c.tip.Some? && expected == NextHeight(c.tip.value) && found == b.height && expected != found
    case SpentTwice(h, o) => h == b.height && SpentAgain(b.spends, o)
    case UnprovenSpend(h, o) => h == b.height && o in b.spends && o !in b.Created()
    case UnclaimedLeaves(h, extra) =>
      && h == b.height && 0 < extra <= |bundle.spent|
      && var matched := MatchSpends(b.Created(), b.height, b.spends, bundle.spent, |b.spends|);
      matched.Ok? && matched.value.cursor + extra == |bundle.spent|
    case InclusionProofFailed(h) =>
      h == b.height && bundle.spent != [] && !Verifies(c.utxos, bundle.targets, bundle.SpentHashes())
    case InsertionCountMismatch(h, pool, nullifiers, proofs) =>
      && h == b.height && nullifiers == |b.NullifiersFor(pool)| && proofs == |bundle.InsertionsFor(pool)|
      && nullifiers != proofs && nullifiers != 0
    case NoTree(pool) => pool !in c.nullifiers
    case UnexpectedInsertions(h, pool) =>
      h == b.height && bundle.InsertionsFor(pool) != [] && b.NullifiersFor(pool) == []
    case CsnImt(imt) => StageProofs(c, b, bundle, |ALL_POOLS|) == Err(e)
  }

  /** A refused bundle was refused for the reason given, on any compact state. */
  lemma BundleRefusal(c: CompactState, b: BlockSummary, bundle: BlockProofBundle)
    requires ApplyBundle(c, b, bundle).Err?
    ensures BundleCause(c, b, bundle, ApplyBundle(c, b, bundle).error)
  {
    MatchRefusal(b.Created(), b.height, b.spends, bundle.spent, |b.spends|);
    ProofRefusal(c, b, bundle, |ALL_POOLS|);
    if Unexpected(b, bundle, |ALL_POOLS|).Some? {
      UnexpectedIs(b, bundle, |ALL_POOLS|);
    }
    hide MatchSpends, StageProofs, Unexpected, Verifies, Modify, Surviving, SpentAgain;
  }

  // ---- a proof ----

  /** A path that does not fit the depth, or an index past the tree. */
  predicate PathCause(depth: nat, index: nat, siblings: seq<Hash>, e: ImtError) {
    match e
    case InvalidDepth(found) => found == depth && !ValidDepth(depth)
    case WrongPathLength(expected, found) => expected == depth && found == |siblings| && found != depth
    case IndexOutOfRange(found, capacity) => found == index && capacity == Pow2(depth) && found >= capacity
    case _ => false
  }

  /** A refused proof of absence is refused for the reason given, against any root. */
  lemma AbsenceRefusal(pool: PoolId, depth: nat, root: Hash, v: Value, proof: NonMembershipProof)
    requires VerifyNonMembership(pool, depth, root, v, proof).Err?
    ensures match VerifyNonMembership(pool, depth, root, v, proof).error
      case ReservedValue => v == 0
      case LowLeafDoesNotCover => !proof.lowLeaf.Covers(v)
      case RootMismatch(trusted, computed) =>
        && trusted == root && computed != root
        && computed == RootFromPath(pool, LeafDigest(pool, proof.lowLeaf), proof.lowLeafIndex, proof.siblings)
      case e => PathCause(depth, proof.lowLeafIndex, proof.siblings, e)
  {
    hide RootFromPath;
  }

  /** A refused insertion proof is refused for the reason given, on any compact state. */
  lemma InsertionRefusal(pool: PoolId, depth: nat, state: ImtState, v: Value, proof: InsertionProof)
    requires VerifyInsertion(pool, depth, state, v, proof).Err?
    ensures match VerifyInsertion(pool, depth, state, v, proof).error
      case ReservedValue => v == 0
      case UnexpectedLeafIndex(expected, found) =>
        expected == state.leafCount && found == proof.newLeafIndex && expected != found
      case AliasedLeafIndex(index) => index == proof.lowLeafIndex == proof.newLeafIndex
      case LowLeafDoesNotCover => !proof.lowLeaf.Covers(v)
      case RootMismatch(trusted, computed) => trusted != computed
      case e =>
        || PathCause(depth, proof.lowLeafIndex, proof.lowLeafSiblings, e)
        || PathCause(depth, proof.newLeafIndex, proof.newLeafSiblings, e)
  {
    FinalGuardsNeverFire(pool, depth, state, v, proof);
    hide RootFromPath, Pow2;
  }
}
