// The transparent half: outpoints, the outpoint index, and the Utreexo forest
// seen as a sequence of slots. Insertion appends, deletion tombstones, and the
// roots bind the whole sequence.
module Transparent {
  import opened Wrappers
  import opened Hashing

  datatype OutPoint = OutPoint(txid: seq<Byte>, vout: nat)

  /** The outpoint a leaf commits to. */
  function OutPointOf(leaf: UtxoLeaf): OutPoint {
    OutPoint(leaf.txid, leaf.vout)
  }

  datatype Slot = Live(digest: Hash) | Dead

  type Forest = seq<Slot>

  type Index = map<OutPoint, UtxoLeaf>

  type Outputs = seq<(OutPoint, UtxoLeaf)>

  datatype UtreexoError = InvalidProof | UnknownLeaf

  /** The newest slot that holds `digest`; the length when none does. */
  function NewestLive(slots: Forest, digest: Hash): (p: nat)
    ensures p <= |slots|
    ensures p < |slots| ==> slots[p] == Live(digest)
    ensures forall q :: p < q < |slots| ==> slots[q] != Live(digest)
    ensures p == |slots| <==> Live(digest) !in slots
  {
    if slots == [] then 0
    else
      var n := |slots| - 1;
      if slots[n] == Live(digest) then n
      else
        var p := NewestLive(slots[..n], digest);
        assert slots == slots[..n] + [slots[n]];
        if p < n then p else |slots|
  }

  predicate AllLive(slots: Forest, digests: seq<Hash>) {
    forall i {:trigger digests[i]} :: 0 <= i < |digests| ==> Live(digests[i]) in slots
  }

  /** The positions of a batch of digests: the content of a batch inclusion proof. */
  function Positions(slots: Forest, digests: seq<Hash>): (targets: seq<nat>)
    ensures |targets| == |digests|
  {
    seq(|digests|, i requires 0 <= i < |digests| => NewestLive(slots, digests[i]))
  }

  function Tombstone(slots: Forest, targets: seq<nat>): (r: Forest)
    ensures |r| == |slots|
  {
    seq(|slots|, i requires 0 <= i < |slots| => if i in targets then Dead else slots[i])
  }

  /** Proves a batch of leaves, or refuses when one is absent. */
  function Prove(slots: Forest, digests: seq<Hash>): Result<seq<nat>, UtreexoError> {
    if AllLive(slots, digests) then Ok(Positions(slots, digests)) else Err(UnknownLeaf)
  }

  function Delete(slots: Forest, digests: seq<Hash>): Result<Forest, UtreexoError> {
    if AllLive(slots, digests) then Ok(Tombstone(slots, Positions(slots, digests))) else Err(UnknownLeaf)
  }

  function Append(slots: Forest, digests: seq<Hash>): (r: Forest)
    ensures |r| == |slots| + |digests|
  {
    slots + seq(|digests|, i requires 0 <= i < |digests| => Live(digests[i]))
  }

  /** A roots-only node checks a batch against the committed sequence. */
  predicate Verifies(slots: Forest, targets: seq<nat>, digests: seq<Hash>) {
    && |targets| == |digests|
    && forall i {:trigger targets[i]} :: 0 <= i < |digests| ==>
      targets[i] < |slots| && slots[targets[i]] == Live(digests[i])
  }

  /**
   * A roots-only update: deletions at proved positions, then additions. Beside
   * no deletions nothing looks at a proof.
   */
  function Modify(slots: Forest, additions: seq<Hash>, deletions: seq<Hash>,
          targets: seq<nat>): Result<Forest, UtreexoError> {
    if deletions == [] then Ok(Append(slots, additions))
    else if Verifies(slots, targets, deletions) then Ok(Append(Tombstone(slots, targets), additions))
    else Err(InvalidProof)
  }

  function Digests(outputs: Outputs): (r: seq<Hash>)
    ensures |r| == |outputs|
  {
    seq(|outputs|, i requires 0 <= i < |outputs| => UtxoDigest(outputs[i].1))
  }

  function Outpoints(outputs: Outputs): set<OutPoint> {
    set x | x in outputs :: x.0
  }

  /** The index after the first `n` outputs were recorded, later ones overriding. */
  function Recorded(index: Index, outputs: Outputs, n: nat): Index
    requires n <= |outputs|
  {
    if n == 0 then index else Recorded(index, outputs, n - 1)[outputs[n - 1].0 := outputs[n - 1].1]
  }

  /**
   * One block's transparent effect, deletions before insertions. Block
   * application and rollback replay share it.
   */
  function TransparentStep(forest: Forest, index: Index, spent: Outputs,
          created: Outputs): Result<(Forest, Index), UtreexoError> {
    var deleted :- if spent != [] then Delete(forest, Digests(spent)) else Ok(forest);
    var grown := if created != [] then Append(deleted, Digests(created)) else deleted;
    Ok((grown, Recorded(index - Outpoints(spent), created, |created|)))
  }

  // ---- what keeps the forest and the index in step ----

  /** Every index entry is the output its outpoint names. */
  ghost predicate OwnOutPoints(index: Index) {
    forall o :: o in index ==> OutPointOf(index[o]) == o
  }

  /** Every indexed output is in the forest, so it can be spent. */
  ghost predicate Spendable(forest: Forest, index: Index) {
    forall o :: o in index ==> Live(UtxoDigest(index[o])) in forest
  }

  /** The live slots are exactly the indexed outputs, each once. */
  ghost predicate InStep(forest: Forest, index: Index) {
    && (forall i {:trigger forest[i]} :: 0 <= i < |forest| && forest[i].Live? ==>
         && forest[i].digest.UtxoDigest?
         && var leaf := forest[i].digest.utxo; OutPointOf(leaf) in index && index[OutPointOf(leaf)] == leaf)
    && Spendable(forest, index)
    && (forall i, j {:trigger forest[i], forest[j]} :: 0 <= i < j < |forest| && forest[i].Live? ==>
      forest[i] != forest[j])
  }

  /** A live slot that holds an output under this outpoint. */
  predicate Carries(slot: Slot, o: OutPoint) {
    slot.Live? && slot.digest.UtxoDigest? && OutPointOf(slot.digest.utxo) == o
  }

  /** Nothing stands under this outpoint but the indexed output, once, if there is one. */
  ghost predicate OnlyOwnSlot(forest: Forest, index: Index, o: OutPoint) {
    forall i {:trigger forest[i]} :: 0 <= i < |forest| && Carries(forest[i], o) ==>
      o in index && i == NewestLive(forest, UtxoDigest(index[o]))
  }

  /** Where forest and index are in step, that holds of every outpoint. */
  lemma InStepOnlyOwn(forest: Forest, index: Index, o: OutPoint)
    requires InStep(forest, index)
    ensures OnlyOwnSlot(forest, index, o)
  {
    forall i | 0 <= i < |forest| && Carries(forest[i], o)
      ensures o in index && i == NewestLive(forest, UtxoDigest(index[o]))
    {
      OnlySlot(forest, index, i, forest[i].digest);
    }
  }

  /** Outputs that carry their own outpoint and name nothing twice. */
  ghost predicate WellFormedOutputs(outputs: Outputs) {
    && (forall i {:trigger outputs[i]} :: 0 <= i < |outputs| ==> OutPointOf(outputs[i].1) == outputs[i].0)
    && (forall i, j {:trigger outputs[i], outputs[j]} :: 0 <= i < j < |outputs| ==> outputs[i].0 != outputs[j].0)
  }

  /** The outputs spent are ones the index holds. */
  ghost predicate SpentFrom(index: Index, spent: Outputs) {
    forall i {:trigger spent[i]} :: 0 <= i < |spent| ==> spent[i].0 in index && index[spent[i].0] == spent[i].1
  }

  lemma {:induction false} RecordedMeaning(index: Index, outputs: Outputs, n: nat)
    requires n <= |outputs|
    requires forall i, j {:trigger outputs[i], outputs[j]} :: 0 <= i < j < |outputs| ==> outputs[i].0 != outputs[j].0
    ensures forall o :: o in Recorded(index, outputs, n) <==> o in index || exists i {:trigger outputs[i]} ::
      0 <= i < n && outputs[i].0 == o
    ensures forall i {:trigger outputs[i]} :: 0 <= i < n ==>
      outputs[i].0 in Recorded(index, outputs, n) && Recorded(index, outputs, n)[outputs[i].0] == outputs[i].1
    ensures forall o :: o in index && (forall i {:trigger outputs[i]} :: 0 <= i < n ==> outputs[i].0 != o) ==>
      o in Recorded(index, outputs, n) && Recorded(index, outputs, n)[o] == index[o]
  {
    if n > 0 {
      RecordedMeaning(index, outputs, n - 1);
    }
  }

  /** Where every output appears once, the newest live slot is the only one. */
  lemma OnlySlot(forest: Forest, index: Index, p: nat, digest: Hash)
    requires InStep(forest, index) && p < |forest| && forest[p] == Live(digest)
    ensures NewestLive(forest, digest) == p
  {
  }

  /** Indexed outputs can be deleted, and the others stay spendable. */
  lemma DeletionKeepsSpendable(forest: Forest, index: Index, spent: Outputs)
    requires Spendable(forest, index) && OwnOutPoints(index) && SpentFrom(index, spent)
    ensures Delete(forest, Digests(spent)).Ok?
    ensures Spendable(Delete(forest, Digests(spent)).value, index - Outpoints(spent))
  {
    var digests := Digests(spent);
    forall i | 0 <= i < |digests|
      ensures Live(digests[i]) in forest
    {
      assert spent[i].0 in index;
    }
    var kept, left := Tombstone(forest, Positions(forest, digests)), index - Outpoints(spent);
    forall o | o in left
      ensures Live(UtxoDigest(left[o])) in kept
    {
      UnspentSurvives(forest, index, spent, o);
    }
  }

  /** An entry of a grown index is an old one or one of the outputs recorded. */
  lemma {:induction false} RecordedFrom(index: Index, outputs: Outputs, n: nat, o: OutPoint)
    requires n <= |outputs| && o in Recorded(index, outputs, n)
    ensures (o in index && Recorded(index, outputs, n)[o] == index[o])
      || exists i {:trigger outputs[i]} :: 0 <= i < n && outputs[i] == (o, Recorded(index, outputs, n)[o])
  {
    if n > 0 && outputs[n - 1].0 != o {
      RecordedFrom(index, outputs, n - 1, o);
    }
  }

  /** Appended outputs are spendable, whatever outpoints they reuse. */
  lemma AppendKeepsSpendable(forest: Forest, index: Index, created: Outputs)
    requires Spendable(forest, index)
    ensures Spendable(Append(forest, Digests(created)), Recorded(index, created, |created|))
  {
    var grown, recorded := Append(forest, Digests(created)), Recorded(index, created, |created|);
    forall o | o in recorded
      ensures Live(UtxoDigest(recorded[o])) in grown
    {
      RecordedFrom(index, created, |created|, o);
      if i {:trigger created[i]} :| 0 <= i < |created| && created[i] == (o, recorded[o]) {
        assert grown[|forest| + i] == Live(Digests(created)[i]);
      } else {
        var p :| 0 <= p < |forest| && forest[p] == Live(UtxoDigest(index[o]));
        assert grown[p] == forest[p];
      }
    }
  }

  /**
   * A block's transparent step never fails where every indexed output can be
   * spent, and it stays so, whether or not a created outpoint was unspent before.
   */
  lemma StepKeepsSpendable(forest: Forest, index: Index, spent: Outputs, created: Outputs)
    requires Spendable(forest, index) && OwnOutPoints(index) && SpentFrom(index, spent)
    ensures TransparentStep(forest, index, spent, created).Ok?
    ensures var after := TransparentStep(forest, index, spent, created).value; Spendable(after.0, after.1)
  {
    DeletionKeepsSpendable(forest, index, spent);
    var deleted := Delete(forest, Digests(spent)).value;
    if spent == [] {
      assert index - Outpoints(spent) == index;
      assert deleted == forest;
    }
    AppendKeepsSpendable(deleted, index - Outpoints(spent), created);
    assert created == [] ==> Append(deleted, Digests(created)) == deleted;
  }

  /** Deleting indexed outputs keeps forest and index in step. */
  lemma DeletionKeepsStep(forest: Forest, index: Index, spent: Outputs)
    requires InStep(forest, index) && OwnOutPoints(index) && SpentFrom(index, spent)
    ensures Delete(forest, Digests(spent)).Ok?
    ensures InStep(Delete(forest, Digests(spent)).value, index - Outpoints(spent))
  {
    DeletionKeepsSpendable(forest, index, spent);
    var targets := Positions(forest, Digests(spent));
    var kept, left := Tombstone(forest, targets), index - Outpoints(spent);
    forall i | 0 <= i < |kept| && kept[i].Live?
      ensures kept[i].digest.UtxoDigest?
      ensures var leaf := kept[i].digest.utxo; OutPointOf(leaf) in left && left[OutPointOf(leaf)] == leaf
    {
      SurvivorIsUnspent(forest, index, spent, i);
    }
  }

  lemma SurvivorIsUnspent(forest: Forest, index: Index, spent: Outputs, i: nat)
    requires InStep(forest, index) && OwnOutPoints(index) && SpentFrom(index, spent)
    requires i < |forest| && forest[i].Live? && i !in Positions(forest, Digests(spent))
    ensures forest[i].digest.UtxoDigest? && OutPointOf(forest[i].digest.utxo) !in Outpoints(spent)
  {
    var o := OutPointOf(forest[i].digest.utxo);
    var targets := Positions(forest, Digests(spent));
    forall k | 0 <= k < |spent|
      ensures spent[k].0 != o
    {
      var digest := UtxoDigest(spent[k].1);
      assert targets[k] == NewestLive(forest, digest);
      assert targets[k] != i;
      assert forall q :: 0 <= q < |forest| && forest[q] == Live(digest) ==> q == targets[k];
    }
  }

  lemma UnspentSurvives(forest: Forest, index: Index, spent: Outputs, o: OutPoint)
    requires Spendable(forest, index) && OwnOutPoints(index) && SpentFrom(index, spent)
    requires o in index && o !in Outpoints(spent) && AllLive(forest, Digests(spent))
    ensures Live(UtxoDigest(index[o])) in Tombstone(forest, Positions(forest, Digests(spent)))
  {
    var targets := Positions(forest, Digests(spent));
    var p :| 0 <= p < |forest| && forest[p] == Live(UtxoDigest(index[o]));
    forall k | 0 <= k < |targets|
      ensures targets[k] != p
    {
      assert spent[k] in spent;
      assert Live(Digests(spent)[k]) in forest;
      assert forest[targets[k]] == Live(UtxoDigest(spent[k].1));
      assert OutPointOf(spent[k].1) == spent[k].0;
    }
    assert Tombstone(forest, targets)[p] == forest[p];
  }

  ghost predicate AllNew(index: Index, created: Outputs) {
    forall i {:trigger created[i]} :: 0 <= i < |created| ==> created[i].0 !in index
  }

  /** Appending new outputs keeps forest and index in step. */
  lemma AppendKeepsStep(forest: Forest, index: Index, created: Outputs)
    requires InStep(forest, index) && OwnOutPoints(index) && WellFormedOutputs(created) && AllNew(index, created)
    ensures InStep(Append(forest, Digests(created)), Recorded(index, created, |created|))
    ensures OwnOutPoints(Recorded(index, created, |created|))
  {
    var grown, recorded, n := Append(forest, Digests(created)), Recorded(index, created, |created|), |forest|;
    RecordedMeaning(index, created, |created|);
    RecordedKeepsOwn(index, created, |created|);
    AppendKeepsSpendable(forest, index, created);
    forall i, j | 0 <= i < j < |grown| && grown[i].Live?
      ensures grown[i] != grown[j]
    {
      AppendedApart(forest, index, created, grown, i, j);
    }
  }

  lemma AppendedApart(forest: Forest, index: Index, created: Outputs, grown: Forest, i: nat, j: nat)
    requires InStep(forest, index) && WellFormedOutputs(created) && AllNew(index, created)
    requires grown == Append(forest, Digests(created))
    requires i < j < |grown| && grown[i].Live?
    ensures grown[i] != grown[j]
  {
    var n := |forest|;
    if j < n {
      assert grown[i] == forest[i] && grown[j] == forest[j];
    } else {
      assert grown[j] == Live(UtxoDigest(created[j - n].1));
      if i < n {
        assert grown[i] == forest[i];
      } else {
        assert grown[i] == Live(UtxoDigest(created[i - n].1));
        assert created[i - n].0 != created[j - n].0;
      }
    }
  }

  /**
   * A block's transparent step never fails on a state in step, and keeps it in
   * step when the created outpoints are new.
   */
  lemma StepKeepsStep(forest: Forest, index: Index, spent: Outputs, created: Outputs)
    requires InStep(forest, index) && OwnOutPoints(index) && SpentFrom(index, spent)
    ensures TransparentStep(forest, index, spent, created).Ok?
    ensures WellFormedOutputs(created) && AllNew(index, created) ==>
      var after := TransparentStep(forest, index, spent, created).value;
      InStep(after.0, after.1) && OwnOutPoints(after.1)
  {
    DeletionKeepsStep(forest, index, spent);
    var deleted := Delete(forest, Digests(spent)).value;
    if spent == [] {
      assert index - Outpoints(spent) == index;
      assert deleted == forest;
    }
    if WellFormedOutputs(created) && AllNew(index, created) {
      AppendKeepsStep(deleted, index - Outpoints(spent), created);
      assert created == [] ==> Append(deleted, Digests(created)) == deleted;
    }
  }

  /** Own outpoints survive any step whose created outputs carry theirs. */
  lemma {:induction false} RecordedKeepsOwn(index: Index, outputs: Outputs, n: nat)
    requires n <= |outputs| && OwnOutPoints(index)
    requires forall i {:trigger outputs[i]} :: 0 <= i < |outputs| ==> OutPointOf(outputs[i].1) == outputs[i].0
    ensures OwnOutPoints(Recorded(index, outputs, n))
  {
    if n > 0 {
      RecordedKeepsOwn(index, outputs, n - 1);
    }
  }
}
