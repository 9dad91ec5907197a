// Outpoints in order, and the one listing of an index that follows it.
module KeyOrder {
  import opened Hashing
  import opened Bytes
  import opened Transparent

  // ---- the derived order of outpoints ----

  /** Transaction id first, then the output's place in it. */
  predicate KeyLess(a: OutPoint, b: OutPoint) {
    LexLess(a.txid, b.txid) || (a.txid == b.txid && a.vout < b.vout)
  }

  lemma {:induction false} LexTotal(a: seq<Byte>, b: seq<Byte>)
    ensures a == b || LexLess(a, b) || LexLess(b, a)
    ensures LexLess(a, b) ==> a != b && !LexLess(b, a)
  {
    if a != [] && b != [] {
      LexTotal(a[1..], b[1..]);
      assert a == [a[0]] + a[1..] && b == [b[0]] + b[1..];
    }
  }

  lemma {:induction false} LexTransitive(a: seq<Byte>, b: seq<Byte>, c: seq<Byte>)
    requires LexLess(a, b) && LexLess(b, c)
    ensures LexLess(a, c)
  {
    if a != [] && a[0] == b[0] == c[0] {
      LexTransitive(a[1..], b[1..], c[1..]);
    }
  }

  lemma KeysTotal(a: OutPoint, b: OutPoint)
    ensures a == b || KeyLess(a, b) || KeyLess(b, a)
    ensures KeyLess(a, b) ==> a != b && !KeyLess(b, a)
  {
    LexTotal(a.txid, b.txid);
  }

  lemma KeysTransitive(a: OutPoint, b: OutPoint, c: OutPoint)
    requires KeyLess(a, b) && KeyLess(b, c)
    ensures KeyLess(a, c)
  {
    if LexLess(a.txid, b.txid) && LexLess(b.txid, c.txid) {
      LexTransitive(a.txid, b.txid, c.txid);
    }
  }

  ghost predicate IsLeast(o: OutPoint, keys: set<OutPoint>) {
    o in keys && forall p {:trigger p in keys} :: p in keys ==> p == o || KeyLess(o, p)
  }

  // ---- listings ----

  /** `outputs` lists the index, each entry once. */
  ghost predicate ListsIndex(outputs: Outputs, index: Index) {
    && (forall i {:trigger outputs[i]} :: 0 <= i < |outputs| ==>
      outputs[i].0 in index && index[outputs[i].0] == outputs[i].1)
    && (forall i, j {:trigger outputs[i], outputs[j]} :: 0 <= i < j < |outputs| ==> outputs[i].0 != outputs[j].0)
    && forall o :: o in index ==> exists i {:trigger outputs[i]} :: 0 <= i < |outputs| && outputs[i].0 == o
  }

  /** Keys ascend. */
  ghost predicate InKeyOrder(outputs: Outputs) {
    forall i, j {:trigger outputs[i], outputs[j]} :: 0 <= i < j < |outputs| ==> KeyLess(outputs[i].0, outputs[j].0)
  }

  lemma ListedKeys(outputs: Outputs, index: Index)
    requires ListsIndex(outputs, index)
    ensures Outpoints(outputs) == index.Keys
  {
    forall o | o in index
      ensures o in Outpoints(outputs)
    {
      var i :| 0 <= i < |outputs| && outputs[i].0 == o;
      assert outputs[i] in outputs;
    }
  }

  lemma ListedEntries(outputs: Outputs, index: Index, o: OutPoint)
    requires ListsIndex(outputs, index)
    ensures var recorded := Recorded(map[], outputs, |outputs|);
      (o in recorded <==> o in index) && (o in index ==> recorded[o] == index[o])
  {
    RecordedMeaning(map[], outputs, |outputs|);
    if o in index {
      var i :| 0 <= i < |outputs| && outputs[i].0 == o;
    }
  }

  /** A listing is as long as the index, and recording it gives the index. */
  lemma ListingIsIndex(outputs: Outputs, index: Index)
    requires ListsIndex(outputs, index)
    ensures |outputs| == |index| && Recorded(map[], outputs, |outputs|) == index
  {
    ListedKeys(outputs, index);
    DistinctKeys(outputs);
    assert |index.Keys| == |index|;
    forall o: OutPoint
      ensures var recorded := Recorded(map[], outputs, |outputs|);
        (o in recorded <==> o in index) && (o in index ==> recorded[o] == index[o])
    {
      ListedEntries(outputs, index, o);
    }
    hide ListsIndex, Recorded, Outpoints;
  }

  lemma {:induction false} DistinctKeys(outputs: Outputs)
    requires forall i, j {:trigger outputs[i], outputs[j]} :: 0 <= i < j < |outputs| ==> outputs[i].0 != outputs[j].0
    ensures |Outpoints(outputs)| == |outputs|
  {
    if outputs != [] {
      var n := |outputs| - 1;
      var front, last := outputs[..n], outputs[n];
      DistinctKeys(front);
      assert forall x :: x in outputs <==> x in front || x == last;
      assert Outpoints(outputs) == Outpoints(front) + {last.0};
      assert last.0 !in Outpoints(front);
    }
  }

  /** A listing in key order. */
  ghost predicate ListsInOrder(outputs: Outputs, index: Index) {
    ListsIndex(outputs, index) && InKeyOrder(outputs)
  }

  lemma ListsNothing(outputs: Outputs, index: Index)
    requires ListsInOrder(outputs, index)
    ensures outputs == [] <==> index.Keys == {}
  {
    ListingIsIndex(outputs, index);
  }

  /** It starts with the least key and goes on with a listing of the rest. */
  lemma ListingSplits(outputs: Outputs, index: Index)
    requires ListsInOrder(outputs, index) && outputs != []
    ensures var o := outputs[0].0;
      IsLeast(o, index.Keys) && outputs[0] == (o, index[o]) && ListsInOrder(outputs[1..], index - {o})
  {
    var o, rest := outputs[0].0, outputs[1..];
    forall p | p in index && p != o
      ensures KeyLess(o, p) && exists i {:trigger rest[i]} :: 0 <= i < |rest| && rest[i].0 == p
    {
      var i :| 0 <= i < |outputs| && outputs[i].0 == p;
      assert outputs[0].0 == o && rest[i - 1] == outputs[i];
    }
  }

  lemma OneLeast(o: OutPoint, p: OutPoint, keys: set<OutPoint>)
    requires IsLeast(o, keys) && IsLeast(p, keys)
    ensures o == p
  {
    KeysTotal(o, p);
  }

  /** An index has no more than one listing in key order. */
  lemma {:induction false} OneListing(a: Outputs, b: Outputs, index: Index)
    requires ListsInOrder(a, index) && ListsInOrder(b, index)
    ensures a == b
    decreases |a|
  {
    hide *;
    ListsNothing(a, index);
    ListsNothing(b, index);
    if a != [] {
      ListingSplits(a, index);
      ListingSplits(b, index);
      OneLeast(a[0].0, b[0].0, index.Keys);
      OneListing(a[1..], b[1..], index - {a[0].0});
      assert a == [a[0]] + a[1..] && b == [b[0]] + b[1..];
    }
  }

  // ---- the walk in key order ----

  method LeastKey(keys: set<OutPoint>) returns (o: OutPoint)
    requires keys != {}
    ensures IsLeast(o, keys)
  {
    o :| o in keys;
    var rest := keys - {o};
    while rest != {}
      decreases rest
      invariant rest < keys && IsLeast(o, keys - rest)
    {
      var p :| p in rest;
      KeysTotal(o, p);
      if KeyLess(p, o) {
        LesserIsLeast(o, p, keys - rest);
        o := p;
      }
      assert keys - (rest - {p}) == keys - rest + {p};
      rest := rest - {p};
    }
    assert keys - {} == keys;
  }

  lemma LesserIsLeast(o: OutPoint, p: OutPoint, keys: set<OutPoint>)
    requires IsLeast(o, keys) && KeyLess(p, o)
    ensures IsLeast(p, keys + {p})
  {
    forall q | q in keys
      ensures KeyLess(p, q)
    {
      if q != o {
        KeysTransitive(p, o, q);
      }
    }
  }

  /** Everything is listed but `rest`, whose keys are all greater. */
  ghost predicate ListedUpTo(outputs: Outputs, index: Index, rest: set<OutPoint>) {
    && rest <= index.Keys && ListsIndex(outputs, index - rest) && InKeyOrder(outputs)
    && forall o, p {:trigger o in rest, p in rest} :: o in index && o !in rest && p in rest ==> KeyLess(o, p)
  }

  lemma ListOneMore(outputs: Outputs, index: Index, rest: set<OutPoint>, o: OutPoint)
    requires ListedUpTo(outputs, index, rest) && IsLeast(o, rest)
    ensures ListedUpTo(outputs + [(o, index[o])], index, rest - {o})
  {
    var grown, left := outputs + [(o, index[o])], index - (rest - {o});
    forall p | p in left
      ensures exists i {:trigger grown[i]} :: 0 <= i < |grown| && grown[i].0 == p
    {
      if p == o {
        assert grown[|outputs|].0 == p;
      } else {
        assert p in index - rest;
        var i :| 0 <= i < |outputs| && outputs[i].0 == p;
        assert grown[i] == outputs[i];
      }
    }
  }

  /** Every index has a listing in key order. */
  method ListOutputs(index: Index) returns (outputs: Outputs)
    ensures ListsInOrder(outputs, index)
  {
    outputs := [];
    var rest := index.Keys;
    while rest != {}
      decreases rest
      invariant ListedUpTo(outputs, index, rest)
    {
      var o := LeastKey(rest);
      ListOneMore(outputs, index, rest, o);
      outputs := outputs + [(o, index[o])];
      rest := rest - {o};
    }
    assert index - {} == index;
  }
}
