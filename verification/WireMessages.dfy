// The responses a bridge serves: a non-membership proof, a prefix cohort and a
// sorted cohort, each read back exactly.
module WireMessages {
  import opened Wrappers
  import opened Hashing
  import opened Bytes
  import opened ImtProofs
  import opened Wire
  import opened WirePaths

  /** The empty-subtree digests of each pool's tree at a given depth. */
  type Ladders = (PoolId, nat) -> seq<Word>

  function PoolCode(pool: PoolId): Byte {
    match pool case Sprout => 0 case Sapling => 1 case Orchard => 2 case Ironwood => 3
  }

  function ReadPool(s: ByteString): Parsed<PoolId> {
    var code :- ReadByte(s);
    match code.0
    case 0 => Ok((Sprout, code.1))
    case 1 => Ok((Sapling, code.1))
    case 2 => Ok((Orchard, code.1))
    case 3 => Ok((Ironwood, code.1))
    case _ => Err(UnknownPool(code.0))
  }

  method NextPool(reader: Reader) returns (r: Result<PoolId, CodecError>)
    requires reader.Valid()
    modifies reader
    ensures reader.Valid() && Follows(ReadPool(old(reader.Rest())), r, reader.Rest())
  {
    var code :- reader.U8();
    if code == 0 { return Ok(Sprout); }
    if code == 1 { return Ok(Sapling); }
    if code == 2 { return Ok(Orchard); }
    if code == 3 { return Ok(Ironwood); }
    return Err(UnknownPool(code));
  }

  lemma ReadByteBack(b: Byte, rest: ByteString)
    ensures ReadByte([b] + rest) == Ok((b, rest))
  {
    assert ([b] + rest)[1..] == rest;
  }

  lemma ReadPoolBack(pool: PoolId, rest: ByteString)
    ensures ReadPool([PoolCode(pool)] + rest) == Ok((pool, rest))
  {
    ReadByteBack(PoolCode(pool), rest);
  }

  // ---- non-membership responses ----

  datatype NonMembershipResponse = NonMembershipResponse(
    pool: PoolId,
    depth: Byte,
    height: nat,
    lowLeaf: WireLeaf,
    lowLeafIndex: nat,
    siblings: seq<Word>)

  predicate ResponseFits(m: NonMembershipResponse, ladders: Ladders) {
    && ValidDepth(m.depth) && m.height < U32_LIMIT && LeafFits(m.lowLeaf) && m.lowLeafIndex < WIRE_U64
    && PathFits(m.siblings, ladders(m.pool, m.depth))
  }

  function ResponseBytes(m: NonMembershipResponse, ladders: Ladders): ByteString
    requires ValidDepth(m.depth)
  {
    [PoolCode(m.pool)] + ([m.depth] + (ToLE(m.height, 4) + (LeafBytes(m.lowLeaf)
    + (ToLE(m.lowLeafIndex, 8) + SparseBytes(m.siblings, ladders(m.pool, m.depth))))))
  }

  function ReadResponse(s: ByteString, ladders: Ladders): Parsed<NonMembershipResponse> {
    var pool :- ReadPool(s);
    var depth :- ReadByte(pool.1);
    var height :- ReadLE(depth.1, 4);
    var leaf :- ReadLeaf(height.1);
    var index :- ReadLE(leaf.1, 8);
    if !ValidDepth(depth.0) then Err(InvalidTreeDepth)
    else
      var siblings :- ReadSparse(index.1, ladders(pool.0, depth.0));
      Ok((NonMembershipResponse(pool.0, depth.0, height.0, leaf.0, index.0, siblings.0), siblings.1))
  }

  lemma ResponseRoundTrip(m: NonMembershipResponse, ladders: Ladders, rest: ByteString)
    requires ResponseFits(m, ladders)
    ensures ReadResponse(ResponseBytes(m, ladders) + rest, ladders) == Ok((m, rest))
  {
    hide ReadPool, ReadByte, ReadLE, ReadLeaf, ReadSparse, LeafBytes, SparseBytes, ToLE;
    WidthLimits();
    var ladder := ladders(m.pool, m.depth);
    var e := SparseBytes(m.siblings, ladder) + rest;
    var d := ToLE(m.lowLeafIndex, 8) + e;
    var c := LeafBytes(m.lowLeaf) + d;
    var b := ToLE(m.height, 4) + c;
    var a := [m.depth] + b;
    assert ResponseBytes(m, ladders) + rest == [PoolCode(m.pool)] + a;
    ReadPoolBack(m.pool, a);
    ReadByteBack(m.depth, b);
    ReadLEBack(m.height, 4, c);
    ReadLeafBack(m.lowLeaf, d);
    ReadLEBack(m.lowLeafIndex, 8, e);
    SparseRoundTrip(m.siblings, ladder, rest);
  }

  lemma ResponseStable(s: ByteString, ladders: Ladders)
    requires ReadResponse(s, ladders).Ok?
    ensures ResponseFits(ReadResponse(s, ladders).value.0, ladders)
  {
    hide ReadPool, ReadByte, ReadLE, ReadLeaf, ReadSparse;
    WidthLimits();
    var pool := ReadPool(s).value;
    var depth := ReadByte(pool.1).value;
    var height := ReadLE(depth.1, 4).value;
    var leaf := ReadLeaf(height.1).value;
    var index := ReadLE(leaf.1, 8).value;
    ReadLeFits(depth.1, 4);
    ReadLeafFits(height.1);
    ReadLeFits(leaf.1, 8);
    ReadSparseFits(index.1, ladders(pool.0, depth.0));
  }

  method NextResponse(reader: Reader, ladders: Ladders) returns (r: Result<NonMembershipResponse, CodecError>)
    requires reader.Valid()
    modifies reader
    ensures reader.Valid() && Follows(ReadResponse(old(reader.Rest()), ladders), r, reader.Rest())
  {
    hide ReadPool, ReadLE, ReadLeaf, ReadSparse;
    var pool :- NextPool(reader);
    var depth :- reader.U8();
    var height :- reader.LE(4);
    var leaf :- NextLeaf(reader);
    var index :- reader.LE(8);
    if !ValidDepth(depth) {
      return Err(InvalidTreeDepth);
    }
    var siblings :- NextSparse(reader, ladders(pool, depth));
    return Ok(NonMembershipResponse(pool, depth, height, leaf, index, siblings));
  }

  // ---- keyed digests, in the key order of an ordered map ----

  datatype Entry = Entry(level: Byte, index: nat, digest: Word)

  predicate Before(a: Entry, b: Entry) {
    a.level < b.level || (a.level == b.level && a.index < b.index)
  }

  /** An ordered map, as the list of its entries. */
  predicate Ordered(entries: seq<Entry>) {
    forall i, j {:trigger entries[i], entries[j]} :: 0 <= i < j < |entries| ==> Before(entries[i], entries[j])
  }

  predicate IndicesFit(entries: seq<Entry>) {
    forall i {:trigger entries[i]} :: 0 <= i < |entries| ==> entries[i].index < WIRE_U64
  }

  /** Insertion into an ordered map; an existing key is overwritten. */
  function Put(entries: seq<Entry>, e: Entry): seq<Entry> {
    if entries == [] then [e]
    else
      var n := |entries| - 1;
      var last := entries[n];
      if Before(last, e) then entries + [e]
      else if Before(e, last) then Put(entries[..n], e) + [last]
      else entries[..n] + [e]
  }

  lemma {:induction false} PutOrdered(entries: seq<Entry>, e: Entry)
    requires Ordered(entries) && IndicesFit(entries) && e.index < WIRE_U64
    ensures Ordered(Put(entries, e)) && IndicesFit(Put(entries, e))
    ensures |Put(entries, e)| <= |entries| + 1
    ensures forall x :: x in Put(entries, e) ==> x in entries || x == e
  {
    if entries != [] {
      var n := |entries| - 1;
      var last := entries[n];
      if Before(e, last) {
        PutOrdered(entries[..n], e);
        PutBelow(entries, e, Put(entries[..n], e));
      }
    }
  }

  lemma PutBelow(entries: seq<Entry>, e: Entry, front: seq<Entry>)
    requires entries != [] && Ordered(entries) && IndicesFit(entries)
    requires Before(e, entries[|entries| - 1]) && Ordered(front) && IndicesFit(front)
    requires forall x :: x in front ==> x in entries[..|entries| - 1] || x == e
    ensures Ordered(front + [entries[|entries| - 1]]) && IndicesFit(front + [entries[|entries| - 1]])
  {
    forall i | 0 <= i < |front|
      ensures Before(front[i], entries[|entries| - 1])
    {
      assert front[i] in front;
    }
  }

  /** What the delta of entry `k` is taken from: the previous index on the same level, else 0. */
  function Base(entries: seq<Entry>, k: nat): nat
    requires k < |entries|
  {
    if k > 0 && entries[k - 1].level == entries[k].level then entries[k - 1].index else 0
  }

  /** 64-bit wrapping subtraction. */
  function WrappingSub(a: nat, b: nat): nat
    requires b <= a + WIRE_U64
  {
    if b <= a then a - b else a + WIRE_U64 - b
  }

  /** The bytes of entries `k` to `n`. */
  function EntriesBytes(entries: seq<Entry>, k: nat, n: nat): ByteString
    requires k <= n <= |entries| && IndicesFit(entries)
    decreases n - k
  {
    if k == n then []
    else
      [entries[k].level] + (VarintBytes(WrappingSub(entries[k].index, Base(entries, k)))
      + (entries[k].digest + EntriesBytes(entries, k + 1, n)))
  }

  /** Reading `n` entries, given the level and index last read. */
  function ReadEntries(s: ByteString, n: nat, level: Byte, index: nat, done: seq<Entry>): Parsed<seq<Entry>>
    decreases n
  {
    if n == 0 then Ok((done, s))
    else
      var one :- ReadEntry(s, level, index);
      ReadEntries(one.1, n - 1, one.0.level, one.0.index, Put(done, one.0))
  }

  function ReadEntry(s: ByteString, level: Byte, index: nat): Parsed<Entry> {
    var at :- ReadByte(s);
    var delta :- ReadVarint(at.1);
    var here := (if at.0 != level then 0 else index) + delta.0;
    if here >= WIRE_U64 then Err(IndexOverflows)
    else
      var digest :- ReadWord(delta.1);
      Ok((Entry(at.0, here, digest.0), digest.1))
  }

  lemma ReadEntryBack(entries: seq<Entry>, k: nat, level: Byte, index: nat, rest: ByteString)
    requires k < |entries| && Ordered(entries) && IndicesFit(entries)
    requires if k == 0 then level == 0 && index == 0 else level == entries[k - 1].level && index == entries[k - 1].index
    ensures Base(entries, k) <= entries[k].index
    ensures ReadEntry([entries[k].level] +
      (VarintBytes(entries[k].index - Base(entries, k)) + (entries[k].digest + rest)), level, index)
         == Ok((entries[k], rest))
  {
    hide ReadWord, ReadVarint, VarintBytes, Ordered;
    var e, delta := entries[k], entries[k].index - Base(entries, k);
    assert k > 0 ==> Before(entries[k - 1], entries[k]) by {
      OrderedNeighbours(entries, k);
    }
    ReadByteBack(e.level, VarintBytes(delta) + (e.digest + rest));
    VarintRoundTrip(delta, e.digest + rest);
    ReadWordBack(e.digest, rest);
  }

  lemma OrderedNeighbours(entries: seq<Entry>, k: nat)
    requires Ordered(entries) && k < |entries|
    ensures k > 0 ==> Before(entries[k - 1], entries[k])
  {
  }

  /** Ascending entries are appended one by one. */
  lemma PutAppends(entries: seq<Entry>, k: nat)
    requires Ordered(entries) && k < |entries|
    ensures Put(entries[..k], entries[k]) == entries[..k + 1]
  {
    assert k > 0 ==> Before(entries[k - 1], entries[k]);
  }

  lemma EntryFirst(entries: seq<Entry>, k: nat, n: nat, rest: ByteString)
    requires k < n <= |entries| && IndicesFit(entries) && Base(entries, k) <= entries[k].index
    ensures EntriesBytes(entries, k, n) + rest
         == [entries[k].level] + (VarintBytes(entries[k].index - Base(entries, k)) +
           (entries[k].digest + (EntriesBytes(entries, k + 1, n) + rest)))
  {
  }

  lemma {:induction false} EntriesBack(entries: seq<Entry>, k: nat, level: Byte, index: nat, rest: ByteString)
    requires k <= |entries| && Ordered(entries) && IndicesFit(entries)
    requires if k == 0 then level == 0 && index == 0 else level == entries[k - 1].level && index == entries[k - 1].index
    ensures ReadEntries(EntriesBytes(entries, k, |entries|) + rest, |entries| - k, level, index, entries[..k]) ==
      Ok((entries, rest))
    decreases |entries| - k
  {
    hide ReadEntry, Put, Before, Ordered, IndicesFit, VarintBytes, Base;
    if k == |entries| {
      assert EntriesBytes(entries, k, k) + rest == rest && entries[..k] == entries;
    } else {
      var tail := EntriesBytes(entries, k + 1, |entries|) + rest;
      ReadEntryBack(entries, k, level, index, tail);
      EntryFirst(entries, k, |entries|, rest);
      PutAppends(entries, k);
      EntriesBack(entries, k + 1, entries[k].level, entries[k].index, rest);
      hide EntriesBytes;
    }
  }

  lemma {:induction false} EntriesLength(entries: seq<Entry>, k: nat, n: nat)
    requires k <= n <= |entries| && IndicesFit(entries)
    ensures |EntriesBytes(entries, k, n)| >= 34 * (n - k)
    decreases n - k
  {
    if k < n {
      EntriesLength(entries, k + 1, n);
      assert |VarintBytes(WrappingSub(entries[k].index, Base(entries, k)))| >= 1;
    }
  }

  /** Whatever is read is an ordered map of fitting indices, no larger than declared. */
  lemma {:induction false} ReadEntriesFit(s: ByteString, n: nat, level: Byte, index: nat, done: seq<Entry>)
    requires Ordered(done) && IndicesFit(done) && ReadEntries(s, n, level, index, done).Ok?
    ensures var entries := ReadEntries(s, n, level, index, done).value.0;
      Ordered(entries) && IndicesFit(entries) && |entries| <= |done| + n
    decreases n
  {
    hide Put, Ordered, IndicesFit;
    if n > 0 {
      var one := ReadEntry(s, level, index).value;
      hide ReadWord, ReadVarint;
      PutOrdered(done, one.0);
      ReadEntriesFit(one.1, n - 1, one.0.level, one.0.index, Put(done, one.0));
    }
  }

  method WriteEntries(entries: seq<Entry>, n: nat, out: ByteString) returns (grown: ByteString)
    requires n <= |entries| && IndicesFit(entries)
    ensures grown == out + EntriesBytes(entries, 0, n)
  {
    hide VarintBytes;
    grown := out;
    var level: Byte, index: nat := 0, 0;
    for k := 0 to n
      invariant k == 0 ==> level == 0 && index == 0
      invariant k > 0 ==> level == entries[k - 1].level && index == entries[k - 1].index
      invariant grown + EntriesBytes(entries, k, n) == out + EntriesBytes(entries, 0, n)
    {
      var e := entries[k];
      if e.level != level {
        level, index := e.level, 0;
      }
      assert index == Base(entries, k);
      ghost var before := grown;
      grown := WriteVarint(WrappingSub(e.index, index), grown + [e.level]);
      grown := grown + e.digest;
      index := e.index;
      assert grown + EntriesBytes(entries, k + 1, n) == before + EntriesBytes(entries, k, n);
    }
  }

  method NextEntries(reader: Reader, n: nat) returns (r: Result<seq<Entry>, CodecError>)
    requires reader.Valid()
    modifies reader
    ensures reader.Valid() && Follows(ReadEntries(old(reader.Rest()), n, 0, 0, []), r, reader.Rest())
  {
    hide ReadEntry, Put;
    var level: Byte, index: nat, done: seq<Entry> := 0, 0, [];
    for k := 0 to n
      invariant reader.Valid()
      invariant ReadEntries(old(reader.Rest()), n, 0, 0, []) == ReadEntries(reader.Rest(), n - k, level, index, done)
    {
      var one :- NextEntry(reader, level, index);
      level, index := one.level, one.index;
      done := Put(done, one);
    }
    return Ok(done);
  }

  method NextEntry(reader: Reader, level: Byte, index: nat) returns (r: Result<Entry, CodecError>)
    requires reader.Valid()
    modifies reader
    ensures reader.Valid() && Follows(ReadEntry(old(reader.Rest()), level, index), r, reader.Rest())
  {
    hide ReadWord, ReadVarint;
    var at :- reader.U8();
    var base := if at != level then 0 else index;
    var delta :- NextVarint(reader);
    var here := base + delta;
    if here >= WIRE_U64 {
      return Err(IndexOverflows);
    }
    var digest :- reader.Hash32();
    return Ok(Entry(at, here, digest));
  }
}
