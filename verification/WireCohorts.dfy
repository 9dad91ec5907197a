// The two cohort messages: scattered leaves with delta-coded positions, and a
// run of raw values. Declared counts are checked against the input left.
module WireCohorts {
  import opened Wrappers
  import opened Hashing
  import opened Bytes
  import opened Prefix
  import opened Wire
  import opened WirePaths
  import opened WireMessages

  const WIRE_SORTED_DEPTH: nat := 32

  function WordValue(w: Word): Value {
    Pow256At32();
    FromBEBound(w);
    FromBE(w)
  }

  /** The bound and width a cohort may carry: a valid width, and a bound aligned to it. */
  function CheckRange(lo: Word, bits: Byte): Result<(), CodecError> {
    if !ValidBits(bits) then Err(InvalidPrefixWidth)
    else if CoveringOf(WordValue(lo), bits).lo != WordValue(lo) then Err(UnalignedBound)
    else Ok(())
  }

  method RangeChecked(lo: Word, bits: Byte) returns (r: Result<(), CodecError>)
    ensures r == CheckRange(lo, bits)
  {
    var range := Covering(lo, bits);
    if range.Err? {
      return Err(InvalidPrefixWidth);
    }
    if range.value.0 != lo {
      ToBEFromBE(range.value.0);
      ToBEFromBE(lo);
      return Err(UnalignedBound);
    }
    return Ok(());
  }

  /** A count as it is written: 32 bits, saturating. */
  function Count32(n: nat): (c: nat)
    ensures c <= n && c < U32_LIMIT
  {
    if n < U32_LIMIT then n else U32_LIMIT - 1
  }

  function Count16(n: nat): (c: nat)
    ensures c <= n && c < U16_LIMIT
  {
    if n < U16_LIMIT then n else U16_LIMIT - 1
  }

  // ---- leaves with their positions ----

  type PlacedLeaves = seq<(nat, WireLeaf)>

  function LastIndex(leaves: PlacedLeaves, k: nat): nat
    requires k <= |leaves|
  {
    if k == 0 then 0 else leaves[k - 1].0
  }

  predicate PlacesFit(leaves: PlacedLeaves) {
    forall i {:trigger leaves[i]} :: 0 <= i < |leaves| ==> leaves[i].0 < WIRE_U64 && LeafFits(leaves[i].1)
  }

  /** Positions do not descend; the format itself allows a repeat. */
  predicate Climbing(leaves: PlacedLeaves) {
    forall i, j {:trigger leaves[i], leaves[j]} :: 0 <= i < j < |leaves| ==> leaves[i].0 <= leaves[j].0
  }

  function LeavesBytes(leaves: PlacedLeaves, k: nat, n: nat): ByteString
    requires k <= n <= |leaves| && PlacesFit(leaves)
    decreases n - k
  {
    if k == n then []
    else
      VarintBytes(WrappingSub(leaves[k].0, LastIndex(leaves, k)))
      + (LeafBytes(leaves[k].1) + LeavesBytes(leaves, k + 1, n))
  }

  function ReadPlaced(s: ByteString, previous: nat): Parsed<(nat, WireLeaf)> {
    var delta :- ReadVarint(s);
    if previous + delta.0 >= WIRE_U64 then Err(IndexOverflows)
    else
      var leaf :- ReadLeaf(delta.1);
      Ok(((previous + delta.0, leaf.0), leaf.1))
  }

  function ReadLeaves(s: ByteString, n: nat, previous: nat, done: PlacedLeaves): Parsed<PlacedLeaves>
    decreases n
  {
    if n == 0 then Ok((done, s))
    else
      var one :- ReadPlaced(s, previous);
      ReadLeaves(one.1, n - 1, one.0.0, done + [one.0])
  }

  lemma ReadPlacedBack(leaves: PlacedLeaves, k: nat, rest: ByteString)
    requires k < |leaves| && PlacesFit(leaves) && Climbing(leaves)
    ensures LastIndex(leaves, k) <= leaves[k].0
    ensures ReadPlaced(VarintBytes(leaves[k].0 - LastIndex(leaves, k)) + (LeafBytes(leaves[k].1) + rest),
      LastIndex(leaves, k)) == Ok((leaves[k], rest))
  {
    hide ReadVarint, VarintBytes, ReadLeaf, LeafBytes;
    assert k > 0 ==> leaves[k - 1].0 <= leaves[k].0;
    VarintRoundTrip(leaves[k].0 - LastIndex(leaves, k), LeafBytes(leaves[k].1) + rest);
    ReadLeafBack(leaves[k].1, rest);
  }

  lemma LeafFirst(leaves: PlacedLeaves, k: nat, n: nat, rest: ByteString)
    requires k < n <= |leaves| && PlacesFit(leaves) && LastIndex(leaves, k) <= leaves[k].0
    ensures LeavesBytes(leaves, k, n) + rest
         == VarintBytes(leaves[k].0 - LastIndex(leaves, k)) +
           (LeafBytes(leaves[k].1) + (LeavesBytes(leaves, k + 1, n) + rest))
  {
  }

  lemma {:induction false} LeavesBack(leaves: PlacedLeaves, k: nat, rest: ByteString)
    requires k <= |leaves| && PlacesFit(leaves) && Climbing(leaves)
    ensures ReadLeaves(LeavesBytes(leaves, k, |leaves|) + rest, |leaves| - k, LastIndex(leaves, k), leaves[..k]) ==
      Ok((leaves, rest))
    decreases |leaves| - k
  {
    hide ReadPlaced, Climbing, PlacesFit, VarintBytes, LeafBytes;
    if k == |leaves| {
      assert LeavesBytes(leaves, k, k) + rest == rest && leaves[..k] == leaves;
    } else {
      ReadPlacedBack(leaves, k, LeavesBytes(leaves, k + 1, |leaves|) + rest);
      LeafFirst(leaves, k, |leaves|, rest);
      LeavesBack(leaves, k + 1, rest);
      assert leaves[..k + 1] == leaves[..k] + [leaves[k]];
      hide LeavesBytes;
    }
  }

  lemma {:induction false} LeavesLength(leaves: PlacedLeaves, k: nat, n: nat)
    requires k <= n <= |leaves| && PlacesFit(leaves)
    ensures |LeavesBytes(leaves, k, n)| >= 73 * (n - k)
    decreases n - k
  {
    if k < n {
      LeavesLength(leaves, k + 1, n);
      assert |VarintBytes(WrappingSub(leaves[k].0, LastIndex(leaves, k)))| >= 1;
    }
  }

  lemma ReadPlacedFits(s: ByteString, previous: nat)
    requires ReadPlaced(s, previous).Ok?
    ensures previous <= ReadPlaced(s, previous).value.0.0 < WIRE_U64 && LeafFits(ReadPlaced(s, previous).value.0.1)
  {
    hide ReadVarint, ReadLeaf;
    ReadLeafFits(ReadVarint(s).value.1);
  }

  lemma {:induction false} ReadLeavesFit(s: ByteString, n: nat, previous: nat, done: PlacedLeaves)
    requires PlacesFit(done) && Climbing(done) && previous == LastIndex(done, |done|)
    requires ReadLeaves(s, n, previous, done).Ok?
    ensures var leaves := ReadLeaves(s, n, previous, done).value.0;
      PlacesFit(leaves) && Climbing(leaves) && |leaves| == |done| + n
    decreases n
  {
    hide ReadPlaced;
    if n > 0 {
      var one := ReadPlaced(s, previous).value;
      ReadPlacedFits(s, previous);
      var grown := done + [one.0];
      forall i | 0 <= i < |done|
        ensures done[i].0 <= one.0.0
      {
        assert i < |done| - 1 ==> done[i].0 <= done[|done| - 1].0;
      }
      assert PlacesFit(grown) && Climbing(grown);
      hide PlacesFit, Climbing;
      ReadLeavesFit(one.1, n - 1, one.0.0, grown);
    }
  }

  method WriteLeaves(leaves: PlacedLeaves, n: nat, out: ByteString) returns (grown: ByteString)
    requires n <= |leaves| && PlacesFit(leaves)
    ensures grown == out + LeavesBytes(leaves, 0, n)
  {
    hide VarintBytes, LeafBytes;
    grown := out;
    var previous: nat := 0;
    for k := 0 to n
      invariant previous == LastIndex(leaves, k)
      invariant grown + LeavesBytes(leaves, k, n) == out + LeavesBytes(leaves, 0, n)
    {
      ghost var before := grown;
      var (index, leaf) := leaves[k];
      grown := WriteVarint(WrappingSub(index, previous), grown);
      grown := grown + LeafBytes(leaf);
      previous := index;
      assert grown + LeavesBytes(leaves, k + 1, n) == before + LeavesBytes(leaves, k, n);
    }
  }

  method NextLeaves(reader: Reader, n: nat) returns (r: Result<PlacedLeaves, CodecError>)
    requires reader.Valid()
    modifies reader
    ensures reader.Valid() && Follows(ReadLeaves(old(reader.Rest()), n, 0, []), r, reader.Rest())
  {
    hide ReadVarint, ReadLeaf;
    var previous: nat, done: PlacedLeaves := 0, [];
    for k := 0 to n
      invariant reader.Valid()
      invariant ReadLeaves(old(reader.Rest()), n, 0, []) == ReadLeaves(reader.Rest(), n - k, previous, done)
    {
      var delta :- NextVarint(reader);
      var index := previous + delta;
      if index >= WIRE_U64 {
        return Err(IndexOverflows);
      }
      var leaf :- NextLeaf(reader);
      previous := index;
      done := done + [(index, leaf)];
    }
    return Ok(done);
  }

  // ---- the insertion-ordered cohort ----

  datatype CohortMessage = CohortMessage(
    pool: PoolId,
    depth: Byte,
    bits: Byte,
    lo: Word,
    height: nat,
    leaves: PlacedLeaves,
    nodes: seq<Entry>)

  predicate CohortFits(m: CohortMessage) {
    && CheckRange(m.lo, m.bits).Ok? && m.height < U32_LIMIT
    && |m.leaves| < U32_LIMIT && PlacesFit(m.leaves) && Climbing(m.leaves)
    && |m.nodes| < U32_LIMIT && Ordered(m.nodes) && IndicesFit(m.nodes)
  }

  function CohortBytes(m: CohortMessage): ByteString
    requires PlacesFit(m.leaves) && IndicesFit(m.nodes)
  {
    [PoolCode(m.pool)] + ([m.depth] + ([m.bits] + (m.lo + (ToLE(m.height, 4) + CohortBody(m.leaves, m.nodes)))))
  }

  function CohortBody(leaves: PlacedLeaves, nodes: seq<Entry>): ByteString
    requires PlacesFit(leaves) && IndicesFit(nodes)
  {
    var n, k := Count32(|leaves|), Count32(|nodes|);
    ToLE(n, 4) + (LeavesBytes(leaves, 0, n) + (ToLE(k, 4) + EntriesBytes(nodes, 0, k)))
  }

  function ReadCohort(s: ByteString): Parsed<CohortMessage> {
    var pool :- ReadPool(s);
    var depth :- ReadByte(pool.1);
    var bits :- ReadByte(depth.1);
    var lo :- ReadWord(bits.1);
    var height :- ReadLE(lo.1, 4);
    var _ :- CheckRange(lo.0, bits.0);
    var body :- ReadCohortBody(height.1);
    Ok((CohortMessage(pool.0, depth.0, bits.0, lo.0, height.0, body.0.0, body.0.1), body.1))
  }

  function ReadCohortBody(s: ByteString): Parsed<(PlacedLeaves, seq<Entry>)> {
    var leafCount :- ReadLE(s, 4);
    if leafCount.0 > |leafCount.1| / 73 then Err(TooManyDeclared)
    else
      var leaves :- ReadLeaves(leafCount.1, leafCount.0, 0, []);
      var nodes :- ReadCounted(leaves.1, 4);
      Ok(((leaves.0, nodes.0), nodes.1))
  }

  /** A count of `width` bytes, checked against the input left, then that many entries. */
  function ReadCounted(s: ByteString, width: nat): Parsed<seq<Entry>> {
    var count :- ReadLE(s, width);
    if count.0 > |count.1| / 34 then Err(TooManyDeclared) else ReadEntries(count.1, count.0, 0, 0, [])
  }

  lemma CountedBack(entries: seq<Entry>, width: nat, rest: ByteString)
    requires |entries| < Pow256(width) && Ordered(entries) && IndicesFit(entries)
    ensures ReadCounted(ToLE(|entries|, width) + (EntriesBytes(entries, 0, |entries|) + rest), width) ==
      Ok((entries, rest))
  {
    hide EntriesBytes, ReadEntries;
    ReadLEBack(|entries|, width, EntriesBytes(entries, 0, |entries|) + rest);
    EntriesLength(entries, 0, |entries|);
    EntriesBack(entries, 0, 0, 0, rest);
    assert entries[..0] == [];
  }

  lemma CohortBodyBack(leaves: PlacedLeaves, nodes: seq<Entry>, rest: ByteString)
    requires |leaves| < U32_LIMIT && PlacesFit(leaves) && Climbing(leaves)
    requires |nodes| < U32_LIMIT && Ordered(nodes) && IndicesFit(nodes)
    ensures ReadCohortBody(CohortBody(leaves, nodes) + rest) == Ok(((leaves, nodes), rest))
  {
    hide EntriesBytes, LeavesBytes, ReadLeaves, ReadCounted, ToLE;
    WidthLimits();
    var b := ToLE(|nodes|, 4) + (EntriesBytes(nodes, 0, |nodes|) + rest);
    var a := LeavesBytes(leaves, 0, |leaves|) + b;
    assert CohortBody(leaves, nodes) + rest == ToLE(|leaves|, 4) + a;
    ReadLEBack(|leaves|, 4, a);
    LeavesLength(leaves, 0, |leaves|);
    LeavesBack(leaves, 0, b);
    assert leaves[..0] == [];
    CountedBack(nodes, 4, rest);
  }

  /** A well-formed cohort survives the wire: no count guard fires and no byte is left over or eaten. */
  lemma CohortRoundTrip(m: CohortMessage, rest: ByteString)
    requires CohortFits(m)
    ensures ReadCohort(CohortBytes(m) + rest) == Ok((m, rest))
  {
    hide ReadPool, ReadByte, ReadWord, ReadLE, CheckRange, ReadCohortBody, CohortBody, ToLE;
    WidthLimits();
    var e := CohortBody(m.leaves, m.nodes) + rest;
    var d := ToLE(m.height, 4) + e;
    var c := m.lo + d;
    var b := [m.bits] + c;
    var a := [m.depth] + b;
    assert CohortBytes(m) + rest == [PoolCode(m.pool)] + a;
    ReadPoolBack(m.pool, a);
    ReadByteBack(m.depth, b);
    ReadByteBack(m.bits, c);
    ReadWordBack(m.lo, d);
    ReadLEBack(m.height, 4, e);
    CohortBodyBack(m.leaves, m.nodes, rest);
  }

  lemma CountedFits(s: ByteString, width: nat)
    requires ReadCounted(s, width).Ok?
    ensures var entries := ReadCounted(s, width).value.0;
      Ordered(entries) && IndicesFit(entries) && |entries| < Pow256(width)
  {
    hide ReadEntries;
    var count := ReadLE(s, width).value;
    ReadLeFits(s, width);
    ReadEntriesFit(count.1, count.0, 0, 0, []);
  }

  lemma CohortBodyFits(s: ByteString)
    requires ReadCohortBody(s).Ok?
    ensures var (leaves, nodes) := ReadCohortBody(s).value.0;
      && |leaves| < U32_LIMIT && PlacesFit(leaves) && Climbing(leaves)
      && |nodes| < U32_LIMIT && Ordered(nodes) && IndicesFit(nodes)
  {
    hide ReadLeaves, ReadCounted, ReadLE;
    WidthLimits();
    var leafCount := ReadLE(s, 4).value;
    var leaves := ReadLeaves(leafCount.1, leafCount.0, 0, []).value;
    ReadLeFits(s, 4);
    ReadLeavesFit(leafCount.1, leafCount.0, 0, []);
    CountedFits(leaves.1, 4);
  }

  /** Whatever is read is a well-formed cohort. */
  lemma CohortStable(s: ByteString)
    requires ReadCohort(s).Ok?
    ensures CohortFits(ReadCohort(s).value.0)
  {
    hide ReadPool, ReadByte, ReadWord, ReadLE, CheckRange, ReadCohortBody;
    WidthLimits();
    var pool := ReadPool(s).value;
    var depth := ReadByte(pool.1).value;
    var bits := ReadByte(depth.1).value;
    var lo := ReadWord(bits.1).value;
    var height := ReadLE(lo.1, 4).value;
    ReadLeFits(lo.1, 4);
    CohortBodyFits(height.1);
  }

  method WriteCohort(m: CohortMessage, out: ByteString) returns (grown: ByteString)
    requires PlacesFit(m.leaves) && IndicesFit(m.nodes)
    ensures grown == out + CohortBytes(m)
  {
    hide LeavesBytes, EntriesBytes, ToLE;
    grown := out + [PoolCode(m.pool)] + [m.depth] + [m.bits] + m.lo + ToLE(m.height, 4);
    ghost var head := grown;
    assert out + CohortBytes(m) == head + CohortBody(m.leaves, m.nodes);
    var leafCount := Count32(|m.leaves|);
    grown := WriteLeaves(m.leaves, leafCount, grown + ToLE(leafCount, 4));
    var nodeCount := Count32(|m.nodes|);
    grown := WriteEntries(m.nodes, nodeCount, grown + ToLE(nodeCount, 4));
  }

  method NextCounted(reader: Reader, width: nat) returns (r: Result<seq<Entry>, CodecError>)
    requires reader.Valid()
    modifies reader
    ensures reader.Valid() && Follows(ReadCounted(old(reader.Rest()), width), r, reader.Rest())
  {
    hide ReadEntries, ReadLE;
    var count :- reader.LE(width);
    if count > reader.Remaining() / 34 {
      return Err(TooManyDeclared);
    }
    r := NextEntries(reader, count);
  }

  method NextCohort(reader: Reader) returns (r: Result<CohortMessage, CodecError>)
    requires reader.Valid()
    modifies reader
    ensures reader.Valid() && Follows(ReadCohort(old(reader.Rest())), r, reader.Rest())
  {
    hide ReadPool, ReadWord, ReadLE, CheckRange, ReadCohortBody;
    var pool :- NextPool(reader);
    var depth :- reader.U8();
    var bits :- reader.U8();
    var lo :- reader.Hash32();
    var height :- reader.LE(4);
    var range := RangeChecked(lo, bits);
    if range.Err? {
      return Err(range.error);
    }
    var body :- NextCohortBody(reader);
    return Ok(CohortMessage(pool, depth, bits, lo, height, body.0, body.1));
  }

  method NextCohortBody(reader: Reader) returns (r: Result<(PlacedLeaves, seq<Entry>), CodecError>)
    requires reader.Valid()
    modifies reader
    ensures reader.Valid() && Follows(ReadCohortBody(old(reader.Rest())), r, reader.Rest())
  {
    hide ReadLeaves, ReadCounted, ReadLE;
    var leafCount :- reader.LE(4);
    if leafCount > reader.Remaining() / 73 {
      return Err(TooManyDeclared);
    }
    var leaves :- NextLeaves(reader, leafCount);
    var nodes :- NextCounted(reader, 4);
    return Ok((leaves, nodes));
  }

  // ---- the value-ordered cohort ----

  datatype SortedMessage = SortedMessage(
    pool: PoolId,
    depth: Byte,
    bits: Byte,
    lo: Word,
    height: nat,
    leafCount: nat,
    startIndex: nat,
    values: seq<Word>,
    siblings: seq<Entry>)

  predicate SortedFits(m: SortedMessage) {
    && m.depth <= WIRE_SORTED_DEPTH && CheckRange(m.lo, m.bits).Ok? && m.height < U32_LIMIT
    && m.leafCount < WIRE_U64 && m.startIndex < WIRE_U64 && |m.values| < U32_LIMIT
    && |m.siblings| < U16_LIMIT && Ordered(m.siblings) && IndicesFit(m.siblings)
  }

  function ValuesBytes(values: seq<Word>, k: nat, n: nat): (s: ByteString)
    requires k <= n <= |values|
    ensures |s| == 32 * (n - k)
    decreases n - k
  {
    if k == n then [] else values[k] + ValuesBytes(values, k + 1, n)
  }

  function ReadValues(s: ByteString, n: nat, done: seq<Word>): Parsed<seq<Word>>
    decreases n
  {
    if n == 0 then Ok((done, s))
    else
      var one :- ReadWord(s);
      ReadValues(one.1, n - 1, done + [one.0])
  }

  lemma {:induction false} ValuesBack(values: seq<Word>, k: nat, rest: ByteString)
    requires k <= |values|
    ensures ReadValues(ValuesBytes(values, k, |values|) + rest, |values| - k, values[..k]) == Ok((values, rest))
    decreases |values| - k
  {
    hide ReadWord;
    if k == |values| {
      assert ValuesBytes(values, k, k) + rest == rest && values[..k] == values;
    } else {
      var tail := ValuesBytes(values, k + 1, |values|) + rest;
      assert ValuesBytes(values, k, |values|) + rest == values[k] + tail;
      ReadWordBack(values[k], tail);
      ValuesBack(values, k + 1, rest);
      assert values[..k + 1] == values[..k] + [values[k]];
    }
  }

  lemma {:induction false} ReadValuesCount(s: ByteString, n: nat, done: seq<Word>)
    requires ReadValues(s, n, done).Ok?
    ensures |ReadValues(s, n, done).value.0| == |done| + n
    decreases n
  {
    if n > 0 {
      var one := ReadWord(s).value;
      ReadValuesCount(one.1, n - 1, done + [one.0]);
    }
  }

  function SortedBody(values: seq<Word>, siblings: seq<Entry>): ByteString
    requires IndicesFit(siblings)
  {
    var n, k := Count32(|values|), Count16(|siblings|);
    ToLE(n, 4) + (ValuesBytes(values, 0, n) + (ToLE(k, 2) + EntriesBytes(siblings, 0, k)))
  }

  function SortedBytes(m: SortedMessage): ByteString
    requires IndicesFit(m.siblings)
  {
    [PoolCode(m.pool)] + ([m.depth] + ([m.bits] + (m.lo + (ToLE(m.height, 4) + (ToLE(m.leafCount, 8)
    + (ToLE(m.startIndex, 8) + SortedBody(m.values, m.siblings)))))))
  }

  function ReadSortedBody(s: ByteString): Parsed<(seq<Word>, seq<Entry>)> {
    var count :- ReadLE(s, 4);
    if count.0 > |count.1| / 32 then Err(TooManyDeclared)
    else
      var values :- ReadValues(count.1, count.0, []);
      var siblings :- ReadCounted(values.1, 2);
      Ok(((values.0, siblings.0), siblings.1))
  }

  function ReadSorted(s: ByteString): Parsed<SortedMessage> {
    var pool :- ReadPool(s);
    var depth :- ReadByte(pool.1);
    if depth.0 > WIRE_SORTED_DEPTH then Err(DepthTooLarge)
    else
      var bits :- ReadByte(depth.1);
      var lo :- ReadWord(bits.1);
      var height :- ReadLE(lo.1, 4);
      var leafCount :- ReadLE(height.1, 8);
      var start :- ReadLE(leafCount.1, 8);
      var _ :- CheckRange(lo.0, bits.0);
      var body :- ReadSortedBody(start.1);
      Ok((SortedMessage(pool.0, depth.0, bits.0, lo.0, height.0, leafCount.0, start.0, body.0.0, body.0.1), body.1))
  }

  lemma SortedBodyBack(values: seq<Word>, siblings: seq<Entry>, rest: ByteString)
    requires |values| < U32_LIMIT && |siblings| < U16_LIMIT && Ordered(siblings) && IndicesFit(siblings)
    ensures ReadSortedBody(SortedBody(values, siblings) + rest) == Ok(((values, siblings), rest))
  {
    hide EntriesBytes, ValuesBytes, ReadValues, ReadCounted, ToLE;
    WidthLimits();
    var b := ToLE(|siblings|, 2) + (EntriesBytes(siblings, 0, |siblings|) + rest);
    var a := ValuesBytes(values, 0, |values|) + b;
    assert SortedBody(values, siblings) + rest == ToLE(|values|, 4) + a;
    ReadLEBack(|values|, 4, a);
    ValuesBack(values, 0, b);
    assert values[..0] == [];
    CountedBack(siblings, 2, rest);
  }

  lemma SortedRoundTrip(m: SortedMessage, rest: ByteString)
    requires SortedFits(m)
    ensures ReadSorted(SortedBytes(m) + rest) == Ok((m, rest))
  {
    hide ReadPool, ReadByte, ReadWord, ReadLE, CheckRange, ReadSortedBody, SortedBody, ToLE;
    WidthLimits();
    var g := SortedBody(m.values, m.siblings) + rest;
    var f := ToLE(m.startIndex, 8) + g;
    var e := ToLE(m.leafCount, 8) + f;
    var d := ToLE(m.height, 4) + e;
    var c := m.lo + d;
    var b := [m.bits] + c;
    var a := [m.depth] + b;
    assert SortedBytes(m) + rest == [PoolCode(m.pool)] + a;
    ReadPoolBack(m.pool, a);
    ReadByteBack(m.depth, b);
    ReadByteBack(m.bits, c);
    ReadWordBack(m.lo, d);
    ReadLEBack(m.height, 4, e);
    ReadLEBack(m.leafCount, 8, f);
    ReadLEBack(m.startIndex, 8, g);
    SortedBodyBack(m.values, m.siblings, rest);
  }

  lemma SortedBodyFits(s: ByteString)
    requires ReadSortedBody(s).Ok?
    ensures var (values, siblings) := ReadSortedBody(s).value.0;
      |values| < U32_LIMIT && |siblings| < U16_LIMIT && Ordered(siblings) && IndicesFit(siblings)
  {
    hide ReadValues, ReadCounted, ReadLE;
    WidthLimits();
    var count := ReadLE(s, 4).value;
    var values := ReadValues(count.1, count.0, []).value;
    ReadLeFits(s, 4);
    ReadValuesCount(count.1, count.0, []);
    CountedFits(values.1, 2);
  }

  lemma SortedStable(s: ByteString)
    requires ReadSorted(s).Ok?
    ensures SortedFits(ReadSorted(s).value.0)
  {
    hide ReadPool, ReadByte, ReadWord, ReadLE, CheckRange, ReadSortedBody;
    WidthLimits();
    var pool := ReadPool(s).value;
    var depth := ReadByte(pool.1).value;
    var bits := ReadByte(depth.1).value;
    var lo := ReadWord(bits.1).value;
    var height := ReadLE(lo.1, 4).value;
    var leafCount := ReadLE(height.1, 8).value;
    var start := ReadLE(leafCount.1, 8).value;
    ReadLeFits(lo.1, 4);
    ReadLeFits(height.1, 8);
    ReadLeFits(leafCount.1, 8);
    SortedBodyFits(start.1);
  }

  method WriteSorted(m: SortedMessage, out: ByteString) returns (grown: ByteString)
    requires IndicesFit(m.siblings)
    ensures grown == out + SortedBytes(m)
  {
    hide EntriesBytes, ToLE;
    grown := out + [PoolCode(m.pool)] + [m.depth] + [m.bits] + m.lo + ToLE(m.height, 4) + ToLE(m.leafCount, 8) +
      ToLE(m.startIndex, 8);
    ghost var head := grown;
    assert out + SortedBytes(m) == head + SortedBody(m.values, m.siblings);
    var valueCount := Count32(|m.values|);
    grown := grown + ToLE(valueCount, 4);
    ghost var counted := grown;
    for k := 0 to valueCount
      invariant grown + ValuesBytes(m.values, k, valueCount) == counted + ValuesBytes(m.values, 0, valueCount)
    {
      grown := grown + m.values[k];
    }
    assert grown == counted + ValuesBytes(m.values, 0, valueCount);
    var siblingCount := Count16(|m.siblings|);
    grown := WriteEntries(m.siblings, siblingCount, grown + ToLE(siblingCount, 2));
  }

  method NextSorted(reader: Reader) returns (r: Result<SortedMessage, CodecError>)
    requires reader.Valid()
    modifies reader
    ensures reader.Valid() && Follows(ReadSorted(old(reader.Rest())), r, reader.Rest())
  {
    hide ReadPool, ReadWord, ReadLE, CheckRange, ReadSortedBody;
    var pool :- NextPool(reader);
    var depth :- reader.U8();
    if depth > WIRE_SORTED_DEPTH {
      return Err(DepthTooLarge);
    }
    var bits :- reader.U8();
    var lo :- reader.Hash32();
    var height :- reader.LE(4);
    var leafCount :- reader.LE(8);
    var start :- reader.LE(8);
    var range := RangeChecked(lo, bits);
    if range.Err? {
      return Err(range.error);
    }
    var body :- NextSortedBody(reader);
    return Ok(SortedMessage(pool, depth, bits, lo, height, leafCount, start, body.0, body.1));
  }

  method NextSortedBody(reader: Reader) returns (r: Result<(seq<Word>, seq<Entry>), CodecError>)
    requires reader.Valid()
    modifies reader
    ensures reader.Valid() && Follows(ReadSortedBody(old(reader.Rest())), r, reader.Rest())
  {
    hide ReadCounted, ReadLE, ReadWord;
    var count :- reader.LE(4);
    if count > reader.Remaining() / 32 {
      return Err(TooManyDeclared);
    }
    ghost var start := reader.Rest();
    var values: seq<Word> := [];
    for k := 0 to count
      invariant reader.Valid()
      invariant ReadValues(start, count, []) == ReadValues(reader.Rest(), count - k, values)
    {
      var value :- reader.Hash32();
      values := values + [value];
    }
    var siblings :- NextCounted(reader, 2);
    return Ok((values, siblings));
  }
}
