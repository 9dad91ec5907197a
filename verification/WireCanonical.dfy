// When the bytes read are the very bytes the encoder writes: whole messages.
//
// An accepted message is canonical exactly when its integers are shortest, its
// paths carry nothing spare and its keyed entries arrive in key order.
module WireCanonical {
  import opened Wrappers
  import opened Hashing
  import opened Bytes
  import opened ImtProofs
  import opened Wire
  import opened WirePaths
  import opened WireMessages
  import opened WireCohorts
  import opened WireFrames
  import opened WireShortest

  lemma CancelFront(a: ByteString, x: ByteString, y: ByteString)
    ensures a + x == a + y <==> x == y
  {
    assert (a + x)[|a|..] == x && (a + y)[|a|..] == y;
  }

  // ---- parts with one encoding only ----

  lemma {:induction false} ToLEFromLE(s: ByteString)
    ensures ToLE(FromLE(s), |s|) == s
  {
    if s != [] {
      ToLEFromLE(s[1..]);
      assert s == [s[0]] + s[1..];
    }
  }

  lemma ReadLEExact(s: ByteString, n: nat)
    requires ReadLE(s, n).Ok?
    ensures s == ToLE(ReadLE(s, n).value.0, n) + ReadLE(s, n).value.1
  {
    ToLEFromLE(s[..n]);
  }

  lemma ReadLeafExact(s: ByteString)
    requires ReadLeaf(s).Ok?
    ensures s == LeafBytes(ReadLeaf(s).value.0) + ReadLeaf(s).value.1
  {
    var value := ReadWord(s).value;
    var next := ReadWord(value.1).value;
    ReadLEExact(next.1, 8);
    assert s == value.0 + value.1 && value.1 == next.0 + next.1;
  }

  lemma ReadPoolExact(s: ByteString)
    requires ReadPool(s).Ok?
    ensures s == [PoolCode(ReadPool(s).value.0)] + ReadPool(s).value.1
  {
  }

  // ---- integers and paths, where they stand ----

  /** The integer at the head of `s` is there in its shortest form. */
  ghost predicate ShortestAt(s: ByteString)
    requires ReadVarint(s).Ok?
  {
    ShortestGroups(Consumed(s, ReadVarint(s).value.1))
  }

  lemma ShortestAtExactly(s: ByteString)
    requires ReadVarint(s).Ok?
    ensures s == VarintBytes(ReadVarint(s).value.0) + ReadVarint(s).value.1 <==> ShortestAt(s)
  {
    VarintCanonicalExactly(s);
    var (value, rest) := ReadVarint(s).value;
    hide ReadVarint, VarintBytes, ShortestGroups;
    ConsumedIs(VarintBytes(value), rest);
  }

  lemma EncodedIsShortest(v: nat, rest: ByteString)
    requires v < WIRE_U64
    ensures ReadVarint(VarintBytes(v) + rest) == Ok((v, rest)) && ShortestAt(VarintBytes(v) + rest)
  {
    VarintRoundTrip(v, rest);
    ShortestAtExactly(VarintBytes(v) + rest);
  }

  /** The path at the head of `s` sends nothing the ladder supplies and sets no bit past its end. */
  ghost predicate SparseAt(s: ByteString, ladder: seq<Word>)
    requires ReadSparse(s, ladder).Ok?
  {
    var path := ReadSparse(s, ladder).value.0;
    && |path| <= |ladder| && 1 + MaskLength(|path|) <= |s|
    && NothingSpare(s[1..1 + MaskLength(|path|)], path, ladder)
  }

  lemma SparseAtExactly(s: ByteString, ladder: seq<Word>)
    requires ReadSparse(s, ladder).Ok?
    ensures s == SparseBytes(ReadSparse(s, ladder).value.0, ladder) + ReadSparse(s, ladder).value.1 <==>
      SparseAt(s, ladder)
  {
    SparseCanonicalExactly(s, ladder);
  }

  /** With another part behind it, too. */
  lemma SparseThen(s: ByteString, ladder: seq<Word>, t: ByteString)
    requires ReadSparse(s, ladder).Ok?
    ensures s == SparseBytes(ReadSparse(s, ladder).value.0, ladder) + t
       <==> SparseAt(s, ladder) && ReadSparse(s, ladder).value.1 == t
  {
    var path := ReadSparse(s, ladder).value.0;
    SparseAtExactly(s, ladder);
    ReadSparseFits(s, ladder);
    SparseRoundTrip(path, ladder, t);
    hide ReadSparse, SparseBytes, SparseAt;
  }

  // ---- insertion proofs and responses ----

  /** Neither path of the insertion proof at the head of `s` carries anything spare. */
  ghost predicate InsertionShortest(s: ByteString, ladder: seq<Word>)
    requires ReadInsertion(s, ladder).Ok?
  {
    var low := ReadLE(ReadLeaf(s).value.1, 8).value.1;
    var append := ReadLE(ReadSparse(low, ladder).value.1, 8).value.1;
    SparseAt(low, ladder) && SparseAt(append, ladder)
  }

  /** Which accepted insertion proofs are canonical, for every input. */
  lemma InsertionCanonicalExactly(s: ByteString, ladder: seq<Word>)
    requires ReadInsertion(s, ladder).Ok?
    ensures var (proof, rest) := ReadInsertion(s, ladder).value;
      s == InsertionBytes(proof, ladder) + rest <==> InsertionShortest(s, ladder)
  {
    hide ReadLeaf, ReadSparse, ReadLE, LeafBytes, SparseBytes, ToLE, SparseAt;
    var (proof, rest) := ReadInsertion(s, ladder).value;
    var leaf := ReadLeaf(s).value;
    var low := ReadLE(leaf.1, 8).value;
    var lowPath := ReadSparse(low.1, ladder).value;
    var append := ReadLE(lowPath.1, 8).value;
    ReadLeafExact(s);
    ReadLEExact(leaf.1, 8);
    ReadLEExact(lowPath.1, 8);
    var c := SparseBytes(proof.newLeafSiblings, ladder) + rest;
    var b := ToLE(append.0, 8) + c;
    var a := SparseBytes(proof.lowLeafSiblings, ladder) + b;
    SparseThen(low.1, ladder, b);
    SparseAtExactly(append.1, ladder);
    CancelFront(ToLE(append.0, 8), append.1, c);
    CancelFront(ToLE(low.0, 8), low.1, a);
    CancelFront(LeafBytes(leaf.0), leaf.1, ToLE(low.0, 8) + a);
    assert InsertionBytes(proof, ladder) + rest == LeafBytes(leaf.0) + (ToLE(low.0, 8) + a);
  }

  /** The path of the response at the head of `s` carries nothing spare. */
  ghost predicate ResponseShortest(s: ByteString, ladders: Ladders)
    requires ReadResponse(s, ladders).Ok?
  {
    var m := ReadResponse(s, ladders).value.0;
    var depth := ReadByte(ReadPool(s).value.1).value.1;
    var leaf := ReadLeaf(ReadLE(depth, 4).value.1).value.1;
    SparseAt(ReadLE(leaf, 8).value.1, ladders(m.pool, m.depth))
  }

  /** Which accepted responses are canonical, for every input. */
  lemma ResponseCanonicalExactly(s: ByteString, ladders: Ladders)
    requires ReadResponse(s, ladders).Ok?
    ensures var (m, rest) := ReadResponse(s, ladders).value;
      ValidDepth(m.depth) && (s == ResponseBytes(m, ladders) + rest <==> ResponseShortest(s, ladders))
  {
    hide ReadPool, ReadByte, ReadLE, ReadLeaf, ReadSparse, LeafBytes, SparseBytes, ToLE, SparseAt;
    var (m, rest) := ReadResponse(s, ladders).value;
    var ladder := ladders(m.pool, m.depth);
    var pool := ReadPool(s).value;
    var depth := ReadByte(pool.1).value;
    var height := ReadLE(depth.1, 4).value;
    var leaf := ReadLeaf(height.1).value;
    var index := ReadLE(leaf.1, 8).value;
    ReadPoolExact(s);
    ReadByteExact(pool.1);
    ReadLEExact(depth.1, 4);
    ReadLeafExact(height.1);
    ReadLEExact(leaf.1, 8);
    SparseAtExactly(index.1, ladder);
    var e := SparseBytes(m.siblings, ladder) + rest;
    var d := ToLE(index.0, 8) + e;
    var c := LeafBytes(leaf.0) + d;
    var b := ToLE(height.0, 4) + c;
    var a := [m.depth] + b;
    CancelFront(ToLE(index.0, 8), index.1, e);
    CancelFront(LeafBytes(leaf.0), leaf.1, d);
    CancelFront(ToLE(height.0, 4), height.1, c);
    CancelFront([m.depth], depth.1, b);
    CancelFront([PoolCode(m.pool)], pool.1, a);
    assert ResponseBytes(m, ladders) + rest == [PoolCode(m.pool)] + a;
  }

  lemma ReadByteExact(s: ByteString)
    requires ReadByte(s).Ok?
    ensures s == [ReadByte(s).value.0] + ReadByte(s).value.1
  {
  }

  // ---- leaves with their positions ----

  /** Every position among the next `n` leaves is a shortest integer. */
  ghost predicate LeavesShortest(s: ByteString, n: nat, previous: nat)
    decreases n
  {
    n > 0 ==>
      && ReadPlaced(s, previous).Ok? && ShortestAt(s)
      && LeavesShortest(ReadPlaced(s, previous).value.1, n - 1, ReadPlaced(s, previous).value.0.0)
  }

  lemma PlacedExact(s: ByteString, previous: nat)
    requires ReadPlaced(s, previous).Ok?
    ensures var (one, rest) := ReadPlaced(s, previous).value;
      previous <= one.0 && (ShortestAt(s) ==> s == VarintBytes(one.0 - previous) + (LeafBytes(one.1) + rest))
  {
    hide ReadVarint, ReadLeaf, VarintBytes, LeafBytes, ShortestAt;
    ShortestAtExactly(s);
    ReadLeafExact(ReadVarint(s).value.1);
  }

  /** Shortest positions are written as they were read. */
  lemma {:induction false} LeavesReadShortest(s: ByteString, n: nat, previous: nat, done: PlacedLeaves)
    requires PlacesFit(done) && Climbing(done) && previous == LastIndex(done, |done|)
    requires ReadLeaves(s, n, previous, done).Ok? && LeavesShortest(s, n, previous)
    ensures var (all, rest) := ReadLeaves(s, n, previous, done).value;
      && |all| == |done| + n && done <= all && PlacesFit(all)
      && s == LeavesBytes(all, |done|, |all|) + rest
    decreases n
  {
    hide ReadPlaced, ShortestAt, PlacesFit, Climbing, VarintBytes, LeafBytes;
    ReadLeavesFit(s, n, previous, done);
    var (all, rest) := ReadLeaves(s, n, previous, done).value;
    if n == 0 {
      assert LeavesBytes(all, |done|, |all|) == [];
    } else {
      var one := ReadPlaced(s, previous).value;
      PlacedExact(s, previous);
      GrownLeavesFit(s, previous, done);
      LeavesReadShortest(one.1, n - 1, one.0.0, done + [one.0]);
      hide ReadLeaves, LeavesShortest;
      AfterPrefix(all, done, one.0);
      LeafFirst(all, |done|, |all|, rest);
      hide *;
    }
  }

  lemma AfterPrefix(all: PlacedLeaves, done: PlacedLeaves, one: (nat, WireLeaf))
    requires done + [one] <= all
    ensures all[|done|] == one && LastIndex(all, |done|) == LastIndex(done, |done|)
  {
    assert all[|done|] == (done + [one])[|done|];
    assert |done| > 0 ==> all[|done| - 1] == (done + [one])[|done| - 1];
  }

  lemma GrownLeavesFit(s: ByteString, previous: nat, done: PlacedLeaves)
    requires PlacesFit(done) && Climbing(done) && previous == LastIndex(done, |done|)
    requires ReadPlaced(s, previous).Ok?
    ensures var grown := done + [ReadPlaced(s, previous).value.0];
      PlacesFit(grown) && Climbing(grown) && LastIndex(grown, |grown|) == ReadPlaced(s, previous).value.0.0
  {
    ReadPlacedFits(s, previous);
    hide ReadPlaced;
    forall i | 0 <= i < |done|
      ensures done[i].0 <= ReadPlaced(s, previous).value.0.0
    {
      assert i < |done| - 1 ==> done[i].0 <= done[|done| - 1].0;
    }
  }

  /** Written positions are shortest. */
  lemma {:induction false} WrittenLeavesShortest(leaves: PlacedLeaves, k: nat, rest: ByteString)
    requires k <= |leaves| && PlacesFit(leaves) && Climbing(leaves)
    ensures LeavesShortest(LeavesBytes(leaves, k, |leaves|) + rest, |leaves| - k, LastIndex(leaves, k))
    decreases |leaves| - k
  {
    hide ReadPlaced, ShortestAt, Climbing, PlacesFit, VarintBytes, LeafBytes;
    if k < |leaves| {
      var tail := LeavesBytes(leaves, k + 1, |leaves|) + rest;
      ReadPlacedBack(leaves, k, tail);
      LeafFirst(leaves, k, |leaves|, rest);
      PlaceFits(leaves, k);
      EncodedIsShortest(leaves[k].0 - LastIndex(leaves, k), LeafBytes(leaves[k].1) + tail);
      WrittenLeavesShortest(leaves, k + 1, rest);
    }
  }

  lemma PlaceFits(leaves: PlacedLeaves, k: nat)
    requires k < |leaves| && PlacesFit(leaves)
    ensures leaves[k].0 < WIRE_U64
  {
  }

  // ---- keyed digests ----

  /** Every index among the next `n` entries is a shortest integer, and the keys ascend. */
  ghost predicate EntriesShortest(s: ByteString, n: nat, level: Byte, index: nat, first: bool)
    decreases n
  {
    n > 0 ==>
      && ReadEntry(s, level, index).Ok? && ShortestAt(s[1..])
      && var (one, rest) := ReadEntry(s, level, index).value;
      && (first || level < one.level || (level == one.level && index < one.index))
      && EntriesShortest(rest, n - 1, one.level, one.index, false)
  }

  /** What the delta at the head is taken from. */
  function Carried(s: ByteString, level: Byte, index: nat): nat {
    if s != [] && s[0] == level then index else 0
  }

  lemma EntryExact(s: ByteString, level: Byte, index: nat)
    requires ReadEntry(s, level, index).Ok?
    ensures var (one, rest) := ReadEntry(s, level, index).value;
      && s != [] && s[0] == one.level && Carried(s, level, index) <= one.index < WIRE_U64
      && (ShortestAt(s[1..]) ==>
        s == [one.level] + (VarintBytes(one.index - Carried(s, level, index)) + (one.digest + rest)))
  {
    hide ReadVarint, ReadWord, VarintBytes, ShortestAt;
    ShortestAtExactly(s[1..]);
    ReadWordExact(ReadVarint(s[1..]).value.1);
  }

  lemma ReadWordExact(s: ByteString)
    requires ReadWord(s).Ok?
    ensures s == ReadWord(s).value.0 + ReadWord(s).value.1
  {
  }

  /** Where reading stands: nothing read yet, or the last entry's key. */
  ghost predicate StandsAt(done: seq<Entry>, level: Byte, index: nat) {
    if done == [] then level == 0 && index == 0
    else level == done[|done| - 1].level && index == done[|done| - 1].index
  }

  /** An entry whose key comes next is appended. */
  lemma NextInOrder(done: seq<Entry>, level: Byte, index: nat, one: Entry)
    requires Ordered(done) && IndicesFit(done) && StandsAt(done, level, index) && one.index < WIRE_U64
    requires done == [] || level < one.level || (level == one.level && index < one.index)
    ensures Put(done, one) == done + [one] && Ordered(done + [one]) && IndicesFit(done + [one])
    ensures StandsAt(done + [one], one.level, one.index)
    ensures Base(done + [one], |done|) == if one.level == level then index else 0
  {
    var grown := done + [one];
    forall i | 0 <= i < |done|
      ensures Before(done[i], one)
    {
      assert i < |done| - 1 ==> Before(done[i], done[|done| - 1]);
    }
  }

  lemma AfterEntries(all: seq<Entry>, done: seq<Entry>, one: Entry)
    requires done + [one] <= all
    ensures all[|done|] == one && Base(all, |done|) == Base(done + [one], |done|)
  {
    assert all[|done|] == (done + [one])[|done|];
    assert |done| > 0 ==> all[|done| - 1] == (done + [one])[|done| - 1];
  }

  lemma EntriesStep(s: ByteString, n: nat, level: Byte, index: nat, done: seq<Entry>)
    requires n > 0 && EntriesShortest(s, n, level, index, done == []) && StandsAt(done, level, index)
    requires Ordered(done) && IndicesFit(done)
    ensures ReadEntry(s, level, index).Ok?
    ensures var (one, rest) := ReadEntry(s, level, index).value;
      var grown := done + [one];
      && EntriesShortest(rest, n - 1, one.level, one.index, false)
      && ReadEntries(s, n, level, index, done) == ReadEntries(rest, n - 1, one.level, one.index, grown)
      && StandsAt(grown, one.level, one.index) && Ordered(grown) && IndicesFit(grown)
      && Base(grown, |done|) <= one.index
      && s == [one.level] + (VarintBytes(one.index - Base(grown, |done|)) + (one.digest + rest))
  {
    EntryExact(s, level, index);
    hide ReadEntry, ShortestAt, VarintBytes, Put, Ordered, IndicesFit, Base, StandsAt;
    NextInOrder(done, level, index, ReadEntry(s, level, index).value.0);
  }

  /** Shortest, ordered entries are written as they were read. */
  lemma {:induction false} EntriesReadShortest(s: ByteString, n: nat, level: Byte, index: nat, done: seq<Entry>)
    requires Ordered(done) && IndicesFit(done) && StandsAt(done, level, index)
    requires EntriesShortest(s, n, level, index, done == [])
    ensures ReadEntries(s, n, level, index, done).Ok?
    ensures var (all, rest) := ReadEntries(s, n, level, index, done).value;
      && |all| == |done| + n && done <= all && Ordered(all) && IndicesFit(all)
      && s == EntriesBytes(all, |done|, |all|) + rest
    decreases n
  {
    if n == 0 {
      assert EntriesBytes(done, |done|, |done|) == [];
    } else {
      EntriesStep(s, n, level, index, done);
      hide EntriesShortest, ReadEntries, ReadEntry, Put, Ordered, IndicesFit, StandsAt, VarintBytes, Base, EntriesBytes;
      var (one, rest) := ReadEntry(s, level, index).value;
      EntriesReadShortest(rest, n - 1, one.level, one.index, done + [one]);
      var (all, left) := ReadEntries(s, n, level, index, done).value;
      AfterEntries(all, done, one);
      EntryFirst(all, |done|, |all|, left);
      hide *;
    }
  }

  /** Written entries are shortest and in order. */
  lemma {:induction false} WrittenEntriesShortest(entries: seq<Entry>, k: nat, level: Byte, index: nat,
          rest: ByteString)
    requires k <= |entries| && Ordered(entries) && IndicesFit(entries)
    requires if k == 0 then level == 0 && index == 0 else level == entries[k - 1].level && index == entries[k - 1].index
    ensures EntriesShortest(EntriesBytes(entries, k, |entries|) + rest, |entries| - k, level, index, k == 0)
    decreases |entries| - k
  {
    hide ReadEntry, Ordered, IndicesFit, VarintBytes, EntriesBytes, ShortestAt, Base;
    if k < |entries| {
      var e, tail := entries[k], EntriesBytes(entries, k + 1, |entries|) + rest;
      ReadEntryBack(entries, k, level, index, tail);
      EntryFirst(entries, k, |entries|, rest);
      EntryFits(entries, k);
      OrderedNeighbours(entries, k);
      var varint := VarintBytes(e.index - Base(entries, k)) + (e.digest + tail);
      EncodedIsShortest(e.index - Base(entries, k), e.digest + tail);
      assert ([e.level] + varint)[1..] == varint;
      WrittenEntriesShortest(entries, k + 1, e.level, e.index, rest);
    }
  }

  lemma EntryFits(entries: seq<Entry>, k: nat)
    requires k < |entries| && IndicesFit(entries)
    ensures entries[k].index < WIRE_U64
  {
  }

  /** The counted entries at the head of `s`: shortest and in key order. */
  ghost predicate CountedShortest(s: ByteString, width: nat)
    requires ReadLE(s, width).Ok?
  {
    EntriesShortest(ReadLE(s, width).value.1, ReadLE(s, width).value.0, 0, 0, true)
  }

  lemma CountedExactly(s: ByteString, width: nat)
    requires ReadCounted(s, width).Ok?
    ensures var (entries, rest) := ReadCounted(s, width).value;
      && IndicesFit(entries)
      && (s == ToLE(|entries|, width) + (EntriesBytes(entries, 0, |entries|) + rest) <==> CountedShortest(s, width))
  {
    var (entries, rest) := ReadCounted(s, width).value;
    var count := ReadLE(s, width).value;
    CountedFits(s, width);
    ReadLEExact(s, width);
    assert Ordered([]) && IndicesFit([]);
    var encoded := EntriesBytes(entries, 0, |entries|) + rest;
    if CountedShortest(s, width) {
      EntriesReadShortest(count.1, count.0, 0, 0, []);
    }
    if s == ToLE(|entries|, width) + encoded {
      hide ReadEntries, EntriesShortest, EntriesBytes, ToLE;
      ReadLEBack(|entries|, width, encoded);
      WrittenEntriesShortest(entries, 0, 0, 0, rest);
    }
  }

  // ---- the two cohort messages ----

  /** Leaf positions shortest; node indices shortest and their keys in order. */
  ghost predicate CohortBodyShortest(s: ByteString)
    requires ReadCohortBody(s).Ok?
  {
    var count := ReadLE(s, 4).value;
    && LeavesShortest(count.1, count.0, 0)
    && CountedShortest(ReadLeaves(count.1, count.0, 0, []).value.1, 4)
  }

  lemma LeavesExactly(s: ByteString, n: nat, t: ByteString)
    requires ReadLeaves(s, n, 0, []).Ok?
    ensures var (leaves, rest) := ReadLeaves(s, n, 0, []).value;
      && |leaves| == n && PlacesFit(leaves)
      && (s == LeavesBytes(leaves, 0, n) + t <==> LeavesShortest(s, n, 0) && rest == t)
  {
    var (leaves, rest) := ReadLeaves(s, n, 0, []).value;
    assert PlacesFit([]) && Climbing([]);
    ReadLeavesFit(s, n, 0, []);
    if LeavesShortest(s, n, 0) {
      LeavesReadShortest(s, n, 0, []);
    }
    hide ReadLeaves, LeavesShortest, LeavesBytes, PlacesFit, Climbing;
    if s == LeavesBytes(leaves, 0, n) + t {
      assert leaves[..0] == [];
      LeavesBack(leaves, 0, t);
      WrittenLeavesShortest(leaves, 0, t);
    }
  }

  lemma CohortBodyExactly(s: ByteString)
    requires ReadCohortBody(s).Ok?
    ensures var (parts, rest) := ReadCohortBody(s).value;
      && PlacesFit(parts.0) && IndicesFit(parts.1)
      && (s == CohortBody(parts.0, parts.1) + rest <==> CohortBodyShortest(s))
  {
    CohortBodyFits(s);
    hide ReadLeaves, ReadCounted, ReadLE, LeavesShortest, CountedShortest, LeavesBytes, EntriesBytes, ToLE, PlacesFit,
      IndicesFit, Climbing, Ordered;
    var (parts, rest) := ReadCohortBody(s).value;
    var count := ReadLE(s, 4).value;
    var leaves := ReadLeaves(count.1, count.0, 0, []).value;
    ReadLEExact(s, 4);
    CountedExactly(leaves.1, 4);
    var c := EntriesBytes(parts.1, 0, |parts.1|) + rest;
    var b := ToLE(|parts.1|, 4) + c;
    var a := LeavesBytes(parts.0, 0, |parts.0|) + b;
    LeavesExactly(count.1, count.0, b);
    assert CohortBody(parts.0, parts.1) + rest == ToLE(count.0, 4) + a;
    CancelFront(ToLE(count.0, 4), count.1, a);
  }

  /** The cohort at the head of `s`: its body starts after 39 fixed bytes. */
  ghost predicate CohortShortest(s: ByteString)
    requires ReadCohort(s).Ok?
  {
    var lo := ReadWord(ReadByte(ReadByte(ReadPool(s).value.1).value.1).value.1).value.1;
    CohortBodyShortest(ReadLE(lo, 4).value.1)
  }

  /** Which accepted cohorts are canonical, for every input. */
  lemma CohortCanonicalExactly(s: ByteString)
    requires ReadCohort(s).Ok?
    ensures var (m, rest) := ReadCohort(s).value;
      && PlacesFit(m.leaves) && IndicesFit(m.nodes)
      && (s == CohortBytes(m) + rest <==> CohortShortest(s))
  {
    hide ReadPool, ReadByte, ReadWord, ReadLE, CheckRange, ReadCohortBody, CohortBody, ToLE, CohortBodyShortest,
      PlacesFit, IndicesFit;
    var (m, rest) := ReadCohort(s).value;
    var pool := ReadPool(s).value;
    var depth := ReadByte(pool.1).value;
    var bits := ReadByte(depth.1).value;
    var lo := ReadWord(bits.1).value;
    var height := ReadLE(lo.1, 4).value;
    ReadPoolExact(s);
    ReadByteExact(pool.1);
    ReadByteExact(depth.1);
    ReadWordExact(bits.1);
    ReadLEExact(lo.1, 4);
    CohortBodyExactly(height.1);
    var e := CohortBody(m.leaves, m.nodes) + rest;
    var d := ToLE(m.height, 4) + e;
    var c := m.lo + d;
    var b := [m.bits] + c;
    var a := [m.depth] + b;
    CancelFront(ToLE(m.height, 4), height.1, e);
    CancelFront(m.lo, lo.1, d);
    CancelFront([m.bits], bits.1, c);
    CancelFront([m.depth], depth.1, b);
    CancelFront([PoolCode(m.pool)], pool.1, a);
    assert CohortBytes(m) + rest == [PoolCode(m.pool)] + a;
  }

  lemma {:induction false} ValuesExact(s: ByteString, n: nat, done: seq<Word>)
    requires ReadValues(s, n, done).Ok?
    ensures var (all, rest) := ReadValues(s, n, done).value;
      |all| == |done| + n && done <= all && s == ValuesBytes(all, |done|, |all|) + rest
    decreases n
  {
    if n > 0 {
      var one := ReadWord(s).value;
      ReadWordExact(s);
      hide ReadWord;
      ValuesExact(one.1, n - 1, done + [one.0]);
      var (all, rest) := ReadValues(s, n, done).value;
      assert all[|done|] == (done + [one.0])[|done|];
    }
  }

  /** The siblings' indices are shortest and their keys in order; the values have one encoding. */
  ghost predicate SortedBodyShortest(s: ByteString)
    requires ReadSortedBody(s).Ok?
  {
    var count := ReadLE(s, 4).value;
    CountedShortest(ReadValues(count.1, count.0, []).value.1, 2)
  }

  lemma SortedBodyExactly(s: ByteString)
    requires ReadSortedBody(s).Ok?
    ensures var (parts, rest) := ReadSortedBody(s).value;
      && IndicesFit(parts.1)
      && (s == SortedBody(parts.0, parts.1) + rest <==> SortedBodyShortest(s))
  {
    SortedBodyFits(s);
    hide ReadValues, ReadCounted, ReadLE, CountedShortest, ValuesBytes, EntriesBytes, ToLE, IndicesFit, Ordered;
    var (parts, rest) := ReadSortedBody(s).value;
    var count := ReadLE(s, 4).value;
    var values := ReadValues(count.1, count.0, []).value;
    ReadLEExact(s, 4);
    ValuesExact(count.1, count.0, []);
    CountedExactly(values.1, 2);
    var b := ToLE(|parts.1|, 2) + (EntriesBytes(parts.1, 0, |parts.1|) + rest);
    var a := ValuesBytes(parts.0, 0, |parts.0|) + b;
    assert SortedBody(parts.0, parts.1) + rest == ToLE(count.0, 4) + a;
    CancelFront(ValuesBytes(parts.0, 0, |parts.0|), values.1, b);
    CancelFront(ToLE(count.0, 4), count.1, a);
  }

  /** The sorted cohort at the head of `s`: its body starts after 55 fixed bytes. */
  ghost predicate SortedShortest(s: ByteString)
    requires ReadSorted(s).Ok?
  {
    var lo := ReadWord(ReadByte(ReadByte(ReadPool(s).value.1).value.1).value.1).value.1;
    SortedBodyShortest(ReadLE(ReadLE(ReadLE(lo, 4).value.1, 8).value.1, 8).value.1)
  }

  /** Which accepted sorted cohorts are canonical, for every input. */
  lemma SortedCanonicalExactly(s: ByteString)
    requires ReadSorted(s).Ok?
    ensures var (m, rest) := ReadSorted(s).value;
      IndicesFit(m.siblings) && (s == SortedBytes(m) + rest <==> SortedShortest(s))
  {
    hide ReadPool, ReadByte, ReadWord, ReadLE, CheckRange, ReadSortedBody, SortedBody, ToLE, SortedBodyShortest,
      IndicesFit;
    var (m, rest) := ReadSorted(s).value;
    var pool := ReadPool(s).value;
    var depth := ReadByte(pool.1).value;
    var bits := ReadByte(depth.1).value;
    var lo := ReadWord(bits.1).value;
    var height := ReadLE(lo.1, 4).value;
    var leafCount := ReadLE(height.1, 8).value;
    var start := ReadLE(leafCount.1, 8).value;
    ReadPoolExact(s);
    ReadByteExact(pool.1);
    ReadByteExact(depth.1);
    ReadWordExact(bits.1);
    ReadLEExact(lo.1, 4);
    ReadLEExact(height.1, 8);
    ReadLEExact(leafCount.1, 8);
    SortedBodyExactly(start.1);
    var g := SortedBody(m.values, m.siblings) + rest;
    var f := ToLE(m.startIndex, 8) + g;
    var e := ToLE(m.leafCount, 8) + f;
    var d := ToLE(m.height, 4) + e;
    var c := m.lo + d;
    var b := [m.bits] + c;
    var a := [m.depth] + b;
    CancelFront(ToLE(m.startIndex, 8), start.1, g);
    CancelFront(ToLE(m.leafCount, 8), leafCount.1, f);
    CancelFront(ToLE(m.height, 4), height.1, e);
    CancelFront(m.lo, lo.1, d);
    CancelFront([m.bits], bits.1, c);
    CancelFront([m.depth], depth.1, b);
    CancelFront([PoolCode(m.pool)], pool.1, a);
    assert SortedBytes(m) + rest == [PoolCode(m.pool)] + a;
  }

  // ---- whole messages ----

  /** A framed message re-encodes to itself exactly when its body does. */
  lemma FrameExactly<T>(s: ByteString, read: ByteString -> Parsed<T>, body: ByteString)
    requires Decode(s, read).Ok?
    ensures s != [] && read(s[1..]) == Ok((Decode(s, read).value, []))
    ensures Encode(body) == s <==> s[1..] == body + []
  {
    assert s == [s[0]] + s[1..] && body + [] == body;
    CancelFront([s[0]], body, s[1..]);
  }

  /**
   * Decoding and encoding gives back the very bytes of an accepted cohort message
   * if and only if its body is written the shortest way, its keys in order.
   */
  lemma CohortMessageCanonical(s: ByteString)
    requires Decode(s, ReadCohort).Ok?
    ensures var m := Decode(s, ReadCohort).value;
      && s != [] && ReadCohort(s[1..]).Ok? && PlacesFit(m.leaves) && IndicesFit(m.nodes)
      && (Encode(CohortBytes(m)) == s <==> CohortShortest(s[1..]))
  {
    hide ReadCohort, PlacesFit, IndicesFit, CohortBytes, CohortShortest;
    var m := Decode(s, ReadCohort).value;
    assert ReadCohort(s[1..]) == Ok((m, []));
    CohortCanonicalExactly(s[1..]);
    FrameExactly(s, ReadCohort, CohortBytes(m));
  }

  /** The same for sorted cohorts. */
  lemma SortedMessageCanonical(s: ByteString)
    requires Decode(s, ReadSorted).Ok?
    ensures var m := Decode(s, ReadSorted).value;
      && s != [] && ReadSorted(s[1..]).Ok? && IndicesFit(m.siblings)
      && (Encode(SortedBytes(m)) == s <==> SortedShortest(s[1..]))
  {
    hide ReadSorted, IndicesFit, SortedBytes, SortedShortest;
    var m := Decode(s, ReadSorted).value;
    assert ReadSorted(s[1..]) == Ok((m, []));
    SortedCanonicalExactly(s[1..]);
    FrameExactly(s, ReadSorted, SortedBytes(m));
  }

  /** The same for non-membership responses. */
  lemma ResponseMessageCanonical(s: ByteString, ladders: Ladders)
    requires Decode(s, x => ReadResponse(x, ladders)).Ok?
    ensures var m := Decode(s, x => ReadResponse(x, ladders)).value;
      && s != [] && ReadResponse(s[1..], ladders).Ok? && ValidDepth(m.depth)
      && (Encode(ResponseBytes(m, ladders)) == s <==> ResponseShortest(s[1..], ladders))
  {
    hide ReadResponse, ResponseBytes, ResponseShortest;
    var read := x => ReadResponse(x, ladders);
    var m := Decode(s, read).value;
    assert ReadResponse(s[1..], ladders) == Ok((m, []));
    ResponseCanonicalExactly(s[1..], ladders);
    FrameExactly(s, read, ResponseBytes(m, ladders));
  }
}
