// Leaves, sparse sibling paths and the proofs built from them, as bytes.
module WirePaths {
  import opened Wrappers
  import opened Arith
  import opened Hashing
  import opened Bytes
  import opened ImtProofs
  import opened Wire

  datatype WireLeaf = WireLeaf(value: Word, nextValue: Word, nextIndex: nat)

  datatype WireInsertion = WireInsertion(
    lowLeaf: WireLeaf,
    lowLeafIndex: nat,
    lowLeafSiblings: seq<Word>,
    newLeafIndex: nat,
    newLeafSiblings: seq<Word>)

  // ---- leaves ----

  predicate LeafFits(leaf: WireLeaf) {
    leaf.nextIndex < WIRE_U64
  }

  function LeafBytes(leaf: WireLeaf): (s: ByteString)
    ensures |s| == 72
  {
    leaf.value + (leaf.nextValue + ToLE(leaf.nextIndex, 8))
  }

  function ReadLeaf(s: ByteString): Parsed<WireLeaf> {
    var value :- ReadWord(s);
    var next :- ReadWord(value.1);
    var index :- ReadLE(next.1, 8);
    Ok((WireLeaf(value.0, next.0, index.0), index.1))
  }

  lemma ReadLeafBack(leaf: WireLeaf, rest: ByteString)
    requires LeafFits(leaf)
    ensures ReadLeaf(LeafBytes(leaf) + rest) == Ok((leaf, rest))
  {
    WidthLimits();
    var tail := ToLE(leaf.nextIndex, 8) + rest;
    assert LeafBytes(leaf) + rest == leaf.value + (leaf.nextValue + tail);
    ReadWordBack(leaf.value, leaf.nextValue + tail);
    ReadWordBack(leaf.nextValue, tail);
    ReadLEBack(leaf.nextIndex, 8, rest);
  }

  lemma ReadLeFits(s: ByteString, n: nat)
    requires ReadLE(s, n).Ok?
    ensures ReadLE(s, n).value.0 < Pow256(n)
  {
    FromLEBound(s[..n]);
  }

  lemma ReadLeafFits(s: ByteString)
    requires ReadLeaf(s).Ok?
    ensures LeafFits(ReadLeaf(s).value.0)
  {
    WidthLimits();
    ReadLeFits(ReadWord(ReadWord(s).value.1).value.1, 8);
  }

  method NextLeaf(reader: Reader) returns (r: Result<WireLeaf, CodecError>)
    requires reader.Valid()
    modifies reader
    ensures reader.Valid() && Follows(ReadLeaf(old(reader.Rest())), r, reader.Rest())
  {
    var value :- reader.Hash32();
    var next :- reader.Hash32();
    var index :- reader.LE(8);
    return Ok(WireLeaf(value, next, index));
  }

  // ---- the presence bitmap ----

  function BitWeight(k: nat): (w: nat)
    requires k < 8
    ensures 1 <= w <= 128
  {
    if k == 0 then 1 else if k == 1 then 2 else if k == 2 then 4 else if k == 3 then 8
    else if k == 4 then 16 else if k == 5 then 32 else if k == 6 then 64 else 128
  }

  predicate Bit(byte: Byte, k: nat)
    requires k < 8
  {
    (byte / BitWeight(k)) % 2 == 1
  }

  /** `byte |= 1 << k`. */
  function WithBit(byte: Byte, k: nat): (r: Byte)
    requires k < 8
  {
    if Bit(byte, k) then byte else (BitRoom(byte, k); byte + BitWeight(k))
  }

  lemma BitRoom(byte: Byte, k: nat)
    requires k < 8 && !Bit(byte, k)
    ensures byte + BitWeight(k) < 256
  {
  }

  function One(flags: seq<bool>, n: nat, i: nat): nat
    requires n <= |flags|
  {
    if i < n && flags[i] then 1 else 0
  }

  /** Byte `j` of the bitmap of the first `n` flags, eight flags a byte, lowest bit first. */
  function MaskByte(flags: seq<bool>, n: nat, j: nat): (b: Byte)
    requires n <= |flags|
  {
    One(flags, n, 8 * j) + 2 * One(flags, n, 8 * j + 1) + 4 * One(flags, n, 8 * j + 2) + 8 * One(flags, n, 8 * j + 3)
    + 16 * One(flags, n, 8 * j + 4) + 32 * One(flags, n, 8 * j + 5) + 64 * One(flags, n, 8 * j + 6) +
      128 * One(flags, n, 8 * j + 7)
  }

  /** A low part below a bit's weight and a high part above it leave the bit alone. */
  lemma MiddleBit(low: nat, bit: nat, high: nat, w: nat)
    requires w > 0 && low < w && bit <= 1
    ensures ((low + bit * w + high * (2 * w)) / w) % 2 == bit
  {
    var x, q := low + bit * w + high * (2 * w), bit + 2 * high;
    assert q * w == bit * w + high * (2 * w);
    DivisionIs(x, q, w);
  }

  lemma DivisionIs(x: nat, q: nat, w: nat)
    requires w > 0 && q * w <= x < q * w + w
    ensures x / w == q
  {
    QuotientUnique(x, Quotient(x, w), q, w);
  }

  lemma LowBits(f0: nat, f1: nat, f2: nat, f3: nat, high: nat, x: nat, k: nat, w: nat)
    requires f0 <= 1 && f1 <= 1 && f2 <= 1 && f3 <= 1 && x == f0 + 2 * f1 + 4 * f2 + 8 * f3 + 16 * high
    requires k < 4 && w == BitWeight(k)
    ensures (x / w) % 2 == [f0, f1, f2, f3][k]
  {
    if k == 0 {
      MiddleBit(0, f0, f1 + 2 * f2 + 4 * f3 + 8 * high, 1);
    } else if k == 1 {
      MiddleBit(f0, f1, f2 + 2 * f3 + 4 * high, 2);
    } else if k == 2 {
      MiddleBit(f0 + 2 * f1, f2, f3 + 2 * high, 4);
    } else {
      MiddleBit(f0 + 2 * f1 + 4 * f2, f3, high, 8);
    }
  }

  lemma HighBits(low: nat, f4: nat, f5: nat, f6: nat, f7: nat, x: nat, k: nat, w: nat)
    requires low < 16 && f4 <= 1 && f5 <= 1 && f6 <= 1 && f7 <= 1 && x == low + 16 * f4 + 32 * f5 + 64 * f6 + 128 * f7
    requires 4 <= k < 8 && w == BitWeight(k)
    ensures (x / w) % 2 == [f4, f5, f6, f7][k - 4]
  {
    if k == 4 {
      MiddleBit(low, f4, f5 + 2 * f6 + 4 * f7, 16);
    } else if k == 5 {
      MiddleBit(low + 16 * f4, f5, f6 + 2 * f7, 32);
    } else if k == 6 {
      MiddleBit(low + 16 * f4 + 32 * f5, f6, f7, 64);
    } else {
      MiddleBit(low + 16 * f4 + 32 * f5 + 64 * f6, f7, 0, 128);
    }
  }

  lemma MaskBit(flags: seq<bool>, n: nat, j: nat, k: nat)
    requires n <= |flags| && k < 8
    ensures Bit(MaskByte(flags, n, j), k) <==> 8 * j + k < n && flags[8 * j + k]
  {
    var x := MaskByte(flags, n, j);
    var f0, f1, f2, f3 := One(flags, n, 8 * j), One(flags, n, 8 * j + 1), One(flags, n, 8 * j + 2),
      One(flags, n, 8 * j + 3);
    var f4, f5, f6, f7 := One(flags, n, 8 * j + 4), One(flags, n, 8 * j + 5), One(flags, n, 8 * j + 6),
      One(flags, n, 8 * j + 7);
    if k < 4 {
      LowBits(f0, f1, f2, f3, f4 + 2 * f5 + 4 * f6 + 8 * f7, x, k, BitWeight(k));
    } else {
      HighBits(f0 + 2 * f1 + 4 * f2 + 8 * f3, f4, f5, f6, f7, x, k, BitWeight(k));
    }
    hide BitWeight;
  }

  function MaskLength(n: nat): nat {
    (n + 7) / 8
  }

  function Bitmap(flags: seq<bool>, n: nat): (s: ByteString)
    requires n <= |flags|
    ensures |s| == MaskLength(|flags|)
  {
    seq(MaskLength(|flags|), j requires 0 <= j => MaskByte(flags, n, j))
  }

  lemma BitmapBit(flags: seq<bool>, level: nat)
    requires level < |flags|
    ensures Bit(Bitmap(flags, |flags|)[level / 8], level % 8) == flags[level]
  {
    MaskBit(flags, |flags|, level / 8, level % 8);
    hide MaskByte, Bit;
  }

  /** Setting one more flag's bit. */
  lemma OneGrows(flags: seq<bool>, n: nat, i: nat)
    requires n < |flags|
    ensures One(flags, n + 1, i) == if i == n && flags[n] then 1 else One(flags, n, i)
    ensures One(flags, n, n) == 0
  {
  }

  lemma MaskElsewhere(flags: seq<bool>, n: nat, j: nat)
    requires n < |flags| && j != n / 8
    ensures MaskByte(flags, n + 1, j) == MaskByte(flags, n, j)
  {
    assert n < 8 * j || 8 * j + 8 <= n;
  }

  lemma MaskHere(flags: seq<bool>, n: nat)
    requires n < |flags|
    ensures MaskByte(flags, n + 1, n / 8) ==
      MaskByte(flags, n, n / 8) + if flags[n] then BitWeight(n % 8) else 0
  {
    var p, k := 8 * (n / 8), n % 8;
    assert n == p + k;
    hide One;
    OneGrows(flags, n, p);
    OneGrows(flags, n, p + 1);
    OneGrows(flags, n, p + 2);
    OneGrows(flags, n, p + 3);
    OneGrows(flags, n, p + 4);
    OneGrows(flags, n, p + 5);
    OneGrows(flags, n, p + 6);
    OneGrows(flags, n, p + 7);
  }

  lemma MaskGrows(flags: seq<bool>, n: nat, j: nat)
    requires n < |flags|
    ensures MaskByte(flags, n + 1, j) ==
      if j == n / 8 && flags[n] then WithBit(MaskByte(flags, n, j), n % 8) else MaskByte(flags, n, j)
  {
    hide Bit, MaskByte, BitWeight;
    if j == n / 8 {
      MaskHere(flags, n);
      MaskBit(flags, n, n / 8, n % 8);
    } else {
      MaskElsewhere(flags, n, j);
    }
  }

  // ---- sparse paths ----

  /** Which siblings are sent: those that are not the ladder's empty digest. */
  function Sent(path: seq<Word>, ladder: seq<Word>): (flags: seq<bool>)
    ensures |flags| == |path|
  {
    seq(|path|, l requires 0 <= l < |path| => l >= |ladder| || ladder[l] != path[l])
  }

  /** The sent siblings from `level` on. */
  function SentBytes(path: seq<Word>, flags: seq<bool>, level: nat): ByteString
    requires |flags| == |path| && level <= |path|
    decreases |path| - level
  {
    if level == |path| then []
    else if flags[level] then path[level] + SentBytes(path, flags, level + 1)
    else SentBytes(path, flags, level + 1)
  }

  /** A path the format can carry against this ladder. */
  predicate PathFits(path: seq<Word>, ladder: seq<Word>) {
    |path| <= MAX_DEPTH && |path| <= |ladder|
  }

  /** The length travels in one byte; longer paths are cut there, and refused on reading. */
  function Kept(path: seq<Word>): (kept: seq<Word>)
    ensures |kept| < 256
  {
    if |path| < 256 then path else path[..255]
  }

  function SparseBytes(whole: seq<Word>, ladder: seq<Word>): ByteString {
    var path := Kept(whole);
    var flags := Sent(path, ladder);
    [|path|] + (Bitmap(flags, |flags|) + SentBytes(path, flags, 0))
  }

  function ReadSiblings(s: ByteString, bitmap: ByteString, ladder: seq<Word>, len: nat,
          path: seq<Word>): Parsed<seq<Word>>
    requires |path| <= len <= |ladder| && |bitmap| == MaskLength(len)
    decreases len - |path|
  {
    var level := |path|;
    if level == len then Ok((path, s))
    else if Bit(bitmap[level / 8], level % 8) then
      var word :- ReadWord(s);
      ReadSiblings(word.1, bitmap, ladder, len, path + [word.0])
    else ReadSiblings(s, bitmap, ladder, len, path + [ladder[level]])
  }

  function ReadSparse(s: ByteString, ladder: seq<Word>): Parsed<seq<Word>> {
    var head :- ReadByte(s);
    var len: nat := head.0;
    if len > MAX_DEPTH then Err(PathTooLong(len))
    else if len > |ladder| then Err(PathDeeperThanTree)
    else
      var bitmap :- Take(head.1, MaskLength(len));
      ReadSiblings(bitmap.1, bitmap.0, ladder, len, [])
  }

  /** Reading one sibling of an encoding. */
  lemma ReadSiblingStep(path: seq<Word>, ladder: seq<Word>, rest: ByteString, level: nat)
    requires PathFits(path, ladder) && level < |path|
    ensures var flags := Sent(path, ladder);
      ReadSiblings(SentBytes(path, flags, level) + rest, Bitmap(flags, |flags|), ladder, |path|, path[..level])
        == ReadSiblings(SentBytes(path, flags, level + 1) + rest, Bitmap(flags, |flags|), ladder, |path|,
          path[..level + 1])
  {
    var flags := Sent(path, ladder);
    BitmapBit(flags, level);
    hide Bit, Bitmap, MaskByte, ReadWord;
    assert path[..level + 1] == path[..level] + [path[level]];
    var tail := SentBytes(path, flags, level + 1) + rest;
    if flags[level] {
      assert SentBytes(path, flags, level) + rest == path[level] + tail;
      ReadWordBack(path[level], tail);
    } else {
      assert SentBytes(path, flags, level) + rest == tail;
    }
  }

  lemma {:induction false} ReadSiblingsBack(path: seq<Word>, ladder: seq<Word>, rest: ByteString, level: nat)
    requires PathFits(path, ladder) && level <= |path|
    ensures var flags := Sent(path, ladder);
      ReadSiblings(SentBytes(path, flags, level) + rest, Bitmap(flags, |flags|), ladder, |path|, path[..level]) ==
        Ok((path, rest))
    decreases |path| - level
  {
    var flags := Sent(path, ladder);
    if level == |path| {
      assert path[..level] == path;
      assert SentBytes(path, flags, level) + rest == rest;
    } else {
      ReadSiblingStep(path, ladder, rest, level);
      hide ReadSiblings, SentBytes, Sent, Bitmap;
      ReadSiblingsBack(path, ladder, rest, level + 1);
    }
  }

  /** Sparse paths come back whole, omitted siblings included. */
  lemma SparseRoundTrip(path: seq<Word>, ladder: seq<Word>, rest: ByteString)
    requires PathFits(path, ladder)
    ensures ReadSparse(SparseBytes(path, ladder) + rest, ladder) == Ok((path, rest))
  {
    var flags := Sent(path, ladder);
    var bitmap, sent := Bitmap(flags, |flags|), SentBytes(path, flags, 0);
    var s := SparseBytes(path, ladder) + rest;
    assert s[1..] == bitmap + (sent + rest);
    TakeBack(bitmap, sent + rest);
    assert path[..0] == [];
    ReadSiblingsBack(path, ladder, rest, 0);
  }

  lemma {:induction false} ReadSiblingsLength(s: ByteString, bitmap: ByteString, ladder: seq<Word>, len: nat,
          path: seq<Word>)
    requires |path| <= len <= |ladder| && |bitmap| == MaskLength(len)
    requires ReadSiblings(s, bitmap, ladder, len, path).Ok?
    ensures |ReadSiblings(s, bitmap, ladder, len, path).value.0| == len
    decreases len - |path|
  {
    var level := |path|;
    if level < len {
      if Bit(bitmap[level / 8], level % 8) {
        var word := ReadWord(s).value;
        ReadSiblingsLength(word.1, bitmap, ladder, len, path + [word.0]);
      } else {
        ReadSiblingsLength(s, bitmap, ladder, len, path + [ladder[level]]);
      }
    }
  }

  /** Whatever is read is a path the format can carry. */
  lemma ReadSparseFits(s: ByteString, ladder: seq<Word>)
    requires ReadSparse(s, ladder).Ok?
    ensures PathFits(ReadSparse(s, ladder).value.0, ladder)
  {
    var len: nat := s[0];
    var bitmap := Take(s[1..], MaskLength(len)).value;
    ReadSiblingsLength(bitmap.1, bitmap.0, ladder, len, []);
  }

  /** An input that shows an empty sibling sent explicitly is read, though the encoder never sends one. */
  lemma ExplicitEmptyAccepted(empty: Word, rest: ByteString)
    ensures ReadSparse([1, 1] + (empty + rest), [empty]) == Ok(([empty], rest))
    ensures SparseBytes([empty], [empty]) == [1, 0]
  {
    var s := [1, 1] + (empty + rest);
    assert s[1..] == [1] + (empty + rest);
    TakeBack([1], empty + rest);
    ReadWordBack(empty, rest);
    assert [] + [empty] == [empty];
    assert ReadSiblings(empty + rest, [1], [empty], 1, []) == ReadSiblings(rest, [1], [empty], 1, [empty]);
    var flags := Sent([empty], [empty]);
    assert flags == [false];
    assert Bitmap(flags, 1) == [0];
    assert SentBytes([empty], flags, 0) == SentBytes([empty], flags, 1) == [];
  }

  method WriteSparse(whole: seq<Word>, ladder: seq<Word>, out: ByteString) returns (grown: ByteString)
    ensures grown == out + SparseBytes(whole, ladder)
  {
    var path := Kept(whole);
    ghost var flags := Sent(path, ladder);
    hide MaskByte, Bit, WithBit;
    assert Bitmap(flags, 0) == seq(MaskLength(|path|), _ => 0) by {
      NoBits(flags);
    }
    var bitmap: ByteString := seq(MaskLength(|path|), _ => 0);
    for level := 0 to |path|
      invariant bitmap == Bitmap(flags, level)
    {
      MasksGrow(flags, level);
      if level >= |ladder| || ladder[level] != path[level] {
        bitmap := bitmap[level / 8 := WithBit(bitmap[level / 8], level % 8)];
      }
    }
    grown := out + [|path|] + bitmap;
    ghost var head := grown;
    for level := 0 to |path|
      invariant grown + SentBytes(path, flags, level) == head + SentBytes(path, flags, 0)
    {
      if level >= |ladder| || ladder[level] != path[level] {
        grown := grown + path[level];
      }
    }
    assert grown + SentBytes(path, flags, |path|) == grown;
    assert head + SentBytes(path, flags, 0) == out + ([|path|] + (bitmap + SentBytes(path, flags, 0)));
  }

  lemma NoBits(flags: seq<bool>)
    ensures forall j: nat :: MaskByte(flags, 0, j) == 0
  {
  }

  lemma MasksGrow(flags: seq<bool>, n: nat)
    requires n < |flags|
    ensures Bitmap(flags, n + 1)
         == if flags[n] then Bitmap(flags, n)[n / 8 := WithBit(Bitmap(flags, n)[n / 8], n % 8)] else Bitmap(flags, n)
  {
    forall j | 0 <= j < MaskLength(|flags|)
      ensures MaskByte(flags, n + 1, j) ==
        if j == n / 8 && flags[n] then WithBit(MaskByte(flags, n, j), n % 8) else MaskByte(flags, n, j)
    {
      MaskGrows(flags, n, j);
    }
  }

  method NextSparse(reader: Reader, ladder: seq<Word>) returns (r: Result<seq<Word>, CodecError>)
    requires reader.Valid()
    modifies reader
    ensures reader.Valid() && Follows(ReadSparse(old(reader.Rest()), ladder), r, reader.Rest())
  {
    var head :- reader.U8();
    var len: nat := head;
    if len > MAX_DEPTH {
      return Err(PathTooLong(len));
    }
    if len > |ladder| {
      return Err(PathDeeperThanTree);
    }
    var bitmap :- reader.TakeBytes(MaskLength(len));
    ghost var start := reader.Rest();
    var path: seq<Word> := [];
    for level := 0 to len
      invariant reader.Valid() && |path| == level
      invariant ReadSiblings(start, bitmap, ladder, len, []) == ReadSiblings(reader.Rest(), bitmap, ladder, len, path)
    {
      if Bit(bitmap[level / 8], level % 8) {
        var sibling :- reader.Hash32();
        path := path + [sibling];
      } else {
        path := path + [ladder[level]];
      }
    }
    return Ok(path);
  }

  // ---- insertion proofs ----

  predicate InsertionFits(proof: WireInsertion, ladder: seq<Word>) {
    && LeafFits(proof.lowLeaf) && proof.lowLeafIndex < WIRE_U64 && proof.newLeafIndex < WIRE_U64
    && PathFits(proof.lowLeafSiblings, ladder) && PathFits(proof.newLeafSiblings, ladder)
  }

  function InsertionBytes(proof: WireInsertion, ladder: seq<Word>): ByteString
  {
    LeafBytes(proof.lowLeaf) + (ToLE(proof.lowLeafIndex, 8) + (SparseBytes(proof.lowLeafSiblings, ladder)
    + (ToLE(proof.newLeafIndex, 8) + SparseBytes(proof.newLeafSiblings, ladder))))
  }

  function ReadInsertion(s: ByteString, ladder: seq<Word>): Parsed<WireInsertion> {
    var leaf :- ReadLeaf(s);
    var low :- ReadLE(leaf.1, 8);
    var lowPath :- ReadSparse(low.1, ladder);
    var append :- ReadLE(lowPath.1, 8);
    var newPath :- ReadSparse(append.1, ladder);
    Ok((WireInsertion(leaf.0, low.0, lowPath.0, append.0, newPath.0), newPath.1))
  }

  /** A well-formed insertion proof survives the wire, and nothing after it is touched. */
  lemma InsertionRoundTrip(proof: WireInsertion, ladder: seq<Word>, rest: ByteString)
    requires InsertionFits(proof, ladder)
    ensures ReadInsertion(InsertionBytes(proof, ladder) + rest, ladder) == Ok((proof, rest))
  {
    hide ReadLeaf, ReadSparse, ReadLE, LeafBytes, SparseBytes, ToLE;
    WidthLimits();
    var e := SparseBytes(proof.newLeafSiblings, ladder) + rest;
    var d := ToLE(proof.newLeafIndex, 8) + e;
    var c := SparseBytes(proof.lowLeafSiblings, ladder) + d;
    var b := ToLE(proof.lowLeafIndex, 8) + c;
    assert InsertionBytes(proof, ladder) + rest == LeafBytes(proof.lowLeaf) + b;
    ReadLeafBack(proof.lowLeaf, b);
    ReadLEBack(proof.lowLeafIndex, 8, c);
    SparseRoundTrip(proof.lowLeafSiblings, ladder, d);
    ReadLEBack(proof.newLeafIndex, 8, e);
    SparseRoundTrip(proof.newLeafSiblings, ladder, rest);
  }

  /** Whatever is read is a proof the format can carry. */
  lemma InsertionStable(s: ByteString, ladder: seq<Word>)
    requires ReadInsertion(s, ladder).Ok?
    ensures InsertionFits(ReadInsertion(s, ladder).value.0, ladder)
  {
    hide ReadLeaf, ReadSparse, ReadLE;
    WidthLimits();
    var leaf := ReadLeaf(s).value;
    var low := ReadLE(leaf.1, 8).value;
    var lowPath := ReadSparse(low.1, ladder).value;
    var append := ReadLE(lowPath.1, 8).value;
    ReadLeafFits(s);
    ReadLeFits(leaf.1, 8);
    ReadSparseFits(low.1, ladder);
    ReadLeFits(lowPath.1, 8);
    ReadSparseFits(append.1, ladder);
  }

  /** Decode, encode, decode gives the same proof, for every accepted byte string and whatever follows it. */
  lemma InsertionDecodesBack(s: ByteString, ladder: seq<Word>, rest: ByteString)
    requires ReadInsertion(s, ladder).Ok?
    ensures var proof := ReadInsertion(s, ladder).value.0;
      InsertionFits(proof, ladder) && ReadInsertion(InsertionBytes(proof, ladder) + rest, ladder) == Ok((proof, rest))
  {
    hide ReadInsertion, InsertionBytes, InsertionFits;
    InsertionStable(s, ladder);
    InsertionRoundTrip(ReadInsertion(s, ladder).value.0, ladder, rest);
  }

  method WriteInsertion(proof: WireInsertion, ladder: seq<Word>, out: ByteString) returns (grown: ByteString)
    ensures grown == out + InsertionBytes(proof, ladder)
  {
    hide LeafBytes, SparseBytes, ToLE;
    grown := out + LeafBytes(proof.lowLeaf) + ToLE(proof.lowLeafIndex, 8);
    grown := WriteSparse(proof.lowLeafSiblings, ladder, grown);
    grown := grown + ToLE(proof.newLeafIndex, 8);
    grown := WriteSparse(proof.newLeafSiblings, ladder, grown);
  }

  method NextInsertion(reader: Reader, ladder: seq<Word>) returns (r: Result<WireInsertion, CodecError>)
    requires reader.Valid()
    modifies reader
    ensures reader.Valid() && Follows(ReadInsertion(old(reader.Rest()), ladder), r, reader.Rest())
  {
    hide ReadLeaf, ReadSparse, ReadLE;
    var leaf :- NextLeaf(reader);
    var low :- reader.LE(8);
    var lowPath :- NextSparse(reader, ladder);
    var newIndex :- reader.LE(8);
    var newPath :- NextSparse(reader, ladder);
    return Ok(WireInsertion(leaf, low, lowPath, newIndex, newPath));
  }
}
