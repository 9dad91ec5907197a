// The bounds-checked cursor and the primitive encodings built on it.
//
// Each decoder is a function of the unread bytes that returns the value and the
// bytes left over; each method advances a `Reader` exactly as that function says.
module Wire {
  import opened Wrappers
  import opened Arith
  import opened Hashing
  import opened Bytes

  type ByteString = seq<Byte>

  /** A 32-byte digest or value, as it travels. */
  type Word = s: seq<Byte> | |s| == 32 witness seq(32, _ => 0)

  const U16_LIMIT: nat := 0x1_0000
  const U32_LIMIT: nat := 0x1_0000_0000
  const WIRE_U64: nat := 0x1_0000_0000_0000_0000

  datatype CodecError =
    | UnexpectedEof
    | TrailingBytes(count: nat)
    | UnsupportedVersion(found: Byte)
    | PathTooLong(length: nat)
    | UnknownPool(code: Byte)
    | VarintTooLong
    | PathDeeperThanTree
    | InvalidTreeDepth
    | InvalidPrefixWidth
    | UnalignedBound
    | TooManyDeclared
    | IndexOverflows
    | DepthTooLarge
    | NotASnapshot
    | NoTreeToSave(pool: PoolId)
    | TreeRefused
    | ForestRefused

  type Parsed<T> = Result<(T, ByteString), CodecError>

  function Take(s: ByteString, n: nat): Parsed<ByteString> {
    if n <= |s| then Ok((s[..n], s[n..])) else Err(UnexpectedEof)
  }

  function ReadByte(s: ByteString): Parsed<Byte> {
    if s == [] then Err(UnexpectedEof) else Ok((s[0], s[1..]))
  }

  /** A little-endian integer of `n` bytes. */
  function ReadLE(s: ByteString, n: nat): Parsed<nat> {
    var taken :- Take(s, n);
    Ok((FromLE(taken.0), taken.1))
  }

  function ReadWord(s: ByteString): Parsed<Word> {
    var taken :- Take(s, 32);
    Ok((taken.0, taken.1))
  }

  lemma TakeBack(a: ByteString, rest: ByteString)
    ensures Take(a + rest, |a|) == Ok((a, rest))
  {
  }

  lemma ReadLEBack(v: nat, n: nat, rest: ByteString)
    requires v < Pow256(n)
    ensures ReadLE(ToLE(v, n) + rest, n) == Ok((v, rest))
  {
    TakeBack(ToLE(v, n), rest);
    FromLEToLE(v, n);
  }

  lemma ReadWordBack(w: Word, rest: ByteString)
    ensures ReadWord(w + rest) == Ok((w, rest))
  {
    TakeBack(w, rest);
  }

  lemma WidthLimits()
    ensures Pow256(2) == U16_LIMIT && Pow256(4) == U32_LIMIT && Pow256(8) == WIRE_U64
  {
    Pow256Add(4, 4);
    assert Pow256(4) == 256 * (256 * (256 * 256));
  }

  /** What a decoding step on a reader must amount to. */
  predicate Follows<T(==)>(p: Parsed<T>, r: Result<T, CodecError>, rest: ByteString) {
    if p.Ok? then r == Ok(p.value.0) && rest == p.value.1 else r == Err(p.error)
  }

  class Reader {
    const bytes: ByteString
    var offset: nat

    ghost predicate Valid()
      reads this
    {
      offset <= |bytes|
    }

    /** The bytes not yet consumed. */
    function Rest(): ByteString
      requires Valid()
      reads this
    {
      bytes[offset..]
    }

    constructor (bytes: ByteString)
      ensures Valid() && Rest() == bytes
    {
      this.bytes := bytes;
      offset := 0;
    }

    function Remaining(): nat
      reads this
    {
      if offset <= |bytes| then |bytes| - offset else 0
    }

    method TakeBytes(count: nat) returns (r: Result<ByteString, CodecError>)
      requires Valid()
      modifies this
      ensures Valid() && Follows(Take(old(Rest()), count), r, Rest())
    {
      var end := offset + count;
      if end > |bytes| {
        return Err(UnexpectedEof);
      }
      var slice := bytes[offset..end];
      assert slice == Rest()[..count];
      offset := end;
      return Ok(slice);
    }

    method U8() returns (r: Result<Byte, CodecError>)
      requires Valid()
      modifies this
      ensures Valid() && Follows(ReadByte(old(Rest())), r, Rest())
    {
      var taken := TakeBytes(1);
      return if taken.Err? then Err(taken.error) else Ok(taken.value[0]);
    }

    /** A little-endian integer of `n` bytes. */
    method LE(n: nat) returns (r: Result<nat, CodecError>)
      requires Valid()
      modifies this
      ensures Valid() && Follows(ReadLE(old(Rest()), n), r, Rest())
    {
      var taken := TakeBytes(n);
      return if taken.Err? then Err(taken.error) else Ok(FromLE(taken.value));
    }

    method Hash32() returns (r: Result<Word, CodecError>)
      requires Valid()
      modifies this
      ensures Valid() && Follows(ReadWord(old(Rest())), r, Rest())
    {
      var taken := TakeBytes(32);
      return if taken.Err? then Err(taken.error) else Ok(taken.value);
    }
  }

  // ---- variable-length integers ----

  /** Unsigned LEB128: seven bits a byte, least significant first. */
  function VarintBytes(v: nat): ByteString {
    if v < 128 then [v] else [v % 128 + 128] + VarintBytes(v / 128)
  }

  /**
   * Reading from the `i`th byte on, whose weight is 2^(7i). At most ten bytes
   * are read, and the tenth adds only its low bit: its other bits are shifted
   * out of the 64-bit accumulator.
   */
  function ReadVarintAt(s: ByteString, i: nat, weight: nat, value: nat): Parsed<nat>
    decreases |s|
  {
    if i >= 10 then Err(VarintTooLong)
    else if s == [] then Err(UnexpectedEof)
    else
      var v := WithGroup(s[0], i, weight, value);
      if s[0] < 128 then Ok((v, s[1..])) else ReadVarintAt(s[1..], i + 1, 128 * weight, v)
  }

  /** The accumulator after the `i`th byte. */
  function WithGroup(byte: Byte, i: nat, weight: nat, value: nat): nat {
    value + (if i < 9 then byte % 128 else byte % 2) * weight
  }

  function ReadVarint(s: ByteString): Parsed<nat> {
    ReadVarintAt(s, 0, 1, 0)
  }

  lemma SplitBy128(v: nat, w: nat)
    ensures (v % 128) * w + (v / 128) * (128 * w) == v * w
  {
    var q, r := v / 128, v % 128;
    assert v == q * 128 + r;
    assert (q * 128) * w == q * (128 * w);
    assert (q * 128 + r) * w == (q * 128) * w + r * w;
  }

  lemma SmallFactor(v: nat, w: nat, limit: nat, k: nat)
    requires v * w < limit && limit == k * w
    ensures v < k
  {
    if v >= k {
      MulMonotone(k, v, w);
    }
  }

  /** One byte of an encoding, read back. */
  lemma VarintStep(v: nat, rest: ByteString, i: nat, weight: nat, value: nat)
    requires i <= 9 && (i == 9 ==> v < 2)
    ensures ReadVarintAt(VarintBytes(v) + rest, i, weight, value)
         == if v < 128 then Ok((value + v * weight, rest))
            else ReadVarintAt(VarintBytes(v / 128) + rest, i + 1, 128 * weight, value + (v % 128) * weight)
  {
    var s := VarintBytes(v) + rest;
    if v < 128 {
      assert s[1..] == rest;
    } else {
      assert s[1..] == VarintBytes(v / 128) + rest;
    }
  }

  /** Decoding an encoding gives the value back and leaves the rest alone. */
  lemma {:induction false} VarintBack(v: nat, rest: ByteString, i: nat, weight: nat, value: nat)
    requires i <= 9 && weight == Pow2(7 * i) && v * weight < WIRE_U64
    ensures ReadVarintAt(VarintBytes(v) + rest, i, weight, value) == Ok((value + v * weight, rest))
    decreases v
  {
    hide ReadVarintAt, VarintBytes;
    if i == 9 {
      Pow2At63();
      SmallFactor(v, weight, WIRE_U64, 2);
    }
    VarintStep(v, rest, i, weight, value);
    if v >= 128 {
      SplitBy128(v, weight);
      NextWeight(i);
      hide Pow2;
      VarintBack(v / 128, rest, i + 1, 128 * weight, value + (v % 128) * weight);
    }
  }

  lemma NextWeight(i: nat)
    ensures Pow2(7 * (i + 1)) == 128 * Pow2(7 * i)
  {
    Pow2Add(7 * i, 7);
    assert Pow2(7) == 128;
  }

  lemma VarintRoundTrip(v: nat, rest: ByteString)
    requires v < WIRE_U64
    ensures ReadVarint(VarintBytes(v) + rest) == Ok((v, rest))
  {
    VarintBack(v, rest, 0, 1, 0);
  }

  /** What one byte can add. */
  lemma GroupFits(byte: Byte, i: nat, weight: nat, value: nat)
    requires i <= 9 && value < weight && weight == Pow2(7 * i)
    ensures i < 9 ==> WithGroup(byte, i, weight, value) < 128 * weight <= WIRE_U64
    ensures i == 9 ==> WithGroup(byte, i, weight, value) < WIRE_U64
  {
    Pow2At63();
    if i < 9 {
      Pow2Monotone(7 * i + 7, 63);
      NextWeight(i);
      MulMonotone(byte % 128, 127, weight);
    } else {
      MulMonotone(byte % 2, 1, weight);
    }
  }

  /** Whatever is read fits 64 bits. */
  lemma {:induction false} VarintFits(s: ByteString, i: nat, weight: nat, value: nat)
    requires i <= 10 && value < weight && weight == Pow2(7 * i) && ReadVarintAt(s, i, weight, value).Ok?
    ensures ReadVarintAt(s, i, weight, value).value.0 < WIRE_U64
    decreases |s|
  {
    GroupFits(s[0], i, weight, value);
    NextWeight(i);
    hide Pow2, WithGroup;
    if s[0] >= 128 && i < 9 {
      VarintFits(s[1..], i + 1, 128 * weight, WithGroup(s[0], i, weight, value));
    }
  }

  /** Inputs that show over-long encodings are read: 0 and 1, each with an empty group on top. */
  lemma LongerVarintsAccepted(rest: ByteString)
    ensures ReadVarint([0x80, 0x00] + rest) == Ok((0, rest)) && VarintBytes(0) == [0x00]
    ensures ReadVarint([0x81, 0x00] + rest) == Ok((1, rest)) && VarintBytes(1) == [0x01]
  {
    assert ([0x80, 0x00] + rest)[1..] == [0x00] + rest;
    assert ([0x81, 0x00] + rest)[1..] == [0x00] + rest;
    assert ([0x00] + rest)[1..] == rest;
    assert ReadVarintAt([0x00] + rest, 1, 128, 0) == Ok((0, rest));
    assert ReadVarintAt([0x00] + rest, 1, 128, 1) == Ok((1, rest));
  }

  method WriteVarint(value: nat, out: ByteString) returns (grown: ByteString)
    ensures grown == out + VarintBytes(value)
  {
    grown := out;
    var v := value;
    while v >= 128
      invariant grown + VarintBytes(v) == out + VarintBytes(value)
    {
      grown := grown + [v % 128 + 128];
      v := v / 128;
    }
    grown := grown + [v];
  }

  method NextVarint(reader: Reader) returns (r: Result<nat, CodecError>)
    requires reader.Valid()
    modifies reader
    ensures reader.Valid() && Follows(ReadVarint(old(reader.Rest())), r, reader.Rest())
  {
    var value: nat, weight: nat := 0, 1;
    for i := 0 to 10
      invariant reader.Valid()
      invariant ReadVarint(old(reader.Rest())) == ReadVarintAt(reader.Rest(), i, weight, value)
    {
      var byte := reader.U8();
      if byte.Err? {
        return Err(byte.error);
      }
      value := WithGroup(byte.value, i, weight, value);
      if byte.value < 128 {
        return Ok(value);
      }
      weight := 128 * weight;
    }
    return Err(VarintTooLong);
  }
}
