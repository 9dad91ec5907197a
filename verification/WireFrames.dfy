// Whole messages: a version byte, a body, and nothing after it.
module WireFrames {
  import opened Wrappers
  import opened Hashing
  import opened Wire
  import opened WireMessages
  import opened WireCohorts

  const PROOF_FORMAT_VERSION: Byte := 2

  function Encode(body: ByteString): ByteString {
    [PROOF_FORMAT_VERSION] + body
  }

  /** Rejects an unknown version and any trailing byte. */
  function Decode<T>(s: ByteString, read: ByteString -> Parsed<T>): Result<T, CodecError> {
    var version :- ReadByte(s);
    if version.0 != PROOF_FORMAT_VERSION then Err(UnsupportedVersion(version.0))
    else
      var body :- read(version.1);
      if body.1 != [] then Err(TrailingBytes(|body.1|)) else Ok(body.0)
  }

  /** A refused message is cut short, of another version, refused by its body's reader, or has bytes after its body. */
  lemma DecodeRefusal<T>(s: ByteString, read: ByteString -> Parsed<T>)
    requires Decode(s, read).Err?
    ensures match Decode(s, read).error
      case UnsupportedVersion(found) =>
        s != [] && ((s[0] == found && found != 2) || (s[0] == 2 && read(s[1..]) == Err(UnsupportedVersion(found))))
      case TrailingBytes(count) =>
        && s != [] && s[0] == 2
        && (if read(s[1..]).Ok? then count == |read(s[1..]).value.1| > 0 else read(s[1..]) == Err(TrailingBytes(count)))
      case e => (s == [] && e == UnexpectedEof) || (s != [] && s[0] == 2 && read(s[1..]) == Err(e))
  {
  }

  lemma DecodeFramed<T>(body: ByteString, read: ByteString -> Parsed<T>, value: T)
    requires read(body + []) == Ok((value, []))
    ensures Decode(Encode(body), read) == Ok(value)
  {
    assert Encode(body)[1..] == body && body + [] == body;
  }

  lemma CohortEncodesBack(m: CohortMessage)
    requires CohortFits(m)
    ensures Decode(Encode(CohortBytes(m)), ReadCohort) == Ok(m)
  {
    CohortRoundTrip(m, []);
    DecodeFramed(CohortBytes(m), ReadCohort, m);
  }

  /** Decode, encode, decode gives the same cohort, for every accepted byte string. */
  lemma CohortDecodesBack(s: ByteString)
    requires Decode(s, ReadCohort).Ok?
    ensures var m := Decode(s, ReadCohort).value;
      CohortFits(m) && Decode(Encode(CohortBytes(m)), ReadCohort) == Ok(m)
  {
    hide CohortFits, ReadCohort;
    CohortStable(s[1..]);
    assert CohortFits(Decode(s, ReadCohort).value);
    CohortEncodesBack(Decode(s, ReadCohort).value) by {
      hide CohortBytes;
    }
  }

  lemma SortedEncodesBack(m: SortedMessage)
    requires SortedFits(m)
    ensures Decode(Encode(SortedBytes(m)), ReadSorted) == Ok(m)
  {
    SortedRoundTrip(m, []);
    DecodeFramed(SortedBytes(m), ReadSorted, m);
  }

  lemma SortedDecodesBack(s: ByteString)
    requires Decode(s, ReadSorted).Ok?
    ensures var m := Decode(s, ReadSorted).value;
      SortedFits(m) && Decode(Encode(SortedBytes(m)), ReadSorted) == Ok(m)
  {
    SortedStable(s[1..]);
    SortedEncodesBack(Decode(s, ReadSorted).value);
  }

  lemma ResponseEncodesBack(m: NonMembershipResponse, ladders: Ladders)
    requires ResponseFits(m, ladders)
    ensures Decode(Encode(ResponseBytes(m, ladders)), s => ReadResponse(s, ladders)) == Ok(m)
  {
    ResponseRoundTrip(m, ladders, []);
    DecodeFramed(ResponseBytes(m, ladders), s => ReadResponse(s, ladders), m);
  }

  lemma ResponseDecodesBack(s: ByteString, ladders: Ladders)
    requires Decode(s, x => ReadResponse(x, ladders)).Ok?
    ensures var m := Decode(s, x => ReadResponse(x, ladders)).value;
      ResponseFits(m, ladders) && Decode(Encode(ResponseBytes(m, ladders)), x => ReadResponse(x, ladders)) == Ok(m)
  {
    ResponseStable(s[1..], ladders);
    ResponseEncodesBack(Decode(s, x => ReadResponse(x, ladders)).value, ladders);
  }
}
