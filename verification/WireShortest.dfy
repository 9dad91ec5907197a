// When the bytes read are the very bytes the encoder writes: the primitives.
//
// The readers accept more than the writers emit. For each of them this module
// says, for all inputs, exactly which accepted bytes re-encode to themselves.
module WireShortest {
  import opened Wrappers
  import opened Hashing
  import opened ImtProofs
  import opened Wire
  import opened WirePaths

  // ---- variable-length integers ----

  /** The bytes of one integer: every group but the last announces another. */
  ghost predicate IsGroups(c: ByteString) {
    && c != [] && c[|c| - 1] < 128
    && forall k {:trigger c[k]} :: 0 <= k < |c| - 1 ==> c[k] >= 128
  }

  /** The number the groups spell, seven bits each, with no limit on its size. */
  ghost function GroupsValue(c: ByteString): nat
    requires c != []
  {
    if |c| == 1 then c[0] else c[0] % 128 + 128 * GroupsValue(c[1..])
  }

  /** What is left of the groups in a 64-bit accumulator: the tenth keeps its low bit only. */
  ghost function Clipped(c: ByteString, i: nat): (d: ByteString)
    requires c != []
    ensures |d| == |c|
  {
    if i + |c| == 10 then c[|c| - 1 := c[|c| - 1] % 2] else c
  }

  lemma TailGroups(c: ByteString)
    requires IsGroups(c) && |c| > 1
    ensures IsGroups(c[1..]) && c[0] >= 128
  {
    var d := c[1..];
    assert d[|d| - 1] == c[|c| - 1];
    forall k | 0 <= k < |d| - 1
      ensures d[k] >= 128
    {
      assert d[k] == c[k + 1];
    }
    assert c[0] >= 128;
  }

  lemma Distribute(low: nat, high: nat, w: nat)
    ensures low * w + high * (128 * w) == (low + 128 * high) * w
  {
    assert high * (128 * w) == (128 * high) * w;
    assert (low + 128 * high) * w == low * w + (128 * high) * w;
  }

  /** Up to ten groups are read, and they are worth what they spell, less the dropped bits. */
  lemma {:induction false} ReadsGroups(c: ByteString, rest: ByteString, i: nat, weight: nat, value: nat)
    requires IsGroups(c) && i + |c| <= 10
    ensures ReadVarintAt(c + rest, i, weight, value) == Ok((value + GroupsValue(Clipped(c, i)) * weight, rest))
    decreases |c|
  {
    var s, d := c + rest, Clipped(c, i);
    assert s[0] == c[0];
    if |c| == 1 {
      assert s[1..] == rest;
      assert d == [if i == 9 then c[0] % 2 else c[0]];
      assert GroupsValue(d) == d[0];
    } else {
      TailGroups(c);
      assert s[1..] == c[1..] + rest;
      assert d[1..] == Clipped(c[1..], i + 1) && d[0] == c[0];
      var high := GroupsValue(d[1..]);
      ReadsGroups(c[1..], rest, i + 1, 128 * weight, value + (c[0] % 128) * weight);
      Distribute(c[0] % 128, high, weight);
    }
  }

  /** Some byte among the next `n` ends an integer. */
  ghost predicate Ends(s: ByteString, n: nat) {
    exists k {:trigger s[k]} :: 0 <= k < n && k < |s| && s[k] < 128
  }

  lemma EndsStep(s: ByteString, n: nat)
    requires s != [] && s[0] >= 128 && n > 0
    ensures Ends(s, n) <==> Ends(s[1..], n - 1)
  {
    if Ends(s, n) {
      var k :| 0 <= k < n && k < |s| && s[k] < 128;
      assert s[1..][k - 1] == s[k];
    }
    if Ends(s[1..], n - 1) {
      var k :| 0 <= k < n - 1 && k < |s[1..]| && s[1..][k] < 128;
      assert s[k + 1] == s[1..][k];
    }
  }

  /** An integer is read exactly when it ends in time; otherwise it is too long or cut short. */
  lemma {:induction false} ReadsExactly(s: ByteString, i: nat, weight: nat, value: nat)
    requires i <= 10
    ensures var r := ReadVarintAt(s, i, weight, value);
      && (r.Ok? <==> Ends(s, 10 - i))
      && (r.Err? ==> r.error == if |s| >= 10 - i then VarintTooLong else UnexpectedEof)
    decreases |s|
  {
    if i < 10 && s != [] {
      if s[0] < 128 {
        assert Ends(s, 10 - i);
      } else {
        EndsStep(s, 10 - i);
        ReadsExactly(s[1..], i + 1, 128 * weight, WithGroup(s[0], i, weight, value));
      }
    }
  }

  lemma VarintAcceptedExactly(s: ByteString)
    ensures ReadVarint(s).Ok? <==> exists k {:trigger s[k]} :: 0 <= k < 10 && k < |s| && s[k] < 128
    ensures ReadVarint(s).Err? ==> ReadVarint(s).error == if |s| >= 10 then VarintTooLong else UnexpectedEof
  {
    ReadsExactly(s, 0, 1, 0);
  }

  /** What was read is a group string of at most ten bytes followed by what is left. */
  lemma {:induction false} ReadTakesGroups(s: ByteString, i: nat, weight: nat, value: nat) returns (c: ByteString)
    requires i <= 10 && ReadVarintAt(s, i, weight, value).Ok?
    ensures IsGroups(c) && i + |c| <= 10 && s == c + ReadVarintAt(s, i, weight, value).value.1
    decreases |s|
  {
    if s[0] < 128 {
      c := [s[0]];
    } else {
      var d := ReadTakesGroups(s[1..], i + 1, 128 * weight, WithGroup(s[0], i, weight, value));
      c := [s[0]] + d;
      assert s == [s[0]] + s[1..];
    }
  }

  lemma {:induction false} EncodingIsGroups(v: nat)
    ensures IsGroups(VarintBytes(v)) && GroupsValue(VarintBytes(v)) == v
    ensures |VarintBytes(v)| == 1 <==> v < 128
    ensures |VarintBytes(v)| > 1 ==> VarintBytes(v)[|VarintBytes(v)| - 1] != 0
  {
    var c := VarintBytes(v);
    if v >= 128 {
      EncodingIsGroups(v / 128);
      var d := VarintBytes(v / 128);
      assert c[1..] == d && c[0] == v % 128 + 128;
      forall k | 0 <= k < |c| - 1
        ensures c[k] >= 128
      {
        assert k > 0 ==> c[k] == d[k - 1];
      }
      assert |d| == 1 ==> d[0] == v / 128;
    }
  }

  /** Groups are the shortest encoding of what they spell exactly when no top group is empty. */
  lemma {:induction false} ShortestExactly(c: ByteString)
    requires IsGroups(c)
    ensures VarintBytes(GroupsValue(c)) == c <==> |c| == 1 || c[|c| - 1] != 0
    decreases |c|
  {
    var v := GroupsValue(c);
    if |c| == 1 {
      assert VarintBytes(v) == [c[0]];
    } else if c[|c| - 1] == 0 {
      EncodingIsGroups(v);
      hide VarintBytes, GroupsValue;
    } else {
      var high := GroupsValue(c[1..]);
      TailGroups(c);
      ShortestExactly(c[1..]);
      EncodingIsGroups(high);
      OneMoreGroup(c[0], high);
      assert c == [c[0]] + c[1..];
      hide VarintBytes, GroupsValue, IsGroups;
    }
  }

  lemma OneMoreGroup(b: Byte, high: nat)
    requires b >= 128 && high > 0
    ensures VarintBytes(b % 128 + 128 * high) == [b] + VarintBytes(high)
  {
    var v := b % 128 + 128 * high;
    assert v / 128 == high && v % 128 == b % 128;
  }

  /** A smaller top group spells a smaller number. */
  lemma {:induction false} TopGroupCounts(c: ByteString, b: Byte)
    requires IsGroups(c) && b < c[|c| - 1]
    ensures GroupsValue(c[|c| - 1 := b]) < GroupsValue(c)
    decreases |c|
  {
    var d := c[|c| - 1 := b];
    if |c| > 1 {
      TailGroups(c);
      TopGroupCounts(c[1..], b);
      assert d[1..] == c[1..][|c| - 2 := b] && d[0] == c[0];
    } else {
      assert d == [b];
    }
  }

  /** The bytes in front of `rest`, when `rest` is what was left of `s`. */
  function Consumed(s: ByteString, rest: ByteString): ByteString {
    if |rest| <= |s| then s[..|s| - |rest|] else []
  }

  lemma ConsumedIs(c: ByteString, rest: ByteString)
    ensures Consumed(c + rest, rest) == c
  {
  }

  /** One byte or a non-empty top group, and nothing beyond the 64th bit. */
  predicate ShortestGroups(c: ByteString) {
    c != [] && (|c| == 1 || c[|c| - 1] != 0) && (|c| == 10 ==> c[9] == 1)
  }

  /**
   * Which accepted integers are canonical, for every input: re-encoding what was
   * read gives the bytes consumed if and only if the last of several groups is not
   * empty and a tenth carries just its low bit.
   */
  lemma VarintCanonicalExactly(s: ByteString)
    requires ReadVarint(s).Ok?
    ensures var (value, rest) := ReadVarint(s).value;
      var c := Consumed(s, rest);
      && s == c + rest && 1 <= |c| <= 10
      && (VarintBytes(value) == c <==> ShortestGroups(c))
  {
    var (value, rest) := ReadVarint(s).value;
    var c := ReadTakesGroups(s, 0, 1, 0);
    ConsumedIs(c, rest);
    ReadsGroups(c, rest, 0, 1, 0);
    var d := Clipped(c, 0);
    assert value == GroupsValue(d);
    EncodingIsGroups(value);
    ShortestExactly(c);
    if |c| == 10 && c[9] >= 2 {
      TopGroupCounts(c, c[9] % 2);
    } else {
      assert d == c;
    }
  }

  /** The other bits of a tenth group are lost: readers agree on encodings that differ in them. */
  lemma TenthGroupKeepsOneBit(c: ByteString, rest: ByteString)
    requires IsGroups(c) && |c| == 10
    ensures ReadVarint(c + rest) == ReadVarint(c[9 := c[9] % 2] + rest)
    ensures ReadVarint(c + rest).Ok?
  {
    var d := c[9 := c[9] % 2];
    assert IsGroups(d) by {
      forall k | 0 <= k < 9
        ensures d[k] >= 128
      {
        assert d[k] == c[k];
      }
    }
    ReadsGroups(c, rest, 0, 1, 0);
    ReadsGroups(d, rest, 0, 1, 0);
    assert Clipped(d, 0) == Clipped(c, 0);
  }

  // ---- sparse paths ----

  predicate BitSet(bitmap: ByteString, level: nat)
    requires level < 8 * |bitmap|
  {
    Bit(bitmap[level / 8], level % 8)
  }

  /** No set bit carries the ladder's own digest, and no bit is set past the path. */
  ghost predicate NothingSpare(bitmap: ByteString, path: seq<Word>, ladder: seq<Word>)
    requires |path| <= |ladder| && |bitmap| == MaskLength(|path|)
  {
    && (forall l {:trigger BitSet(bitmap, l)} :: 0 <= l < |path| && BitSet(bitmap, l) ==> path[l] != ladder[l])
    && (forall l {:trigger BitSet(bitmap, l)} :: |path| <= l < 8 * |bitmap| ==> !BitSet(bitmap, l))
  }

  /** Bytes that agree above bit `k` and in bit `k` agree from bit `k` up. */
  lemma AgreeDown(a: Byte, b: Byte, k: nat)
    requires k < 7 && a / BitWeight(k + 1) == b / BitWeight(k + 1) && (Bit(a, k) <==> Bit(b, k))
    ensures a / BitWeight(k) == b / BitWeight(k)
  {
    HalvedAgain(a, k);
    HalvedAgain(b, k);
  }

  lemma HalvedAgain(a: Byte, k: nat)
    requires k < 7
    ensures a / BitWeight(k) == 2 * (a / BitWeight(k + 1)) + (a / BitWeight(k)) % 2
  {
    if k == 0 {
    } else if k == 1 {
    } else if k == 2 {
    } else if k == 3 {
    } else if k == 4 {
    } else if k == 5 {
    } else {
    }
  }

  lemma {:induction false} BitsDecideFrom(a: Byte, b: Byte, k: nat)
    requires k < 8 && forall j {:trigger Bit(a, j)} :: 0 <= j < 8 ==> (Bit(a, j) <==> Bit(b, j))
    ensures a / BitWeight(k) == b / BitWeight(k)
    decreases 8 - k
  {
    assert Bit(a, k) == Bit(b, k);
    if k < 7 {
      BitsDecideFrom(a, b, k + 1);
      AgreeDown(a, b, k);
    }
  }

  lemma BytesByBits(a: Byte, b: Byte)
    requires forall k {:trigger Bit(a, k)} :: 0 <= k < 8 ==> (Bit(a, k) <==> Bit(b, k))
    ensures a == b
  {
    BitsDecideFrom(a, b, 0);
  }

  /** A bitmap is the one the encoder builds exactly when it marks the sent siblings and nothing else. */
  lemma BitmapExactly(bitmap: ByteString, flags: seq<bool>)
    requires |bitmap| == MaskLength(|flags|)
    ensures bitmap == Bitmap(flags, |flags|)
       <==> forall l {:trigger BitSet(bitmap, l)} :: 0 <= l < 8 * |bitmap| ==>
         (BitSet(bitmap, l) <==> l < |flags| && flags[l])
  {
    var built := Bitmap(flags, |flags|);
    BuiltBits(flags);
    hide Bit, MaskByte, Bitmap;
    if forall l {:trigger BitSet(bitmap, l)} :: 0 <= l < 8 * |bitmap| ==>
      (BitSet(bitmap, l) <==> l < |flags| && flags[l]) {
      forall j | 0 <= j < |bitmap|
        ensures bitmap[j] == built[j]
      {
        SameBits(bitmap, built, j);
      }
    }
  }

  lemma BuiltBits(flags: seq<bool>)
    ensures var built := Bitmap(flags, |flags|);
      forall l {:trigger BitSet(built, l)} :: 0 <= l < 8 * |built| ==> (BitSet(built, l) <==> l < |flags| && flags[l])
  {
    forall l | 0 <= l < 8 * |Bitmap(flags, |flags|)|
      ensures BitSet(Bitmap(flags, |flags|), l) <==> l < |flags| && flags[l]
    {
      MaskBit(flags, |flags|, l / 8, l % 8);
      hide Bit, MaskByte;
    }
  }

  lemma SameBits(x: ByteString, y: ByteString, j: nat)
    requires |x| == |y| && j < |x|
    requires forall l {:trigger BitSet(x, l)} :: 0 <= l < 8 * |x| ==> (BitSet(x, l) <==> BitSet(y, l))
    ensures x[j] == y[j]
  {
    hide Bit;
    forall k | 0 <= k < 8
      ensures Bit(x[j], k) <==> Bit(y[j], k)
    {
      assert (8 * j + k) / 8 == j && (8 * j + k) % 8 == k;
      assert BitSet(x, 8 * j + k) == BitSet(y, 8 * j + k);
    }
    BytesByBits(x[j], y[j]);
  }

  /** A set bit takes a sibling from the input, a clear one from the ladder. */
  lemma {:induction false} SiblingsRead(s: ByteString, bitmap: ByteString, ladder: seq<Word>, path: seq<Word>,
          flags: seq<bool>)
    requires |path| <= |flags| <= |ladder| && |bitmap| == MaskLength(|flags|)
    requires forall l {:trigger BitSet(bitmap, l)} :: 0 <= l < |flags| ==> (BitSet(bitmap, l) <==> flags[l])
    requires ReadSiblings(s, bitmap, ladder, |flags|, path).Ok?
    ensures var (all, rest) := ReadSiblings(s, bitmap, ladder, |flags|, path).value;
      && |all| == |flags| && path <= all && s == SentBytes(all, flags, |path|) + rest
      && forall l {:trigger all[l]} :: |path| <= l < |flags| && !flags[l] ==> all[l] == ladder[l]
    decreases |flags| - |path|
  {
    hide Bit;
    var level := |path|;
    if level < |flags| {
      assert BitSet(bitmap, level) == flags[level];
      if flags[level] {
        var word := ReadWord(s).value;
        SiblingsRead(word.1, bitmap, ladder, path + [word.0], flags);
      } else {
        SiblingsRead(s, bitmap, ladder, path + [ladder[level]], flags);
      }
    }
  }

  /** The flags a bitmap sets. */
  ghost function SetFlags(bitmap: ByteString, len: nat): (flags: seq<bool>)
    requires |bitmap| == MaskLength(len)
    ensures |flags| == len
  {
    seq(len, l requires 0 <= l < len => BitSet(bitmap, l))
  }

  /**
   * Which accepted sparse paths are canonical, for every input: re-encoding gives
   * the bytes consumed if and only if no sibling was sent that the ladder supplies
   * and every bit past the path is clear.
   */
  lemma SparseCanonicalExactly(s: ByteString, ladder: seq<Word>)
    requires ReadSparse(s, ladder).Ok?
    ensures var (path, rest) := ReadSparse(s, ladder).value;
      && |path| <= |ladder| && 1 + MaskLength(|path|) <= |s|
      && (s == SparseBytes(path, ladder) + rest <==> NothingSpare(s[1..1 + MaskLength(|path|)], path, ladder))
  {
    var (path, rest) := ReadSparse(s, ladder).value;
    var len: nat, bitmap, body := SparseReads(s, ladder);
    SparseParts(bitmap, body, path, ladder, rest);
    hide *;
    assert s == [len] + (bitmap + body);
  }

  /** The parts of an accepted path: its length, its bitmap, and the siblings it sends. */
  lemma SparseReads(s: ByteString, ladder: seq<Word>) returns (len: nat, bitmap: ByteString, body: ByteString)
    requires ReadSparse(s, ladder).Ok?
    ensures var (path, rest) := ReadSparse(s, ladder).value;
      && len == |path| && PathFits(path, ladder) && |bitmap| == MaskLength(len) && 1 + |bitmap| <= |s|
      && s[1..1 + |bitmap|] == bitmap && s == [len] + (bitmap + body)
      && body == SentBytes(path, SetFlags(bitmap, len), 0) + rest
      && forall l {:trigger path[l]} :: 0 <= l < len && !BitSet(bitmap, l) ==> path[l] == ladder[l]
  {
    var (path, rest) := ReadSparse(s, ladder).value;
    ReadSparseFits(s, ladder);
    len, bitmap := s[0], s[1..][..MaskLength(s[0])];
    body := s[1..][|bitmap|..];
    var marked := SetFlags(bitmap, len);
    SiblingsRead(body, bitmap, ladder, [], marked);
    hide ReadSiblings, SentBytes, Bit;
    assert s[1..1 + MaskLength(len)] == bitmap;
    forall l | 0 <= l < len && !BitSet(bitmap, l)
      ensures path[l] == ladder[l]
    {
      assert !marked[l];
    }
  }

  /** Nothing is spare exactly when the bitmap is the encoder's. */
  lemma NothingSpareExactly(bitmap: ByteString, path: seq<Word>, ladder: seq<Word>)
    requires PathFits(path, ladder) && |bitmap| == MaskLength(|path|)
    requires forall l {:trigger path[l]} :: 0 <= l < |path| && !BitSet(bitmap, l) ==> path[l] == ladder[l]
    ensures bitmap == Bitmap(Sent(path, ladder), |path|) <==> NothingSpare(bitmap, path, ladder)
    ensures NothingSpare(bitmap, path, ladder) ==> SetFlags(bitmap, |path|) == Sent(path, ladder)
  {
    var sent := Sent(path, ladder);
    BitmapExactly(bitmap, sent);
    hide Bit, Bitmap, BitSet;
    if NothingSpare(bitmap, path, ladder) {
      forall l | 0 <= l < 8 * |bitmap|
        ensures BitSet(bitmap, l) <==> l < |path| && sent[l]
      {
        assert l < |path| && !BitSet(bitmap, l) ==> path[l] == ladder[l];
      }
    }
  }

  /** The parts of a path as read, against the parts the encoder writes. */
  lemma SparseParts(bitmap: ByteString, body: ByteString, path: seq<Word>, ladder: seq<Word>, rest: ByteString)
    requires PathFits(path, ladder) && |bitmap| == MaskLength(|path|)
    requires body == SentBytes(path, SetFlags(bitmap, |path|), 0) + rest
    requires forall l {:trigger path[l]} :: 0 <= l < |path| && !BitSet(bitmap, l) ==> path[l] == ladder[l]
    ensures [|path|] + (bitmap + body) == SparseBytes(path, ladder) + rest <==> NothingSpare(bitmap, path, ladder)
  {
    var sent := Sent(path, ladder);
    var built := Bitmap(sent, |sent|);
    var tail := SentBytes(path, sent, 0) + rest;
    NothingSpareExactly(bitmap, path, ladder);
    EncodedParts(path, ladder, rest);
    hide *;
    SameFraming(|path|, bitmap, body, built, tail);
  }

  lemma EncodedParts(path: seq<Word>, ladder: seq<Word>, rest: ByteString)
    requires PathFits(path, ladder)
    ensures var sent := Sent(path, ladder);
      SparseBytes(path, ladder) + rest == [|path|] + (Bitmap(sent, |sent|) + (SentBytes(path, sent, 0) + rest))
  {
    hide Bitmap, SentBytes, Sent;
    assert Kept(path) == path;
  }

  lemma SameFraming(len: Byte, a: ByteString, b: ByteString, c: ByteString, d: ByteString)
    requires |a| == |c|
    ensures [len] + (a + b) == [len] + (c + d) <==> a == c && b == d
  {
    var x, y := [len] + (a + b), [len] + (c + d);
    assert x[1..] == a + b && y[1..] == c + d;
    assert (a + b)[..|a|] == a && (c + d)[..|c|] == c && (a + b)[|a|..] == b && (c + d)[|c|..] == d;
  }
}
