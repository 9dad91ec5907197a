// Prefix ranges: the half-open interval of values that share their leading
// bits, and the byte-wise arithmetic that computes its bounds.
module Prefix {
  import opened Wrappers
  import opened Arith
  import opened Hashing
  import opened Bytes

  const MAX_PREFIX_BITS: nat := 32

  /** `hi` is exclusive; `None` marks the topmost range, which has no representable bound. */
  datatype PrefixRange = PrefixRange(lo: Value, hi: Option<Value>, bits: nat)
  {
    predicate Contains(v: Value) {
      v >= lo && (hi.None? || v < hi.value)
    }
  }

  /** A range that holds its own lower bound, as every computed one does. */
  ghost predicate ValidRange(range: PrefixRange) {
    range.hi.Some? ==> range.lo < range.hi.value
  }

  predicate ValidBits(bits: nat) {
    1 <= bits <= MAX_PREFIX_BITS
  }

  /** How many values share one prefix of this width. */
  function BucketSize(bits: nat): (size: nat)
    requires ValidBits(bits)
    ensures size >= 1
  {
    Pow2(256 - bits)
  }

  /** The leading `bits` bits of a value. */
  function TopBits(v: Value, bits: nat): nat
    requires ValidBits(bits)
  {
    Quotient(v, BucketSize(bits))
  }

  /** The range in numbers: clear the low bits, then step one bucket up. */
  function CoveringOf(v: Value, bits: nat): PrefixRange
    requires ValidBits(bits)
  {
    var size := BucketSize(bits);
    var lo := Quotient(v, size) * size;
    PrefixRange(lo, if lo + size < VALUE_LIMIT then Some(lo + size) else None, bits)
  }

  lemma Buckets(bits: nat)
    requires ValidBits(bits)
    ensures VALUE_LIMIT == Pow2(bits) * BucketSize(bits)
  {
    Pow256At32();
    Pow256IsPow2(32);
    Pow2Add(bits, 256 - bits);
  }

  /** Membership means equal leading bits, at the topmost range too. */
  lemma ContainsMeansEqualPrefix(v: Value, x: Value, bits: nat)
    requires ValidBits(bits)
    ensures CoveringOf(v, bits).Contains(x) <==> TopBits(x, bits) == TopBits(v, bits)
  {
    var size := BucketSize(bits);
    var q, r := Quotient(v, size), Quotient(x, size);
    if CoveringOf(v, bits).Contains(x) {
      QuotientUnique(x, q, r, size);
    }
  }

  /** Ranges of one width partition the values: each value lies in its own, and overlap means equality. */
  lemma RangesPartition(v: Value, w: Value, x: Value, bits: nat)
    requires ValidBits(bits)
    ensures CoveringOf(v, bits).Contains(v)
    ensures CoveringOf(v, bits).Contains(x) && CoveringOf(w, bits).Contains(x)
        ==> CoveringOf(v, bits) == CoveringOf(w, bits)
  {
    ContainsMeansEqualPrefix(v, v, bits);
    ContainsMeansEqualPrefix(v, x, bits);
    ContainsMeansEqualPrefix(w, x, bits);
  }

  /** The bound is missing exactly when the leading bits are all ones. */
  lemma TopmostExactly(v: Value, bits: nat)
    requires ValidBits(bits)
    ensures CoveringOf(v, bits).hi.None? <==> TopBits(v, bits) == Pow2(bits) - 1
  {
    Buckets(bits);
    LastBucket(v, Quotient(v, BucketSize(bits)), Pow2(bits), BucketSize(bits), VALUE_LIMIT);
  }

  lemma LastBucket(v: nat, q: nat, n: nat, size: nat, limit: nat)
    requires size > 0 && n > 0 && limit == n * size && q * size <= v < limit
    ensures q * size + size >= limit <==> q == n - 1
  {
    if q + 1 < n {
      MulMonotone(q + 2, n, size);
    } else if q >= n {
      MulMonotone(n, q, size);
    }
  }

  /** Realigning an aligned bound changes nothing. */
  lemma CoveringIdempotent(v: Value, bits: nat)
    requires ValidBits(bits)
    ensures CoveringOf(CoveringOf(v, bits).lo, bits) == CoveringOf(v, bits)
  {
    var size := BucketSize(bits);
    var q := Quotient(v, size);
    QuotientUnique(q * size, q, Quotient(q * size, size), size);
  }

  // ---- the byte-wise computation ----

  /** How the prefix width splits the bytes: `full` whole bytes, then `rem` bits. */
  lemma SizeInBytes(bits: nat)
    requires ValidBits(bits)
    ensures var full, rem := bits / 8, bits % 8;
      && full <= 4
      && BucketSize(bits) == Pow2(8 - rem) * Pow256(31 - full)
      && 256 == Pow2(rem) * Pow2(8 - rem)
  {
    var full, rem := bits / 8, bits % 8;
    Pow256IsPow2(31 - full);
    Pow2Add(8 - rem, 8 * (31 - full));
    assert 256 - bits == (8 - rem) + 8 * (31 - full);
    Pow2Add(rem, 8 - rem);
    assert Pow2(8) == 256;
  }

  /** Keeping `full` bytes and clearing the next one's remainder by `m` rounds down to a multiple of `m * p`. */
  lemma MaskedBytes(bytes: seq<Byte>, lo: seq<Byte>, full: nat, x: nat, kept: nat, d: nat, q: nat, m: nat, p: nat)
    requires |bytes| == 32 && |lo| == 32 && full < 32 && p == Pow256(31 - full)
    requires x == FromBE(bytes[..full]) * 256 + bytes[full]
    requires kept == FromBE(lo[..full]) * 256 + lo[full]
    requires forall i :: full < i < 32 ==> lo[i] == 0
    requires d < m && x == kept + d && kept == q * m
    ensures m * p > 0 && FromBE(lo) == Quotient(FromBE(bytes), m * p) * (m * p)
  {
    FromBESplit(bytes, full, x, p);
    FromBEBound(bytes[full + 1..]);
    FromBESplit(lo, full, kept, p);
    AllZero(lo[full + 1..]);
    RoundDownArithmetic(FromBE(bytes), FromBE(lo), x, kept, d, q, m, FromBE(bytes[full + 1..]), p);
  }

  lemma {:induction false} AllZero(s: seq<Byte>)
    requires forall i :: 0 <= i < |s| ==> s[i] == 0
    ensures FromBE(s) == 0
  {
    if s != [] {
      AllZero(s[..|s| - 1]);
    }
  }

  /** `x` is `kept`, a multiple of `m`, plus `d`; scaling by `p` and adding a tail keeps that. */
  lemma RoundDownArithmetic(v: nat, lo: nat, x: nat, kept: nat, d: nat, q: nat, m: nat, tail: nat, p: nat)
    requires d < m && tail < p && x == kept + d && kept == q * m
    requires v == x * p + tail && lo == kept * p
    ensures m * p > 0 && lo == Quotient(v, m * p) * (m * p)
  {
    Regroup(q, m, p, kept);
    Distribute(kept, d, p);
    assert d * p + tail < m * p by {
      MulMonotone(d + 1, m, p);
      Distribute(d, 1, p);
    }
    QuotientUnique(v, q, Quotient(v, m * p), m * p);
  }

  lemma WholePart(head: nat, c: nat, m: nat, k: nat)
    requires 256 == k * m
    ensures head * 256 + c * m == (head * k + c) * m
  {
    assert head * (k * m) == (head * k) * m;
    Distribute(head * k, c, m);
  }

  lemma Distribute(x: nat, y: nat, p: nat)
    ensures (x + y) * p == x * p + y * p
  {
  }

  lemma Regroup(q: nat, m: nat, p: nat, x: nat)
    requires x == q * m
    ensures x * p == q * (m * p)
    ensures m > 0 && p > 0 ==> m * p > 0
  {
  }

  /**
   * `covering`: both bounds by bytes, the upper one by a carry that walks
   * towards the most significant byte. `Err` carries the refused width.
   */
  method Covering(bytes: seq<Byte>, bits: nat) returns (r: Result<(seq<Byte>, Option<seq<Byte>>), nat>)
    requires |bytes| == 32
    ensures r.Ok? <==> ValidBits(bits)
    ensures r.Ok? ==>
      var (lo, hi) := r.value;
      && |lo| == 32 && FromBE(lo) < VALUE_LIMIT && FromBE(bytes) < VALUE_LIMIT
      && var range := CoveringOf(FromBE(bytes), bits);
      && FromBE(lo) == range.lo
      && (hi.Some? <==> range.hi.Some?)
      && (hi.Some? ==> |hi.value| == 32 && FromBE(hi.value) == range.hi.value)
  {
    if bits == 0 || bits > MAX_PREFIX_BITS {
      return Err(bits);
    }
    Pow256At32();
    FromBEBound(bytes);
    var lo := RoundDown(bytes, bits);
    FromBEBound(lo);
    var hi := new Byte[32](i requires 0 <= i < 32 => lo[i]);
    assert hi[..] == lo;
    StepIsBucket(bits);
    var full, rem := bits / 8, bits % 8;
    var at := if rem == 0 then full - 1 else full;
    var step := if rem == 0 then 1 else Pow2(8 - rem);
    var overflow := AddWithCarry(hi, at, step);
    r := Ok((lo, if overflow then None else Some(hi[..])));
  }

  /** Copies the whole prefix bytes and masks the straddled one. */
  method RoundDown(bytes: seq<Byte>, bits: nat) returns (lo: seq<Byte>)
    requires |bytes| == 32 && ValidBits(bits)
    ensures |lo| == 32
    ensures FromBE(lo) == Quotient(FromBE(bytes), BucketSize(bits)) * BucketSize(bits)
  {
    var full, rem := bits / 8, bits % 8;
    SizeInBytes(bits);
    assert Pow2(8) == 256;
    lo := bytes[..full] + seq(32 - full, _ => 0);
    var m := Pow2(8 - rem);
    var c := Quotient(bytes[full], m);
    if rem != 0 {
      // This byte straddles the prefix: only its low bits go.
      lo := lo[full := c * m];
    } else {
      QuotientUnique(bytes[full], c, 0, m);
    }
    MaskIsRounding(bytes, lo, bits, c, m, Pow2(rem), FromBE(bytes[..full]), Pow256(31 - full));
  }

  /** `c` is the straddled byte's kept part, in units of `m`. */
  lemma MaskIsRounding(bytes: seq<Byte>, lo: seq<Byte>, bits: nat, c: nat, m: nat, k: nat, head: nat, p: nat)
    requires ValidBits(bits) && |bytes| == 32 && |lo| == 32 && m > 0 && 256 == k * m
    requires p == Pow256(31 - bits / 8) && m * p == BucketSize(bits)
    requires lo[..bits / 8] == bytes[..bits / 8] && head == FromBE(bytes[..bits / 8])
    requires lo[bits / 8] == c * m <= bytes[bits / 8] < c * m + m
    requires forall i :: bits / 8 < i < 32 ==> lo[i] == 0
    ensures FromBE(lo) == Quotient(FromBE(bytes), BucketSize(bits)) * BucketSize(bits)
  {
    var full := bits / 8;
    var b, kept := bytes[full], lo[full];
    WholePart(head, c, m, k);
    MaskedBytes(bytes, lo, full, head * 256 + b, head * 256 + kept, b - kept, head * k + c, m, p);
  }

  lemma StepIsBucket(bits: nat)
    requires ValidBits(bits)
    ensures var full, rem := bits / 8, bits % 8;
      && (rem == 0 ==> full > 0)
      && var at := if rem == 0 then full - 1 else full;
      && var step := if rem == 0 then 1 else Pow2(8 - rem);
      && at < 32 && 0 < step < 256
      && step * Pow256(31 - at) == BucketSize(bits)
  {
    var full, rem := bits / 8, bits % 8;
    SizeInBytes(bits);
    assert Pow2(8) == 256;
    if rem == 0 {
      assert Pow256(31 - (full - 1)) == 256 * Pow256(31 - full);
    } else {
      Pow2Monotone(8 - rem, 7);
      assert Pow2(7) == 128;
    }
  }

  /** Adds `step` at byte `at` of a big-endian array, carrying in place; reports a carry out. */
  method AddWithCarry(a: array<Byte>, at: nat, step: nat) returns (overflow: bool)
    requires a.Length == 32 && at < 32 && 0 < step < 256
    modifies a
    ensures overflow <==> FromBE(old(a[..])) + step * Pow256(31 - at) >= VALUE_LIMIT
    ensures !overflow ==> FromBE(a[..]) == FromBE(old(a[..])) + step * Pow256(31 - at)
  {
    ghost var target := FromBE(a[..]) + step * Pow256(31 - at);
    Pow256At32();
    var idx, add := at, step;
    while true
      invariant 0 <= idx < 32 && 0 < add < 256
      invariant FromBE(a[..]) + add * Pow256(31 - idx) == target
      decreases idx
    {
      ghost var before := a[..];
      var sum := a[idx] + add;
      var x := sum % 256;
      a[idx] := x;
      assert a[..] == before[idx := x];
      CarryStep(before, idx, x, x - before[idx], add, Pow256(31 - idx), target);
      if sum < 256 {
        return false;
      }
      if idx == 0 {
        return true;
      }
      idx, add := idx - 1, 1;
    }
  }

  /** One byte of the addition: either it is done, or a carry of one is left for the next byte. */
  lemma CarryStep(before: seq<Byte>, idx: nat, x: Byte, d: int, add: nat, p: nat, target: nat)
    requires |before| == 32 && idx < 32 && add < 256 && p == Pow256(31 - idx)
    requires x == (before[idx] + add) % 256 && d == x - before[idx]
    requires FromBE(before) + add * p == target
    ensures before[idx] + add < 256 ==> FromBE(before[idx := x]) == target < VALUE_LIMIT
    ensures before[idx] + add >= 256 && idx > 0 ==> FromBE(before[idx := x]) + Pow256(31 - (idx - 1)) == target
    ensures before[idx] + add >= 256 && idx == 0 ==> target >= VALUE_LIMIT
  {
    CarrySum(before, idx, x, d, add, p);
    NextPlace(idx);
    Pow256At32();
    FromBEBound(before[idx := x]);
  }

  lemma CarrySum(before: seq<Byte>, idx: nat, x: Byte, d: int, add: nat, p: nat)
    requires |before| == 32 && idx < 32 && add < 256 && p == Pow256(31 - idx)
    requires x == (before[idx] + add) % 256 && d == x - before[idx]
    ensures FromBE(before[idx := x]) == FromBE(before) + add * p - (if before[idx] + add < 256 then 0 else 256 * p)
  {
    FromBESet(before, idx, x, d, p);
    CarryArithmetic(before[idx], add, p, d);
  }

  lemma NextPlace(idx: nat)
    requires idx < 32
    ensures idx > 0 ==> Pow256(31 - (idx - 1)) == 256 * Pow256(31 - idx)
    ensures idx == 0 ==> 256 * Pow256(31 - idx) == VALUE_LIMIT
  {
    Pow256At32();
    if idx == 0 {
      assert Pow256(32) == 256 * Pow256(31);
    }
  }

  lemma CarryArithmetic(b: nat, add: nat, p: nat, d: int)
    requires b < 256 && add < 256 && d == (b + add) % 256 - b
    ensures d * p == add * p - (if b + add < 256 then 0 else 256 * p)
  {
    if b + add >= 256 {
      assert d == add - 256;
      assert d * p == add * p - 256 * p;
    } else {
      assert d == add;
    }
  }
}
