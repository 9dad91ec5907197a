// Byte strings as numbers: big-endian for nullifiers, little-endian for counts.
module Bytes {
  import opened Arith
  import opened Hashing

  function Pow256(n: nat): (p: nat)
    ensures p >= 1
  {
    if n == 0 then 1 else 256 * Pow256(n - 1)
  }

  lemma {:induction false} Pow256Add(a: nat, b: nat)
    ensures Pow256(a + b) == Pow256(a) * Pow256(b)
  {
    if b > 0 {
      Pow256Add(a, b - 1);
      assert Pow256(a + b) == 256 * Pow256(a + (b - 1));
      assert Pow256(a) * (256 * Pow256(b - 1)) == 256 * (Pow256(a) * Pow256(b - 1));
    }
  }

  lemma {:induction false} Pow256IsPow2(n: nat)
    ensures Pow256(n) == Pow2(8 * n)
  {
    if n > 0 {
      Pow256IsPow2(n - 1);
      Pow2Add(8 * (n - 1), 8);
      assert Pow2(8) == 256;
      assert 8 * n == 8 * (n - 1) + 8;
    }
  }

  /** 32 bytes hold exactly the values below the limit. */
  lemma Pow256At32()
    ensures Pow256(32) == VALUE_LIMIT
  {
    assert Pow256(4) == 0x1_0000_0000;
    Pow256Add(4, 4);
    Pow256Add(8, 8);
    Pow256Add(16, 16);
  }

  /** The number a big-endian byte string stands for. */
  function FromBE(s: seq<Byte>): nat {
    if s == [] then 0 else FromBE(s[..|s| - 1]) * 256 + s[|s| - 1]
  }

  function ToBE(v: nat, n: nat): (s: seq<Byte>)
    ensures |s| == n
  {
    if n == 0 then [] else ToBE(v / 256, n - 1) + [v % 256]
  }

  lemma {:induction false} FromBEBound(s: seq<Byte>)
    ensures FromBE(s) < Pow256(|s|)
  {
    if s != [] {
      FromBEBound(s[..|s| - 1]);
    }
  }

  lemma {:induction false} FromBEToBE(v: nat, n: nat)
    requires v < Pow256(n)
    ensures FromBE(ToBE(v, n)) == v
  {
    if n > 0 {
      FromBEToBE(v / 256, n - 1);
      assert ToBE(v, n)[..n - 1] == ToBE(v / 256, n - 1);
    }
  }

  lemma {:induction false} ToBEFromBE(s: seq<Byte>)
    ensures ToBE(FromBE(s), |s|) == s
  {
    if s != [] {
      var n := |s| - 1;
      ToBEFromBE(s[..n]);
      assert FromBE(s) / 256 == FromBE(s[..n]) && FromBE(s) % 256 == s[n];
      assert s == s[..n] + [s[n]];
    }
  }

  /** Shifting a split number by one byte. */
  lemma ShiftSplit(x: nat, p: nat, low: nat, b: nat)
    ensures (x * p + low) * 256 + b == x * (256 * p) + (low * 256 + b)
  {
    assert (x * p) * 256 == x * (256 * p);
  }

  lemma {:induction false} FromBEAppend(a: seq<Byte>, b: seq<Byte>)
    ensures FromBE(a + b) == FromBE(a) * Pow256(|b|) + FromBE(b)
  {
    if b == [] {
      assert a + b == a;
    } else {
      var n := |b| - 1;
      FromBEAppend(a, b[..n]);
      assert (a + b)[..|a + b| - 1] == a + b[..n];
      ShiftSplit(FromBE(a), Pow256(n), FromBE(b[..n]), b[n]);
    }
  }

  /** Changing one byte by `d` changes the number by `d` at that byte's weight `p`. */
  lemma {:induction false} FromBESet(s: seq<Byte>, i: nat, b: Byte, d: int, p: nat)
    requires i < |s| && d == b - s[i] && p == Pow256(|s| - 1 - i)
    ensures FromBE(s[i := b]) == FromBE(s) + d * p
  {
    var n := |s| - 1;
    if i == n {
      assert s[i := b][..n] == s[..n];
    } else {
      var q := Pow256(n - 1 - i);
      FromBESet(s[..n], i, b, d, q);
      assert s[i := b][..n] == s[..n][i := b];
      assert (d * q) * 256 == d * (256 * q);
    }
  }

  /** Splitting at byte `i`, of weight `p`: `x` is the number up to and including it. */
  lemma {:induction false} FromBESplit(s: seq<Byte>, i: nat, x: nat, p: nat)
    requires i < |s| && x == FromBE(s[..i]) * 256 + s[i] && p == Pow256(|s| - 1 - i)
    ensures FromBE(s) == x * p + FromBE(s[i + 1..])
  {
    var n := |s| - 1;
    if i < n {
      var q := Pow256(n - 1 - i);
      assert s[..n][..i] == s[..i];
      FromBESplit(s[..n], i, x, q);
      var tail := s[i + 1..];
      assert s[..n][i + 1..] == tail[..|tail| - 1];
      ShiftSplit(x, q, FromBE(tail[..|tail| - 1]), s[n]);
    }
  }

  /** Peeling the most significant byte. */
  lemma FromBEFront(s: seq<Byte>)
    requires s != []
    ensures FromBE(s) == s[0] * Pow256(|s| - 1) + FromBE(s[1..])
  {
    assert s == [s[0]] + s[1..];
    FromBEAppend([s[0]], s[1..]);
    assert FromBE([s[0]]) == s[0];
  }

  /** The derived ordering of byte arrays. */
  predicate LexLess(a: seq<Byte>, b: seq<Byte>) {
    b != [] && (a == [] || a[0] < b[0] || (a[0] == b[0] && LexLess(a[1..], b[1..])))
  }

  /** Lexicographic order on equally long byte strings is numeric order. */
  lemma {:induction false} LexIsNumeric(a: seq<Byte>, b: seq<Byte>)
    requires |a| == |b|
    ensures LexLess(a, b) <==> FromBE(a) < FromBE(b)
  {
    if a != [] {
      LexIsNumeric(a[1..], b[1..]);
      FromBEFront(a);
      FromBEFront(b);
      FromBEBound(a[1..]);
      FromBEBound(b[1..]);
      LeadingDigitDecides(a[0], b[0], FromBE(a[1..]), FromBE(b[1..]), Pow256(|a| - 1));
    }
  }

  lemma LeadingDigitDecides(x: nat, y: nat, u: nat, w: nat, p: nat)
    requires u < p && w < p
    ensures x * p + u < y * p + w <==> x < y || (x == y && u < w)
  {
    if x < y {
      MulMonotone(x + 1, y, p);
    } else if y < x {
      MulMonotone(y + 1, x, p);
    }
  }

  function FromLE(s: seq<Byte>): nat {
    if s == [] then 0 else s[0] + 256 * FromLE(s[1..])
  }

  function ToLE(v: nat, n: nat): (s: seq<Byte>)
    ensures |s| == n
  {
    if n == 0 then [] else [v % 256] + ToLE(v / 256, n - 1)
  }

  lemma {:induction false} FromLEToLE(v: nat, n: nat)
    requires v < Pow256(n)
    ensures FromLE(ToLE(v, n)) == v
  {
    if n > 0 {
      FromLEToLE(v / 256, n - 1);
    }
  }

  lemma {:induction false} FromLEBound(s: seq<Byte>)
    ensures FromLE(s) < Pow256(|s|)
  {
    if s != [] {
      FromLEBound(s[1..]);
    }
  }
}
