// Positions in a binary tree: powers of two, ancestors and siblings.
module Arith {
  function Pow2(n: nat): (p: nat)
    ensures p >= 1
  {
    if n == 0 then 1 else 2 * Pow2(n - 1)
  }

  lemma Pow2AtMostOne(n: nat)
    requires Pow2(n) <= 1
    ensures n == 0
  {
  }

  /** The position `n` levels above position `i`: the source's `idx >>= 1`, `n` times. */
  function Ancestor(i: nat, n: nat): nat {
    if n == 0 then i else Ancestor(i, n - 1) / 2
  }

  /** The source's `idx ^ 1`. */
  function Sibling(i: nat): nat {
    if i % 2 == 0 then i + 1 else i - 1
  }

  /** Siblings share a parent and are its two children. */
  lemma SiblingFacts(i: nat)
    ensures Sibling(Sibling(i)) == i && Sibling(i) != i && Sibling(i) / 2 == i / 2
    ensures (i == 2 * (i / 2) && Sibling(i) == i + 1) || (i == 2 * (i / 2) + 1 && Sibling(i) == i - 1)
  {
  }

  lemma {:induction false} Pow2Add(a: nat, b: nat)
    ensures Pow2(a + b) == Pow2(a) * Pow2(b)
  {
    if b == 0 {
    } else {
      Pow2Add(a, b - 1);
      assert Pow2(a + b) == 2 * Pow2(a + (b - 1));
      assert Pow2(a) * (2 * Pow2(b - 1)) == 2 * (Pow2(a) * Pow2(b - 1));
    }
  }

  lemma {:induction false} Pow2Monotone(a: nat, b: nat)
    requires a <= b
    ensures Pow2(a) <= Pow2(b)
  {
    if a < b {
      Pow2Monotone(a, b - 1);
    }
  }

  lemma {:induction false} AncestorMonotone(i: nat, j: nat, n: nat)
    requires i <= j
    ensures Ancestor(i, n) <= Ancestor(j, n)
  {
    if n > 0 {
      AncestorMonotone(i, j, n - 1);
    }
  }

  /** Appending a position moves its ancestor by at most one. */
  lemma {:induction false} AncestorStep(i: nat, n: nat)
    ensures Ancestor(i, n) <= Ancestor(i + 1, n) <= Ancestor(i, n) + 1
  {
    if n > 0 {
      AncestorStep(i, n - 1);
    }
  }

  lemma {:induction false} AncestorShift(i: nat, n: nat)
    ensures Ancestor(i / 2, n) == Ancestor(i, n + 1)
  {
    if n > 0 {
      AncestorShift(i, n - 1);
    }
  }

  /** Climbing `a` levels and then `b` more. */
  lemma {:induction false} AncestorAdd(i: nat, a: nat, b: nat)
    ensures Ancestor(Ancestor(i, a), b) == Ancestor(i, a + b)
  {
    if b > 0 {
      AncestorAdd(i, a, b - 1);
      assert a + b - 1 == a + (b - 1);
    }
  }

  lemma MulMonotone(a: nat, b: nat, p: nat)
    requires a <= b
    ensures a * p <= b * p
  {
    assert b * p == a * p + (b - a) * p;
  }

  /** Integer division, with the bounds the solver does not derive by itself. */
  function Quotient(v: nat, size: nat): (q: nat)
    requires size > 0
    ensures q * size <= v < q * size + size
  {
    v / size
  }

  /** `Ancestor` is division by a power of two. */
  lemma {:induction false} AncestorIsDiv(i: nat, n: nat)
    ensures Ancestor(i, n) * Pow2(n) <= i < Ancestor(i, n) * Pow2(n) + Pow2(n)
  {
    if n > 0 {
      AncestorIsDiv(i, n - 1);
      HalveQuotient(i, Ancestor(i, n - 1), Pow2(n - 1));
    }
  }

  lemma HalveQuotient(i: nat, a: nat, p: nat)
    requires a * p <= i < a * p + p
    ensures (a / 2) * (2 * p) <= i < (a / 2) * (2 * p) + 2 * p
  {
    var h, r := a / 2, a % 2;
    assert a * p == h * (2 * p) + r * p by {
      assert a == 2 * h + r;
    }
    assert r == 0 || r == 1;
  }

  lemma QuotientUnique(i: nat, a: nat, q: nat, p: nat)
    requires a * p <= i < a * p + p
    requires q * p <= i < q * p + p
    ensures a == q
  {
    if a < q {
      MulMonotone(a + 1, q, p);
    } else if a > q {
      MulMonotone(q + 1, a, p);
    }
  }

  /** A position fits under one root of height `n` exactly when it is below 2^n. */
  lemma AncestorZero(i: nat, n: nat)
    ensures Ancestor(i, n) == 0 <==> i < Pow2(n)
  {
    AncestorIsDiv(i, n);
    if Ancestor(i, n) > 0 {
      MulMonotone(1, Ancestor(i, n), Pow2(n));
    }
  }

  lemma Pow2Sum(a: nat, b: nat, p: nat, q: nat)
    requires Pow2(a) == p && Pow2(b) == q
    ensures Pow2(a + b) == p * q
  {
    Pow2Add(a, b);
  }

  lemma Pow2At63()
    ensures Pow2(63) == 0x8000_0000_0000_0000
  {
    assert Pow2(7) == 128;
    hide Pow2;
    Pow2Sum(7, 7, 128, 128);
    Pow2Sum(14, 7, 16384, 128);
    Pow2Sum(21, 21, 0x20_0000, 0x20_0000);
    Pow2Sum(42, 21, 0x400_0000_0000, 0x20_0000);
  }
}
