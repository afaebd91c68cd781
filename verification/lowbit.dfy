/**
  The lowest-set-bit arithmetic every Fenwick tree variant walks on.

  Java computes the lowest set bit of a positive index as `i & -i`.
  Here it is defined arithmetically: `LowBit(i)` is the largest power of
  two that divides `i`, written `Pow2(LowExp(i))`, where `LowExp(i)` counts
  the trailing zero bits of `i`.
 */
module Bits {

  /** 2 to the power e. */
  function Pow2(e: nat): (r: nat)
    ensures r >= 1
  {
    if e == 0 then 1 else 2 * Pow2(e - 1)
  }

  /** Number of trailing zero bits of a positive integer. */
  function LowExp(i: nat): nat
    requires i >= 1
  {
    if i % 2 == 1 then 0 else 1 + LowExp(i / 2)
  }

  /** The largest power of two dividing i (Java's `i & -i` for positive i). */
  function LowBit(i: nat): (r: nat)
    requires i >= 1
    ensures 1 <= r <= i
  {
    LowBitBounded(i);
    Pow2(LowExp(i))
  }

  /** What remains of i once its trailing zero bits are shifted out. */
  function OddPart(i: nat): (r: nat)
    requires i >= 1
    ensures r % 2 == 1
    ensures i == Pow2(LowExp(i)) * r
  {
    if i % 2 == 1 then i
    else
      var r := OddPart(i / 2);
      var e := LowExp(i / 2);
      assert LowExp(i) == e + 1 && Pow2(e + 1) == 2 * Pow2(e);
      Doubled(i, Pow2(e), r);
      r
  }

  /** Twice a product doubles one factor. */
  lemma Doubled(i: nat, q: nat, r: nat)
    requires i % 2 == 0 && i / 2 == q * r
    ensures i == (2 * q) * r
  {
  }

  lemma LowBitBounded(i: nat)
    requires i >= 1
    ensures Pow2(LowExp(i)) <= i
  {
    if i % 2 == 0 {
      LowBitBounded(i / 2);
    }
  }

  lemma {:induction false} Pow2Add(a: nat, b: nat)
    ensures Pow2(a + b) == Pow2(a) * Pow2(b)
  {
    if a > 0 {
      Pow2Add(a - 1, b);
      assert Pow2(a + b) == 2 * Pow2(a - 1 + b);
    }
  }

  lemma {:induction false} Pow2Monotone(a: nat, b: nat)
    requires a < b
    ensures 2 * Pow2(a) <= Pow2(b)
  {
    if a + 1 < b {
      Pow2Monotone(a, b - 1);
    }
  }

  /** Pow2 is even above exponent 0. */
  lemma Pow2Even(e: nat)
    requires e >= 1
    ensures Pow2(e) % 2 == 0
  {
    assert Pow2(e) == 2 * Pow2(e - 1);
  }

  /** Writing x as 2^e times an odd number fixes e as its trailing-zero count. */
  lemma {:induction false} LowExpUnique(x: nat, e: nat, o: nat)
    requires o % 2 == 1
    requires x == Pow2(e) * o
    ensures x >= 1 && LowExp(x) == e
  {
    if e == 0 {
      assert x == o;
    } else {
      var y := Pow2(e - 1) * o;
      assert x == 2 * y;
      LowExpUnique(y, e - 1, o);
      assert x / 2 == y;
    }
  }

  /** A positive multiple of 2^e has at least e trailing zero bits. */
  lemma {:induction false} LowExpAtLeast(e: nat, y: nat)
    requires y >= 1
    ensures Pow2(e) * y >= 1 && LowExp(Pow2(e) * y) >= e
  {
    if e > 0 {
      var z := Pow2(e - 1) * y;
      assert Pow2(e) * y == 2 * z;
      LowExpAtLeast(e - 1, y);
      assert (2 * z) / 2 == z;
    }
  }

  /** Distributivity and associativity facts, stated once for the proofs below. */
  lemma {:induction false} MulFacts(x: nat, y: nat, z: nat)
    ensures x * (y + z) == x * y + x * z
    ensures x * (y * z) == (x * y) * z
  {
  }

  /** 2^(a+b) split as 2^a times an even number when b >= 1. */
  lemma {:induction false} EvenFactor(a: nat, b: nat, o: nat)
    requires b >= 1
    ensures Pow2(a + b) * o == Pow2(a) * (2 * (Pow2(b - 1) * o))
  {
    Pow2Add(a, b);
    assert Pow2(b) == 2 * Pow2(b - 1);
    MulFacts(Pow2(a), Pow2(b), o);
    MulFacts(Pow2(a), 2, Pow2(b - 1) * o);
    MulFacts(2, Pow2(b - 1), o);
  }

  /**
    The parent of slot k, k + LowBit(k), has strictly more trailing zeros
    than k: walking upward the block size at least doubles.
   */
  lemma {:induction false} ParentExp(k: nat)
    requires k >= 1
    ensures LowExp(k + LowBit(k)) > LowExp(k)
  {
    var e := LowExp(k);
    var q, o := Pow2(e), OddPart(k);
    var h := (o + 1) / 2;
    NextOdd(q, o, h, k + LowBit(k));
    assert Pow2(e + 1) == 2 * q;
    LowExpAtLeast(e + 1, h);
  }

  /** q * o + q, for odd o, is 2q times (o + 1) / 2. */
  lemma NextOdd(q: nat, o: nat, h: nat, n: nat)
    requires o % 2 == 1 && h == (o + 1) / 2 && n == q * o + q
    ensures h >= 1 && n == (2 * q) * h
  {
    MulFacts(q, o, 1);
    MulFacts(q, 2, h);
  }

  /**
    The children of slot p are p - 2^j for j below LowExp(p); child p - 2^j
    has exactly j trailing zeros, so its own block is 2^j wide.
   */
  lemma {:induction false} ChildExp(p: nat, j: nat)
    requires p >= 1
    requires j < LowExp(p)
    ensures Pow2(j) < p
    ensures LowExp(p - Pow2(j)) == j
    ensures 2 * Pow2(j) <= LowBit(p)
  {
    var m := LowExp(p);
    var o := OddPart(p);
    Pow2Monotone(j, m);
    var x := Pow2(m - j - 1) * o;
    Positive(Pow2(m - j - 1), o);
    EvenFactor(j, m - j, o);
    assert j + (m - j) == m;
    Shave(Pow2(j), x, p);
    LowExpUnique(p - Pow2(j), j, 2 * x - 1);
  }

  lemma Positive(a: nat, b: nat)
    requires a >= 1 && b >= 1
    ensures a * b >= 1
  {
  }

  /** Taking one p off p * (2 * x) leaves p * (2 * x - 1), an odd multiple. */
  lemma Shave(q: nat, x: nat, p: nat)
    requires q >= 1 && x >= 1 && p == q * (2 * x)
    ensures q < p && p - q == q * (2 * x - 1)
  {
    MulFacts(q, 2 * x - 1, 1);
  }

  /** Two powers of two are equal only when their exponents are. */
  lemma {:induction false} Pow2Injective(a: nat, b: nat)
    requires Pow2(a) == Pow2(b)
    ensures a == b
  {
    if a < b {
      Pow2Monotone(a, b);
    } else if b < a {
      Pow2Monotone(b, a);
    }
  }

  /** A positive number below 2^e has fewer than e trailing zeros. */
  lemma ExpBelow(d: nat, e: nat)
    requires 1 <= d < Pow2(e)
    ensures LowExp(d) < e
  {
  }

  /** c + d regrouped around the smaller power of two 2^j. */
  lemma {:induction false} Regroup(c: nat, d: nat, e: nat, j: nat, oc: nat, od: nat)
    requires j < e
    requires c == Pow2(e) * oc && d == Pow2(j) * od
    ensures c + d == Pow2(j) * (2 * (Pow2(e - j - 1) * oc) + od)
  {
    var a := 2 * (Pow2(e - j - 1) * oc);
    EvenFactor(j, e - j, oc);
    assert c == Pow2(j) * a;
    MulFacts(Pow2(j), a, od);
  }

  lemma {:induction false} SumExp(c: nat, d: nat, e: nat, j: nat, oc: nat, od: nat)
    requires j < e && oc % 2 == 1 && od % 2 == 1
    requires c == Pow2(e) * oc && d == Pow2(j) * od
    ensures c + d >= 1 && LowExp(c + d) == j
  {
    var b := 2 * (Pow2(e - j - 1) * oc) + od;
    Regroup(c, d, e, j, oc, od);
    LowExpUnique(c + d, j, b);
  }

  /**
    Adding an offset d smaller than LowBit(c) to c leaves the lowest set bit
    of d in place: LowBit(c + d) == LowBit(d).
   */
  lemma {:induction false} SmallOffset(c: nat, d: nat)
    requires c >= 1 && 1 <= d < LowBit(c)
    ensures LowExp(c + d) == LowExp(d)
  {
    ExpBelow(d, LowExp(c));
    SumExp(c, d, LowExp(c), LowExp(d), OddPart(c), OddPart(d));
  }

  /** A slot strictly between c and its parent starts its block at or after c. */
  lemma {:induction false} BetweenParent(c: nat, p: nat)
    requires 1 <= c < p < c + LowBit(c)
    ensures p - LowBit(p) >= c
  {
    SmallOffset(c, p - c);
    assert LowBit(p) == LowBit(p - c);
  }

  /** The parent's block reaches at least as far left as the child's. */
  lemma {:induction false} ParentCovers(c: nat)
    requires c >= 1
    ensures c + LowBit(c) - LowBit(c + LowBit(c)) <= c - LowBit(c)
  {
    ParentExp(c);
    Pow2Monotone(LowExp(c), LowExp(c + LowBit(c)));
  }

  /**
    Clearing the lowest set bit of i (when another bit remains) leaves a
    number with strictly more trailing zeros.
   */
  lemma {:induction false} ClearExp(i: nat)
    requires i >= 1 && i > LowBit(i)
    ensures LowExp(i - LowBit(i)) > LowExp(i)
  {
    var e := LowExp(i);
    var q, o := Pow2(e), OddPart(i);
    assert o != 1;
    var h := (o - 1) / 2;
    PrevOdd(q, o, h, i - LowBit(i));
    assert Pow2(e + 1) == 2 * q;
    LowExpAtLeast(e + 1, h);
  }

  /** q * o - q, for odd o above 1, is 2q times (o - 1) / 2. */
  lemma PrevOdd(q: nat, o: nat, h: nat, n: int)
    requires o % 2 == 1 && o != 1 && h == (o - 1) / 2 && n == q * o - q
    ensures h >= 1 && n == (2 * q) * h
  {
    MulFacts(q, o - 1, 1);
    MulFacts(q, 2, h);
  }

  /** Pow2 is monotone. */
  lemma {:induction false} Pow2Le(a: nat, b: nat)
    requires a <= b
    ensures Pow2(a) <= Pow2(b)
  {
    if a < b {
      Pow2Monotone(a, b);
    }
  }
}
