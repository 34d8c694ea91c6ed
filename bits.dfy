// The size_t bit operations the Connect Four engine uses (>>, <<, |, & 1),
// stated on unbounded naturals. Every caller shows its operands and results
// stay below 2^64, so no shift in the model wraps.

module Bits {

  function Pow2(n: nat): (p: nat)
    ensures p >= 1
  {
    if n == 0 then 1 else 2 * Pow2(n - 1)
  }

  /** a >> k */
  function Shr(a: nat, k: nat): nat {
    DivNonneg(a, Pow2(k));
    a / Pow2(k)
  }

  /** Dividing a natural by a positive number gives a natural. */
  lemma DivNonneg(a: nat, p: nat)
    requires p > 0
    ensures a / p >= 0
  {
    MulNegative(p, a / p);
  }

  /** A positive times a negative number is at most minus the positive one. */
  lemma MulNegative(p: int, q: int)
    requires p > 0
    ensures q < 0 ==> p * q <= -p
  {
    if q < 0 {
      assert p * q == p * (q + 1) - p;
      MulNonpos(p, q + 1);
    }
  }

  /** A natural times a non-positive number is non-positive. */
  lemma {:induction false} MulNonpos(p: nat, r: int)
    requires r <= 0
    ensures p * r <= 0
    decreases -r
  {
    if r < 0 {
      MulNonpos(p, r + 1);
      assert p * r == p * (r + 1) - p;
    }
  }

  /** a << k, before any truncation to the word size. */
  function Shl(a: nat, k: nat): nat {
    a * Pow2(k)
  }

  /** (a >> k) & 1 == 1 */
  predicate Bit(a: nat, k: nat) {
    Shr(a, k) % 2 == 1
  }

  /** a | b, bit by bit from the lowest bit up. */
  function Or(a: nat, b: nat): nat
    decreases a + b
  {
    if a == 0 then b
    else if b == 0 then a
    else 2 * Or(a / 2, b / 2) + (if a % 2 == 1 || b % 2 == 1 then 1 else 0)
  }

  lemma MulAssoc2(x: nat, y: nat)
    ensures 2 * (x * y) == (2 * x) * y
  {
  }

  lemma MulMono(p: nat, x: nat, y: nat)
    requires x <= y
    ensures p * x <= p * y
  {
  }

  lemma {:induction false} Pow2Add(a: nat, b: nat)
    ensures Pow2(a + b) == Pow2(a) * Pow2(b)
  {
    if a > 0 {
      Pow2Add(a - 1, b);
      MulAssoc2(Pow2(a - 1), Pow2(b));
    }
  }

  lemma {:induction false} Pow2Mono(a: nat, b: nat)
    requires a <= b
    ensures Pow2(a) <= Pow2(b)
  {
    if a < b {
      Pow2Mono(a, b - 1);
    }
  }

  /** Pow2(64) is the size_t modulus 2^64. */
  lemma Pow2Word()
    ensures Pow2(64) == 0x1_0000_0000_0000_0000
  {
    assert Pow2(4) == 16;
    Pow2Add(4, 4);
    assert Pow2(8) == 0x100;
    Pow2Add(8, 8);
    assert Pow2(16) == 0x1_0000;
    Pow2Add(16, 16);
    assert Pow2(32) == 0x1_0000_0000;
    Pow2Add(32, 32);
  }

  /** Euclidean division is unique: the quotient and remainder are determined. */
  lemma DivUnique(n: nat, p: nat, q: nat, r: nat)
    requires r < p && n == p * q + r
    ensures n / p == q && n % p == r
  {
    var q', r' := n / p, n % p;
    assert n == p * q' + r';
    if q' < q {
      MulMono(p, q' + 1, q);
      assert false;
    } else if q' > q {
      MulMono(p, q + 1, q');
      assert false;
    }
  }

  /** 0 >> k == 0 */
  lemma ShrZero(k: nat)
    ensures Shr(0, k) == 0
  {
    DivUnique(0, Pow2(k), 0, 0);
  }

  /** OR-ing a value into bits that are all zero is adding it: the shifted
      operand starts at bit k, above every bit of a. */
  lemma {:induction false} OrDisjoint(a: nat, b: nat, k: nat)
    requires a < Pow2(k)
    ensures Or(a, Shl(b, k)) == a + Shl(b, k)
    decreases k
  {
    if a != 0 && b != 0 {
      var p := Pow2(k - 1);
      assert Shl(b, k) == 2 * (b * p) by { MulAssoc2(b, p); }
      assert Shl(b, k) / 2 == Shl(b, k - 1);
      assert Shl(b, k) % 2 == 0;
      OrDisjoint(a / 2, b, k - 1);
    }
  }

  lemma Distrib(p: nat, q: nat, y: nat)
    ensures p * (q + y) == p * q + p * y
  {
  }

  lemma MulAssoc(a: nat, b: nat, c: nat)
    ensures a * (b * c) == (a * b) * c
  {
  }

  /** Adding a multiple of p moves the quotient by that multiple and keeps the remainder. */
  lemma DivAddMultiple(a: nat, p: nat, y: nat)
    requires p > 0
    ensures (a + p * y) / p == a / p + y && (a + p * y) % p == a % p
  {
    var q, r := a / p, a % p;
    Distrib(p, q, y);
    DivUnique(a + p * y, p, q + y, r);
  }

  /** Shifting right by i <= k splits lo + 2^k * x into the two shifted parts. */
  lemma ShrAdd(lo: nat, k: nat, x: nat, i: nat)
    requires i <= k
    ensures Shr(lo + Pow2(k) * x, i) == Shr(lo, i) + Pow2(k - i) * x
  {
    var pi, pr := Pow2(i), Pow2(k - i);
    Pow2Add(i, k - i);
    MulAssoc(pi, pr, x);
    DivAddMultiple(lo, pi, pr * x);
  }

  /** A multiple of 2^j leaves the lowest w <= j bits alone. */
  lemma ModAdd(a: nat, j: nat, x: nat, w: nat)
    requires w <= j
    ensures (a + Pow2(j) * x) % Pow2(w) == a % Pow2(w)
  {
    var pw, pr := Pow2(w), Pow2(j - w);
    Pow2Add(w, j - w);
    MulAssoc(pw, pr, x);
    DivAddMultiple(a, pw, pr * x);
  }

  /** A w-bit field at bit i lying below bit k does not see what is added at k. */
  lemma FieldBelow(lo: nat, k: nat, x: nat, i: nat, w: nat)
    requires i + w <= k
    ensures Shr(lo + Pow2(k) * x, i) % Pow2(w) == Shr(lo, i) % Pow2(w)
  {
    ShrAdd(lo, k, x, i);
    ModAdd(Shr(lo, i), k - i, x, w);
  }

  /** The part added at bit k above a smaller lo is what shifting by k leaves. */
  lemma FieldTop(lo: nat, k: nat, x: nat)
    requires lo < Pow2(k)
    ensures Shr(lo + Pow2(k) * x, k) == x
  {
    DivUnique(lo + Pow2(k) * x, Pow2(k), x, lo);
  }

  /** A value below 2^k has no bits at k or above. */
  lemma ShrSmall(h: nat, k: nat, i: nat)
    requires h < Pow2(k) && k <= i
    ensures Shr(h, i) == 0
  {
    Pow2Mono(k, i);
    DivUnique(h, Pow2(i), 0, h);
  }

  /** Bit i of a single bit 2^k. */
  lemma BitOfPow2(lo: nat, k: nat, i: nat)
    requires lo < Pow2(k)
    ensures Bit(lo + Pow2(k), i) <==> i == k || (i < k && Bit(lo, i))
  {
    assert Pow2(1) == 2;
    var v := lo + Pow2(k);
    assert v == lo + Pow2(k) * 1;
    if i < k {
      FieldBelow(lo, k, 1, i, 1);
      assert Shr(v, i) % 2 == Shr(lo, i) % 2;
    } else if i == k {
      FieldTop(lo, k, 1);
      assert Shr(v, i) == 1;
    } else {
      Pow2Add(k, 1);
      assert v < Pow2(k + 1);
      ShrSmall(v, k + 1, i);
      assert Shr(v, i) == 0;
    }
  }

  /** A mask below 2^(n-1), with bit n-1 possibly added: it stays below 2^n,
      and its bits are the old ones plus bit n-1 when added. */
  lemma MaskStep(m: nat, n: nat, add: bool, i: nat)
    requires n > 0 && m < Pow2(n - 1)
    ensures (if add then m + Pow2(n - 1) else m) < Pow2(n)
    ensures Bit(if add then m + Pow2(n - 1) else m, i) <==> (i == n - 1 && add) || (i < n - 1 && Bit(m, i))
  {
    assert Pow2(n) == 2 * Pow2(n - 1);
    if add {
      BitOfPow2(m, n - 1, i);
    } else if i >= n - 1 {
      ShrSmall(m, n - 1, i);
    }
  }

  /** 4^n: the weight of the n-th 2-bit field. */
  function Pow4(n: nat): (p: nat)
    ensures p >= 1
  {
    if n == 0 then 1 else 4 * Pow4(n - 1)
  }

  lemma MulAssoc4(p: nat, x: nat)
    ensures 4 * (p * x) == (4 * p) * x
  {
  }

  lemma ModFour(c: nat, b: nat)
    requires c < 4
    ensures (c + 4 * b) % 4 == c
  {
  }

  /** The 2-bit field at weight p of n == lo + p * (c + 4 * b), lo below p, is c. */
  lemma FieldAtWeight(n: nat, lo: nat, p: nat, q: nat, c: nat, b: nat)
    requires n == lo + p * q && q == c + 4 * b && lo < p && c < 4
    ensures n / p % 4 == c
  {
    DivUnique(n, p, q, lo);
    ModFour(c, b);
  }
}
