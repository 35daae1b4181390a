/** The bit tricks of uthash.h on unsigned numbers: masking, shifting, and the
    rounded-up division built from them. */
module Bits {

  function Pow2(n: nat): (r: nat)
    ensures 0 < r
  {
    if n == 0 then 1 else 2 * Pow2(n - 1)
  }

  /** The bitwise conjunction a & b. */
  function BitAnd(a: nat, b: nat): (r: nat)
    ensures r <= a && r <= b
    decreases a
  {
    if a == 0 || b == 0 then 0
    else 2 * BitAnd(a / 2, b / 2) + (if a % 2 == 1 && b % 2 == 1 then 1 else 0)
  }

  /** The shift a >> k. */
  function ShiftRight(a: nat, k: nat): nat {
    if k == 0 then a else ShiftRight(a / 2, k - 1)
  }

  lemma Pow2Step(k: nat)
    requires 0 < k
    ensures Pow2(k) == 2 * Pow2(k - 1)
  {
  }

  lemma AndZero(a: nat)
    ensures BitAnd(a, 0) == 0 && BitAnd(0, a) == 0
  {
  }

  lemma AndOdd(a: nat, c: nat)
    ensures BitAnd(a, 2 * c + 1) == 2 * BitAnd(a / 2, c) + a % 2
  {
    AndZero(c);
    if a != 0 {
      assert (2 * c + 1) / 2 == c && (2 * c + 1) % 2 == 1;
    }
  }

  lemma DoubleProduct(q: nat, m: nat)
    ensures q * (2 * m) == 2 * (q * m)
  {
  }

  /** a = q * 2^k + r splits into the shifted and the masked part. */
  lemma {:induction false} ShiftAndMask(a: nat, k: nat)
    ensures a == ShiftRight(a, k) * Pow2(k) + BitAnd(a, Pow2(k) - 1)
    ensures BitAnd(a, Pow2(k) - 1) < Pow2(k)
  {
    if k == 0 {
      AndZero(a);
    } else {
      var h, m := a / 2, Pow2(k - 1);
      var q, r := ShiftRight(h, k - 1), BitAnd(h, m - 1);
      ShiftAndMask(h, k - 1);
      assert ShiftRight(a, k) == q;
      hide *;
      Pow2Step(k);
      AndOdd(a, m - 1);
      DoubleProduct(q, m);
      assert a == 2 * h + a % 2;
    }
  }

  lemma {:induction false} MulMono(x: nat, y: nat, n: nat)
    requires x <= y
    ensures x * n <= y * n
  {
    if n != 0 {
      MulMono(x, y, n - 1);
      assert x * n == x * (n - 1) + x && y * n == y * (n - 1) + y;
    }
  }

  lemma Distribute(x: int, y: int, n: int)
    ensures (x + y) * n == x * n + y * n
  {
  }

  lemma MulCancel(x: nat, y: nat, n: nat)
    requires x * n <= y * n && 0 < n
    ensures x <= y
  {
    if y < x {
      MulMono(y + 1, x, n);
      Distribute(y, 1, n);
    }
  }

  lemma QuotientNotLess(a: nat, n: nat, q1: nat, r1: nat, q2: nat, r2: nat)
    requires a == q1 * n + r1 && a == q2 * n + r2 && r1 < n
    ensures q2 <= q1
  {
    if q1 < q2 {
      MulMono(q1 + 1, q2, n);
      assert false;
    }
  }

  /** Division is unique. */
  lemma QuotientUnique(a: nat, n: nat, q1: nat, r1: nat, q2: nat, r2: nat)
    requires a == q1 * n + r1 && a == q2 * n + r2 && r1 < n && r2 < n
    ensures q1 == q2 && r1 == r2
  {
    QuotientNotLess(a, n, q1, r1, q2, r2);
    QuotientNotLess(a, n, q2, r2, q1, r1);
  }

  /** Masking with 2^k - 1 is the remainder modulo 2^k, shifting is the quotient. */
  lemma MaskIsRemainder(a: nat, k: nat)
    ensures BitAnd(a, Pow2(k) - 1) == a % Pow2(k)
    ensures ShiftRight(a, k) == a / Pow2(k)
  {
    hide *;
    var n := Pow2(k);
    ShiftAndMask(a, k);
    QuotientUnique(a, n, ShiftRight(a, k), BitAnd(a, n - 1), a / n, a % n);
  }

  /** r is the quotient a / n rounded up. */
  ghost predicate IsCeil(r: nat, a: nat, n: nat) {
    a <= r * n && (0 < r ==> (r - 1) * n < a)
  }

  /** The expression of HASH_EXPAND_BUCKETS for the ideal chain length. */
  function ShiftMaskCeil(a: nat, k: nat): nat {
    ShiftRight(a, k) + if BitAnd(a, Pow2(k) - 1) != 0 then 1 else 0
  }

  lemma ShiftMaskCeilCorrect(a: nat, k: nat)
    ensures IsCeil(ShiftMaskCeil(a, k), a, Pow2(k))
  {
    hide Pow2, BitAnd, ShiftRight;
    ShiftAndMask(a, k);
    var n, q := Pow2(k), ShiftRight(a, k);
    assert (q + 1) * n == q * n + n;
    assert 0 < q ==> (q - 1) * n == q * n - n;
  }

  /** HASH_TO_BKT. */
  function ToBkt(hashv: nat, numBuckets: nat): nat
    requires 0 < numBuckets
  {
    BitAnd(hashv, numBuckets - 1)
  }

  /** The bucket of a hash value is its remainder modulo the number of buckets. */
  lemma ToBktIs(hashv: nat, k: nat)
    ensures ToBkt(hashv, Pow2(k)) == hashv % Pow2(k)
  {
    MaskIsRemainder(hashv, k);
  }

  lemma ToBktInRange(hashv: nat, k: nat)
    ensures ToBkt(hashv, Pow2(k)) < Pow2(k)
  {
    ShiftAndMask(hashv, k);
  }

  lemma OddProduct(q: nat, n: nat)
    ensures (2 * q + 1) * n == 2 * (q * n) + n && (2 * q) * n == 2 * (q * n)
  {
  }

  lemma SplitByDouble(a: nat, n: nat, q1: nat, r1: nat, q2: nat, r2: nat)
    requires a == q1 * n + r1 && r1 < n
    requires a == q2 * (2 * n) + r2 && r2 < 2 * n
    ensures r2 == r1 || r2 == r1 + n
  {
    DoubleProduct(q2, n);
    OddProduct(q2, n);
    if r2 < n {
      QuotientUnique(a, n, q1, r1, 2 * q2, r2);
    } else {
      QuotientUnique(a, n, q1, r1, 2 * q2 + 1, r2 - n);
    }
  }

  /** Doubling the number of buckets sends an item to its old index or to that
      index plus the old number of buckets. */
  lemma DoublingMoves(hashv: nat, k: nat)
    ensures var n := Pow2(k);
            && ToBkt(hashv, n) == hashv % n && ToBkt(hashv, Pow2(k + 1)) == hashv % (2 * n)
            && (hashv % (2 * n) == hashv % n || hashv % (2 * n) == hashv % n + n)
  {
    ToBktIs(hashv, k);
    ToBktIs(hashv, k + 1);
    hide *;
    Pow2Step(k + 1);
    var n := Pow2(k);
    var q1, r1 := DividedBy(hashv, n);
    var q2, r2 := DividedBy(hashv, 2 * n);
    SplitByDouble(hashv, n, q1, r1, q2, r2);
  }

  lemma DividedBy(a: nat, n: nat) returns (q: nat, r: nat)
    requires 0 < n
    ensures a == q * n + r && r < n && r == a % n
  {
    q, r := a / n, a % n;
  }
}
