/** Unbounded non-negative integer arithmetic used by the key generator: powers,
    division facts, and the BigInt bit operators `&`, `|`, `<<`, `>>` restricted to
    non-negative operands (the only ones the generator ever applies them to). */
module Arith {

  function Pow(b: nat, k: nat): (r: nat)
    ensures b > 0 ==> r > 0
  {
    if k == 0 then 1 else b * Pow(b, k - 1)
  }

  function Pow2(k: nat): (r: nat)
    ensures r > 0
  {
    Pow(2, k)
  }

  /** `x << k` on a non-negative BigInt. */
  function Shl(x: nat, k: nat): nat
  {
    x * Pow2(k)
  }

  /** `x >> k` on a non-negative BigInt (floor division by 2^k). */
  function Shr(x: nat, k: nat): nat
  {
    x / Pow2(k)
  }

  lemma {:induction false} PowAdd(b: nat, m: nat, n: nat)
    ensures Pow(b, m + n) == Pow(b, m) * Pow(b, n)
  {
    if m > 0 {
      PowAdd(b, m - 1, n);
      MulAssoc(b, Pow(b, m - 1), Pow(b, n));
    }
  }

  lemma MulAssoc(a: nat, b: nat, c: nat)
    ensures a * (b * c) == (a * b) * c
  {
  }

  lemma {:induction false} PowMonotone(b: nat, m: nat, n: nat)
    requires b >= 1 && m <= n
    ensures Pow(b, m) <= Pow(b, n)
  {
    if m < n {
      PowMonotone(b, m, n - 1);
      assert Pow(b, n) == b * Pow(b, n - 1);
    }
  }

  lemma {:induction false} PowMul(b: nat, m: nat, n: nat)
    ensures Pow(b, m * n) == Pow(Pow(b, m), n)
  {
    if n > 0 {
      PowMul(b, m, n - 1);
      PowAdd(b, m, m * (n - 1));
      assert m * n == m + m * (n - 1);
    }
  }

  /** Powers of 256 are powers of 2. */
  lemma {:induction false} Pow256IsPow2(k: nat)
    ensures Pow(256, k) == Pow2(8 * k)
  {
    if k > 0 {
      Pow256IsPow2(k - 1);
      PowAdd(2, 8, 8 * (k - 1));
      assert Pow2(8) == 256;
    }
  }

  /** The powers of two that the key layout uses, as numbers. */
  lemma Pow2Small()
    ensures Pow2(3) == 8 && Pow2(7) == 128 && Pow2(8) == 256 && Pow2(10) == 1024
    ensures Pow2(14) == 16384 && Pow2(18) == 262144 && Pow2(19) == 524288
  {
    PowAdd(2, 7, 7);
    PowAdd(2, 7, 3);
    PowAdd(2, 14, 4);
    PowAdd(2, 14, 5);
  }

  lemma Pow2Word()
    ensures Pow2(32) == 4294967296 && Pow2(35) == 34359738368 && Pow2(37) == 137438953472
  {
    Pow2Small();
    PowAdd(2, 14, 18);
    PowAdd(2, 32, 3);
    PowAdd(2, 32, 5);
  }

  lemma Pow2Wide()
    ensures Pow2(46) == 70368744177664 && Pow2(56) == 72057594037927936
  {
    Pow2Small();
    Pow2Word();
    PowAdd(2, 32, 14);
    assert Pow2(46) == 70368744177664;
    PowAdd(2, 46, 10);
  }

  lemma Pow2Signature()
    ensures Pow2(69) == 590295810358705651712 && Pow2(104) == 20282409603651670423947251286016
  {
    Pow2Word();
    PowAdd(2, 32, 2);
    assert Pow2(34) == 17179869184;
    PowAdd(2, 35, 34);
    assert Pow2(69) == 590295810358705651712;
    PowAdd(2, 69, 35);
  }

  /** Quotient and remainder are the only ones with `x == q * d + r` and `0 <= r < d`. */
  lemma DivModUnique(x: nat, d: nat, q: nat, r: nat)
    requires d > 0 && r < d && x == q * d + r
    ensures x / d == q && x % d == r
  {
    var q', r' := x / d, x % d;
    assert (q - q') * d == r' - r;
    MulAwayFromZero(q - q', d);
  }

  lemma MulAwayFromZero(k: int, d: int)
    requires d >= 0
    ensures k >= 1 ==> k * d >= d
    ensures k <= -1 ==> k * d <= -d
  {
  }

  lemma DivModNested(x: nat, a: nat, b: nat)
    requires a > 0 && b > 0
    ensures a * b > 0
    ensures x / (a * b) == (x / a) / b
    ensures x % (a * b) == x % a + a * ((x / a) % b)
  {
    var q1, r1 := x / a, x % a;
    var q2, r2 := q1 / b, q1 % b;
    MulPositive(a, b);
    LowDigitsBelow(a, b, r1, r2);
    Regroup(x, a, b, q1, r1, q2, r2);
    DivModUnique(x, a * b, q2, a * r2 + r1);
  }

  lemma MulPositive(a: nat, b: nat)
    requires a > 0 && b > 0
    ensures a * b > 0
  {
  }

  /** Two digits below `a` and `b` make a number below `a * b`. */
  lemma LowDigitsBelow(a: nat, b: nat, r1: nat, r2: nat)
    requires r1 < a && r2 < b
    ensures a * r2 + r1 < a * b
  {
    assert a * r2 <= a * (b - 1);
  }

  lemma Regroup(x: nat, a: nat, b: nat, q1: nat, r1: nat, q2: nat, r2: nat)
    requires x == q1 * a + r1 && q1 == q2 * b + r2
    ensures x == q2 * (a * b) + (a * r2 + r1)
  {
  }

  /** `(q * d + r) / d == q` for a small `r`, and the remainder is `r`. */
  lemma DivAddSmall(q: nat, d: nat, r: nat)
    requires d > 0 && r < d
    ensures (q * d + r) / d == q && (q * d + r) % d == r
  {
    DivModUnique(q * d + r, d, q, r);
  }

  /** Appending a base-24 digit `d` to `y` shifts `x`, written in front of `y`, by one
      more place: if `xy = x p + y` then `xy 24 + d = x (24 p) + (y 24 + d)`. */
  lemma ShiftDigit(x: nat, p: nat, y: nat, d: nat, xy: nat, xyd: nat, yd: nat, p': nat)
    requires xy == x * p + y && xyd == xy * 24 + d && yd == y * 24 + d && p' == 24 * p
    ensures xyd == x * p' + yd
  {
  }

  lemma ModSmall(x: nat, d: nat)
    requires x < d
    ensures x % d == x
  {
    DivModUnique(x, d, 0, x);
  }

  lemma DivSmall(x: nat, d: nat)
    requires x < d
    ensures x / d == 0
  {
    DivModUnique(x, d, 0, x);
  }

  /** Bitwise AND of two non-negative BigInts, bit by bit from the least significant. */
  function BitAnd(a: nat, b: nat): (r: nat)
    ensures r <= a && r <= b
    decreases a
  {
    if a == 0 || b == 0 then 0
    else (if a % 2 == 1 && b % 2 == 1 then 1 else 0) + 2 * BitAnd(a / 2, b / 2)
  }

  /** Bitwise OR of two non-negative BigInts, bit by bit from the least significant. */
  function BitOr(a: nat, b: nat): (r: nat)
    ensures a <= r && b <= r && r <= a + b
    decreases a
  {
    if a == 0 then b
    else if b == 0 then a
    else (if a % 2 == 1 || b % 2 == 1 then 1 else 0) + 2 * BitOr(a / 2, b / 2)
  }

  /** Bitwise XOR of two non-negative numbers, bit by bit from the least significant. */
  function BitXor(a: nat, b: nat): (r: nat)
    decreases a
  {
    if a == 0 then b
    else if b == 0 then a
    else (if a % 2 != b % 2 then 1 else 0) + 2 * BitXor(a / 2, b / 2)
  }

  /** The lowest bit of `a ^ b` is the XOR of the lowest bits, the rest is the XOR of
      the rest. */
  lemma XorBits(a: nat, b: nat)
    ensures BitXor(a, b) % 2 == (if a % 2 != b % 2 then 1 else 0)
    ensures BitXor(a, b) / 2 == BitXor(a / 2, b / 2)
  {
    if a == 0 {
      assert a / 2 == 0;
    } else if b == 0 {
      assert b / 2 == 0;
    } else {
      DivAddSmall(BitXor(a / 2, b / 2), 2, if a % 2 != b % 2 then 1 else 0);
    }
  }

  lemma {:induction false} XorSelf(a: nat)
    ensures BitXor(a, a) == 0
    decreases a
  {
    if a > 0 {
      XorSelf(a / 2);
    }
  }

  /** XOR-ing twice with the same value gives the original back. */
  lemma {:induction false} XorInvolution(a: nat, b: nat)
    ensures BitXor(BitXor(a, b), b) == a
    decreases a
  {
    if a == 0 {
      XorSelf(b);
    } else {
      var c := BitXor(a, b);
      XorBits(a, b);
      XorBits(c, b);
      XorInvolution(a / 2, b / 2);
      var r := BitXor(c, b);
      assert r == r % 2 + 2 * (r / 2);
      assert r / 2 == a / 2;
      assert r % 2 == a % 2;
    }
  }

  /** XOR of two `k`-bit numbers fits in `k` bits. */
  lemma {:induction false} XorBound(a: nat, b: nat, k: nat)
    requires a < Pow2(k) && b < Pow2(k)
    ensures BitXor(a, b) < Pow2(k)
  {
    if k == 0 {
      assert a == 0 && b == 0;
    } else {
      Pow2Succ(k);
      XorBits(a, b);
      XorBound(a / 2, b / 2, k - 1);
      var r := BitXor(a, b);
      assert r == r % 2 + 2 * (r / 2);
    }
  }

  lemma Pow2Succ(k: nat)
    requires k > 0
    ensures Pow2(k) == 2 * Pow2(k - 1)
  {
  }

  /** Masking with `2^k - 1` keeps exactly the low `k` bits. */
  lemma {:induction false} AndLowMask(x: nat, k: nat)
    ensures BitAnd(x, Pow2(k) - 1) == x % Pow2(k)
  {
    if k == 0 {
      assert Pow2(k) == 1;
    } else if x > 0 {
      AndLowMask(x / 2, k - 1);
      Pow2Succ(k);
      AndLowMaskStep(x, Pow2(k - 1), Pow2(k));
    } else {
      assert BitAnd(x, Pow2(k) - 1) == 0 == x % Pow2(k);
    }
  }

  lemma AndLowMaskStep(x: nat, p: nat, q: nat)
    requires x > 0 && p > 0 && q == 2 * p
    requires BitAnd(x / 2, p - 1) == (x / 2) % p
    ensures BitAnd(x, q - 1) == x % q
  {
    var m := q - 1;
    OddHalf(p);
    var low := if x % 2 == 1 && m % 2 == 1 then 1 else 0;
    assert low == x % 2;
    assert BitAnd(x, m) == low + 2 * BitAnd(x / 2, m / 2);
    DivModNested(x, 2, p);
  }

  lemma OddHalf(p: nat)
    requires p > 0
    ensures (2 * p - 1) % 2 == 1 && (2 * p - 1) / 2 == p - 1
  {
    DivAddSmall(p - 1, 2, 1);
  }

  /** OR of a multiple of `2^k` with a number below `2^k` is their sum: the bits are disjoint. */
  lemma {:induction false} OrDisjoint(x: nat, y: nat, k: nat)
    requires x % Pow2(k) == 0 && y < Pow2(k)
    ensures BitOr(x, y) == x + y
  {
    if k > 0 && x > 0 && y > 0 {
      assert Pow2(k) == 2 * Pow2(k - 1);
      DivModNested(x, 2, Pow2(k - 1));
      OrDisjoint(x / 2, y / 2, k - 1);
    }
  }

  /** OR-ing a field `f < 2^w`, shifted to bit `k`, into a value whose low `k + w` bits
      are clear adds the two, and leaves the low `k` bits of the sum clear. */
  lemma OrField(acc: nat, f: nat, k: nat, w: nat) returns (sum: nat)
    requires acc % Pow2(k + w) == 0 && f < Pow2(w)
    ensures sum == BitOr(acc, Shl(f, k)) == acc + Shl(f, k)
    ensures sum % Pow2(k) == 0
  {
    PowAdd(2, k, w);
    MulStrictRight(f, Pow2(w), Pow2(k));
    OrDisjoint(acc, Shl(f, k), k + w);
    var q := MultipleOfFactor(acc, Pow2(k), Pow2(w));
    SumOfMultiples(q, f, Pow2(k));
    sum := acc + Shl(f, k);
  }

  /** A multiple of `p * w` is a multiple of `p`. */
  lemma MultipleOfFactor(x: nat, p: nat, w: nat) returns (q: nat)
    requires p > 0 && w > 0 && x % (p * w) == 0
    ensures x == q * p
  {
    MulPositive(p, w);
    var m := x / (p * w);
    assert x == m * (p * w);
    MulAssoc(m, w, p);
    q := m * w;
  }

  lemma SumOfMultiples(q: nat, f: nat, p: nat)
    requires p > 0
    ensures (q * p + f * p) % p == 0
  {
    assert q * p + f * p == (q + f) * p;
    DivAddSmall(q + f, p, 0);
  }

  lemma MulStrictRight(a: nat, b: nat, p: nat)
    requires a < b && p > 0
    ensures a * p < p * b
  {
  }

  /** `(x << k) | y` with `y < 2^k` places `y` in the low `k` bits and `x` above them. */
  lemma ShlOr(x: nat, y: nat, k: nat)
    requires y < Pow2(k)
    ensures BitOr(Shl(x, k), y) == Shl(x, k) + y
    ensures Shr(BitOr(Shl(x, k), y), k) == x
    ensures BitOr(Shl(x, k), y) % Pow2(k) == y
  {
    assert Shl(x, k) % Pow2(k) == 0 by { DivAddSmall(x, Pow2(k), 0); }
    OrDisjoint(Shl(x, k), y, k);
    DivAddSmall(x, Pow2(k), y);
  }

  /** A value that fits in `k` bits is unchanged by a `k`-bit mask, and only such a value is. */
  lemma MaskUnchanged(x: nat, k: nat)
    ensures BitAnd(x, Pow2(k) - 1) == x <==> x < Pow2(k)
  {
    AndLowMask(x, k);
    if x < Pow2(k) {
      DivAddSmall(0, Pow2(k), x);
    }
  }
}
