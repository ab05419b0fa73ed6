/** The positive remainder `mod(n, m)` and the rejection sampler
    `generateRandomBigInt(min, max)`, with the random source as a parameter. */
module Sampling {
  import opened Wrappers
  import opened Arith
  import opened ByteCodec

  /** BigInt `n % m` in JavaScript for a positive `m`: the remainder of the division
      truncated toward zero, so it has the sign of `n`. It is obtained by moving `n`
      toward zero in steps of `m` until it is shorter than `m`; `TruncRemIsRemainder`
      relates it to Dafny's own `%`. Repeated subtraction makes it a specification only:
      it is not meant to be executed on operands of the generator's 160-bit size. */
  function TruncRem(n: int, m: int): (r: int)
    requires m > 0
    ensures -m < r < m
    ensures n >= 0 ==> r >= 0
    decreases if n >= 0 then n else -n
  {
    if n >= m then TruncRem(n - m, m)
    else if n <= -m then TruncRem(n + m, m)
    else n
  }

  /** `mod(n, m)`: the error for a non-positive modulus, and otherwise the truncated
      remainder moved into `[0, m)`, which is the floor remainder (Dafny's `%`). */
  function Mod(n: int, m: int): (r: Result<nat>)
    ensures m <= 0 ==> r == Err(NonPositiveModulus)
    ensures m > 0 ==> r == Ok(n % m)
  {
    if m <= 0 then Err(NonPositiveModulus)
    else
      var result := TruncRem(n, m);
      FloorFromTrunc(n, m);
      Ok(if result >= 0 then result else result + m)
  }

  /** Adding `m` to a negative truncated remainder gives the floor remainder. */
  lemma FloorFromTrunc(n: int, m: int)
    requires m > 0
    ensures (if TruncRem(n, m) >= 0 then TruncRem(n, m) else TruncRem(n, m) + m) == n % m
  {
    TruncRemIsRemainder(n, m);
    if n < 0 {
      var q, r := (-n) / m, (-n) % m;
      assert -n == q * m + r;
      if r == 0 {
        IntDivModUnique(n, m, -q, 0);
      } else {
        assert n == (-q - 1) * m + (m - r);
        IntDivModUnique(n, m, -q - 1, m - r);
      }
    }
  }

  /** The truncated remainder is the remainder of `|n|` by `m`, with the sign of `n`. */
  lemma {:induction false} TruncRemIsRemainder(n: int, m: int)
    requires m > 0
    ensures n >= 0 ==> TruncRem(n, m) == n % m
    ensures n < 0 ==> TruncRem(n, m) == -((-n) % m)
    decreases if n >= 0 then n else -n
  {
    if n >= m {
      TruncRemIsRemainder(n - m, m);
      RemainderStep(n, m);
    } else if n <= -m {
      TruncRemIsRemainder(n + m, m);
      RemainderStep(-n, m);
    } else if n >= 0 {
      IntDivModUnique(n, m, 0, n);
    } else {
      IntDivModUnique(-n, m, 0, -n);
    }
  }

  /** Taking `m` away from `n >= m` leaves the remainder by `m` unchanged. */
  lemma RemainderStep(n: int, m: int)
    requires m > 0 && n >= m
    ensures n % m == (n - m) % m
  {
    var q, r := (n - m) / m, (n - m) % m;
    assert n - m == q * m + r;
    assert n == (q + 1) * m + r;
    IntDivModUnique(n, m, q + 1, r);
  }

  /** `mod` throws exactly for a non-positive modulus, and otherwise returns the
      mathematical (floor) remainder: a value in `[0, m)` congruent to `n`. */
  lemma ModIsFloorMod(n: int, m: int)
    ensures m <= 0 ==> Mod(n, m) == Err(NonPositiveModulus)
    ensures m > 0 ==> Mod(n, m) == Ok(n % m)
    ensures m > 0 ==> 0 <= Mod(n, m).value < m && (n - Mod(n, m).value) % m == 0
  {
    if m > 0 {
      IntDivModUnique(n - n % m, m, n / m, 0);
    }
  }

  /** Integer division by a positive `d` is determined by `x == q * d + r`, `0 <= r < d`. */
  lemma IntDivModUnique(x: int, d: int, q: int, r: int)
    requires d > 0 && 0 <= r < d && x == q * d + r
    ensures x / d == q && x % d == r
  {
    var q', r' := x / d, x % d;
    assert (q - q') * d == r' - r;
    MulAwayFromZero(q - q', d);
  }

  /** `n.toString(2).length`: the number of binary digits of `n` ("0" has one). */
  function BitLength(n: nat): (r: nat)
    ensures r >= 1
  {
    if n < 2 then 1 else 1 + BitLength(n / 2)
  }

  /** A positive number has exactly `BitLength(n)` binary digits. */
  lemma {:induction false} BitLengthBounds(n: nat)
    requires n > 0
    ensures Pow2(BitLength(n) - 1) <= n < Pow2(BitLength(n))
  {
    if n >= 2 {
      BitLengthBounds(n / 2);
      Pow2Succ(BitLength(n));
      Pow2Succ(BitLength(n) - 1);
    }
  }

  /** The value of bytes read most significant first, as the sampler's
      `(tempValue << 8n) + BigInt(randomBytes[i])` loop reads them. */
  function FromBE(bs: seq<byte>): (v: nat)
  {
    if bs == [] then 0 else Shl(FromBE(bs[..|bs| - 1]), 8) + bs[|bs| - 1]
  }

  /** The random source: byte `i` of the `d`-th call to `crypto.getRandomValues`. */
  type Entropy = (nat, nat) -> byte

  /** The `n` bytes that the `d`-th draw fills in. */
  function Draw(rand: Entropy, d: nat, n: nat): (r: seq<byte>)
    ensures |r| == n
  {
    seq(n, i requires 0 <= i < n => rand(d, i))
  }

  /** `(1n << bitsNeeded) - 1n`, or 0 for no bits. */
  function Mask(bits: nat): nat
  {
    if bits == 0 then 0 else Shl(1, bits) - 1
  }

  /** The candidate `min + (value & mask)` formed from one draw for the range `[min, max)`. */
  function Candidate(min: int, max: int, bytes: seq<byte>): int
    requires min < max
  {
    min + BitAnd(FromBE(bytes), Mask(BitLength(max - min)))
  }

  function BytesNeeded(min: int, max: int): nat
    requires min < max
  {
    (BitLength(max - min) + 7) / 8
  }

  /** The do-while loop from the draw with index `attempts` on: a draw is made while
      `attempts <= 100`, and the first candidate below `max` is returned. */
  function SampleFrom(min: int, max: int, rand: Entropy, attempts: nat): Result<int>
    requires min < max
    decreases 101 - attempts
  {
    if attempts > 100 then Err(SamplerExhausted)
    else
      var v := Candidate(min, max, Draw(rand, attempts, BytesNeeded(min, max)));
      if v >= max then SampleFrom(min, max, rand, attempts + 1) else Ok(v)
  }

  /** What `generateRandomBigInt(min, max)` returns or throws. */
  function Sample(min: int, max: int, rand: Entropy): Result<int>
  {
    if min >= max then Err(EmptyRange) else SampleFrom(min, max, rand, 0)
  }

  /** `generateRandomBigInt(min, max)`, drawing its bytes from `rand`. */
  method GenerateRandomBigInt(min: int, max: int, rand: Entropy) returns (r: Result<int>)
    ensures r == Sample(min, max, rand)
  {
    if min >= max {
      return Err(EmptyRange);
    }
    var range := max - min;
    var bitsNeeded := BitLength(range);
    var bytesNeeded := (bitsNeeded + 7) / 8;
    assert bytesNeeded == BytesNeeded(min, max);
    var attempts := 0;
    while true
      invariant attempts <= 101
      invariant SampleFrom(min, max, rand, attempts) == Sample(min, max, rand)
      decreases 101 - attempts
    {
      if attempts > 100 {
        return Err(SamplerExhausted);
      }
      var draw := attempts;
      attempts := attempts + 1;
      var randomBytes := Draw(rand, draw, bytesNeeded);
      var tempValue := ReadBigEndian(randomBytes);
      var mask := if bitsNeeded == 0 then 0 else Shl(1, bitsNeeded) - 1;
      assert mask == Mask(BitLength(max - min));
      tempValue := BitAnd(tempValue, mask);
      var randomBigInt := min + tempValue;
      assert randomBigInt == Candidate(min, max, randomBytes);
      assert SampleFrom(min, max, rand, draw) ==
        if randomBigInt >= max then SampleFrom(min, max, rand, attempts) else Ok(randomBigInt);
      if randomBigInt < max {
        return Ok(randomBigInt);
      }
    }
  }

  /** The loop `tempValue = (tempValue << 8n) + BigInt(randomBytes[i])`. */
  method ReadBigEndian(randomBytes: seq<byte>) returns (tempValue: nat)
    ensures tempValue == FromBE(randomBytes)
  {
    tempValue := 0;
    for i := 0 to |randomBytes|
      invariant tempValue == FromBE(randomBytes[..i])
    {
      assert randomBytes[..i + 1][..i] == randomBytes[..i];
      tempValue := Shl(tempValue, 8) + randomBytes[i];
    }
    assert randomBytes[..|randomBytes|] == randomBytes;
  }

  // ---------------------------------------------------------------------------
  // Properties.

  /** Every candidate lies in `[min, min + 2^bits)`, and so below `min + 2 (max - min)`:
      the mask keeps fewer than twice as many values as the range holds. */
  lemma CandidateBounds(min: int, max: int, bytes: seq<byte>)
    requires min < max
    ensures min <= Candidate(min, max, bytes) < min + 2 * (max - min)
  {
    var bits := BitLength(max - min);
    BitLengthBounds(max - min);
    Pow2Succ(bits);
    assert Mask(bits) == Pow2(bits) - 1;
    AndLowMask(FromBE(bytes), bits);
  }

  /** A returned value always lies in `[min, max)`. */
  lemma {:induction false} SampleFromInRange(min: int, max: int, rand: Entropy, attempts: nat)
    requires min < max
    ensures SampleFrom(min, max, rand, attempts).Ok? ==>
      min <= SampleFrom(min, max, rand, attempts).value < max
    decreases 101 - attempts
  {
    if attempts <= 100 {
      CandidateBounds(min, max, Draw(rand, attempts, BytesNeeded(min, max)));
      SampleFromInRange(min, max, rand, attempts + 1);
    }
  }

  /** `generateRandomBigInt` returns a value in `[min, max)`, throws the range error
      exactly when `min >= max`, and otherwise can only fail by running out of draws. */
  lemma SampleSpec(min: int, max: int, rand: Entropy)
    ensures Sample(min, max, rand).Ok? ==> min <= Sample(min, max, rand).value < max
    ensures Sample(min, max, rand) == Err(EmptyRange) <==> min >= max
    ensures min < max && Sample(min, max, rand).Err? ==> Sample(min, max, rand).error == SamplerExhausted
  {
    if min < max {
      SampleFromInRange(min, max, rand, 0);
      SampleFromErrors(min, max, rand, 0);
    }
  }

  lemma {:induction false} SampleFromErrors(min: int, max: int, rand: Entropy, attempts: nat)
    requires min < max
    ensures SampleFrom(min, max, rand, attempts).Err? ==>
      SampleFrom(min, max, rand, attempts).error == SamplerExhausted
    decreases 101 - attempts
  {
    if attempts <= 100 {
      SampleFromErrors(min, max, rand, attempts + 1);
    }
  }

  /** The sampler makes at most 101 draws: its result depends only on draws 0 .. 100. */
  lemma {:induction false} SampleFromUsesDraws(min: int, max: int, r1: Entropy, r2: Entropy, attempts: nat)
    requires min < max
    requires forall d, i :: d <= 100 ==> r1(d, i) == r2(d, i)
    ensures SampleFrom(min, max, r1, attempts) == SampleFrom(min, max, r2, attempts)
    decreases 101 - attempts
  {
    if attempts <= 100 {
      var n := BytesNeeded(min, max);
      assert Draw(r1, attempts, n) == Draw(r2, attempts, n);
      SampleFromUsesDraws(min, max, r1, r2, attempts + 1);
    }
  }

  /** If a draw's masked value falls in the range, it is the result: the first in-range
      candidate is returned, shifted by `min`. */
  lemma FirstAccepted(min: int, max: int, rand: Entropy)
    requires min < max
    requires Candidate(min, max, Draw(rand, 0, BytesNeeded(min, max))) < max
    ensures Sample(min, max, rand) == Ok(Candidate(min, max, Draw(rand, 0, BytesNeeded(min, max))))
  {
  }
}
