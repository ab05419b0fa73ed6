/** The bit layout of a terminal-server key: the 7-byte payload, then 14 bytes of
    signature holding the 35-bit challenge `h` and the 69-bit response `s`, scrambled
    with RC4 and printed as a 35-digit base-24 number (`generateTsKey` and
    `validateTskey`). */
module Signature {
  import opened Wrappers
  import opened Arith
  import opened ByteCodec
  import opened KeyString
  import opened Rc4

  /** The challenge is kept to 35 bits. */
  const H_MASK: nat := 0x7FFFFFFFF
  /** The response is kept to 69 bits. */
  const S_MASK: nat := 0x1FFFFFFFFFFFFFFFFF

  lemma MaskWidths()
    ensures H_MASK == Pow2(35) - 1 && S_MASK == Pow2(69) - 1
  {
    Pow2Word();
    Pow2Signature();
  }

  /** The challenge read from a SHA-1 digest: the first four bytes, with the top three
      bits of the next four above them. */
  function Challenge(md: seq<byte>): nat
    requires |md| >= 8
  {
    BitOr(Shl(Shr(FromLE(md[4..8]), 29), 32), FromLE(md[..4]))
  }

  /** A response `s` is used only when masking it to 69 bits leaves it unchanged and
      it is not the all-ones value. */
  predicate Accepted(s: nat)
  {
    BitAnd(s, S_MASK) == s && BitAnd(s, S_MASK) < S_MASK
  }

  /** `sigdata = (s_masked << 35n) | h_masked`. */
  function PackSig(h: nat, s: nat): nat
  {
    BitOr(Shl(BitAnd(s, S_MASK), 35), BitAnd(h, H_MASK))
  }

  /** `bigIntToBytesLE(sigdata, 14n)`. */
  function SigBytes(h: nat, s: nat): (r: seq<byte>)
    ensures |r| == 14
  {
    ToLE(PackSig(h, s), 14)
  }

  /** `sigdata & 0x7FFFFFFFFn` on the validating side. */
  function UnpackH(sig: nat): nat
  {
    BitAnd(sig, H_MASK)
  }

  /** `(sigdata >> 35n) & 0x1FFFFFFFFFFFFFFFFFn` on the validating side. */
  function UnpackS(sig: nat): nat
  {
    BitAnd(Shr(sig, 35), S_MASK)
  }

  /** `concatBytes(keydata_inner, sigdataBytes)`: the 21 bytes the key carries. */
  function SignedPayload(inner: seq<byte>, h: nat, s: nat): (r: seq<byte>)
    requires |inner| == 7
    ensures |r| == 21
  {
    inner + SigBytes(h, s)
  }

  /** The key printed for a payload and a signature: the 21 bytes scrambled with RC4,
      the first 20 read as a number, written in base 24. */
  function Seal(rk: seq<byte>, inner: seq<byte>, h: nat, s: nat): string
    requires |rk| > 0 && |inner| == 7
  {
    Encode(FromLE(Crypt(rk, SignedPayload(inner, h, s))[..20]))
  }

  /** The 21 bytes the validating side recovers from a key's value. */
  function Unseal(rk: seq<byte>, value: nat): (r: seq<byte>)
    requires |rk| > 0
    ensures |r| == 21
  {
    Crypt(rk, ToLE(value, 21))
  }

  // ---------------------------------------------------------------------------
  // Properties.

  /** The challenge is below 2^35: the part taken from the second word has three bits. */
  lemma ChallengeFits(md: seq<byte>)
    requires |md| >= 8
    ensures Challenge(md) == Shr(FromLE(md[4..8]), 29) * Pow2(32) + FromLE(md[..4])
    ensures Challenge(md) < Pow2(35)
  {
    Pow256IsPow2(4);
    Pow2Word();
    var high, low := FromLE(md[4..8]), FromLE(md[..4]);
    PowAdd(2, 29, 3);
    assert Pow2(3) == 8;
    assert high < Pow2(29) * 8;
    assert Shr(high, 29) < 8;
    ShlOr(Shr(high, 29), low, 32);
  }

  /** A response is accepted exactly when it is below `2^69 - 1`. */
  lemma AcceptedIff(s: nat)
    ensures Accepted(s) <==> s < Pow2(69) - 1
  {
    MaskWidths();
    MaskUnchanged(s, 69);
  }

  /** Packing `s` above the low `hw` bits of `h` places both without overlap. */
  lemma PackFields(h: nat, s: nat, hw: nat, sw: nat, hm: nat)
    requires hm == Pow2(hw) - 1 && s < Pow2(sw)
    ensures BitOr(Shl(s, hw), BitAnd(h, hm)) == s * Pow2(hw) + h % Pow2(hw)
    ensures BitOr(Shl(s, hw), BitAnd(h, hm)) < Pow2(hw + sw)
  {
    var ph, ps := Pow2(hw), Pow2(sw);
    var hr: nat := h % ph;
    AndLowMask(h, hw);
    ShlOr(s, hr, hw);
    PowAdd(2, sw, hw);
    MulRightMonotone(s + 1, ps, ph);
    assert (s + 1) * ph == s * ph + ph;
  }

  /** `(s + g ps) ph == s ph + g (ps ph)`. */
  lemma ShiftedSum(s: nat, g: nat, ps: nat, ph: nat)
    ensures (s + g * ps) * ph == s * ph + g * (ps * ph)
  {
    assert (s + g * ps) * ph == s * ph + (g * ps) * ph;
  }

  lemma MulRightMonotone(a: nat, b: nat, x: nat)
    requires a <= b
    ensures a * x <= b * x
  {
  }

  /** Unpacking a packed pair gives back the low `hw` bits of `h` and `s`, whatever was
      added from bit `hw + sw` on. */
  lemma UnpackFields(h: nat, s: nat, g: nat, hw: nat, sw: nat, hm: nat, sm: nat)
    requires hm == Pow2(hw) - 1 && sm == Pow2(sw) - 1 && s < Pow2(sw)
    ensures BitAnd(BitOr(Shl(s, hw), BitAnd(h, hm)) + g * Pow2(hw + sw), hm) == h % Pow2(hw)
    ensures BitAnd(Shr(BitOr(Shl(s, hw), BitAnd(h, hm)) + g * Pow2(hw + sw), hw), sm) == s
  {
    var ph, ps := Pow2(hw), Pow2(sw);
    var hr: nat := h % ph;
    var q: nat := s + g * ps;
    var v: nat := BitOr(Shl(s, hw), BitAnd(h, hm)) + g * Pow2(hw + sw);
    PackFields(h, s, hw, sw, hm);
    PowAdd(2, sw, hw);
    ShiftedSum(s, g, ps, ph);
    SplitAt(v, q, hr, hw);
    SplitAt(q, g, s, sw);
  }

  /** Below and above bit `w`: the low `w` bits of `q 2^w + r` are `r`, the rest is `q`. */
  lemma SplitAt(v: nat, q: nat, r: nat, w: nat)
    requires r < Pow2(w) && v == q * Pow2(w) + r
    ensures BitAnd(v, Pow2(w) - 1) == r && Shr(v, w) == q
  {
    DivAddSmall(q, Pow2(w), r);
    AndLowMask(v, w);
  }

  /** The packed signature holds the response above the low 35 bits of the challenge,
      and fits in the 104 bits of 13 bytes. */
  lemma PackSigLayout(h: nat, s: nat)
    requires Accepted(s)
    ensures PackSig(h, s) == s * Pow2(35) + h % Pow2(35)
    ensures PackSig(h, s) < Pow2(104)
  {
    AcceptedIff(s);
    MaskWidths();
    PackFields(h, s, 35, 69, H_MASK);
  }

  /** Unpacking gives back the challenge's low 35 bits and the response, whatever was
      added above bit 104. */
  lemma UnpackSig(h: nat, s: nat, g: nat)
    requires Accepted(s)
    ensures UnpackH(PackSig(h, s) + g * Pow2(104)) == h % Pow2(35)
    ensures UnpackS(PackSig(h, s) + g * Pow2(104)) == s
  {
    AcceptedIff(s);
    MaskWidths();
    UnpackFields(h, s, g, 35, 69, H_MASK, S_MASK);
  }

  /** Every 20-byte value has a 35-digit base-24 key: `256^20 < 24^35`. */
  lemma KeySpaceFits()
    ensures Pow(256, 20) < Pow(24, KEY_DIGITS)
  {
    KeySpaceAt(20, KEY_DIGITS);
  }

  lemma KeySpaceAt(bytes: nat, digits: nat)
    requires bytes == 20 && digits == 35
    ensures Pow(256, bytes) < Pow(24, digits)
  {
    var low, three, high := Pow2(55), Pow(3, digits), Pow2(3 * digits);
    Pow256IsPow2(bytes);
    assert 8 * bytes == 55 + 3 * digits;
    PowAdd(2, 55, 3 * digits);
    assert Pow(256, bytes) == low * high;
    Pow24Split(digits);
    assert Pow(24, digits) == three * high;
    ThreePowerBeatsTwo();
    assert low < three;
    MulRightStrict(low, three, high);
  }

  lemma Pow24Split(k: nat)
    ensures Pow(24, k) == Pow(3, k) * Pow2(3 * k)
  {
    PowMulBase(3, 8, k);
    PowMul(2, 3, k);
    assert Pow(2, 3) == 8;
  }

  lemma MulRearrange(a: nat, b: nat, x: nat, y: nat)
    ensures (a * b) * (x * y) == (a * x) * (b * y)
  {
  }

  lemma MulRightStrict(a: nat, b: nat, x: nat)
    requires a < b && x > 0
    ensures a * x < b * x
  {
  }

  /** `2^55 < 3^35`, the margin by which 35 base-24 digits hold 160 bits. */
  lemma ThreePowerBeatsTwo()
    ensures Pow2(55) < Pow(3, 35)
  {
    PowMul(3, 5, 7);
    assert Pow(3, 5) == 243;
    assert Pow(243, 7) == 50031545098999707;
    PowAdd(2, 46, 9);
    Pow2Wide();
    assert Pow2(9) == 512;
  }

  lemma {:induction false} PowMulBase(a: nat, b: nat, k: nat)
    ensures Pow(a * b, k) == Pow(a, k) * Pow(b, k)
  {
    if k > 0 {
      PowMulBase(a, b, k - 1);
      var x, y := Pow(a, k - 1), Pow(b, k - 1);
      assert Pow(a * b, k) == (a * b) * (x * y);
      MulRearrange(a, b, x, y);
    }
  }

  /** Opening a sealed payload gives back its first 20 bytes: the value written to the
      key is the first 20 scrambled bytes, a 21st zero byte is added when reading it, and
      RC4 with the same key undoes the scrambling byte by byte. */
  lemma OpenedPrefix(rk: seq<byte>, data: seq<byte>)
    requires |rk| > 0 && |data| == 21
    ensures Unseal(rk, FromLE(Crypt(rk, data)[..20]))[..20] == data[..20]
  {
    var head := Crypt(rk, data)[..20];
    ToLEWiden(head);
    assert ToLE(FromLE(head), 21) == head + [0];
    CryptPrefix(rk, head + [0], 20);
    assert (head + [0])[..20] == head;
    CryptPrefix(rk, data, 20);
    CryptInvolution(rk, data[..20]);
  }

  /** Reading 14 bytes whose first 13 encode `sig < 2^104` gives `sig` plus the last
      byte times `2^104`. */
  lemma SigFromTail(sig: nat, tail: seq<byte>)
    requires sig < Pow2(104) && |tail| == 14 && tail[..13] == ToLE(sig, 13)
    ensures FromLE(tail) == sig + tail[13] * Pow2(104)
  {
    assert tail == tail[..13] + [tail[13]];
    FromLEAppend(tail[..13], tail[13]);
    Pow256IsPow2(13);
    FromLEToLEFits(sig, 13);
  }

  /** The 21 bytes opened from a key agree with the signed payload on the first 20, so
      they give back the payload, the challenge's low 35 bits and the response; the 21st
      byte only reaches bits the masks drop. */
  lemma OpenFields(dc: seq<byte>, inner: seq<byte>, h: nat, s: nat)
    requires |dc| == 21 && |inner| == 7 && Accepted(s)
    requires dc[..20] == SignedPayload(inner, h, s)[..20]
    ensures dc[..7] == inner
    ensures UnpackH(FromLE(dc[7..])) == h % Pow2(35)
    ensures UnpackS(FromLE(dc[7..])) == s
  {
    var data := SignedPayload(inner, h, s);
    assert dc[..7] == dc[..20][..7];
    assert data[..7] == inner;
    var sig := PackSig(h, s);
    PackSigLayout(h, s);
    var tail := dc[7..];
    assert tail[..13] == dc[..20][7..];
    assert data[..20][7..] == SigBytes(h, s)[..13];
    ToLEPrefix(sig, 14, 13);
    SigFromTail(sig, tail);
    UnpackSig(h, s, tail[13]);
  }

  /** The printed key decodes to the value of the first 20 scrambled bytes. */
  lemma SealDecodes(rk: seq<byte>, inner: seq<byte>, h: nat, s: nat)
    requires |rk| > 0 && |inner| == 7
    ensures Decode(Seal(rk, inner, h, s)) == Ok(FromLE(Crypt(rk, SignedPayload(inner, h, s))[..20]))
  {
    var data := SignedPayload(inner, h, s);
    var head := Crypt(rk, data)[..20];
    HeadDecodes(head);
  }

  /** Any 20 bytes, read as a number, print as a key that decodes back to that number. */
  lemma HeadDecodes(head: seq<byte>)
    requires |head| == 20
    ensures Decode(Encode(FromLE(head))) == Ok(FromLE(head))
  {
    var v := FromLE(head);
    assert v < Pow(256, 20);
    KeySpaceFits();
    assert v < Pow(24, KEY_DIGITS);
    EncodeDecode(v);
  }

  /** The transport round trip: decoding the printed key and opening it with the same
      RC4 key gives back the 7-byte payload, the challenge's low 35 bits and the
      response, for every payload and every accepted response. */
  lemma TransportRoundTrip(rk: seq<byte>, inner: seq<byte>, h: nat, s: nat)
    requires |rk| > 0 && |inner| == 7 && Accepted(s)
    ensures Decode(Seal(rk, inner, h, s)).Ok?
    ensures Unseal(rk, Decode(Seal(rk, inner, h, s)).value)[..7] == inner
    ensures UnpackH(FromLE(Unseal(rk, Decode(Seal(rk, inner, h, s)).value)[7..])) == h % Pow2(35)
    ensures UnpackS(FromLE(Unseal(rk, Decode(Seal(rk, inner, h, s)).value)[7..])) == s
  {
    SealDecodes(rk, inner, h, s);
    var data := SignedPayload(inner, h, s);
    OpenedPrefix(rk, data);
    OpenFields(Unseal(rk, FromLE(Crypt(rk, data)[..20])), inner, h, s);
  }
}
