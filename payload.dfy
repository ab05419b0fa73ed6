/** The 7-byte payloads that the signature covers: the SPK ID read from the product ID
    (`getSpkid`, `generateSpk`) and the packed license-pack information (`generateLkp`). */
module Payload {
  import opened Wrappers
  import opened Arith
  import opened ByteCodec

  const HYPHEN: CodeUnit := 0x2D
  const PLUS: CodeUnit := 0x2B
  const DIGIT_ZERO: CodeUnit := 0x30

  /** The key compares only the low 37 bits of its payload with the SPK ID. */
  const SPKID_MASK: nat := 0x1FFFFFFFFF

  // ---------------------------------------------------------------------------
  // getSpkid

  /** The code units `parseInt` skips before the number: white space and line
      terminators of ECMAScript. */
  predicate IsJsWhiteSpace(c: CodeUnit)
  {
    c == 0x09 || c == 0x0A || c == 0x0B || c == 0x0C || c == 0x0D || c == 0x20 ||
    c == 0xA0 || c == 0x1680 || (0x2000 <= c <= 0x200A) || c == 0x2028 || c == 0x2029 ||
    c == 0x202F || c == 0x205F || c == 0x3000 || c == 0xFEFF
  }

  predicate IsDigit(c: CodeUnit)
  {
    DIGIT_ZERO <= c <= DIGIT_ZERO + 9
  }

  function TrimStart(s: JsString): (r: JsString)
    ensures |r| <= |s| && r == s[|s| - |r|..]
  {
    if s != [] && IsJsWhiteSpace(s[0]) then TrimStart(s[1..]) else s
  }

  /** The longest prefix of decimal digits. */
  function LeadingDigits(s: JsString): (r: JsString)
    ensures |r| <= |s| && r == s[..|r|]
    ensures forall i :: 0 <= i < |r| ==> IsDigit(r[i])
  {
    if s != [] && IsDigit(s[0]) then [s[0]] + LeadingDigits(s[1..]) else []
  }

  /** The value of a string of decimal digits, most significant first. */
  function DecimalValue(ds: JsString): (v: nat)
    requires forall i :: 0 <= i < |ds| ==> IsDigit(ds[i])
    ensures v < Pow(10, |ds|)
  {
    if ds == [] then 0
    else
      var init := ds[..|ds| - 1];
      assert forall i :: 0 <= i < |init| ==> IsDigit(init[i]) by {
        forall i | 0 <= i < |init| ensures IsDigit(init[i]) { assert init[i] == ds[i]; }
      }
      assert IsDigit(ds[|ds| - 1]);
      var d := ds[|ds| - 1] as int - DIGIT_ZERO as int;
      DecimalStep(DecimalValue(init), d, Pow(10, |init|));
      DecimalValue(init) * 10 + d
  }

  lemma DecimalStep(rest: nat, d: nat, p: nat)
    requires rest < p && d < 10
    ensures rest * 10 + d < 10 * p
  {
  }

  /** `parseInt(s, 10)`: skip white space, take an optional sign, then the leading
      decimal digits; `None` (NaN) when there are no digits. */
  function ParseInt(s: JsString): Option<int>
  {
    var t := TrimStart(s);
    var negative := t != [] && t[0] == HYPHEN;
    var unsigned := if t != [] && (t[0] == PLUS || t[0] == HYPHEN) then t[1..] else t;
    var ds := LeadingDigits(unsigned);
    if ds == [] then None
    else Some(if negative then -(DecimalValue(ds) as int) else DecimalValue(ds))
  }

  /** `s.split(sep)[0]`: everything before the first `sep`. */
  function BeforeFirst(s: JsString, sep: CodeUnit): (r: JsString)
    ensures |r| <= |s| && r == s[..|r|] && sep !in r
    ensures |r| < |s| ==> s[|r|] == sep
  {
    if s == [] || s[0] == sep then [] else [s[0]] + BeforeFirst(s[1..], sep)
  }

  /** The characters of the product ID that hold the SPK ID: `substring(10, 16)` and
      `substring(18, 23)`. */
  function SpkidText(pid: JsString): (r: JsString)
    requires |pid| >= 23
    ensures |r| == 11
  {
    pid[10..16] + pid[18..23]
  }

  /** `getSpkid(pid)`: "Invalid PID" exactly for a product ID shorter than 23 code
      units, otherwise "Could not parse" or a number, which is never negative because
      the text before the first hyphen cannot start with a minus sign. */
  function GetSpkid(pid: JsString): (r: Result<int>)
    ensures r == Err(InvalidPid) <==> |pid| < 23
    ensures r.Err? ==> r.error == InvalidPid || r.error == UnparsableSpkid
    ensures r.Ok? ==> r.value >= 0
  {
    if |pid| < 23 then Err(InvalidPid)
    else
      var text := BeforeFirst(SpkidText(pid), HYPHEN);
      TrimStartNoHyphen(text);
      match ParseInt(text)
      case None => Err(UnparsableSpkid)
      case Some(v) => Ok(v)
  }

  /** `generateSpk` signs the SPK ID as `bigIntToBytesLE(spkid, 7n)`. */
  function SpkPayload(id: int): (r: seq<byte>)
    ensures |r| == 7
  {
    ToLE(Abs(id), 7)
  }

  // ---------------------------------------------------------------------------
  // generateLkp

  /** The version field: `(major << 3) | minor` from version 5.1 on, 1 before. */
  function VersionCode(major: nat, minor: nat): nat
  {
    if (major == 5 && minor > 0) || major > 5 then BitOr(Shl(major, 3), minor) else 1
  }

  /** The license-pack information: channel ID from bit 46, key count from bit 32,
      the constants 2 at bit 18 and 144 at bit 10, and the version from bit 3. */
  function LkpInfo(chid: nat, count: nat, version: nat): nat
  {
    BitOr(BitOr(BitOr(BitOr(Shl(chid, 46), Shl(count, 32)), Shl(2, 18)), Shl(144, 10)), Shl(version, 3))
  }

  /** `bigIntToBytesLE(lkpinfo, 7n)`. */
  function LkpPayload(chid: nat, count: nat, major: nat, minor: nat): (r: seq<byte>)
    ensures |r| == 7
  {
    ToLE(LkpInfo(chid, count, VersionCode(major, minor)), 7)
  }

  // ---------------------------------------------------------------------------
  // Properties.

  lemma MaskIs37Bits()
    ensures SPKID_MASK == Pow2(37) - 1
  {
    Pow2Word();
  }

  lemma {:induction false} TrimStartNoHyphen(s: JsString)
    requires HYPHEN !in s
    ensures HYPHEN !in TrimStart(s)
  {
    if s != [] && IsJsWhiteSpace(s[0]) {
      assert HYPHEN !in s[1..];
      TrimStartNoHyphen(s[1..]);
    }
  }

  /** `getSpkid` throws "Invalid PID" exactly for a product ID shorter than 23 code
      units; a parsed SPK ID is a non-negative number of at most 11 digits, so it fits in
      the 37 bits a key keeps of it. */
  lemma GetSpkidRange(pid: JsString)
    ensures GetSpkid(pid) == Err(InvalidPid) <==> |pid| < 23
    ensures GetSpkid(pid).Ok? ==> 0 <= GetSpkid(pid).value < Pow(10, 11) < Pow2(37)
  {
    if |pid| >= 23 {
      var p := BeforeFirst(SpkidText(pid), HYPHEN);
      TrimStartNoHyphen(p);
      var t := TrimStart(p);
      var unsigned := if t != [] && (t[0] == PLUS || t[0] == HYPHEN) then t[1..] else t;
      var ds := LeadingDigits(unsigned);
      if ds != [] {
        PowMonotone(10, |ds|, 11);
      }
    }
    TenToElevenBelow();
  }

  lemma TenToElevenBelow()
    ensures Pow(10, 11) < Pow2(37)
  {
    PowAdd(10, 5, 6);
    assert Pow(10, 5) == 100000 && Pow(10, 6) == 1000000;
    Pow2Word();
  }

  /** When the SPK ID text starts with a digit, the SPK ID is the value of its leading
      digits, read up to the first `-`. */
  lemma GetSpkidDigits(pid: JsString)
    requires |pid| >= 23
    requires var p := BeforeFirst(SpkidText(pid), HYPHEN); p != [] && IsDigit(p[0])
    ensures GetSpkid(pid) == Ok(DecimalValue(LeadingDigits(BeforeFirst(SpkidText(pid), HYPHEN))))
  {
    var p := BeforeFirst(SpkidText(pid), HYPHEN);
    assert TrimStart(p) == p;
    assert LeadingDigits(p) != [];
  }

  /** A text with no digit after the optional white space and sign gives "Could not
      parse SPK ID number from PID". */
  lemma GetSpkidNoDigits(pid: JsString)
    requires |pid| >= 23
    requires var t := TrimStart(BeforeFirst(SpkidText(pid), HYPHEN));
      t == [] || (!IsDigit(t[0]) && (t[0] != PLUS || |t| == 1 || !IsDigit(t[1])))
    ensures GetSpkid(pid) == Err(UnparsableSpkid)
  {
    var p := BeforeFirst(SpkidText(pid), HYPHEN);
    TrimStartNoHyphen(p);
  }

  /** The server reads the SPK ID back as the low 37 bits of the signed payload: it gets
      the SPK ID exactly when that fits in 37 bits, which every parsed SPK ID does. */
  lemma SpkPayloadRoundTrip(id: nat)
    ensures BitAnd(FromLE(SpkPayload(id)), SPKID_MASK) == id <==> id < Pow2(37)
  {
    MaskIs37Bits();
    AndLowMask(FromLE(SpkPayload(id)), 37);
    if id < Pow2(37) {
      Pow256IsPow2(7);
      PowMonotone(2, 37, 56);
      FromLEToLEFits(id, 7);
      ModSmall(id, Pow2(37));
    }
  }

  /** From version 5.1 on, a minor version below 8 sits in the low three bits and the
      major version above them; earlier versions are all coded as 1. */
  lemma VersionCodeLayout(major: nat, minor: nat)
    ensures !((major == 5 && minor > 0) || major > 5) ==> VersionCode(major, minor) == 1
    ensures (major == 5 && minor > 0) || major > 5 ==>
      VersionCode(major, minor) >= 40 &&
      (minor < 8 ==> VersionCode(major, minor) == 8 * major + minor &&
                     VersionCode(major, minor) / 8 == major && VersionCode(major, minor) % 8 == minor)
  {
    if (major == 5 && minor > 0) || major > 5 {
      assert Pow2(3) == 8;
      if minor < 8 {
        ShlOr(major, minor, 3);
      } else {
        assert BitOr(Shl(major, 3), minor) >= Shl(major, 3);
        assert BitOr(Shl(major, 3), minor) >= minor;
      }
    }
  }

  /** The five fields of the license-pack information occupy disjoint bit ranges when
      the count fits in 14 bits and the version in 7, so the ORs add them up. */
  lemma LkpInfoSum(chid: nat, count: nat, version: nat)
    requires count < Pow2(14) && version < Pow2(7)
    ensures LkpInfo(chid, count, version) ==
      Shl(chid, 46) + Shl(count, 32) + Shl(2, 18) + Shl(144, 10) + Shl(version, 3)
  {
    Pow2Small();
    var a := Shl(chid, 46);
    DivAddSmall(chid, Pow2(46), 0);
    var b := OrField(a, count, 32, 14);
    var c := OrField(b, 2, 18, 14);
    var d := OrField(c, 144, 10, 8);
    var e := OrField(d, version, 3, 7);
  }

  /** The license-pack information as a number, for fields that fit their widths. */
  lemma LkpInfoValue(chid: nat, count: nat, version: nat)
    requires count < Pow2(14) && version < Pow2(7)
    ensures LkpInfo(chid, count, version) ==
      chid * 70368744177664 + count * 4294967296 + 671744 + 8 * version
  {
    LkpInfoSum(chid, count, version);
    Pow2Small();
    Pow2Word();
    Pow2Wide();
  }

  /** Reading the fields back from the number: the channel ID above bit 46, the count
      in bits 32 to 45 and the version in bits 3 to 9. */
  lemma LkpFieldsDecode(v: nat, chid: nat, count: nat, version: nat)
    requires chid < 1024 && count < 16384 && version < 128
    requires v == chid * 70368744177664 + count * 4294967296 + 671744 + 8 * version
    ensures v < 72057594037927936
    ensures v / 70368744177664 == chid
    ensures (v / 4294967296) % 16384 == count
    ensures (v / 8) % 128 == version
  {
    DivAddSmall(chid, 70368744177664, count * 4294967296 + 671744 + 8 * version);
    DivAddSmall(chid * 16384 + count, 4294967296, 671744 + 8 * version);
    DivAddSmall(chid, 16384, count);
    var w := 128 * (chid * 68719476736 + count * 4194304 + 656) + version;
    DivAddSmall(w, 8, 0);
    DivAddSmall(chid * 68719476736 + count * 4194304 + 656, 128, version);
  }

  /** Every field of the license-pack information can be read back from its place, and
      the 7-byte payload keeps all of it, when the channel ID fits in 10 bits, the count
      in 14 and the version in 7. */
  lemma LkpInfoLayout(chid: nat, count: nat, version: nat)
    requires chid < Pow2(10) && count < Pow2(14) && version < Pow2(7)
    ensures LkpInfo(chid, count, version) < Pow2(56)
    ensures FromLE(ToLE(LkpInfo(chid, count, version), 7)) == LkpInfo(chid, count, version)
    ensures LkpInfo(chid, count, version) / Pow2(46) == chid
    ensures (LkpInfo(chid, count, version) / Pow2(32)) % Pow2(14) == count
    ensures (LkpInfo(chid, count, version) / 8) % Pow2(7) == version
  {
    LkpInfoValue(chid, count, version);
    Pow2Small();
    Pow2Word();
    Pow2Wide();
    var v := LkpInfo(chid, count, version);
    LkpFieldsDecode(v, chid, count, version);
    Pow256IsPow2(7);
    FromLEToLEFits(v, 7);
  }
}
