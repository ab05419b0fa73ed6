/** Little-endian conversion between BigInts and byte arrays (`bigIntToBytesLE`,
    `bytesToBigIntLE`), byte concatenation (`concatBytes`) and the UTF-16LE string
    encoder of script.js. */
module ByteCodec {
  import opened Wrappers
  import opened Arith

  /** One element of a `Uint8Array`. */
  type byte = x: int | 0 <= x < 256

  /** One element of a JavaScript string: a UTF-16 code unit, as `charCodeAt` returns it. */
  type CodeUnit = x: int | 0 <= x < 0x10000

  /** A JavaScript string, indexed (by `length`, `substring`, `charCodeAt`) in code units. */
  type JsString = seq<CodeUnit>

  function Abs(n: int): nat
  {
    if n < 0 then -n else n
  }

  /** Byte `k` of `n`, counting from the least significant byte. */
  function ByteAt(n: nat, k: nat): byte
  {
    (n / Pow(256, k)) % 256
  }

  /** The low `l` bytes of `n`, least significant first, zero-padded. */
  function ToLE(n: nat, l: nat): (r: seq<byte>)
    ensures |r| == l
  {
    seq(l, k requires 0 <= k < l => ByteAt(n, k))
  }

  /** The number a little-endian byte sequence denotes. */
  function FromLE(bs: seq<byte>): (v: nat)
    ensures v < Pow(256, |bs|)
  {
    if bs == [] then 0
    else
      var rest := FromLE(bs[1..]);
      LittleEndianStep(bs[0], rest, Pow(256, |bs| - 1));
      bs[0] + 256 * rest
  }

  lemma LittleEndianStep(b: byte, rest: nat, p: nat)
    requires rest < p
    ensures b + 256 * rest < 256 * p
  {
  }

  /** The minimal number of bytes of `n` (at least one): half the length of
      `n.toString(16)` once padded to an even number of hex digits. */
  function ByteLength(n: nat): (r: nat)
    ensures r >= 1 && n < Pow(256, r)
    ensures r == 1 || Pow(256, r - 1) <= n
  {
    if n < 256 then 1
    else
      var r := 1 + ByteLength(n / 256);
      ByteLengthStep(n, r);
      r
  }

  lemma ByteLengthStep(n: nat, r: nat)
    requires r >= 2 && n / 256 < Pow(256, r - 1)
    requires r - 1 == 1 || Pow(256, r - 2) <= n / 256
    requires n >= 256
    ensures n < Pow(256, r) && Pow(256, r - 1) <= n
  {
    DivModUnique(n, 256, n / 256, n % 256);
    assert Pow(256, r) == 256 * Pow(256, r - 1);
    if r > 2 {
      assert Pow(256, r - 1) == 256 * Pow(256, r - 2);
    }
  }

  /** `bigIntToBytesLE(n, l)`: `l` is `None` when the caller omits it. A negative `n`
      is replaced by its absolute value; a negative `l` is refused; otherwise the
      result holds the low bytes of `|n|`, zero-padded or truncated to the width. */
  method BigIntToBytesLE(n: int, l: Option<int>) returns (r: Result<seq<byte>>)
    ensures l.Some? && l.value < 0 ==> r == Err(InvalidLength)
    ensures l.Some? && l.value >= 0 ==> r == Ok(ToLE(Abs(n), l.value))
    ensures l.None? ==> r == Ok(ToLE(Abs(n), ByteLength(Abs(n))))
  {
    var m := Abs(n);
    var numBytes := ByteLength(m);
    var requiredLength: nat;
    if l.None? {
      requiredLength := numBytes;
    } else if l.value < 0 {
      return Err(InvalidLength);
    } else {
      requiredLength := l.value;
    }
    var bytes := new byte[requiredLength](_ => 0);
    WriteLowBytes(bytes, m, numBytes);
    r := Ok(bytes[..]);
  }

  /** The loop of `bigIntToBytesLE`: writes the bytes of `m`, least significant first,
      into the zero-filled `bytes` until either runs out. */
  method WriteLowBytes(bytes: array<byte>, m: nat, numBytes: nat)
    requires forall k :: 0 <= k < bytes.Length ==> bytes[k] == 0
    requires m < Pow(256, numBytes)
    modifies bytes
    ensures bytes[..] == ToLE(m, bytes.Length)
  {
    var j := 0;
    var rest := m;
    while j < numBytes && j < bytes.Length
      invariant j <= numBytes && j <= bytes.Length
      invariant rest == m / Pow(256, j)
      invariant forall k :: 0 <= k < j ==> bytes[k] == ByteAt(m, k)
      invariant forall k :: j <= k < bytes.Length ==> bytes[k] == 0
    {
      bytes[j] := rest % 256;
      DropByte(m, j);
      rest := rest / 256;
      j := j + 1;
    }
    forall k | j <= k < bytes.Length
      ensures ByteAt(m, k) == 0
    {
      ByteAtBeyond(m, numBytes, k);
    }
    assert bytes[..] == ToLE(m, bytes.Length);
  }

  /** Dropping one more low byte is dividing by 256 once more. */
  lemma DropByte(m: nat, j: nat)
    ensures m / Pow(256, j + 1) == (m / Pow(256, j)) / 256
  {
    DivModNested(m, Pow(256, j), 256);
    assert Pow(256, j + 1) == Pow(256, j) * 256;
  }

  lemma ByteAtBeyond(n: nat, len: nat, k: nat)
    requires n < Pow(256, len) && len <= k
    ensures ByteAt(n, k) == 0
  {
    PowMonotone(256, len, k);
    DivSmall(n, Pow(256, k));
  }

  /** `bytesToBigIntLE`: sums `bytes[i] << (8 * i)`. */
  method BytesToBigIntLE(bytes: seq<byte>) returns (value: nat)
    ensures value == FromLE(bytes)
    ensures value < Pow(256, |bytes|)
  {
    value := 0;
    var i := 0;
    while i < |bytes|
      invariant i <= |bytes|
      invariant value == FromLE(bytes[..i])
    {
      FromLEAppend(bytes[..i], bytes[i]);
      assert bytes[..i + 1] == bytes[..i] + [bytes[i]];
      Pow256IsPow2(i);
      value := value + Shl(bytes[i], 8 * i);
      i := i + 1;
    }
    assert bytes[..i] == bytes;
  }

  /** Appending a byte adds it at the next power of 256. */
  lemma {:induction false} FromLEAppend(s: seq<byte>, b: byte)
    ensures FromLE(s + [b]) == FromLE(s) + b * Pow(256, |s|)
  {
    if s != [] {
      assert (s + [b])[1..] == s[1..] + [b];
      assert (s + [b])[0] == s[0];
      FromLEAppend(s[1..], b);
      HighByteArith(s[0], FromLE(s[1..]), b, Pow(256, |s| - 1));
    }
  }

  lemma HighByteArith(low: nat, x: nat, b: nat, p: nat)
    ensures low + 256 * (x + b * p) == (low + 256 * x) + b * (256 * p)
  {
  }

  lemma ByteAtShift(n: nat, k: nat)
    ensures ByteAt(n, k + 1) == ByteAt(n / 256, k)
  {
    DivModNested(n, 256, Pow(256, k));
  }

  /** Encoding to `l` bytes and decoding again gives `n` modulo `256^l`:
      the bytes above the width are dropped, nothing else is lost. */
  lemma {:induction false} FromLEToLE(n: nat, l: nat)
    ensures FromLE(ToLE(n, l)) == n % Pow(256, l)
  {
    if l == 0 {
      assert ToLE(n, l) == [];
    } else {
      var t := ToLE(n, l);
      assert t[1..] == ToLE(n / 256, l - 1) by {
        forall k | 0 <= k < l - 1
          ensures t[1..][k] == ByteAt(n / 256, k)
        {
          ByteAtShift(n, k);
        }
      }
      FromLEToLE(n / 256, l - 1);
      assert t[0] == n % 256;
      DivModNested(n, 256, Pow(256, l - 1));
    }
  }

  /** A value below `256^l` survives the round trip through `l` bytes. */
  lemma FromLEToLEFits(n: nat, l: nat)
    requires n < Pow(256, l)
    ensures FromLE(ToLE(n, l)) == n
  {
    FromLEToLE(n, l);
    ModSmall(n, Pow(256, l));
  }

  /** Decoding bytes and re-encoding to the same width gives the bytes back. */
  lemma {:induction false} ToLEFromLE(bs: seq<byte>)
    ensures ToLE(FromLE(bs), |bs|) == bs
  {
    if bs != [] {
      var v := FromLE(bs);
      var rest := FromLE(bs[1..]);
      ToLEFromLE(bs[1..]);
      DivAddSmall(rest, 256, bs[0]);
      ToLECons(v, |bs| - 1);
      assert bs == [bs[0]] + bs[1..];
    }
  }

  /** The encoding to `l + 1` bytes is the low byte followed by the encoding of the rest
      to `l` bytes. */
  lemma ToLECons(n: nat, l: nat)
    ensures ToLE(n, l + 1) == [n % 256] + ToLE(n / 256, l)
  {
    forall k | 0 <= k < l
      ensures ToLE(n, l + 1)[k + 1] == ToLE(n / 256, l)[k]
    {
      ByteAtShift(n, k);
    }
    assert ByteAt(n, 0) == n % 256;
  }

  /** Widening by one byte appends a zero byte when the value already fits. */
  lemma ToLEWiden(bs: seq<byte>)
    ensures ToLE(FromLE(bs), |bs| + 1) == bs + [0]
  {
    var v := FromLE(bs);
    ToLEFromLE(bs);
    ByteAtBeyond(v, |bs|, |bs|);
    assert ToLE(v, |bs| + 1) == ToLE(v, |bs|) + [ByteAt(v, |bs|)];
  }

  /** The first `k` bytes of an `l`-byte encoding are the `k`-byte encoding. */
  lemma ToLEPrefix(n: nat, l: nat, k: nat)
    requires k <= l
    ensures ToLE(n, l)[..k] == ToLE(n, k)
  {
  }

  /** `concatBytes`: the parts one after the other. */
  function Concat(parts: seq<seq<byte>>): seq<byte>
  {
    if parts == [] then [] else parts[0] + Concat(parts[1..])
  }

  function TotalLength(parts: seq<seq<byte>>): nat
  {
    if parts == [] then 0 else |parts[0]| + TotalLength(parts[1..])
  }

  lemma {:induction false} ConcatAppend(parts: seq<seq<byte>>, last: seq<byte>)
    ensures Concat(parts + [last]) == Concat(parts) + last
    ensures TotalLength(parts + [last]) == TotalLength(parts) + |last|
  {
    if parts != [] {
      assert (parts + [last])[1..] == parts[1..] + [last];
      ConcatAppend(parts[1..], last);
    }
  }

  lemma ConcatPair(a: seq<byte>, b: seq<byte>)
    ensures Concat([a, b]) == a + b
  {
    assert [a, b][1..] == [b];
    assert [b][1..] == [];
    calc {
      Concat([a, b]);
      a + Concat([b]);
      a + (b + Concat([]));
      a + b;
    }
  }

  lemma ConcatTriple(a: seq<byte>, b: seq<byte>, c: seq<byte>)
    ensures Concat([a, b, c]) == a + b + c
  {
    assert [a, b, c][1..] == [b, c];
    ConcatPair(b, c);
  }

  /** `concatBytes(...arrays)`: allocates the total length, then copies each part
      in at a running offset. */
  method ConcatBytes(arrays: seq<seq<byte>>) returns (r: seq<byte>)
    ensures r == Concat(arrays)
    ensures |r| == TotalLength(arrays)
  {
    var totalLength := TotalLength(arrays);
    var result := new byte[totalLength](_ => 0);
    var offset := 0;
    var idx := 0;
    assert arrays[..0] == [];
    while idx < |arrays|
      invariant idx <= |arrays|
      invariant offset == TotalLength(arrays[..idx]) == |Concat(arrays[..idx])|
      invariant offset + TotalLength(arrays[idx..]) == totalLength
      invariant result[..] == Concat(arrays[..idx]) + ZeroBytes(totalLength - offset)
    {
      var arr := arrays[idx];
      assert arrays[idx..] == [arr] + arrays[idx + 1..];
      ghost var before := result[..];
      SetAt(result, arr, offset);
      FillPart(Concat(arrays[..idx]), arr, totalLength - offset);
      ConcatAppend(arrays[..idx], arr);
      assert arrays[..idx + 1] == arrays[..idx] + [arr];
      offset := offset + |arr|;
      idx := idx + 1;
    }
    assert arrays[..idx] == arrays;
    r := result[..];
  }

  /** `result.set(arr, offset)`: copies `arr` over the bytes from `offset` on. */
  method SetAt(result: array<byte>, arr: seq<byte>, offset: nat)
    requires offset + |arr| <= result.Length
    modifies result
    ensures result[..] == old(result[..])[..offset] + arr + old(result[..])[offset + |arr|..]
  {
    for t := 0 to |arr|
      invariant forall k :: 0 <= k < result.Length ==>
        result[k] == if offset <= k < offset + t then arr[k - offset] else old(result[k])
    {
      result[offset + t] := arr[t];
    }
  }

  /** The zero bytes of a fresh `Uint8Array`. */
  function ZeroBytes(n: nat): (r: seq<byte>)
    ensures |r| == n && forall k :: 0 <= k < n ==> r[k] == 0
  {
    seq(n, _ => 0)
  }

  /** Copying a part over the zero-filled tail that follows the parts already copied. */
  lemma FillPart(done: seq<byte>, arr: seq<byte>, n: nat)
    requires |arr| <= n
    ensures (done + ZeroBytes(n))[..|done|] + arr + (done + ZeroBytes(n))[|done| + |arr|..] ==
      (done + arr) + ZeroBytes(n - |arr|)
  {
    var b := done + ZeroBytes(n);
    assert b[..|done|] == done;
    assert b[|done| + |arr|..] == ZeroBytes(n - |arr|);
  }

  /** The UTF-16LE encoding of a string: two bytes per code unit, low byte first. */
  function Utf16Le(str: JsString): (r: seq<byte>)
    ensures |r| == 2 * |str|
  {
    seq(2 * |str|, k requires 0 <= k < 2 * |str| =>
      if k % 2 == 0 then str[k / 2] % 256 else str[k / 2] / 256)
  }

  /** Every code unit can be read back from its two bytes: the encoding is injective. */
  lemma Utf16LeUnits(str: JsString, i: nat)
    requires i < |str|
    ensures Utf16Le(str)[2 * i] as int + 256 * Utf16Le(str)[2 * i + 1] as int == str[i]
  {
    DivAddSmall(i, 2, 0);
    DivAddSmall(i, 2, 1);
  }

  /** `utf16leEncoder.encode`: a buffer of `2 * length` bytes filled by
      `setUint16(2 * i, charCodeAt(i), true)`. */
  method Utf16LeEncode(str: JsString) returns (r: seq<byte>)
    ensures r == Utf16Le(str)
    ensures forall i :: 0 <= i < |str| ==> r[2 * i] as int + 256 * r[2 * i + 1] as int == str[i]
  {
    var buffer := new byte[2 * |str|](_ => 0);
    var i := 0;
    while i < |str|
      invariant i <= |str|
      invariant forall k :: 0 <= k < 2 * i ==> buffer[k] == Utf16Le(str)[k]
    {
      buffer[2 * i] := str[i] % 256;
      buffer[2 * i + 1] := str[i] / 256;
      DivAddSmall(i, 2, 0);
      DivAddSmall(i, 2, 1);
      i := i + 1;
    }
    r := buffer[..];
    forall i | 0 <= i < |str|
      ensures r[2 * i] as int + 256 * r[2 * i + 1] as int == str[i]
    {
      Utf16LeUnits(str, i);
    }
  }
}
