/** The printable product key: a number written in base 24 over the alphabet
    `KCHARS`, left-padded to 35 digits and split into 5-character groups joined by
    hyphens (`encodePkey` / `decodePkey`). */
module KeyString {
  import opened Wrappers
  import opened Arith

  const KCHARS := "BCDFGHJKMPQRTVWXY2346789"

  /** Number of base-24 digits in a key. */
  const KEY_DIGITS: nat := 35

  /** Length of one hyphen-separated group. */
  const GROUP: nat := 5

  lemma KeyCharsDistinct()
    ensures |KCHARS| == 24 && '-' !in KCHARS
    ensures forall i, j | 0 <= i < j < |KCHARS| :: KCHARS[i] != KCHARS[j]
  {
  }

  /** `s.indexOf(c)`: the first position of `c` in `s`, or -1. */
  function IndexOf(s: string, c: char): (r: int)
    ensures -1 <= r < |s|
    ensures r == -1 <==> c !in s
    ensures r >= 0 ==> s[r] == c && c !in s[..r]
  {
    if s == [] then -1
    else if s[0] == c then 0
    else
      var t := IndexOf(s[1..], c);
      if t < 0 then -1 else t + 1
  }

  /** Each alphabet symbol stands for its own position. */
  lemma KeyCharIndex(d: nat)
    requires d < 24
    ensures IndexOf(KCHARS, KCHARS[d]) == d
  {
    KeyCharsDistinct();
    IndexOfAtMost(KCHARS, KCHARS[d], d);
  }

  lemma {:induction false} IndexOfAtMost(s: string, c: char, d: nat)
    requires d < |s| && s[d] == c
    ensures 0 <= IndexOf(s, c) <= d
  {
    if s[0] != c {
      IndexOfAtMost(s[1..], c, d - 1);
    }
  }

  /** The digit a key character stands for (0 outside the alphabet). */
  function DigitValue(c: char): nat
  {
    var v := IndexOf(KCHARS, c);
    if v < 0 then 0 else v
  }

  predicate AllKeyChars(s: string)
  {
    forall i :: 0 <= i < |s| ==> s[i] in KCHARS
  }

  /** The number denoted by a string of key characters, most significant first. */
  function Value(s: string): nat
  {
    if s == [] then 0 else Value(s[..|s| - 1]) * 24 + DigitValue(s[|s| - 1])
  }

  /** The base-24 digits of `n`, most significant first, without leading zero digits:
      what the `while (currentN > 0n)` loop of `encodePkey` builds. */
  function Digits(n: nat): string
  {
    if n == 0 then "" else Digits(n / 24) + [KCHARS[n % 24]]
  }

  /** `s.padStart(width, c)`. */
  function PadStart(s: string, width: nat, c: char): (r: string)
  {
    if |s| >= width then s else seq(width - |s|, _ => c) + s
  }

  /** The groups `s.substring(i, i + 5)` for `i = 0, 5, 10, ...` below `|s|`. */
  function Chunks(s: string): seq<string>
    decreases |s|
  {
    if |s| == 0 then []
    else if |s| <= GROUP then [s]
    else [s[..GROUP]] + Chunks(s[GROUP..])
  }

  /** `segments.join(sep)`. */
  function Join(segs: seq<string>, sep: char): string
  {
    if segs == [] then ""
    else if |segs| == 1 then segs[0]
    else segs[0] + [sep] + Join(segs[1..], sep)
  }

  /** `k.replaceAll("-", "")`. */
  function RemoveHyphens(k: string): (r: string)
    ensures '-' !in r
    ensures |r| <= |k|
  {
    if k == [] then "" else (if k[0] == '-' then "" else [k[0]]) + RemoveHyphens(k[1..])
  }

  /** What `encodePkey(n)` returns for a non-negative `n`. */
  function Encode(n: nat): string
  {
    if n == 0 then ""
    else Join(Chunks(PadStart(Digits(n), KEY_DIGITS, KCHARS[0])), '-')
  }

  /** Position of the first character outside the alphabet. */
  function FirstInvalid(s: string): (i: nat)
    requires !AllKeyChars(s)
    ensures i < |s| && s[i] !in KCHARS && AllKeyChars(s[..i])
  {
    if s[0] !in KCHARS then 0
    else
      var i := 1 + FirstInvalid(s[1..]);
      assert s[..i] == [s[0]] + s[1..][..i - 1];
      i
  }

  /** `s.length` in JavaScript: the number of UTF-16 code units, which is two for a
      character outside the Basic Multilingual Plane and one for any other. */
  function Utf16Length(s: string): (n: nat)
    ensures n >= |s|
  {
    if s == [] then 0 else (if s[0] as int > 0xFFFF then 2 else 1) + Utf16Length(s[1..])
  }

  /** What `decodePkey(k)` returns or throws. The length test counts UTF-16 code units,
      while the loop (`for ... of`) visits whole characters. */
  function Decode(k: string): Result<nat>
  {
    var ks := RemoveHyphens(k);
    if Utf16Length(ks) % GROUP != 0 then Err(BadKeyLength)
    else if AllKeyChars(ks) then Ok(Value(ks))
    else Err(InvalidCharacter(ks[FirstInvalid(ks)]))
  }

  /** `encodePkey(n)`. */
  method EncodePkey(n: int) returns (r: Result<string>)
    ensures n < 0 ==> r == Err(NegativeInput)
    ensures n >= 0 ==> r == Ok(Encode(n))
  {
    if n < 0 {
      return Err(NegativeInput);
    }
    if n == 0 {
      return Ok("");
    }
    var out := Base24(n);
    out := PadStart(out, KEY_DIGITS, KCHARS[0]);
    var segments := Groups(out);
    return Ok(Join(segments, '-'));
  }

  /** The `while (currentN > 0n)` loop: prepends the symbol of `currentN % 24` and
      divides by 24 until nothing is left. */
  method Base24(n: nat) returns (out: string)
    ensures out == Digits(n)
  {
    out := "";
    var currentN: nat := n;
    while currentN > 0
      invariant Digits(currentN) + out == Digits(n)
    {
      out := [KCHARS[currentN % 24]] + out;
      currentN := currentN / 24;
    }
  }

  /** The `for` loop that pushes `out.substring(i, i + 5)` for `i = 0, 5, 10, ...`. */
  method Groups(out: string) returns (segments: seq<string>)
    ensures segments == Chunks(out)
  {
    segments := [];
    var i := 0;
    while i < |out|
      invariant 0 <= i
      invariant segments + Chunks(out[Min(i, |out|)..]) == Chunks(out)
    {
      var rest := out[i..];
      assert Min(i, |out|) == i;
      if |rest| > GROUP {
        assert rest[..GROUP] == out[i..i + GROUP] && rest[GROUP..] == out[i + GROUP..];
        assert Chunks(rest) == [out[i..i + GROUP]] + Chunks(out[i + GROUP..]);
        assert Min(i + GROUP, |out|) == i + GROUP;
      } else {
        assert Chunks(rest) == [rest];
        assert Min(i + GROUP, |out|) == |out|;
        assert out[i..Min(i + GROUP, |out|)] == rest;
        assert Chunks(out[Min(i + GROUP, |out|)..]) == [];
      }
      segments := segments + [out[i..Min(i + GROUP, |out|)]];
      i := i + GROUP;
    }
    assert Chunks(out[Min(i, |out|)..]) == [];
  }

  function Min(a: int, b: int): int
  {
    if a < b then a else b
  }

  /** `decodePkey(k)`. */
  method DecodePkey(k: string) returns (r: Result<nat>)
    ensures r == Decode(k)
  {
    var keyString := RemoveHyphens(k);
    if Utf16Length(keyString) % GROUP != 0 {
      return Err(BadKeyLength);
    }
    var out := 0;
    var i := 0;
    while i < |keyString|
      invariant i <= |keyString|
      invariant AllKeyChars(keyString[..i])
      invariant out == Value(keyString[..i])
    {
      var c := keyString[i];
      var value := IndexOf(KCHARS, c);
      if value == -1 {
        FirstInvalidAt(keyString, i);
        return Err(InvalidCharacter(c));
      }
      DecodeStep(keyString, i);
      out := out * 24 + value;
      i := i + 1;
    }
    assert keyString[..i] == keyString;
    return Ok(out);
  }

  /** One more alphabet character extends the decoded prefix by one base-24 digit. */
  lemma DecodeStep(s: string, i: nat)
    requires i < |s| && AllKeyChars(s[..i]) && s[i] in KCHARS
    ensures AllKeyChars(s[..i + 1])
    ensures Value(s[..i + 1]) == Value(s[..i]) * 24 + DigitValue(s[i])
  {
    var prefix := s[..i + 1];
    assert prefix == s[..i] + [s[i]];
    AllKeyCharsConcat(s[..i], [s[i]]);
    assert prefix[..i] == s[..i];
  }

  lemma {:induction false} FirstInvalidAt(s: string, i: nat)
    requires i < |s| && AllKeyChars(s[..i]) && s[i] !in KCHARS
    ensures !AllKeyChars(s) && FirstInvalid(s) == i
  {
    assert s[i] == s[i];
    if i > 0 {
      assert s[0] == s[..i][0];
      assert s[1..][..i - 1] == s[1..i];
      FirstInvalidAt(s[1..], i - 1);
    }
  }

  // ---------------------------------------------------------------------------
  // Properties of the specification functions.

  /** The digit string of `n` is written in the alphabet and denotes `n`. */
  lemma {:induction false} DigitsValue(n: nat)
    ensures AllKeyChars(Digits(n)) && Value(Digits(n)) == n
  {
    if n > 0 {
      DigitsValue(n / 24);
      var d := Digits(n);
      assert d[..|d| - 1] == Digits(n / 24);
      KeyCharIndex(n % 24);
    }
  }

  /** A number below `24^w` has at most `w` digits. */
  lemma {:induction false} DigitsLength(n: nat, w: nat)
    requires n < Pow(24, w)
    ensures |Digits(n)| <= w
  {
    if n > 0 {
      assert w > 0;
      DivModUnique(n, 24, n / 24, n % 24);
      DigitsLength(n / 24, w - 1);
    }
  }

  /** Reading a concatenation: the left part is shifted by the length of the right. */
  lemma {:induction false} ValueConcat(a: string, b: string)
    ensures Value(a + b) == Value(a) * Pow(24, |b|) + Value(b)
  {
    if b == [] {
      assert a + b == a;
    } else {
      var b', c := b[..|b| - 1], b[|b| - 1];
      assert b == b' + [c];
      assert a + b == (a + b') + [c];
      ValueConcat(a, b');
      ValueSnoc(a + b', c);
      ValueSnoc(b', c);
      ShiftDigit(Value(a), Pow(24, |b'|), Value(b'), DigitValue(c),
                 Value(a + b'), Value(a + b), Value(b), Pow(24, |b|));
    }
  }

  /** Reading one more character appends a base-24 digit. */
  lemma ValueSnoc(s: string, c: char)
    ensures Value(s + [c]) == Value(s) * 24 + DigitValue(c)
  {
    assert (s + [c])[..|s|] == s;
  }

  lemma AllKeyCharsConcat(a: string, b: string)
    requires AllKeyChars(a) && AllKeyChars(b)
    ensures AllKeyChars(a + b)
  {
    forall i | 0 <= i < |a + b|
      ensures (a + b)[i] in KCHARS
    {
      if i >= |a| {
        assert (a + b)[i] == b[i - |a|];
      }
    }
  }

  /** A run of the zero symbol denotes 0. */
  lemma {:induction false} ValueZeros(k: nat)
    ensures Value(seq(k, _ => KCHARS[0])) == 0
  {
    if k > 0 {
      assert seq(k, _ => KCHARS[0])[..k - 1] == seq(k - 1, _ => KCHARS[0]);
      ValueZeros(k - 1);
      KeyCharIndex(0);
    }
  }

  /** Left-padding with the zero symbol keeps the value and the alphabet. */
  lemma PadValue(s: string, w: nat)
    requires AllKeyChars(s)
    ensures AllKeyChars(PadStart(s, w, KCHARS[0]))
    ensures Value(PadStart(s, w, KCHARS[0])) == Value(s)
  {
    if |s| < w {
      var zeros := seq(w - |s|, _ => KCHARS[0]);
      ValueZeros(w - |s|);
      ValueConcat(zeros, s);
      assert Value(zeros + s) == 0 * Pow(24, |s|) + Value(s);
      KeyCharsDistinct();
      assert AllKeyChars(zeros);
      AllKeyCharsConcat(zeros, s);
    }
  }

  /** Grouping a hyphen-free string of `5 m` characters gives `m` groups and `m - 1`
      hyphens: `6 m - 1` characters, a hyphen exactly at every position `6 g + 5`,
      and the original characters everywhere else, in order. */
  lemma {:induction false} GroupedLayout(s: string, m: nat)
    requires m >= 1 && |s| == GROUP * m
    ensures |Join(Chunks(s), '-')| == 6 * m - 1
    ensures forall i :: 0 <= i < 6 * m - 1 && i % 6 != 5 ==> Join(Chunks(s), '-')[i] == s[i - i / 6]
    ensures forall i :: 0 <= i < 6 * m - 1 && i % 6 == 5 ==> Join(Chunks(s), '-')[i] == '-'
  {
    if m > 1 {
      var tail := s[GROUP..];
      GroupedLayout(tail, m - 1);
      var jt := Join(Chunks(tail), '-');
      assert Chunks(s) == [s[..GROUP]] + Chunks(tail);
      assert Chunks(tail) != [] && |Chunks(tail)| >= 1;
      var j := Join(Chunks(s), '-');
      assert j == s[..GROUP] + ['-'] + jt;
      forall i | 6 <= i < 6 * m - 1
        ensures j[i] == jt[i - 6]
        ensures (i - 6) % 6 == i % 6 && (i - 6) / 6 == i / 6 - 1
      {
        DivAddSmall((i - 6) / 6, 6, (i - 6) % 6);
        DivAddSmall((i - 6) / 6 + 1, 6, (i - 6) % 6);
      }
      forall i | 0 <= i < 6
        ensures i / 6 == 0 && i % 6 == i
      {
        DivAddSmall(0, 6, i);
      }
    } else {
      assert Chunks(s) == [s];
      forall i | 0 <= i < 5
        ensures i / 6 == 0 && i % 6 == i
      {
        DivAddSmall(0, 6, i);
      }
    }
  }

  /** Removing the hyphens of a grouped hyphen-free string gives the string back. */
  lemma {:induction false} RemoveHyphensGrouped(s: string)
    requires '-' !in s
    ensures RemoveHyphens(Join(Chunks(s), '-')) == s
    decreases |s|
  {
    if |s| > GROUP {
      RemoveHyphensGrouped(s[GROUP..]);
      assert Join(Chunks(s), '-') == s[..GROUP] + ['-'] + Join(Chunks(s[GROUP..]), '-');
      RemoveHyphensConcat(s[..GROUP] + ['-'], Join(Chunks(s[GROUP..]), '-'));
      RemoveHyphensConcat(s[..GROUP], ['-']);
      RemoveHyphensPlain(s[..GROUP]);
      assert s[..GROUP] + s[GROUP..] == s;
    } else if |s| > 0 {
      assert Join(Chunks(s), '-') == s;
      RemoveHyphensPlain(s);
    }
  }

  lemma {:induction false} RemoveHyphensConcat(a: string, b: string)
    ensures RemoveHyphens(a + b) == RemoveHyphens(a) + RemoveHyphens(b)
  {
    if a == [] {
      assert a + b == b;
    } else {
      var head := if a[0] == '-' then "" else [a[0]];
      assert (a + b)[0] == a[0];
      assert (a + b)[1..] == a[1..] + b;
      RemoveHyphensConcat(a[1..], b);
      calc {
        RemoveHyphens(a + b);
        head + RemoveHyphens(a[1..] + b);
        head + (RemoveHyphens(a[1..]) + RemoveHyphens(b));
        (head + RemoveHyphens(a[1..])) + RemoveHyphens(b);
        RemoveHyphens(a) + RemoveHyphens(b);
      }
    }
  }

  lemma {:induction false} RemoveHyphensPlain(s: string)
    requires '-' !in s
    ensures RemoveHyphens(s) == s
  {
    if s != [] {
      RemoveHyphensPlain(s[1..]);
    }
  }

  /** The padded digit string of a key value is exactly 35 key characters. */
  lemma PaddedDigits(n: nat)
    requires n < Pow(24, KEY_DIGITS)
    ensures |PadStart(Digits(n), KEY_DIGITS, KCHARS[0])| == KEY_DIGITS
    ensures AllKeyChars(PadStart(Digits(n), KEY_DIGITS, KCHARS[0]))
    ensures Value(PadStart(Digits(n), KEY_DIGITS, KCHARS[0])) == n
    ensures '-' !in PadStart(Digits(n), KEY_DIGITS, KCHARS[0])
  {
    DigitsLength(n, KEY_DIGITS);
    DigitsValue(n);
    PadValue(Digits(n), KEY_DIGITS);
    KeyCharsDistinct();
  }

  /** `decodePkey(encodePkey(n)) == n` for every value with at most 35 digits,
      including 0, whose key is the empty string. */
  lemma EncodeDecode(n: nat)
    requires n < Pow(24, KEY_DIGITS)
    ensures Decode(Encode(n)) == Ok(n)
  {
    if n > 0 {
      var padded := PadStart(Digits(n), KEY_DIGITS, KCHARS[0]);
      PaddedDigits(n);
      RemoveHyphensGrouped(padded);
      assert RemoveHyphens(Encode(n)) == padded;
      DecodeValid(Encode(n));
    }
  }

  /** A non-zero key value is rendered as seven groups of five alphabet symbols
      separated by six hyphens. */
  lemma EncodeLayout(n: nat)
    requires 0 < n < Pow(24, KEY_DIGITS)
    ensures |Encode(n)| == 41
    ensures forall i :: 0 <= i < 41 ==> (Encode(n)[i] == '-' <==> i % 6 == 5)
    ensures forall i :: 0 <= i < 41 && i % 6 != 5 ==> Encode(n)[i] in KCHARS
  {
    var padded := PadStart(Digits(n), KEY_DIGITS, KCHARS[0]);
    PaddedDigits(n);
    GroupedLayout(padded, 7);
    forall i | 0 <= i < 41 && i % 6 != 5
      ensures Encode(n)[i] in KCHARS
    {
      assert 0 <= i - i / 6 < 35;
    }
  }

  lemma DecodeValid(k: string)
    requires |RemoveHyphens(k)| == KEY_DIGITS && AllKeyChars(RemoveHyphens(k))
    ensures Decode(k) == Ok(Value(RemoveHyphens(k)))
  {
    KeyCharsLength(RemoveHyphens(k));
  }

  /** The failure cases of `decodePkey`: exactly a stripped length (in code units) that
      is not a multiple of five, or a character outside the alphabet. */
  lemma DecodeFails(k: string)
    ensures Decode(k).Err? <==>
      (Utf16Length(RemoveHyphens(k)) % GROUP != 0 ||
       exists i :: 0 <= i < |RemoveHyphens(k)| && RemoveHyphens(k)[i] !in KCHARS)
  {
  }

  /** Text made of alphabet characters has one code unit per character. */
  lemma {:induction false} KeyCharsLength(s: string)
    requires AllKeyChars(s)
    ensures Utf16Length(s) == |s|
  {
    if s != [] {
      assert s[0] in KCHARS;
      assert s[1..] == s[1..];
      assert AllKeyChars(s[1..]) by {
        forall i | 0 <= i < |s[1..]| ensures s[1..][i] in KCHARS {
          assert s[1..][i] == s[i + 1];
        }
      }
      KeyCharsLength(s[1..]);
    }
  }

  /** A character outside the Basic Multilingual Plane counts twice toward the length
      test: four symbols and one emoji make six code units, which is a length error. */
  lemma AstralCharacterLength()
    ensures Decode("BBBB\U{1F600}") == Err(BadKeyLength)
  {
    var six := "BBBB\U{1F600}";
    assert RemoveHyphens(six) == six;
    assert Utf16Length(six) == 6;
  }

  /** Three symbols and one emoji make five code units, so the length test passes and
      the emoji is reported as the invalid character. */
  lemma AstralCharacterInvalid()
    ensures Decode("BBB\U{1F600}") == Err(InvalidCharacter('\U{1F600}'))
  {
    var five := "BBB\U{1F600}";
    assert RemoveHyphens(five) == five;
    assert Utf16Length(five) == 5;
    assert five[..3] == "BBB";
    AstralNotKeyChar('\U{1F600}');
    FirstInvalidAt(five, 3);
  }

  /** The alphabet is ASCII, so no character outside the Basic Multilingual Plane is in it. */
  lemma AstralNotKeyChar(c: char)
    requires c as int > 0xFFFF
    ensures c !in KCHARS
  {
    forall i | 0 <= i < |KCHARS| ensures KCHARS[i] as int < 128 {
    }
  }
}
