/** The RC4 stream cipher that scrambles the signed key payload before it is printed
    (`rc4(keyBytes, dataBytes)`): the key-scheduling pass over a 256-byte state, then
    one keystream byte per data byte, XOR-ed into the data. */
module Rc4 {
  import opened Arith
  import opened ByteCodec

  /** The cipher state between two keystream bytes: the permutation `s` and the
      indices `i` and `j`. */
  datatype State = State(s: seq<byte>, i: byte, j: byte)

  /** `[s[i], s[j]] = [s[j], s[i]]`. */
  function Swap(s: seq<byte>, i: nat, j: nat): (r: seq<byte>)
    requires i < |s| && j < |s|
    ensures |r| == |s|
  {
    s[i := s[j]][j := s[i]]
  }

  /** The state array before key scheduling: `s[i] = i`. */
  function Identity(): (r: seq<byte>)
    ensures |r| == 256
  {
    seq(256, k requires 0 <= k < 256 => k as byte)
  }

  /** The 256 bytes hold every byte value exactly once. */
  predicate IsPermutation(s: seq<byte>)
  {
    multiset(s) == multiset(Identity())
  }

  /** The key-scheduling state between two rounds: the array `s` and the index `j`. */
  datatype Ksa = Ksa(s: seq<byte>, j: byte)

  /** Round `i` of the key-scheduling loop: advance `j` by `s[i]` and a key byte
      (the key repeats), then swap `s[i]` and `s[j]`. */
  function KsaRound(key: seq<byte>, st: Ksa, i: nat): (r: Ksa)
    requires |key| > 0 && |st.s| == 256 && i < 256
    ensures |r.s| == 256
  {
    var j := (st.j as int + st.s[i] as int + key[i % |key|] as int) % 256;
    Ksa(Swap(st.s, i, j), j)
  }

  /** The key-scheduling state after rounds `0 .. n - 1`. */
  function KsaAfter(key: seq<byte>, n: nat): (r: Ksa)
    requires |key| > 0 && n <= 256
    ensures |r.s| == 256
  {
    if n == 0 then Ksa(Identity(), 0) else KsaRound(key, KsaAfter(key, n - 1), n - 1)
  }

  /** The state after key scheduling. */
  function Schedule(key: seq<byte>): (r: seq<byte>)
    requires |key| > 0
    ensures |r| == 256
  {
    KsaAfter(key, 256).s
  }

  /** `(a + b) % 256` for two bytes, written as the single subtraction it amounts to. */
  function AddByte(a: byte, b: byte): byte
  {
    if a as int + b as int < 256 then a as int + b as int else a as int + b as int - 256
  }

  lemma AddByteMod(a: byte, b: byte)
    ensures AddByte(a, b) == (a as int + b as int) % 256
  {
    if a as int + b as int >= 256 {
      DivAddSmall(1, 256, a as int + b as int - 256);
    }
  }

  /** One round of the output loop before the byte is read: advance `i`, advance `j`
      by `s[i]`, swap. */
  function Step(st: State): (r: State)
    requires |st.s| == 256
    ensures |r.s| == 256
  {
    var i := AddByte(st.i, 1);
    var j := AddByte(st.j, st.s[i]);
    State(Swap(st.s, i, j), i, j)
  }

  /** The keystream byte `s[(s[i] + s[j]) % 256]` read from a stepped state. */
  function Out(st: State): byte
    requires |st.s| == 256
  {
    st.s[AddByte(st.s[st.i], st.s[st.j])]
  }

  /** The next `m` keystream bytes produced from state `st`. */
  function Keystream(st: State, m: nat): (r: seq<byte>)
    requires |st.s| == 256
    ensures |r| == m
    decreases m
  {
    if m == 0 then [] else [Out(Step(st))] + Keystream(Step(st), m - 1)
  }

  /** The state after `m` rounds of the output loop. */
  function Advance(st: State, m: nat): (r: State)
    requires |st.s| == 256
    ensures |r.s| == 256
  {
    if m == 0 then st else Step(Advance(st, m - 1))
  }

  /** `a ^ b` on two bytes. */
  function Xor(a: byte, b: byte): byte
  {
    assert Pow2(8) == 256;
    XorBound(a, b, 8);
    BitXor(a, b)
  }

  function XorBytes(data: seq<byte>, ks: seq<byte>): (r: seq<byte>)
    requires |ks| == |data|
    ensures |r| == |data|
  {
    seq(|data|, k requires 0 <= k < |data| => Xor(data[k], ks[k]))
  }

  /** What `rc4(key, data)` returns. */
  function Crypt(key: seq<byte>, data: seq<byte>): (r: seq<byte>)
    requires |key| > 0
    ensures |r| == |data|
  {
    XorBytes(data, Keystream(State(Schedule(key), 0, 0), |data|))
  }

  /** The first two loops of `rc4`: fill the state with the identity, then run the
      256 key-scheduling rounds. */
  method KeySchedule(key: seq<byte>) returns (s: array<byte>)
    requires |key| > 0
    ensures fresh(s) && s[..] == Schedule(key)
  {
    s := IdentityState();
    var j: byte := 0;
    for i := 0 to 256
      invariant KsaAfter(key, i) == Ksa(s[..], j)
    {
      ghost var before := Ksa(s[..], j);
      j := (j as int + s[i] as int + key[i % |key|] as int) % 256;
      SwapAt(s, i, j);
    }
  }

  /** The first loop of `rc4`: `s[i] = i` for every index of a fresh 256-byte array. */
  method IdentityState() returns (s: array<byte>)
    ensures fresh(s) && s[..] == Identity()
  {
    s := new byte[256](_ => 0);
    for i := 0 to 256
      invariant forall m :: 0 <= m < i ==> s[m] == m
    {
      s[i] := i as byte;
    }
  }

  /** `[s[i], s[j]] = [s[j], s[i]]` on the state array. */
  method SwapAt(s: array<byte>, i: nat, j: nat)
    requires i < s.Length && j < s.Length
    modifies s
    ensures s[..] == Swap(old(s[..]), i, j)
  {
    s[i], s[j] := s[j], s[i];
  }

  /** One round of the third loop of `rc4`: advance `i`, advance `j` by `s[i]`, swap,
      and read the keystream byte `s[t]`. */
  method OutputRound(s: array<byte>, i0: byte, j0: byte) returns (i: byte, j: byte, b: byte)
    requires s.Length == 256
    modifies s
    ensures State(s[..], i, j) == Step(State(old(s[..]), i0, j0))
    ensures b == Out(State(s[..], i, j))
  {
    AddByteMod(i0, 1);
    i := (i0 as int + 1) % 256;
    AddByteMod(j0, s[i]);
    j := (j0 as int + s[i] as int) % 256;
    SwapAt(s, i, j);
    AddByteMod(s[i], s[j]);
    var t := (s[i] as int + s[j] as int) % 256;
    b := s[t];
  }

  /** The third loop of `rc4`: one round and one keystream byte per data byte, XOR-ed
      into a fresh result array. The state array ends as `|data|` rounds left it; `rc4`
      discards it afterwards. */
  method EncryptWith(s: array<byte>, data: seq<byte>) returns (r: seq<byte>)
    requires s.Length == 256
    modifies s
    ensures r == XorBytes(data, Keystream(State(old(s[..]), 0, 0), |data|))
    ensures s[..] == Advance(State(old(s[..]), 0, 0), |data|).s
  {
    var i: byte := 0;
    var j: byte := 0;
    ghost var start := State(s[..], i, j);
    ghost var ks: seq<byte> := [];
    var result := new byte[|data|](_ => 0);
    assert result[..] == XorBytes(data[..0], ks) + ZeroBytes(|data|);
    for k := 0 to |data|
      invariant |ks| == k
      invariant ks + Keystream(State(s[..], i, j), |data| - k) == Keystream(start, |data|)
      invariant result[..] == XorBytes(data[..k], ks) + ZeroBytes(|data| - k)
      invariant State(s[..], i, j) == Advance(start, k)
    {
      ghost var before := State(s[..], i, j);
      ghost var prev := result[..];
      var b;
      i, j, b := OutputRound(s, i, j);
      ghost var next := State(s[..], i, j);
      result[k] := Xor(data[k], b);
      FillStep(data, ks, k, b, prev, result[..]);
      KeystreamAdvance(ks, before, next, |data| - k, Keystream(start, |data|));
      AdvanceStep(start, k, before, next);
      ks := ks + [b];
    }
    assert data[..|data|] == data;
    return result[..];
  }

  /** Writing the next result byte moves one position from the zero-filled tail to the
      encrypted head. */
  lemma FillStep(data: seq<byte>, ks: seq<byte>, k: nat, b: byte, before: seq<byte>, after: seq<byte>)
    requires k < |data| && |ks| == k
    requires before == XorBytes(data[..k], ks) + ZeroBytes(|data| - k)
    requires after == before[k := Xor(data[k], b)]
    ensures after == XorBytes(data[..k + 1], ks + [b]) + ZeroBytes(|data| - k - 1)
  {
    XorBytesSnoc(data, ks, k, b);
    assert after == XorBytes(data[..k + 1], ks + [b]) + ZeroBytes(|data| - k - 1);
  }

  lemma XorBytesSnoc(data: seq<byte>, ks: seq<byte>, k: nat, b: byte)
    requires k < |data| && |ks| == k
    ensures XorBytes(data[..k + 1], ks + [b]) == XorBytes(data[..k], ks) + [Xor(data[k], b)]
  {
  }

  /** Taking one keystream byte moves it from the stream still to come to the bytes
      already used. */
  lemma KeystreamAdvance(used: seq<byte>, st: State, next: State, n: nat, whole: seq<byte>)
    requires |st.s| == 256 && n > 0 && next == Step(st)
    requires used + Keystream(st, n) == whole
    ensures (used + [Out(next)]) + Keystream(next, n - 1) == whole
  {
    assert Keystream(st, n) == [Out(next)] + Keystream(next, n - 1);
    assert (used + [Out(next)]) + Keystream(next, n - 1) == used + ([Out(next)] + Keystream(next, n - 1));
  }

  /** One more round after `k` rounds is `k + 1` rounds. */
  lemma AdvanceStep(start: State, k: nat, before: State, next: State)
    requires |start.s| == 256 && before == Advance(start, k) && next == Step(before)
    ensures next == Advance(start, k + 1)
  {
  }

  /** `rc4(keyBytes, dataBytes)`. */
  method Rc4Crypt(key: seq<byte>, data: seq<byte>) returns (r: seq<byte>)
    requires |key| > 0
    ensures r == Crypt(key, data)
  {
    var s := KeySchedule(key);
    r := EncryptWith(s, data);
  }

  // ---------------------------------------------------------------------------
  // Properties.

  /** Encrypting twice with the same key gives the data back: `rc4` is its own inverse. */
  lemma CryptInvolution(key: seq<byte>, data: seq<byte>)
    requires |key| > 0
    ensures Crypt(key, Crypt(key, data)) == data
  {
    var ks := Keystream(State(Schedule(key), 0, 0), |data|);
    forall k | 0 <= k < |data|
      ensures Crypt(key, Crypt(key, data))[k] == data[k]
    {
      XorInvolution(data[k], ks[k]);
    }
  }

  /** A longer keystream starts with a shorter one. */
  lemma {:induction false} KeystreamPrefix(st: State, m: nat, n: nat)
    requires |st.s| == 256 && m <= n
    ensures Keystream(st, n)[..m] == Keystream(st, m)
    decreases m
  {
    if m > 0 {
      KeystreamPrefix(Step(st), m - 1, n - 1);
    }
  }

  /** Encrypting a prefix gives the prefix of the encryption: the keystream depends
      only on the key and the position. */
  lemma CryptPrefix(key: seq<byte>, data: seq<byte>, m: nat)
    requires |key| > 0 && m <= |data|
    ensures Crypt(key, data)[..m] == Crypt(key, data[..m])
  {
    KeystreamPrefix(State(Schedule(key), 0, 0), m, |data|);
  }

  lemma SwapPermutation(s: seq<byte>, i: nat, j: nat)
    requires i < |s| && j < |s|
    ensures multiset(Swap(s, i, j)) == multiset(s)
  {
    var t := s[i := s[j]];
    assert multiset(t) == multiset(s) - multiset{s[i]} + multiset{s[j]};
    assert multiset(t[j := s[i]]) == multiset(t) - multiset{t[j]} + multiset{s[i]};
  }

  lemma {:induction false} KsaPermutation(key: seq<byte>, n: nat)
    requires |key| > 0 && n <= 256
    ensures IsPermutation(KsaAfter(key, n).s)
  {
    if n > 0 {
      KsaPermutation(key, n - 1);
      var st := KsaAfter(key, n - 1);
      SwapPermutation(st.s, n - 1, (st.j as int + st.s[n - 1] as int + key[(n - 1) % |key|] as int) % 256);
    }
  }

  /** One round of the output loop keeps the state a permutation. */
  lemma StepPermutation(st: State)
    requires |st.s| == 256
    ensures multiset(Step(st).s) == multiset(st.s)
  {
    var i := AddByte(st.i, 1);
    SwapPermutation(st.s, i, AddByte(st.j, st.s[i]));
  }

  /** The state is a permutation of the 256 byte values after key scheduling, and every
      round of the output loop keeps it one. */
  /** The state stays a permutation through any number of output rounds, so the array
      `EncryptWith` leaves behind is one too. */
  lemma {:induction false} AdvancePermutation(st: State, m: nat)
    requires |st.s| == 256 && IsPermutation(st.s)
    ensures IsPermutation(Advance(st, m).s)
  {
    if m > 0 {
      AdvancePermutation(st, m - 1);
      StatePermutationStep(Advance(st, m - 1));
    }
  }

  lemma StatePermutationStep(st: State)
    requires |st.s| == 256 && IsPermutation(st.s)
    ensures IsPermutation(Step(st).s)
  {
    StepPermutation(st);
  }

  lemma StatePermutation(key: seq<byte>, st: State)
    requires |key| > 0 && |st.s| == 256
    ensures IsPermutation(Schedule(key))
    ensures IsPermutation(st.s) ==> IsPermutation(Step(st).s)
  {
    KsaPermutation(key, 256);
    StepPermutation(st);
  }
}
