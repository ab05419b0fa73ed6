/** `validateTskey` and `generateTsKey`, with `generateSpk` and `generateLkp` on top:
    a key is a 7-byte payload followed by a Schnorr-style signature `(h, s)` over one
    of two elliptic curves, scrambled with RC4 under a key derived from the PID and
    printed in base 24. The curve arithmetic, the two hash functions and the random
    source are parameters of the model. */
module TsKey {
  import opened Wrappers
  import opened Arith
  import opened ByteCodec
  import opened KeyString
  import opened Rc4
  import opened Sampling
  import opened Payload
  import opened Signature

  /** The group orders `n` and private keys `priv` of the SPK and LKP curves. */
  const SPK_ORDER: nat := 629063109922370885449
  const SPK_PRIV: nat := 153862071918555979944
  const LKP_ORDER: nat := 675048016158598417213
  const LKP_PRIV: nat := 100266970209474387075

  /** The attempt limit of the generation loop. */
  const MAX_ATTEMPTS: nat := 1000

  type Digest16 = d: seq<byte> | |d| == 16 witness seq(16, _ => 0)
  type Digest20 = d: seq<byte> | |d| == 20 witness seq(20, _ => 0)

  /** An affine curve point; its coordinates are field elements, so never negative. */
  datatype Point = Point(x: nat, y: nat)

  /** What the key code asks of one curve: `G.multiply(c).toAffine()` and
      `K.multiply(h).add(G.multiply(s)).toAffine()`. `None` stands for the curve library
      throwing (an out-of-range scalar, the point at infinity). */
  datatype CurveOps = CurveOps(mulG: nat -> Option<Point>, recover: (nat, nat) -> Option<Point>)

  /** The environment the key code runs in: MD5 and SHA-1, and the two curves, `None`
      when building that curve failed at load time. */
  datatype Env = Env(
    md5: seq<byte> -> Digest16,
    sha1: seq<byte> -> Digest20,
    spk: Option<CurveOps>,
    lkp: Option<CurveOps>)

  /** The random source of the generator: byte `i` of draw `d` of the sampler in
      attempt `a`. */
  type KeyEntropy = (nat, nat, nat) -> byte

  /** The bytes the sampler sees in attempt `a`. */
  function AttemptEntropy(rand: KeyEntropy, a: nat): Entropy
  {
    (d: nat, i: nat) => rand(a, d, i)
  }

  function CurveOf(env: Env, isSpk: bool): Option<CurveOps>
  {
    if isSpk then env.spk else env.lkp
  }

  function Order(isSpk: bool): (n: nat)
    ensures n > 1
  {
    if isSpk then SPK_ORDER else LKP_ORDER
  }

  function Priv(isSpk: bool): nat
  {
    if isSpk then SPK_PRIV else LKP_PRIV
  }

  /** The eleven zero bytes of `new Uint8Array(11)`. */
  function Zeros(n: nat): (r: seq<byte>)
    ensures |r| == n && forall i :: 0 <= i < n ==> r[i] == 0
  {
    seq(n, _ => 0)
  }

  /** The RC4 key of a PID: the first five bytes of the MD5 of its UTF-16LE encoding,
      padded with eleven zeros to sixteen bytes. */
  function RcKey(env: Env, pid: JsString): (rk: seq<byte>)
    ensures |rk| == 16
    ensures rk[..5] == env.md5(Utf16Le(pid))[..5]
    ensures rk[5..] == Zeros(11)
  {
    env.md5(Utf16Le(pid))[..5] + Zeros(11)
  }

  /** The challenge of a payload and a point: the hash of the payload and the point's
      coordinates as 48 little-endian bytes each, cut to 35 bits. */
  function HashChallenge(env: Env, inner: seq<byte>, r: Point): nat
  {
    Challenge(env.sha1(inner + ToLE(r.x, 48) + ToLE(r.y, 48)))
  }

  /** The SPK ID check: the low 37 bits of the payload equal the PID's SPK ID, and a
      PID without one fails. */
  predicate SpkIdMatches(pid: JsString, inner: seq<byte>)
  {
    match GetSpkid(pid)
    case Err(_) => false
    case Ok(id) => BitAnd(FromLE(inner), SPKID_MASK) == id
  }

  /** The checks `validateTskey` makes on the 21 opened bytes: the signature fields are
      unpacked from bytes 7 on, the point `h K + s G` is recomputed, its hash with the
      payload must give back `h`, and an SPK must carry the PID's SPK ID. */
  predicate CheckOpened(env: Env, pid: JsString, dc: seq<byte>, isSpk: bool)
    requires |dc| == 21
  {
    var inner := dc[..7];
    var sig := FromLE(dc[7..]);
    var h, s := UnpackH(sig), UnpackS(sig);
    match CurveOf(env, isSpk)
    case None => false
    case Some(ops) =>
      match ops.recover(h, s)
      case None => false
      case Some(r) =>
        h == HashChallenge(env, inner, r) && (!isSpk || SpkIdMatches(pid, inner))
  }

  /** `validateTskey(pid, tskey, isSpk)`: every exception is caught and reported as
      `false`. */
  predicate Validate(env: Env, pid: JsString, tskey: string, isSpk: bool)
  {
    match Decode(tskey)
    case Err(_) => false
    case Ok(value) => CheckOpened(env, pid, Unseal(RcKey(env, pid), value), isSpk)
  }

  /** The second half of a pass: a response outside 69 bits, or equal to `2^69 - 1`,
      means `continue`; otherwise the key is sealed and returned if it validates. */
  function SignStep(env: Env, pid: JsString, inner: seq<byte>, isSpk: bool, rk: seq<byte>,
                    h: nat, s: nat): Option<string>
    requires |inner| == 7 && |rk| > 0
  {
    if !Accepted(s) then None
    else
      var key := Seal(rk, inner, h, s);
      if Validate(env, pid, key, isSpk) then Some(key) else None
  }

  /** The first half of a pass: the nonce `c` is drawn, the point `R = c G` is
      computed, and from them the challenge `h` and the response `s`. */
  datatype Proposal = Proposal(h: nat, s: nat)

  function Propose(env: Env, inner: seq<byte>, isSpk: bool, ops: CurveOps, rand: KeyEntropy,
                   a: nat): Result<Proposal>
  {
    match Sample(1, Order(isSpk), AttemptEntropy(rand, a))
    case Err(e) => Err(e)
    case Ok(c) =>
      SampleSpec(1, Order(isSpk), AttemptEntropy(rand, a));
      Respond(env, inner, isSpk, ops, c)
  }

  /** The challenge and response for the nonce `c`: `s = mod(c - priv h, n)`. */
  function Respond(env: Env, inner: seq<byte>, isSpk: bool, ops: CurveOps, c: nat): Result<Proposal>
  {
    match ops.mulG(c)
    case None => Err(CurveFault)
    case Some(r) =>
      var h := HashChallenge(env, inner, r);
      match Mod(c - Priv(isSpk) * h, Order(isSpk))
      case Err(e) => Err(e)
      case Ok(s) => Ok(Proposal(h, s))
  }

  /** One pass of the generation loop: `Err` is a throw, `Ok(None)` a `continue` and
      `Ok(Some(key))` the return of `key`. */
  function Attempt(env: Env, pid: JsString, inner: seq<byte>, isSpk: bool, ops: CurveOps,
                   rk: seq<byte>, rand: KeyEntropy, a: nat): Result<Option<string>>
    requires |inner| == 7 && |rk| > 0
  {
    match Propose(env, inner, isSpk, ops, rand, a)
    case Err(e) => Err(e)
    case Ok(p) => Ok(SignStep(env, pid, inner, isSpk, rk, p.h, p.s))
  }

  /** The generation loop from pass `a` on, given what each pass does. */
  function Retry(pass: nat -> Result<Option<string>>, a: nat): Result<string>
    decreases MAX_ATTEMPTS - a
  {
    if a >= MAX_ATTEMPTS then Err(GenerationExhausted)
    else
      match pass(a)
      case Err(e) => Err(e)
      case Ok(None) => Retry(pass, a + 1)
      case Ok(Some(key)) => Ok(key)
  }

  /** The passes of `generateTsKey` for one PID and payload. */
  function Passes(env: Env, pid: JsString, inner: seq<byte>, isSpk: bool, ops: CurveOps,
                  rk: seq<byte>, rand: KeyEntropy): nat -> Result<Option<string>>
    requires |inner| == 7 && |rk| > 0
  {
    (a: nat) => Attempt(env, pid, inner, isSpk, ops, rk, rand, a)
  }

  /** What `generateTsKey(pid, inner, isSpk)` returns or throws. */
  function Generate(env: Env, pid: JsString, inner: seq<byte>, isSpk: bool, rand: KeyEntropy): Result<string>
  {
    match CurveOf(env, isSpk)
    case None => Err(CurveNotInitialized)
    case Some(ops) =>
      if |inner| != 7 then Err(BadInnerPayload)
      else Retry(Passes(env, pid, inner, isSpk, ops, RcKey(env, pid), rand), 0)
  }

  /** What `generateSpk(pid)` returns or throws. */
  function SpkKey(env: Env, pid: JsString, rand: KeyEntropy): Result<string>
  {
    match GetSpkid(pid)
    case Err(e) => Err(e)
    case Ok(id) => Generate(env, pid, SpkPayload(id), true, rand)
  }

  /** What `generateLkp(pid, count, major, minor, chid)` returns or throws. */
  function LkpKey(env: Env, pid: JsString, count: nat, major: nat, minor: nat, chid: nat,
                  rand: KeyEntropy): Result<string>
  {
    Generate(env, pid, LkpPayload(chid, count, major, minor), false, rand)
  }

  // ---------------------------------------------------------------------------
  // The procedures, step by step.

  /** The hashing steps shared by validation and generation: the point's coordinates
      as 48 bytes each after the payload, SHA-1, and the challenge from its first 8 bytes. */
  method ChallengeOf(env: Env, inner: seq<byte>, r: Point) returns (h: nat)
    ensures h == HashChallenge(env, inner, r)
  {
    var rx := BigIntToBytesLE(r.x, Some(48));
    var ry := BigIntToBytesLE(r.y, Some(48));
    var sha1Input := ConcatBytes([inner, rx.value, ry.value]);
    ConcatTriple(inner, rx.value, ry.value);
    var md: Digest20 := env.sha1(sha1Input);
    var part1 := BytesToBigIntLE(md[..4]);
    var part2 := BytesToBigIntLE(md[4..8]);
    h := BitOr(Shl(Shr(part2, 29), 32), part1);
  }

  /** The checks of `validateTskey` after the key is opened. */
  method CheckSignature(env: Env, pid: JsString, dc: seq<byte>, isSpk: bool) returns (ok: bool)
    requires |dc| == 21
    ensures ok == CheckOpened(env, pid, dc, isSpk)
  {
    var inner := dc[..7];
    var sigdata := BytesToBigIntLE(dc[7..]);
    var h := BitAnd(sigdata, H_MASK);
    var s := BitAnd(Shr(sigdata, 35), S_MASK);
    var curve := CurveOf(env, isSpk);
    if curve.None? {
      return false;
    }
    var r := curve.value.recover(h, s);
    if r.None? {
      return false;
    }
    var ht := ChallengeOf(env, inner, r.value);
    if h != ht {
      return false;
    }
    if isSpk {
      var fromKey := BytesToBigIntLE(inner);
      var fromPid := GetSpkid(pid);
      if fromPid.Err? {
        return false;
      }
      return BitAnd(fromKey, SPKID_MASK) == fromPid.value;
    }
    return true;
  }

  /** The RC4 key derivation shared by validation and generation. */
  method DeriveRcKey(env: Env, pid: JsString) returns (rk: seq<byte>)
    ensures rk == RcKey(env, pid)
  {
    var pidBytes := Utf16LeEncode(pid);
    var md5Digest := env.md5(pidBytes);
    rk := ConcatBytes([md5Digest[..5], Zeros(11)]);
    ConcatPair(md5Digest[..5], Zeros(11));
  }

  /** The opening steps of `validateTskey`: the key's value as 21 bytes, descrambled
      with the PID's RC4 key. */
  method OpenKey(env: Env, pid: JsString, value: nat) returns (dc: seq<byte>)
    ensures dc == Unseal(RcKey(env, pid), value)
  {
    var keydataBytes := BigIntToBytesLE(value, Some(21));
    var rk := DeriveRcKey(env, pid);
    dc := Rc4Crypt(rk, keydataBytes.value);
  }

  /** `validateTskey(pid, tskey, isSpk)`. */
  method ValidateTskey(env: Env, pid: JsString, tskey: string, isSpk: bool) returns (ok: bool)
    ensures ok == Validate(env, pid, tskey, isSpk)
  {
    var keydataInt := DecodePkey(tskey);
    if keydataInt.Err? {
      return false;
    }
    var dc := OpenKey(env, pid, keydataInt.value);
    assert |dc| >= 21;
    ok := CheckSignature(env, pid, dc, isSpk);
  }

  /** The packing and sealing steps of the loop body: `sigdata` as 14 bytes after the
      payload, scrambled with RC4, the first 20 bytes printed as a key. */
  method SealKey(rk: seq<byte>, inner: seq<byte>, h: nat, s: nat) returns (key: string)
    requires |inner| == 7 && |rk| > 0
    ensures key == Seal(rk, inner, h, s)
  {
    var sMasked := BitAnd(s, S_MASK);
    var hMasked := BitAnd(h, H_MASK);
    var sigdata := BitOr(Shl(sMasked, 35), hMasked);
    var sigdataBytes := BigIntToBytesLE(sigdata, Some(14));
    var pkdata := ConcatBytes([inner, sigdataBytes.value]);
    ConcatPair(inner, sigdataBytes.value);
    assert pkdata == SignedPayload(inner, h, s);
    assert |pkdata| == 21;
    var pke := Rc4Crypt(rk, pkdata);
    var pk := BytesToBigIntLE(pke[..20]);
    var pkstr := EncodePkey(pk);
    key := pkstr.value;
  }

  /** The second half of the loop body: the range check on `s`, sealing, and the call
      to `validateTskey`. */
  method SignAndCheck(env: Env, pid: JsString, inner: seq<byte>, isSpk: bool, rk: seq<byte>,
                      h: nat, s: nat) returns (key: Option<string>)
    requires |inner| == 7 && |rk| > 0
    ensures key == SignStep(env, pid, inner, isSpk, rk, h, s)
  {
    var sMasked := BitAnd(s, S_MASK);
    if sMasked != s || sMasked >= S_MASK {
      return None;
    }
    var pkstr := SealKey(rk, inner, h, s);
    var valid := ValidateTskey(env, pid, pkstr, isSpk);
    if valid {
      return Some(pkstr);
    }
    return None;
  }

  /** The challenge and response for a drawn nonce. */
  method RespondToNonce(env: Env, inner: seq<byte>, isSpk: bool, ops: CurveOps, c: nat)
    returns (p: Result<Proposal>)
    ensures p == Respond(env, inner, isSpk, ops, c)
  {
    var point := ops.mulG(c);
    if point.None? {
      return Err(CurveFault);
    }
    var h := ChallengeOf(env, inner, point.value);
    var s := Mod(c - Priv(isSpk) * h, Order(isSpk));
    assert s.Ok?;
    return Ok(Proposal(h, s.value));
  }

  /** The first half of the loop body: the nonce, the point, the challenge and the
      response. */
  method ProposeSignature(env: Env, inner: seq<byte>, isSpk: bool, ops: CurveOps, rand: KeyEntropy,
                          a: nat) returns (p: Result<Proposal>)
    ensures p == Propose(env, inner, isSpk, ops, rand, a)
  {
    var nonce := GenerateRandomBigInt(1, Order(isSpk), AttemptEntropy(rand, a));
    if nonce.Err? {
      return Err(nonce.error);
    }
    SampleSpec(1, Order(isSpk), AttemptEntropy(rand, a));
    p := RespondToNonce(env, inner, isSpk, ops, nonce.value);
  }

  /** The body of the generation loop in `generateTsKey`. */
  method RunAttempt(env: Env, pid: JsString, inner: seq<byte>, isSpk: bool, ops: CurveOps,
                    rk: seq<byte>, rand: KeyEntropy, a: nat, ghost pass: nat -> Result<Option<string>>)
    returns (r: Result<Option<string>>)
    requires |inner| == 7 && |rk| > 0
    requires forall b {:trigger Attempt(env, pid, inner, isSpk, ops, rk, rand, b)} ::
      pass(b) == Attempt(env, pid, inner, isSpk, ops, rk, rand, b)
    ensures r == pass(a)
  {
    var p := ProposeSignature(env, inner, isSpk, ops, rand, a);
    if p.Err? {
      r := Err(p.error);
    } else {
      var key := SignAndCheck(env, pid, inner, isSpk, rk, p.value.h, p.value.s);
      r := Ok(key);
    }
    assert r == Attempt(env, pid, inner, isSpk, ops, rk, rand, a);
  }

  /** The retry loop of `generateTsKey`, for any passes that `RunAttempt` carries out. */
  method RetryLoop(env: Env, pid: JsString, inner: seq<byte>, isSpk: bool, ops: CurveOps,
                   rk: seq<byte>, rand: KeyEntropy, ghost pass: nat -> Result<Option<string>>)
    returns (r: Result<string>)
    requires |inner| == 7 && |rk| > 0
    requires forall b {:trigger Attempt(env, pid, inner, isSpk, ops, rk, rand, b)} ::
      pass(b) == Attempt(env, pid, inner, isSpk, ops, rk, rand, b)
    ensures r == Retry(pass, 0)
  {
    var attempts := 0;
    while attempts < MAX_ATTEMPTS
      invariant attempts <= MAX_ATTEMPTS
      invariant Retry(pass, attempts) == Retry(pass, 0)
    {
      var outcome := RunAttempt(env, pid, inner, isSpk, ops, rk, rand, attempts, pass);
      attempts := attempts + 1;
      if outcome.Err? {
        return Err(outcome.error);
      }
      if outcome.value.Some? {
        return Ok(outcome.value.value);
      }
    }
    return Err(GenerationExhausted);
  }

  /** `generateTsKey(pid, inner, isSpk)`. */
  method GenerateTsKey(env: Env, pid: JsString, inner: seq<byte>, isSpk: bool, rand: KeyEntropy)
    returns (r: Result<string>)
    ensures r == Generate(env, pid, inner, isSpk, rand)
  {
    var curve := CurveOf(env, isSpk);
    if curve.None? {
      return Err(CurveNotInitialized);
    }
    if |inner| != 7 {
      return Err(BadInnerPayload);
    }
    var rk := DeriveRcKey(env, pid);
    r := RetryLoop(env, pid, inner, isSpk, curve.value, rk, rand, Passes(env, pid, inner, isSpk, curve.value, rk, rand));
  }

  /** `generateSpk(pid)`. */
  method GenerateSpk(env: Env, pid: JsString, rand: KeyEntropy) returns (r: Result<string>)
    ensures r == SpkKey(env, pid, rand)
  {
    var spkid := GetSpkid(pid);
    if spkid.Err? {
      return Err(spkid.error);
    }
    var spkdata := BigIntToBytesLE(spkid.value, Some(7));
    assert |spkdata.value| == 7;
    r := GenerateTsKey(env, pid, spkdata.value, true, rand);
  }

  /** `generateLkp(pid, count, major, minor, chid)`. */
  method GenerateLkp(env: Env, pid: JsString, count: nat, major: nat, minor: nat, chid: nat,
                     rand: KeyEntropy) returns (r: Result<string>)
    ensures r == LkpKey(env, pid, count, major, minor, chid, rand)
  {
    var version := 1;
    if (major == 5 && minor > 0) || major > 5 {
      version := BitOr(Shl(major, 3), minor);
    }
    var lkpinfo := BitOr(BitOr(BitOr(BitOr(Shl(chid, 46), Shl(count, 32)), Shl(2, 18)), Shl(144, 10)),
                         Shl(version, 3));
    var lkpdata := BigIntToBytesLE(lkpinfo, Some(7));
    assert |lkpdata.value| == 7;
    r := GenerateTsKey(env, pid, lkpdata.value, false, rand);
  }

  // ---------------------------------------------------------------------------
  // Properties of the retry loop, for any passes.

  /** The loop looks at passes `a` to 999 and no others: passes that agree there give
      the same result. */
  lemma {:induction false} RetryUsesPasses(p1: nat -> Result<Option<string>>,
                                           p2: nat -> Result<Option<string>>, a: nat)
    requires forall b :: a <= b < MAX_ATTEMPTS ==> p1(b) == p2(b)
    ensures Retry(p1, a) == Retry(p2, a)
    decreases MAX_ATTEMPTS - a
  {
    if a < MAX_ATTEMPTS {
      RetryUsesPasses(p1, p2, a + 1);
    }
  }

  /** The loop stops at the first pass that throws or returns a key, with that pass's
      outcome. */
  lemma {:induction false} RetryStopsAt(pass: nat -> Result<Option<string>>, a: nat, b: nat)
    requires a <= b < MAX_ATTEMPTS
    requires forall c :: a <= c < b ==> pass(c) == Ok(None)
    requires pass(b) != Ok(None)
    ensures pass(b).Err? ==> Retry(pass, a) == Err(pass(b).error)
    ensures pass(b).Ok? ==> Retry(pass, a) == Ok(pass(b).value.value)
    decreases b - a
  {
    if a < b {
      RetryStopsAt(pass, a + 1, b);
    }
  }

  /** When every pass from `a` on continues, the loop throws once the 1000th is done. */
  lemma {:induction false} RetryExhausts(pass: nat -> Result<Option<string>>, a: nat)
    requires forall c :: a <= c < MAX_ATTEMPTS ==> pass(c) == Ok(None)
    ensures Retry(pass, a) == Err(GenerationExhausted)
    decreases MAX_ATTEMPTS - a
  {
    if a < MAX_ATTEMPTS {
      RetryExhausts(pass, a + 1);
    }
  }

  /** Every key the loop returns is the key of one pass, and every error it throws is
      either the exhaustion error or the error of one pass. */
  lemma {:induction false} RetrySettledBy(pass: nat -> Result<Option<string>>, a: nat)
    ensures Retry(pass, a).Ok? ==>
      exists b :: a <= b < MAX_ATTEMPTS && pass(b) == Ok(Some(Retry(pass, a).value))
    ensures Retry(pass, a).Err? ==>
      Retry(pass, a).error == GenerationExhausted ||
      exists b :: a <= b < MAX_ATTEMPTS && pass(b) == Err(Retry(pass, a).error)
    decreases MAX_ATTEMPTS - a
  {
    if a < MAX_ATTEMPTS && pass(a) == Ok(None) {
      RetrySettledBy(pass, a + 1);
    }
  }

  // ---------------------------------------------------------------------------
  // Properties of one pass.

  /** The challenge lies below `2^35` and the response in `[0, n)`; computing them
      throws only when the curve library throws, since the modulus is positive. */
  lemma RespondSpec(env: Env, inner: seq<byte>, isSpk: bool, ops: CurveOps, c: nat)
    ensures Respond(env, inner, isSpk, ops, c).Ok? ==>
      Respond(env, inner, isSpk, ops, c).value.h < Pow2(35) &&
      Respond(env, inner, isSpk, ops, c).value.s < Order(isSpk)
    ensures Respond(env, inner, isSpk, ops, c).Err? <==> ops.mulG(c).None?
    ensures Respond(env, inner, isSpk, ops, c).Err? ==> Respond(env, inner, isSpk, ops, c).error == CurveFault
  {
    var point := ops.mulG(c);
    if point.Some? {
      var r := point.value;
      var md := env.sha1(inner + ToLE(r.x, 48) + ToLE(r.y, 48));
      ChallengeFits(md);
      ModIsFloorMod(c - Priv(isSpk) * Challenge(md), Order(isSpk));
    }
  }

  /** A pass's first half throws only when the sampler runs out of draws or the curve
      library throws, since the sampler's range `[1, n)` is never empty. */
  lemma ProposeSpec(env: Env, inner: seq<byte>, isSpk: bool, ops: CurveOps, rand: KeyEntropy, a: nat)
    ensures Propose(env, inner, isSpk, ops, rand, a).Ok? ==>
      Propose(env, inner, isSpk, ops, rand, a).value.h < Pow2(35) &&
      Propose(env, inner, isSpk, ops, rand, a).value.s < Order(isSpk)
    ensures Propose(env, inner, isSpk, ops, rand, a).Err? ==>
      Propose(env, inner, isSpk, ops, rand, a).error in {SamplerExhausted, CurveFault}
  {
    var n := Order(isSpk);
    SampleSpec(1, n, AttemptEntropy(rand, a));
    var nonce := Sample(1, n, AttemptEntropy(rand, a));
    if nonce.Ok? {
      RespondSpec(env, inner, isSpk, ops, nonce.value);
    }
  }

  /** A pass throws only the sampler's or the curve library's error. */
  lemma AttemptErrors(env: Env, pid: JsString, inner: seq<byte>, isSpk: bool, ops: CurveOps,
                      rk: seq<byte>, rand: KeyEntropy, a: nat)
    requires |inner| == 7 && |rk| > 0
    ensures Attempt(env, pid, inner, isSpk, ops, rk, rand, a).Err? ==>
      Attempt(env, pid, inner, isSpk, ops, rk, rand, a).error in {SamplerExhausted, CurveFault}
  {
    ProposeSpec(env, inner, isSpk, ops, rand, a);
  }

  /** A pass returns a key only after `validateTskey` has accepted it. */
  lemma AttemptValid(env: Env, pid: JsString, inner: seq<byte>, isSpk: bool, ops: CurveOps,
                     rk: seq<byte>, rand: KeyEntropy, a: nat)
    requires |inner| == 7 && |rk| > 0
    ensures Attempt(env, pid, inner, isSpk, ops, rk, rand, a).Ok? &&
            Attempt(env, pid, inner, isSpk, ops, rk, rand, a).value.Some? ==>
      Validate(env, pid, Attempt(env, pid, inner, isSpk, ops, rk, rand, a).value.value, isSpk)
  {
    var p := Propose(env, inner, isSpk, ops, rand, a);
    if p.Ok? {
      SignStepValid(env, pid, inner, isSpk, rk, p.value.h, p.value.s);
    }
  }

  lemma SignStepValid(env: Env, pid: JsString, inner: seq<byte>, isSpk: bool, rk: seq<byte>, h: nat, s: nat)
    requires |inner| == 7 && |rk| > 0
    ensures SignStep(env, pid, inner, isSpk, rk, h, s).Some? ==>
      Validate(env, pid, SignStep(env, pid, inner, isSpk, rk, h, s).value, isSpk)
  {
  }

  /** A pass reads the random source only through draws 0 to 100 of its own index. */
  lemma AttemptUsesEntropy(env: Env, pid: JsString, inner: seq<byte>, isSpk: bool, ops: CurveOps,
                           rk: seq<byte>, r1: KeyEntropy, r2: KeyEntropy, a: nat)
    requires |inner| == 7 && |rk| > 0
    requires forall d, i :: d <= 100 ==> r1(a, d, i) == r2(a, d, i)
    ensures Attempt(env, pid, inner, isSpk, ops, rk, r1, a) == Attempt(env, pid, inner, isSpk, ops, rk, r2, a)
  {
    ProposeUsesEntropy(env, inner, isSpk, ops, r1, r2, a);
  }

  lemma ProposeUsesEntropy(env: Env, inner: seq<byte>, isSpk: bool, ops: CurveOps,
                           r1: KeyEntropy, r2: KeyEntropy, a: nat)
    requires forall d, i :: d <= 100 ==> r1(a, d, i) == r2(a, d, i)
    ensures Propose(env, inner, isSpk, ops, r1, a) == Propose(env, inner, isSpk, ops, r2, a)
  {
    var e1, e2 := AttemptEntropy(r1, a), AttemptEntropy(r2, a);
    SampleFromUsesDraws(1, Order(isSpk), e1, e2, 0);
    assert Sample(1, Order(isSpk), e1) == Sample(1, Order(isSpk), e2);
  }

  /** Completeness of the signing half: when the curve recovers, from the challenge `h`
      and an accepted response `s`, the point `R` whose hash with the payload is `h`, and
      an SPK payload carries the PID's SPK ID, the sealed key validates and is returned. */
  lemma SignStepSucceeds(env: Env, pid: JsString, inner: seq<byte>, isSpk: bool, ops: CurveOps,
                         r: Point, h: nat, s: nat)
    requires |inner| == 7 && CurveOf(env, isSpk) == Some(ops)
    requires Accepted(s) && h == HashChallenge(env, inner, r) && ops.recover(h, s) == Some(r)
    requires isSpk ==> SpkIdMatches(pid, inner)
    ensures SignStep(env, pid, inner, isSpk, RcKey(env, pid), h, s) ==
      Some(Seal(RcKey(env, pid), inner, h, s))
  {
    SealValidates(env, pid, inner, isSpk, ops, r, h, s);
  }

  /** The key sealed from such a signature passes `validateTskey`. */
  lemma SealValidates(env: Env, pid: JsString, inner: seq<byte>, isSpk: bool, ops: CurveOps,
                      r: Point, h: nat, s: nat)
    requires |inner| == 7 && CurveOf(env, isSpk) == Some(ops)
    requires Accepted(s) && h == HashChallenge(env, inner, r) && ops.recover(h, s) == Some(r)
    requires isSpk ==> SpkIdMatches(pid, inner)
    ensures Validate(env, pid, Seal(RcKey(env, pid), inner, h, s), isSpk)
  {
    var rk := RcKey(env, pid);
    var key := Seal(rk, inner, h, s);
    HashChallengeFits(env, inner, r);
    ModSmall(h, Pow2(35));
    TransportRoundTrip(rk, inner, h, s);
    var value := Decode(key).value;
    OpenedChecks(env, pid, Unseal(rk, value), isSpk, ops, inner, r, h, s);
    assert Validate(env, pid, key, isSpk) == CheckOpened(env, pid, Unseal(rk, value), isSpk);
  }

  /** A challenge has at most 35 bits, so its low 35 bits are the whole of it. */
  lemma HashChallengeFits(env: Env, inner: seq<byte>, r: Point)
    ensures HashChallenge(env, inner, r) < Pow2(35)
  {
    var md := env.sha1(inner + ToLE(r.x, 48) + ToLE(r.y, 48));
    ChallengeFits(md);
  }

  /** The checks on the opened bytes pass when they hold the payload, the challenge and
      the response of a signature that the curve verifies. */
  lemma OpenedChecks(env: Env, pid: JsString, dc: seq<byte>, isSpk: bool, ops: CurveOps,
                     inner: seq<byte>, r: Point, h: nat, s: nat)
    requires |dc| == 21 && dc[..7] == inner
    requires UnpackH(FromLE(dc[7..])) == h && UnpackS(FromLE(dc[7..])) == s
    requires CurveOf(env, isSpk) == Some(ops) && ops.recover(h, s) == Some(r)
    requires h == HashChallenge(env, inner, r) && (isSpk ==> SpkIdMatches(pid, inner))
    ensures CheckOpened(env, pid, dc, isSpk)
  {
  }

  /** The payload `generateSpk` signs carries the SPK ID of its PID. */
  lemma SpkPayloadMatches(pid: JsString)
    requires GetSpkid(pid).Ok?
    ensures SpkIdMatches(pid, SpkPayload(GetSpkid(pid).value))
  {
    GetSpkidRange(pid);
    SpkPayloadRoundTrip(GetSpkid(pid).value);
  }

  // ---------------------------------------------------------------------------
  // Properties of the generators.

  /** `generateTsKey` returns only keys that `validateTskey` accepts for the same PID and
      key kind. */
  lemma GenerateValid(env: Env, pid: JsString, inner: seq<byte>, isSpk: bool, rand: KeyEntropy)
    ensures Generate(env, pid, inner, isSpk, rand).Ok? ==>
      Validate(env, pid, Generate(env, pid, inner, isSpk, rand).value, isSpk)
  {
    var curve := CurveOf(env, isSpk);
    if curve.Some? && |inner| == 7 {
      var rk := RcKey(env, pid);
      var pass := Passes(env, pid, inner, isSpk, curve.value, rk, rand);
      RetrySettledBy(pass, 0);
      if Retry(pass, 0).Ok? {
        var b :| 0 <= b < MAX_ATTEMPTS && pass(b) == Ok(Some(Retry(pass, 0).value));
        AttemptValid(env, pid, inner, isSpk, curve.value, rk, rand, b);
      }
    }
  }

  /** `generateTsKey` throws "Curve data not initialized" exactly when the curve is
      missing, the 7-byte error exactly for another payload length, and otherwise only
      the sampler's, the curve library's or the exhaustion error. */
  lemma GenerateErrors(env: Env, pid: JsString, inner: seq<byte>, isSpk: bool, rand: KeyEntropy)
    ensures Generate(env, pid, inner, isSpk, rand) == Err(CurveNotInitialized) <==>
      CurveOf(env, isSpk).None?
    ensures Generate(env, pid, inner, isSpk, rand) == Err(BadInnerPayload) <==>
      CurveOf(env, isSpk).Some? && |inner| != 7
    ensures Generate(env, pid, inner, isSpk, rand).Err? ==>
      Generate(env, pid, inner, isSpk, rand).error in
        {CurveNotInitialized, BadInnerPayload, SamplerExhausted, CurveFault, GenerationExhausted}
  {
    var curve := CurveOf(env, isSpk);
    if curve.Some? && |inner| == 7 {
      var rk := RcKey(env, pid);
      var pass := Passes(env, pid, inner, isSpk, curve.value, rk, rand);
      RetrySettledBy(pass, 0);
      if Retry(pass, 0).Err? && Retry(pass, 0).error != GenerationExhausted {
        var b :| 0 <= b < MAX_ATTEMPTS && pass(b) == Err(Retry(pass, 0).error);
        AttemptErrors(env, pid, inner, isSpk, curve.value, rk, rand, b);
      }
    }
  }

  /** `generateTsKey` makes at most 1000 passes of at most 101 draws each: its result
      depends only on the random bytes `rand(a, d, i)` with `a < 1000` and `d <= 100`. */
  lemma GenerateUsesEntropy(env: Env, pid: JsString, inner: seq<byte>, isSpk: bool,
                            r1: KeyEntropy, r2: KeyEntropy)
    requires forall a: nat, d: nat, i: nat :: a < MAX_ATTEMPTS && d <= 100 ==> r1(a, d, i) == r2(a, d, i)
    ensures Generate(env, pid, inner, isSpk, r1) == Generate(env, pid, inner, isSpk, r2)
  {
    var curve := CurveOf(env, isSpk);
    if curve.Some? && |inner| == 7 {
      var rk := RcKey(env, pid);
      var p1 := Passes(env, pid, inner, isSpk, curve.value, rk, r1);
      var p2 := Passes(env, pid, inner, isSpk, curve.value, rk, r2);
      forall b | 0 <= b < MAX_ATTEMPTS
        ensures p1(b) == p2(b)
      {
        AttemptUsesEntropy(env, pid, inner, isSpk, curve.value, rk, r1, r2, b);
      }
      RetryUsesPasses(p1, p2, 0);
    }
  }

  /** `generateSpk` returns only keys that validate as SPKs for the PID, and throws what
      `getSpkid` throws or what `generateTsKey` throws for a 7-byte payload. */
  lemma SpkKeySpec(env: Env, pid: JsString, rand: KeyEntropy)
    ensures SpkKey(env, pid, rand).Ok? ==> Validate(env, pid, SpkKey(env, pid, rand).value, true)
    ensures GetSpkid(pid).Err? ==> SpkKey(env, pid, rand) == Err(GetSpkid(pid).error)
    ensures GetSpkid(pid).Ok? && SpkKey(env, pid, rand).Err? ==>
      SpkKey(env, pid, rand).error in {CurveNotInitialized, SamplerExhausted, CurveFault, GenerationExhausted}
  {
    var id := GetSpkid(pid);
    if id.Ok? {
      GenerateValid(env, pid, SpkPayload(id.value), true, rand);
      GenerateErrors(env, pid, SpkPayload(id.value), true, rand);
    }
  }

  /** `generateLkp` returns only keys that validate as LKPs for the PID, and never
      throws the 7-byte error. */
  lemma LkpKeySpec(env: Env, pid: JsString, count: nat, major: nat, minor: nat, chid: nat,
                   rand: KeyEntropy)
    ensures LkpKey(env, pid, count, major, minor, chid, rand).Ok? ==>
      Validate(env, pid, LkpKey(env, pid, count, major, minor, chid, rand).value, false)
    ensures LkpKey(env, pid, count, major, minor, chid, rand).Err? ==>
      LkpKey(env, pid, count, major, minor, chid, rand).error in
        {CurveNotInitialized, SamplerExhausted, CurveFault, GenerationExhausted}
  {
    var inner := LkpPayload(chid, count, major, minor);
    GenerateValid(env, pid, inner, false, rand);
    GenerateErrors(env, pid, inner, false, rand);
  }
}
