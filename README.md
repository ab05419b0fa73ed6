# LyssaRDSGen key generator — a Dafny model

LyssaRDSGen produces and checks Remote Desktop Services (terminal server) keys. There are two
kinds: the license server ID key (SPK) and the license key pack (LKP). Each key starts as a
7-byte payload:

- an SPK payload is the SPK ID read from the product ID (PID);
- an LKP payload is the license-pack information: channel ID, key count and product version.

A Schnorr-style signature `(h, s)` follows the payload:

- `h` is a 35-bit challenge taken from a SHA-1 digest;
- `s` is a 69-bit response modulo the order of one of two elliptic curves.

The resulting 21 bytes are scrambled with RC4. The RC4 key is the first five bytes of the MD5
digest of the PID in UTF-16LE, followed by eleven zero bytes. The first 20 scrambled bytes are
printed as 35 base-24 digits, in seven hyphen-separated groups of five.

Generation is a retry loop. Each pass draws a random nonce by rejection sampling, signs the
payload, seals it and runs the validator on the result. It repeats until the validator accepts
a key or 1000 passes have been made.

The model is split into modules along the structure of `script.js`:

- `Wrappers`: `Option`/`Result`, and one `Error` constructor per distinct reachable `throw` of the modelled functions.
- `Arith`: powers, shifts and the BigInt bitwise operators on natural numbers, with the lemmas
  about them.
- `ByteCodec`:
  - `bigIntToBytesLE` and `bytesToBigIntLE` (little-endian byte codec);
  - `concatBytes`;
  - `utf16leEncoder.encode`.
- `KeyString`: `encodePkey` and `decodePkey` (the base-24 key text).
- `Rc4`: `rc4`, as in-place array code proved against a functional RC4.
- `Sampling`: `mod` and the rejection sampler `generateRandomBigInt`.
- `Payload`: `getSpkid`, and the payload packing of `generateSpk` and `generateLkp`.
- `Signature`: how the signature is packed into and unpacked from the key, and the transport
  round trip.
- `TsKey`:
  - `validateTskey` and `generateTsKey`;
  - `generateSpk` and `generateLkp`.

Every loop of the source is a `method` with a `while`/`for` loop, proved equal to a
specification function. Properties are proved about those functions.

Some behaviours of the code are easy to overlook; the model keeps them:

- `encodePkey(0n)` returns the empty string (script.js:55), not 35 `B`s. So a payload whose
  first 20 scrambled bytes are all zero would print as an empty key. `Signature.HeadDecodes`
  covers this case: the empty text still decodes to 0.
- The generator rejects `s == 2^69 - 1` as well as any `s` of 70 bits or more. The
  rejection test is `s_masked >= 0x1FF…F` (script.js:455), so the accepted responses are exactly
  `s < 2^69 - 1` (`Signature.AcceptedIff`).
- `generateSpk` and `generateLkp` check that their payload has 7 bytes (script.js:489, 517), and
  `generateTsKey` checks that the payload and signature have 21 bytes (script.js:464). These
  checks can never fail, because `bigIntToBytesLE(x, 7n)` always returns 7 bytes. The model
  proves that with assertions instead of carrying error paths that cannot be reached.
- The SPK ID check compares only the low 37 bits of the payload with the SPK ID: the mask
  at script.js:391 is `0x1FFFFFFFFF`, 37 one-bits, although an SPK ID field is often described
  as 39 bits wide. The model uses the code's 37-bit mask (`Payload.SPKID_MASK`), which is where
  the `2^37` bound of `Payload.SpkPayloadRoundTrip` comes from. Every SPK ID `getSpkid` can
  return is below `10^11 < 2^37` (`Payload.GetSpkidRange`).
- `validateTskey` catches every exception and returns `false` (script.js:400-403). `Validate`
  is therefore a total predicate, and a decoding error, a parse error, a missing curve or a
  curve-library fault all make it false.

## Model

| member | source | states |
|---|---|---|
| ByteCodec.BigIntToBytesLE | script.js:95-129 | a negative length gives the "invalid length" error; otherwise the result is the little-endian bytes of `abs(n)` at the requested width, truncating the high bytes; with no length, the minimal width (at least one byte) |
| ByteCodec.WriteLowBytes | script.js:118-122 | the byte loop fills a zeroed buffer with exactly the little-endian bytes of `n`, and with zeros past its highest byte |
| ByteCodec.BytesToBigIntLE | script.js:131-140 | the sum of `bytes[i] << 8i` is the little-endian value of the bytes, and is below `256^len` |
| ByteCodec.FromLEToLE | script.js:95-140 | reading back the bytes written at width `l` gives `n mod 256^l`: the codec truncates high bytes and keeps everything else |
| ByteCodec.FromLEToLEFits | script.js:95-140 | for `n < 256^l`, writing then reading is the identity |
| ByteCodec.ToLEFromLE | script.js:95-140 | reading bytes then writing them back at the same width gives the same bytes |
| ByteCodec.ToLEPrefix | script.js:95-129 | writing at a smaller width gives a prefix of the wider encoding |
| ByteCodec.ConcatBytes | script.js:234-244 | the result is the concatenation of the arrays, in order, and its length is the sum of their lengths |
| ByteCodec.SetAt | script.js:240 | `result.set(arr, offset)` replaces exactly the bytes at from `offset` to `offset + arr.length` with `arr` |
| ByteCodec.ConcatAppend | script.js:234-244 | concatenation is associative with appending one more array, for contents and total length |
| ByteCodec.Utf16LeEncode | script.js:180-189 | each code unit becomes two bytes, low byte first, and the pair reads back as the code unit |
| KeyString.IndexOf | script.js:86 | `indexOf` returns -1 exactly for an absent character, and otherwise the first position holding it |
| KeyString.KeyCharsDistinct | script.js:18 | the key alphabet has 24 distinct characters and no hyphen |
| KeyString.EncodePkey | script.js:52-74 | a negative input gives the "n is negative" error; otherwise the result is the key text of `n` |
| KeyString.Base24 | script.js:57-64 | the division loop produces the base-24 digits of `n`, most significant first, with none for 0 |
| KeyString.Groups | script.js:68-71 | the `substring(i, i + 5)` loop splits the text into its groups of five |
| KeyString.DecodePkey | script.js:76-93 | the decoder's result equals the key-text decoding: hyphens dropped, length error when the count of UTF-16 code units is not a multiple of five, the first invalid character reported, otherwise the base-24 value |
| KeyString.EncodeDecode | script.js:52-93 | decoding an encoded key gives back `n`, for every `n < 24^35` |
| KeyString.EncodeLayout | script.js:66-73 | a key for `0 < n < 24^35` is 41 characters: hyphens exactly at every sixth position, key characters elsewhere |
| KeyString.DecodeValid | script.js:76-93 | text with 35 key characters once hyphens are removed decodes to its base-24 value |
| KeyString.DecodeFails | script.js:76-93 | decoding fails exactly when the hyphen-free length, in UTF-16 code units, is not a multiple of five, or a character is outside the alphabet |
| KeyString.KeyCharsLength | script.js:79 | text made of alphabet characters is one code unit per character, so for keys the length test counts symbols |
| KeyString.AstralCharacterLength | script.js:77-81 | a character outside the Basic Multilingual Plane counts as two code units: four symbols and an emoji give the "Bad length" error |
| KeyString.AstralCharacterInvalid | script.js:79-89 | three symbols and an emoji pass the length test (five code units), and the emoji is reported as the invalid character |
| KeyString.DigitsValue | script.js:60-64 | the digits the loop produces are key characters whose base-24 value is `n` |
| KeyString.PadValue | script.js:66 | left padding with `B` (digit 0) keeps the value |
| KeyString.RemoveHyphensGrouped | script.js:68-77 | joining the groups with hyphens and then removing the hyphens gives back the text |
| Rc4.Rc4Crypt | script.js:155-178 | `rc4(key, data)` equals the functional RC4: the data XORed with the keystream of the scheduled state |
| Rc4.KeySchedule | script.js:156-166 | the identity fill and the 256 key-scheduling swaps produce the scheduled state |
| Rc4.IdentityState | script.js:156-159 | a fresh state holding `s[i] = i` |
| Rc4.SwapAt | script.js:165 | the destructuring swap exchanges exactly two entries of the state |
| Rc4.OutputRound | script.js:171-175 | one output round advances `(s, i, j)` by one keystream step and yields that step's output byte |
| Rc4.EncryptWith | script.js:168-177 | the output loop XORs each data byte with the next keystream byte, and leaves the state array as one output round per data byte, from the scheduled state leave it |
| Rc4.AdvancePermutation | script.js:170-176 | any number of output rounds keeps the state a permutation of 0..255 |
| Rc4.CryptInvolution | script.js:155-178 | encrypting twice with the same key gives back the data |
| Rc4.CryptPrefix | script.js:155-178 | the output on a prefix of the data is the prefix of the output; the result keeps the data's length |
| Rc4.StatePermutation | script.js:156-176 | the scheduled state is a permutation of 0..255, and every output step keeps it one |
| Rc4.KsaPermutation | script.js:163-166 | every key-scheduling round keeps the state a permutation |
| Rc4.SwapPermutation | script.js:165 | a swap keeps the multiset of state entries |
| Sampling.ModIsFloorMod | script.js:225-232 | `mod` throws exactly for a non-positive modulus, and otherwise returns the floor remainder in `[0, m)` congruent to `n` |
| Sampling.Mod | script.js:225-232 | `NonPositiveModulus` exactly for `m <= 0`; otherwise the truncated remainder moved into `[0, m)`, which is the floor remainder `n % m` |
| Sampling.FloorFromTrunc | script.js:230-231 | adding `m` to a negative truncated remainder gives the floor remainder |
| Sampling.TruncRemIsRemainder | script.js:230 | BigInt `%` is the remainder of the division truncated toward zero, with the sign of `n` |
| Sampling.GenerateRandomBigInt | script.js:191-223 | the do-while loop returns what the sampler specification gives for the same random bytes |
| Sampling.ReadBigEndian | script.js:211-214 | the shift-and-add loop reads the random bytes as a big-endian number |
| Sampling.CandidateBounds | script.js:199-219 | every candidate lies in `[min, min + 2(max - min))` |
| Sampling.SampleSpec | script.js:191-223 | a result lies in `[min, max)`; the range error is thrown exactly when `min >= max`; otherwise the only error is running out of draws |
| Sampling.SampleFromUsesDraws | script.js:205-220 | the sampler makes at most 101 draws: its result depends only on draws 0 to 100 |
| Sampling.FirstAccepted | script.js:205-222 | a first draw whose candidate is in range is returned as it is |
| Sampling.BitLengthBounds | script.js:199 | the length of `n.toString(2)` is the number of binary digits of `n` |
| Payload.GetSpkid | script.js:318-333 | "Invalid PID" exactly for a PID shorter than 23 code units; otherwise `parseInt` of the text before the first hyphen of characters 10-15 and 18-22, which fails only with "Could not parse SPK ID number from PID" and never yields a negative number (the value and the parse failure are pinned down by `Payload.GetSpkidDigits` and `Payload.GetSpkidNoDigits`) |
| Payload.GetSpkidRange | script.js:318-333 | "Invalid PID" is thrown exactly for a PID shorter than 23 code units; an SPK ID is below `10^11`, so below `2^37` |
| Payload.GetSpkidDigits | script.js:323-332 | when the SPK ID text (characters 10-15 and 18-22, up to the first hyphen) starts with a digit, the SPK ID is the value of its leading digits |
| Payload.GetSpkidNoDigits | script.js:326-331 | a text with no digit after the white space and sign throws "Could not parse SPK ID number from PID" |
| Payload.SpkPayloadRoundTrip | script.js:486-491 | the low 37 bits of the 7-byte SPK payload give back the SPK ID exactly when it has at most 37 bits |
| Payload.VersionCodeLayout | script.js:505-508 | before version 5.1 the version code is 1; from 5.1 on, it is `major << 3` with a minor below 8 in the low three bits |
| Payload.LkpInfoSum | script.js:510-514 | for a count below `2^14` and a version below `2^7`, the OR of the five shifted fields is their sum: the fields do not overlap |
| Payload.LkpInfoLayout | script.js:510-516 | for fields within their widths, the information fits in 7 bytes, survives the byte codec, and the channel ID, count and version read back from their places |
| Signature.ChallengeFits | script.js:446-449 | the challenge is the first digest word plus the top three bits of the second word shifted by 32, and is below `2^35` |
| Signature.AcceptedIff | script.js:453-457 | a response is used exactly when it is below `2^69 - 1` |
| Signature.PackSigLayout | script.js:459-460 | the packed signature is `s · 2^35` plus the low 35 bits of `h`, and is below `2^104` |
| Signature.UnpackSig | script.js:357-358 | the validator's masks give back the low 35 bits of `h` and `s`, whatever stands above bit 104 |
| Signature.KeySpaceFits | script.js:66-72 | every 20-byte value has a 35-digit base-24 key: `256^20 < 24^35` |
| Signature.OpenedPrefix | script.js:337-345 | decoding the value of the first 20 scrambled bytes and descrambling gives back the first 20 payload bytes |
| Signature.SealDecodes | script.js:469-472 | the printed key decodes to the value of the first 20 scrambled bytes |
| Signature.HeadDecodes | script.js:469-472 | the key printed for any 20 bytes decodes back to their value, including the empty key printed for 0 |
| Signature.TransportRoundTrip | script.js:337-358 | for an accepted response, the validator recovers the payload, the low 35 bits of `h`, and `s` from the printed key |
| TsKey.RcKey | script.js:421-423 | the RC4 key is 16 bytes: the first five MD5 bytes of the UTF-16LE PID, then eleven zeros |
| TsKey.DeriveRcKey | script.js:421-423 | the encoding, hashing and concatenation compute the RC4 key |
| TsKey.ChallengeOf | script.js:440-449 | the point bytes, digest and bit arithmetic compute the challenge for a payload and point |
| TsKey.OpenKey | script.js:339-345 | writing the key value as 21 bytes and descrambling gives the opened payload |
| TsKey.CheckSignature | script.js:347-399 | the checks after opening: the recovered point's challenge must equal `h`, and an SPK must carry the PID's SPK ID in its low 37 bits; a missing curve or a curve fault means rejection |
| TsKey.ValidateTskey | script.js:335-404 | `validateTskey` returns the validation predicate, and never throws |
| TsKey.OpenedChecks | script.js:352-399 | an opened payload that carries the payload and a signature the curve verifies passes the checks |
| TsKey.SealKey | script.js:459-472 | packing, concatenating, scrambling and printing compute the sealed key |
| TsKey.SignAndCheck | script.js:453-479 | an unaccepted response means `continue`; otherwise the key is sealed and returned only if the validator accepts it |
| TsKey.RespondToNonce | script.js:437-451 | the point, digest and `mod` compute the challenge and response for a nonce |
| TsKey.RespondSpec | script.js:437-451 | the response is below the curve order, and the step throws exactly when the curve library does |
| TsKey.ProposeSignature | script.js:435-451 | drawing the nonce from `[1, n)` and responding to it |
| TsKey.ProposeSpec | script.js:435-451 | the response is below the order, and the only errors are the sampler's exhaustion and the curve library's fault |
| TsKey.RunAttempt | script.js:433-479 | one pass of the loop body does what the pass specification says |
| TsKey.RetryLoop | script.js:425-482 | the while loop returns what the retry specification gives for its passes |
| TsKey.GenerateTsKey | script.js:406-483 | `generateTsKey` equals its specification: curve check, 7-byte check, RC4 key, then the retry loop |
| TsKey.GenerateSpk | script.js:485-492 | `generateSpk` equals its specification: the SPK ID, its 7-byte payload, and generation over the SPK curve |
| TsKey.GenerateLkp | script.js:494-520 | `generateLkp` equals its specification: the version code, the license-pack information, and generation over the LKP curve |
| TsKey.RetryStopsAt | script.js:432-479 | the first pass that does not continue decides the loop: its key is returned or its error propagates |
| TsKey.RetryExhausts | script.js:432-482 | when every one of the 1000 passes continues, the loop throws "Failed to generate a valid key" |
| TsKey.RetrySettledBy | script.js:432-482 | a returned key is the key of one of the first 1000 passes; an error is the exhaustion error or one pass's error |
| TsKey.RetryUsesPasses | script.js:425-433 | the loop looks at passes 0 to 999 only |
| TsKey.AttemptErrors | script.js:433-479 | a pass throws only the sampler's or the curve library's error |
| TsKey.AttemptValid | script.js:474-475 | a pass returns a key only when `validateTskey` accepts it |
| TsKey.AttemptUsesEntropy | script.js:435 | a pass reads only draws 0 to 100 of its own random bytes |
| TsKey.HashChallengeFits | script.js:446-459 | the challenge has at most 35 bits, so masking it keeps it whole |
| TsKey.SealValidates | script.js:335-404 | a key sealed from a signature the curve verifies, with an accepted response and (for an SPK) the PID's SPK ID, passes `validateTskey` |
| TsKey.SignStepSucceeds | script.js:453-475 | for such a signature, the pass seals the key and returns it |
| TsKey.SpkPayloadMatches | script.js:485-492 | the payload `generateSpk` signs carries the SPK ID of its PID |
| TsKey.GenerateValid | script.js:406-483 | every key `generateTsKey` returns passes `validateTskey` for the same PID and key kind |
| TsKey.GenerateErrors | script.js:406-483 | "Curve data not initialized" exactly when the curve is missing; the 7-byte error exactly for another payload length; otherwise only the sampler's, the curve library's or the exhaustion error |
| TsKey.GenerateUsesEntropy | script.js:425-435 | at most 1000 passes of at most 101 draws: the result depends only on those random bytes |
| TsKey.SpkKeySpec | script.js:485-492 | `generateSpk` returns only keys that validate as SPKs; it throws what `getSpkid` throws, and otherwise only the generator's errors other than the 7-byte one |
| TsKey.LkpKeySpec | script.js:494-520 | `generateLkp` returns only keys that validate as LKPs, and never throws the 7-byte error |

## Left out

- Elliptic-curve arithmetic is a parameter of the model (`TsKey.CurveOps`). This covers building the curves, `multiply`, `add` and `toAffine`. An exception from the curve library becomes `None`, which `generateTsKey` propagates as `CurveFault`. Whether a signature verifies is therefore a hypothesis of `TsKey.SealValidates`, not something proved about the real curves.
- MD5 and SHA-1 are parameters of type 16-byte and 20-byte digest (`TsKey.Env`). The `md5Hash` and `sha1` wrappers are not modelled.
- `crypto.getRandomValues` is replaced by an explicit source of random bytes (`Sampling.Entropy`, `TsKey.KeyEntropy`), indexed by pass, draw and byte.
- `async`/`await`, the user interface, the DOM, the module-level curve set-up, and every `console` message are not modelled. This includes the truncation warning of `bigIntToBytesLE` (script.js:124-126) and the retry warning (script.js:477).
- The `TypeError` checks for non-BigInt and non-`Uint8Array` arguments (script.js:53, 96, 132, 192-194, 226-228, 239) are ruled out by the model's types. So are the `typeof pid` test of `getSpkid` and the `instanceof Uint8Array` half of the payload test of `generateTsKey` (script.js:417). The 7-byte half of that test is modelled: `BadInnerPayload` in `TsKey.GenerateErrors`.
- The curve set-up `makeCurve` (script.js:250-316) and its three throws are not modelled. The model sees only whether each curve exists (`TsKey.Env`), which gives the "Curve data not initialized" error of `validateTskey` and `generateTsKey`.
- `KeyString.DecodePkey` and `TsKey.ValidateTskey` take the key text as a Dafny `string`, a sequence of Unicode scalar values. The length test counts UTF-16 code units (`KeyString.Utf16Length`, two for a character outside the Basic Multilingual Plane), as `keyString.length` does. A JavaScript string holding a lone surrogate has no counterpart, so what `decodePkey` does with one is not modelled.
- `generateLkp` takes its count, version and channel ID as natural numbers. The NaN check (script.js:501-503) cannot fire, and negative inputs are not modelled.
- `Rc4.Rc4Crypt` requires a non-empty key. With an empty key, JavaScript indexes `keyBytes[NaN]` and computes with `NaN`. The only callers pass the 16-byte key from `TsKey.RcKey`.
- `parseInt` is modelled on strings of code units with the white-space set of JavaScript. Its double-precision rounding is not modelled. At most 11 digits reach it, so every value is exact.
- `Payload.LkpInfoLayout` and `Payload.LkpInfoSum` state the field layout only when each field fits its width (channel ID below `2^10`, count below `2^14`, version below `2^7`). For larger fields the model computes the same OR, but the fields overlap or the 7-byte codec truncates them.
- `Signature.TransportRoundTrip` recovers only the low 35 bits of `h`. The generator's challenge already fits in 35 bits (`TsKey.HashChallengeFits`), so this is exact for keys the generator seals.
