/** Option and Result, and the failures the key generator raises.
    Every `throw` that the modelled functions can reach becomes an `Err` carrying one
    of the `Error` constructors below. The 7-byte checks of `generateSpk` and
    `generateLkp` can never fire and are assertions instead, and so can the NaN check
    of `generateLkp` on natural-number inputs; the throws of the curve set-up
    (`makeCurve`) are not part of this model, which sees only whether a curve exists. */
module Wrappers {

  datatype Option<+T> = None | Some(value: T)

  /** A failure of the key generator, one constructor per distinct `throw`. */
  datatype Error =
    | NegativeInput            // encodePkey: "n is negative"
    | InvalidLength            // bigIntToBytesLE: "invalid length"
    | BadKeyLength             // decodePkey: "Bad length"
    | InvalidCharacter(c: char) // decodePkey: "Invalid character"
    | EmptyRange               // generateRandomBigInt: "min must be strictly less than max"
    | SamplerExhausted         // generateRandomBigInt: more than 100 redraws
    | NonPositiveModulus       // mod: "modulus must be positive"
    | InvalidPid               // getSpkid: "Invalid PID"
    | UnparsableSpkid          // getSpkid: "Could not parse SPK ID number from PID"
    | CurveNotInitialized      // generateTsKey: "Curve data not initialized"
    | BadInnerPayload          // generateTsKey: "keydata_inner must be 7 bytes"
    | CurveFault               // an exception thrown by the curve library
    | GenerationExhausted      // generateTsKey: no valid key after 1000 attempts

  datatype Result<+T> = Ok(value: T) | Err(error: Error)
}
