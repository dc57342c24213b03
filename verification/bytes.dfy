/**
  Octets and the handful of ASCII characters the RESP codec inspects.
  The wire stream is a sequence of `byte`; Go strings in the codec are
  byte strings too, so text payloads are `seq<byte>` as well.
 */
module Bytes {

  /** One octet of the wire stream. */
  type byte = b: int | 0 <= b < 256

  const CR: byte := 13   // '\r'
  const LF: byte := 10   // '\n'

  /** The line terminator the encoder writes after every line. */
  const CRLF: seq<byte> := [CR, LF]

  // The type tags of resp.go:10-16.
  const STRING: byte := 43   // '+'
  const ERROR: byte := 45    // '-'
  const INTEGER: byte := 58  // ':'
  const BULK: byte := 36     // '$'
  const ARRAY: byte := 42    // '*'

  // Sign characters accepted in front of a decimal number.
  const PLUS: byte := 43     // '+'
  const MINUS: byte := 45    // '-'

  const ZERO: byte := 48     // '0'

  predicate IsDigit(b: byte) {
    ZERO <= b <= ZERO + 9
  }

  predicate AllDigits(s: seq<byte>) {
    forall i :: 0 <= i < |s| ==> IsDigit(s[i])
  }

  /** True iff no carriage return occurs in `s`. */
  predicate NoCR(s: seq<byte>) {
    forall i :: 0 <= i < |s| ==> s[i] != CR
  }
}
