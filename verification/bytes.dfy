/** Octets, and the byte view of a string whose characters all fit in one octet. */
module Bytes {

  /** Rust's `u8`. */
  type uint8 = bv8

  /** Every character of `s` is a single octet (Rust's byte-string literals). */
  predicate IsOctetString(s: string) {
    forall i :: 0 <= i < |s| ==> s[i] as int < 256
  }

  /** The octets of a byte-string literal such as `b"Hello, World!"`. */
  function BytesOf(s: string): (b: seq<uint8>)
    requires IsOctetString(s)
    ensures |b| == |s|
    ensures forall i :: 0 <= i < |s| ==> b[i] as int == s[i] as int
  {
    seq(|s|, i requires 0 <= i < |s| => ToOctet(s[i] as int))
  }

  /**
   * The octet with numeric value `n`, built from its two hexadecimal digits
   * so that the conversion from an integer is a table lookup. This stands in
   * for `n as bv8` only because the verifier handles that integer-to-bit-vector
   * conversion poorly: proofs that use it cost many times more.
   */
  function ToOctet(n: int): (b: uint8)
    requires 0 <= n < 256
    ensures b as int == n
  {
    (NibbleOctet(n / 16) << 4) | NibbleOctet(n % 16)
  }

  /** The octet with numeric value `n`, for `n` below 16. */
  function NibbleOctet(n: int): (b: uint8)
    requires 0 <= n < 16
    ensures b as int == n
  {
    if n < 8 then
      if n < 4 then
        if n < 2 then (if n == 0 then 0 else 1) else (if n == 2 then 2 else 3)
      else
        if n < 6 then (if n == 4 then 4 else 5) else (if n == 6 then 6 else 7)
    else
      if n < 12 then
        if n < 10 then (if n == 8 then 8 else 9) else (if n == 10 then 10 else 11)
      else
        if n < 14 then (if n == 12 then 12 else 13) else (if n == 14 then 14 else 15)
  }
}
