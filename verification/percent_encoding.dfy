/**
 * Percent-encoding (section 2.1 of RFC 3986) with the `NON_ALPHANUMERIC`
 * set of the `percent-encoding` crate: every octet that is not an ASCII
 * letter or digit is written as `%` and two upper-case hexadecimal digits;
 * letters and digits stand for themselves. This is broader than the
 * unreserved set of RFC 3986, which leaves `-`, `.`, `_` and `~` alone.
 */
module PercentEncoding {
  import opened Wrappers
  import opened Bytes

  /** A 4-bit value: one hexadecimal digit. */
  type Nibble = x: uint8 | x < 16

  /** An ASCII letter or digit octet: the octets the encoder leaves alone. */
  predicate IsAlphanumeric(b: uint8) {
    (0x30 <= b <= 0x39) || (0x41 <= b <= 0x5A) || (0x61 <= b <= 0x7A)
  }

  /** An ASCII letter or digit character. */
  predicate IsAlphanumericChar(c: char) {
    ('0' <= c <= '9') || ('A' <= c <= 'Z') || ('a' <= c <= 'z')
  }

  /** A digit of the upper-case hexadecimal alphabet. */
  predicate IsUpperHexDigit(c: char) {
    ('0' <= c <= '9') || ('A' <= c <= 'F')
  }

  /** The upper-case hexadecimal digit for a nibble. */
  function HexDigit(n: Nibble): (c: char)
    ensures IsUpperHexDigit(c)
  {
    if n < 10 then ('0' as int + n as int) as char
    else ('A' as int + (n as int - 10)) as char
  }

  /** The nibble an upper-case hexadecimal digit stands for. */
  function HexValue(c: char): (r: Option<Nibble>)
    ensures r.Some? <==> IsUpperHexDigit(c)
    ensures r.Some? ==> HexDigit(r.value) == c
  {
    if '0' <= c <= '9' then Some(NibbleOctet(c as int - '0' as int))
    else if 'A' <= c <= 'F' then Some(NibbleOctet(c as int - 'A' as int + 10))
    else None
  }

  /** HexValue undoes HexDigit. */
  lemma HexValueOfDigit(n: Nibble)
    ensures HexValue(HexDigit(n)) == Some(n)
  {
    var m := HexValue(HexDigit(n)).value;
    assert m as int == n as int;
  }

  /** The character of an ASCII letter or digit octet. */
  function CharOf(b: uint8): (c: char)
    requires IsAlphanumeric(b)
    ensures IsAlphanumericChar(c)
  {
    (b as int) as char
  }

  /** The octet of an ASCII letter or digit character. */
  function OctetOfChar(c: char): (b: uint8)
    requires IsAlphanumericChar(c)
    ensures IsAlphanumeric(b) && CharOf(b) == c
  {
    ToOctet(c as int)
  }

  /** The octet whose high and low nibbles are `hi` and `lo`. */
  function JoinNibbles(hi: Nibble, lo: Nibble): (b: uint8)
    ensures b >> 4 == hi && b & 15 == lo
  {
    ((hi as uint8) << 4) | lo
  }

  /** The text one octet becomes. */
  function EncodeOctet(b: uint8): (s: string)
    ensures IsAlphanumeric(b) ==> |s| == 1 && IsAlphanumericChar(s[0]) && OctetOfChar(s[0]) == b
    ensures !IsAlphanumeric(b) ==>
      && |s| == 3 && s[0] == '%'
      && IsUpperHexDigit(s[1]) && IsUpperHexDigit(s[2])
      && JoinNibbles(HexValue(s[1]).value, HexValue(s[2]).value) == b
  {
    if IsAlphanumeric(b) then
      [CharOf(b)]
    else
      HexValueOfDigit(b >> 4);
      HexValueOfDigit(b & 15);
      ['%', HexDigit(b >> 4), HexDigit(b & 15)]
  }

  /**
   * Reads one encoded octet from the front of `s`: a letter or digit, or
   * `%` and two upper-case hexadecimal digits that do not spell a letter or
   * digit. The result holds the octet and the number of characters read.
   */
  function DecodeOctet(s: string): (r: Option<(uint8, nat)>)
    ensures r.Some? ==> 0 < r.value.1 <= |s| && EncodeOctet(r.value.0) == s[..r.value.1]
  {
    if |s| == 0 then None
    else if IsAlphanumericChar(s[0]) then Some((OctetOfChar(s[0]), 1))
    else if s[0] == '%' && |s| >= 3 && IsUpperHexDigit(s[1]) && IsUpperHexDigit(s[2]) then
      var b := JoinNibbles(HexValue(s[1]).value, HexValue(s[2]).value);
      if IsAlphanumeric(b) then None else Some((b, 3))
    else None
  }

  /** DecodeOctet reads back exactly the encoding of one octet, whatever follows it. */
  lemma DecodeOctetEncode(b: uint8, t: string)
    ensures DecodeOctet(EncodeOctet(b) + t) == Some((b, |EncodeOctet(b)|))
  {
    var e := EncodeOctet(b);
    var s := e + t;
    assert s[..|e|] == e;
    if !IsAlphanumeric(b) {
      HexValueOfDigit(b >> 4);
      HexValueOfDigit(b & 15);
    }
  }

  /** The number of ASCII letter and digit octets in `d`. */
  function CountAlphanumeric(d: seq<uint8>): (n: nat)
    ensures n <= |d|
  {
    if |d| == 0 then 0
    else (if IsAlphanumeric(d[0]) then 1 else 0) + CountAlphanumeric(d[1..])
  }

  /** `percent_encode(data, NON_ALPHANUMERIC)`. */
  function Encode(d: seq<uint8>): (s: string)
    ensures |s| == CountAlphanumeric(d) + 3 * (|d| - CountAlphanumeric(d))
    ensures forall i :: 0 <= i < |s| ==> IsAlphanumericChar(s[i]) || s[i] == '%'
  {
    if |d| == 0 then []
    else EncodeOctet(d[0]) + Encode(d[1..])
  }

  /**
   * Strict percent-decoding: accepts exactly the texts Encode produces, so a
   * lower-case hexadecimal digit, a stray `%`, any character that is not a
   * letter or digit, or an escape of a letter or digit is rejected.
   */
  function Decode(s: string): (r: Option<seq<uint8>>)
    decreases |s|
  {
    if |s| == 0 then Some([])
    else
      match DecodeOctet(s)
      case None => None
      case Some((b, n)) =>
        match Decode(s[n..])
        case None => None
        case Some(rest) => Some([b] + rest)
  }

  /** Encoding distributes over concatenation: each octet is encoded on its own. */
  lemma {:induction false} EncodeAppend(d1: seq<uint8>, d2: seq<uint8>)
    ensures Encode(d1 + d2) == Encode(d1) + Encode(d2)
    decreases |d1|
  {
    if |d1| > 0 {
      assert (d1 + d2)[1..] == d1[1..] + d2;
      EncodeAppend(d1[1..], d2);
    } else {
      assert d1 + d2 == d2;
    }
  }

  /** Round trip: decoding the encoding of `d` yields `d`. */
  lemma {:induction false} DecodeEncode(d: seq<uint8>)
    ensures Decode(Encode(d)) == Some(d)
    decreases |d|
  {
    if |d| > 0 {
      var s := Encode(d);
      var e := EncodeOctet(d[0]);
      DecodeEncode(d[1..]);
      DecodeOctetEncode(d[0], Encode(d[1..]));
      assert s[|e|..] == Encode(d[1..]);
      assert d == [d[0]] + d[1..];
    }
  }

  /** A text that decodes to `d` is the encoding of `d`. */
  lemma {:induction false} EncodeDecode(s: string, d: seq<uint8>)
    requires Decode(s) == Some(d)
    ensures Encode(d) == s
    decreases |s|
  {
    if |s| > 0 {
      var (b, n) := DecodeOctet(s).value;
      var rest := Decode(s[n..]).value;
      assert d == [b] + rest;
      EncodeDecode(s[n..], rest);
      assert Encode(d) == EncodeOctet(b) + Encode(rest);
      assert s == s[..n] + s[n..];
    }
  }

  /** Decode accepts a text exactly when it is the encoding of the result. */
  lemma DecodeIsInverse(s: string, d: seq<uint8>)
    ensures Decode(s) == Some(d) <==> Encode(d) == s
  {
    if Decode(s) == Some(d) {
      EncodeDecode(s, d);
    }
    if Encode(d) == s {
      DecodeEncode(d);
    }
  }

  /** The encoding never holds the `,` that ends a data URL header. */
  lemma EncodeHasNoComma(d: seq<uint8>)
    ensures ',' !in Encode(d)
  {
    var s := Encode(d);
    assert forall i :: 0 <= i < |s| ==> IsAlphanumericChar(s[i]) || s[i] == '%';
  }
}
