/**
 * Base64url: the URL- and filename-safe alphabet of section 5 of RFC 4648,
 * with the `=` padding left off as section 3.2 of RFC 4648 allows. This is
 * the encoder `DataUrl` uses for its base64 payload. Encoding goes through
 * sextets (6-bit groups): three octets become four sextets, and a final one
 * or two octets become two or three sextets whose unused low bits are zero.
 */
module Base64Url {
  import opened Wrappers
  import opened Bytes

  /** A 6-bit group: the value of one encoded character. */
  type Sextet = x: bv8 | x < 64

  /** The 64 characters of the URL-safe alphabet. */
  predicate IsUrlSafeChar(c: char) {
    ('A' <= c <= 'Z') || ('a' <= c <= 'z') || ('0' <= c <= '9') || c == '-' || c == '_'
  }

  /** The character for a sextet (table 2 of RFC 4648). */
  function Symbol(v: Sextet): (c: char)
    ensures IsUrlSafeChar(c)
  {
    AlphabetAt(v as int)
  }

  /** The character at a position of the alphabet `A-Z a-z 0-9 - _`. */
  function AlphabetAt(n: int): (c: char)
    requires 0 <= n < 64
    ensures IsUrlSafeChar(c)
  {
    if n < 26 then ('A' as int + n) as char
    else if n < 52 then ('a' as int + (n - 26)) as char
    else if n < 62 then ('0' as int + (n - 52)) as char
    else if n == 62 then '-'
    else '_'
  }

  /** The position of a character in the alphabet, if it belongs to it. */
  function AlphabetIndex(c: char): (r: Option<int>)
    ensures r.Some? <==> IsUrlSafeChar(c)
    ensures r.Some? ==> 0 <= r.value < 64 && AlphabetAt(r.value) == c
  {
    if 'A' <= c <= 'Z' then Some(c as int - 'A' as int)
    else if 'a' <= c <= 'z' then Some(c as int - 'a' as int + 26)
    else if '0' <= c <= '9' then Some(c as int - '0' as int + 52)
    else if c == '-' then Some(62)
    else if c == '_' then Some(63)
    else None
  }

  /** The sextet a character stands for, if it belongs to the alphabet. */
  function SymbolValue(c: char): (r: Option<Sextet>)
    ensures r.Some? <==> IsUrlSafeChar(c)
    ensures r.Some? ==> Symbol(r.value) == c
  {
    match AlphabetIndex(c)
    case None => None
    case Some(n) => Some(ToSextet(n))
  }

  /** The sextet with numeric value `n`. */
  function ToSextet(n: int): (v: Sextet)
    requires 0 <= n < 64
    ensures v as int == n
  {
    ToOctet(n)
  }

  /** No two positions of the alphabet hold the same character. */
  lemma AlphabetIndexOfAt(n: int)
    requires 0 <= n < 64
    ensures AlphabetIndex(AlphabetAt(n)) == Some(n)
  {
  }

  /**
   * The number of characters that encode `n` octets without padding: four
   * per full group of three, plus two or three for a final partial group.
   */
  function EncodedLength(n: nat): nat {
    if n == 0 then 0
    else if n == 1 then 2
    else if n == 2 then 3
    else 4 + EncodedLength(n - 3)
  }

  /** Closed form of EncodedLength: the unpadded length is the ceiling of 4n/3. */
  lemma {:induction false} EncodedLengthClosedForm(n: nat)
    ensures EncodedLength(n) == (4 * n + 2) / 3
    decreases n
  {
    if n >= 3 {
      EncodedLengthClosedForm(n - 3);
    }
  }

  /** SymbolValue undoes Symbol: no two sextets share a character. */
  lemma SymbolValueOfSymbol(v: Sextet)
    ensures SymbolValue(Symbol(v)) == Some(v)
  {
    AlphabetIndexOfAt(v as int);
    assert (v as int) as bv8 == v;
  }

  /** Splits octets into sextets, most significant bits first, without padding. */
  function ToSextets(d: seq<uint8>): (v: seq<Sextet>)
    ensures |v| == EncodedLength(|d|)
    decreases |d|
  {
    if |d| == 0 then []
    else if |d| == 1 then [d[0] >> 2, (d[0] & 3) << 4]
    else if |d| == 2 then [d[0] >> 2, ((d[0] & 3) << 4) | (d[1] >> 4), (d[1] & 15) << 2]
    else SplitGroup(d[0], d[1], d[2]) + ToSextets(d[3..])
  }

  /** The four sextets of three octets. */
  function SplitGroup(a: uint8, b: uint8, c: uint8): (v: seq<Sextet>)
    ensures |v| == 4
  {
    [a >> 2, ((a & 3) << 4) | (b >> 4), ((b & 15) << 2) | (c >> 6), c & 63]
  }

  /**
   * Joins sextets back into octets. A lone trailing sextet, or trailing
   * sextets whose unused low bits are not zero, cannot come from ToSextets
   * and are rejected (the canonical encoding of section 3.5 of RFC 4648).
   */
  function FromSextets(v: seq<Sextet>): (r: Option<seq<uint8>>)
    ensures r.Some? ==> |v| == EncodedLength(|r.value|)
    decreases |v|
  {
    if |v| == 0 then Some([])
    else if |v| == 1 then None
    else if |v| == 2 then
      if v[1] & 15 == 0 then Some([FirstOctet(v[0], v[1])]) else None
    else if |v| == 3 then
      if v[2] & 3 == 0 then Some([FirstOctet(v[0], v[1]), SecondOctet(v[1], v[2])]) else None
    else
      match FromSextets(v[4..])
      case None => None
      case Some(rest) => Some(JoinGroup(v[0], v[1], v[2], v[3]) + rest)
  }

  /** The three octets of four sextets. */
  function JoinGroup(w: Sextet, x: Sextet, y: Sextet, z: Sextet): (d: seq<uint8>)
    ensures |d| == 3
  {
    [FirstOctet(w, x), SecondOctet(x, y), ThirdOctet(y, z)]
  }

  /** The octet made of all six bits of `w` and the top two bits of `x`. */
  function FirstOctet(w: Sextet, x: Sextet): uint8 {
    (w << 2) | (x >> 4)
  }

  /** The octet made of the low four bits of `x` and the top four bits of `y`. */
  function SecondOctet(x: Sextet, y: Sextet): uint8 {
    ((x & 15) << 4) | (y >> 2)
  }

  /** The octet made of the low two bits of `y` and all six bits of `z`. */
  function ThirdOctet(y: Sextet, z: Sextet): uint8 {
    ((y & 3) << 6) | z
  }

  /** Splitting three octets into sextets and joining them again is the identity. */
  lemma JoinSplit(a: uint8, b: uint8, c: uint8)
    ensures var v := SplitGroup(a, b, c); JoinGroup(v[0], v[1], v[2], v[3]) == [a, b, c]
  {
  }

  /** Joining four sextets into octets and splitting them again is the identity. */
  lemma SplitJoin(w: Sextet, x: Sextet, y: Sextet, z: Sextet)
    ensures var d := JoinGroup(w, x, y, z); SplitGroup(d[0], d[1], d[2]) == [w, x, y, z]
  {
  }

  /** The characters of a sextet sequence. */
  function Symbols(v: seq<Sextet>): (s: string)
    ensures |s| == |v|
    ensures forall i :: 0 <= i < |v| ==> s[i] == Symbol(v[i])
  {
    if |v| == 0 then [] else [Symbol(v[0])] + Symbols(v[1..])
  }

  /** The sextets of a text, or None when some character is outside the alphabet. */
  function SymbolValues(s: string): (r: Option<seq<Sextet>>)
    ensures r.None? <==> exists i :: 0 <= i < |s| && !IsUrlSafeChar(s[i])
    ensures r.Some? ==> Symbols(r.value) == s
    decreases |s|
  {
    if |s| == 0 then Some([])
    else
      match SymbolValue(s[0])
      case None => None
      case Some(x) =>
        match SymbolValues(s[1..])
        case None =>
          assert exists i :: 0 <= i < |s| && !IsUrlSafeChar(s[i]) by {
            var i :| 0 <= i < |s[1..]| && !IsUrlSafeChar(s[1..][i]);
            assert !IsUrlSafeChar(s[i + 1]);
          }
          None
        case Some(rest) =>
          assert forall i :: 1 <= i < |s| ==> s[i] == s[1..][i - 1];
          Some([x] + rest)
  }

  /** Base64url encoding without padding (the crate's `encode`). */
  function Encode(d: seq<uint8>): (s: string)
    ensures |s| == (4 * |d| + 2) / 3
    ensures forall i :: 0 <= i < |s| ==> IsUrlSafeChar(s[i])
  {
    EncodedLengthClosedForm(|d|);
    Symbols(ToSextets(d))
  }

  /** Strict base64url decoding: accepts exactly the texts Encode produces. */
  function Decode(s: string): (r: Option<seq<uint8>>)
    ensures r.Some? ==> |s| == (4 * |r.value| + 2) / 3
  {
    match SymbolValues(s)
    case None => None
    case Some(v) =>
      var r := FromSextets(v);
      if r.Some? then EncodedLengthClosedForm(|r.value|); r else r
  }

  /** Joining the sextets of `d` gives back `d`. */
  lemma {:induction false} FromToSextets(d: seq<uint8>)
    ensures FromSextets(ToSextets(d)) == Some(d)
    decreases |d|
  {
    if |d| < 3 {
      FromToFinalGroup(d);
    } else {
      FromToSextets(d[3..]);
      FromSextetsGroup(d[0], d[1], d[2], ToSextets(d[3..]), d[3..]);
      assert d == [d[0], d[1], d[2]] + d[3..];
    }
  }

  /** FromToSextets for the final one or two octets, which are not a full group. */
  lemma FromToFinalGroup(d: seq<uint8>)
    requires |d| < 3
    ensures FromSextets(ToSextets(d)) == Some(d)
  {
    if |d| == 1 {
      assert d == [d[0]];
    } else if |d| == 2 {
      assert d == [d[0], d[1]];
    }
  }

  /** Prefixing the sextets of a full group prefixes the joined octets with that group. */
  lemma FromSextetsGroup(a: uint8, b: uint8, c: uint8, v: seq<Sextet>, rest: seq<uint8>)
    requires FromSextets(v) == Some(rest)
    ensures FromSextets(SplitGroup(a, b, c) + v) == Some([a, b, c] + rest)
  {
    var u := SplitGroup(a, b, c) + v;
    assert u[4..] == v;
    JoinSplit(a, b, c);
  }

  /** Sextets that join into `d` are exactly the sextets of `d`. */
  lemma {:induction false} ToFromSextets(v: seq<Sextet>, d: seq<uint8>)
    requires FromSextets(v) == Some(d)
    ensures ToSextets(d) == v
    decreases |v|
  {
    if |v| >= 4 {
      var rest := FromSextets(v[4..]).value;
      ToFromSextets(v[4..], rest);
      SplitJoin(v[0], v[1], v[2], v[3]);
      assert d[3..] == rest;
      assert v == [v[0], v[1], v[2], v[3]] + v[4..];
    }
  }

  /** The sextets of a text of encoded characters are the ones it was made of. */
  lemma SymbolValuesOfSymbols(v: seq<Sextet>)
    ensures SymbolValues(Symbols(v)) == Some(v)
  {
    var s := Symbols(v);
    assert forall i :: 0 <= i < |s| ==> IsUrlSafeChar(s[i]);
    var w := SymbolValues(s).value;
    assert Symbols(w) == s;
    forall i | 0 <= i < |v|
      ensures w[i] == v[i]
    {
      assert Symbol(w[i]) == s[i] == Symbol(v[i]);
      SymbolValueOfSymbol(v[i]);
      SymbolValueOfSymbol(w[i]);
    }
    assert w == v;
  }

  /** Round trip: decoding the encoding of `d` yields `d`. */
  lemma DecodeEncode(d: seq<uint8>)
    ensures Decode(Encode(d)) == Some(d)
  {
    SymbolValuesOfSymbols(ToSextets(d));
    FromToSextets(d);
  }

  /** Decode accepts a text exactly when it is the encoding of the result. */
  lemma DecodeIsInverse(s: string, d: seq<uint8>)
    ensures Decode(s) == Some(d) <==> Encode(d) == s
  {
    if Decode(s) == Some(d) {
      var v := SymbolValues(s).value;
      ToFromSextets(v, d);
    }
    if Encode(d) == s {
      DecodeEncode(d);
    }
  }

  /** The encoding never holds the padding `=`, nor the `,` that ends a data URL header. */
  lemma EncodeHasNoPaddingOrComma(d: seq<uint8>)
    ensures '=' !in Encode(d) && ',' !in Encode(d)
  {
    var s := Encode(d);
    assert forall i :: 0 <= i < |s| ==> IsUrlSafeChar(s[i]);
  }

  /** Symbols works character by character, so it distributes over concatenation. */
  lemma {:induction false} SymbolsAppend(v1: seq<Sextet>, v2: seq<Sextet>)
    ensures Symbols(v1 + v2) == Symbols(v1) + Symbols(v2)
    decreases |v1|
  {
    if |v1| > 0 {
      assert (v1 + v2)[1..] == v1[1..] + v2;
      SymbolsAppend(v1[1..], v2);
    } else {
      assert v1 + v2 == v2;
    }
  }

  /**
   * The encoding of `b"Hello, World!"` from the crate's own test. The octets
   * come in as a parameter pinned by the precondition rather than as a literal
   * in the postcondition: with a literal argument the verifier would unfold
   * Encode on it step by step, which costs far more than the proof below.
   */
  lemma HelloWorldEncoding(d: seq<uint8>)
    requires d == [0x48, 0x65, 0x6C, 0x6C, 0x6F, 0x2C, 0x20, 0x57, 0x6F, 0x72, 0x6C, 0x64, 0x21]
    ensures Encode(d) == "SGVsbG8sIFdvcmxkIQ"
  {
    var v: seq<Sextet> := [18, 6, 21, 44] + [27, 6, 60, 44] + [8, 5, 29, 47] + [28, 38, 49, 36] + [8, 16];
    var t: string := "SGVs" + "bG8s" + "IFdv" + "cmxk" + "IQ";
    HelloWorldSextets();
    HelloWorldSymbols();
    HelloWorldEncodingText();
    assert Encode(d) == Symbols(ToSextets(d));
    assert ToSextets(d) == v;
    assert Symbols(v) == t;
  }

  /** The characters of each group of sextets of `b"Hello, World!"`. */
  lemma HelloWorldGroupSymbols()
    ensures Symbols([18, 6, 21, 44]) == "SGVs" && Symbols([27, 6, 60, 44]) == "bG8s"
    ensures Symbols([8, 5, 29, 47]) == "IFdv" && Symbols([28, 38, 49, 36]) == "cmxk"
    ensures Symbols([8, 16]) == "IQ"
  {
  }

  /** The four-character pieces of the expected encoding, joined. */
  lemma HelloWorldEncodingText()
    ensures "SGVs" + "bG8s" + "IFdv" + "cmxk" + "IQ" == "SGVsbG8sIFdvcmxkIQ"
  {
  }

  /** The sextets of `b"Hello, World!"`, one group of three octets at a time. */
  lemma HelloWorldSextets()
    ensures ToSextets([0x48, 0x65, 0x6C, 0x6C, 0x6F, 0x2C, 0x20, 0x57, 0x6F, 0x72, 0x6C, 0x64, 0x21])
      == [18, 6, 21, 44] + [27, 6, 60, 44] + [8, 5, 29, 47] + [28, 38, 49, 36] + [8, 16]
  {
  }

  /** The characters of the sextets of `b"Hello, World!"`, four at a time. */
  lemma HelloWorldSymbols()
    ensures Symbols([18, 6, 21, 44] + [27, 6, 60, 44] + [8, 5, 29, 47] + [28, 38, 49, 36] + [8, 16])
      == "SGVs" + "bG8s" + "IFdv" + "cmxk" + "IQ"
  {
    var v1: seq<Sextet>, v2: seq<Sextet>, v3: seq<Sextet> := [18, 6, 21, 44], [27, 6, 60, 44], [8, 5, 29, 47];
    var v4: seq<Sextet>, v5: seq<Sextet> := [28, 38, 49, 36], [8, 16];
    HelloWorldGroupSymbols();
    SymbolsAppend(v1 + v2 + v3 + v4, v5);
    SymbolsAppend(v1 + v2 + v3, v4);
    SymbolsAppend(v1 + v2, v3);
    SymbolsAppend(v1, v2);
  }
}
