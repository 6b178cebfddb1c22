/**
 * The `DataUrl` record and its text form, `data:<media type>[;base64],<payload>`
 * (section 3 of RFC 2397). The payload is the base64url encoding of the data
 * when the record says so, and its percent-encoding otherwise. Neither the
 * media type nor anything else is validated: the record holds whatever it
 * was given.
 */
module DataUrls {
  import opened Wrappers
  import opened Bytes
  import Base64Url
  import PercentEncoding

  datatype DataUrl = DataUrl(mediaType: string, base64Encoded: bool, data: seq<uint8>)

  const Scheme: string := "data:"
  const Base64Marker: string := ";base64"

  /** `DataUrl::new`: note the argument order, which differs from the field order. */
  function New(mediaType: string, data: seq<uint8>, base64Encoded: bool): (u: DataUrl)
    ensures u.mediaType == mediaType && u.data == data && u.base64Encoded == base64Encoded
  {
    DataUrl(mediaType, base64Encoded, data)
  }

  /** The text between `data:` and the comma: the media type and the optional `;base64`. */
  function Header(u: DataUrl): string {
    u.mediaType + (if u.base64Encoded then Base64Marker else "")
  }

  /** The text after the comma: the data, encoded as the record's flag selects. */
  function Payload(u: DataUrl): (p: string)
    ensures ',' !in p
    ensures u.base64Encoded ==> Base64Url.Decode(p) == Some(u.data) && |p| == (4 * |u.data| + 2) / 3
    ensures !u.base64Encoded ==> PercentEncoding.Decode(p) == Some(u.data)
  {
    if u.base64Encoded then
      Base64Url.DecodeEncode(u.data);
      Base64Url.EncodeHasNoPaddingOrComma(u.data);
      Base64Url.Encode(u.data)
    else
      PercentEncoding.DecodeEncode(u.data);
      PercentEncoding.EncodeHasNoComma(u.data);
      PercentEncoding.Encode(u.data)
  }

  /**
   * `impl Display for DataUrl`. The text starts with `data:`, and the part
   * after the LAST comma is exactly the payload, because no payload holds a
   * comma; the media type itself may hold commas.
   */
  function Render(u: DataUrl): (s: string)
    ensures |Scheme| <= |s| && s[..|Scheme|] == Scheme
    ensures SplitAtLastComma(s[|Scheme|..]) == Some((Header(u), Payload(u)))
  {
    var rest := Header(u) + "," + Payload(u);
    SplitAtLastCommaOf(Header(u), Payload(u));
    SplitAppend(Scheme, rest);
    Scheme + rest
  }

  /** The two halves of a concatenation, sliced back out. */
  lemma SplitAppend(a: string, b: string)
    ensures (a + b)[..|a|] == a && (a + b)[|a|..] == b
  {
  }

  /** Splits a text at its last comma, or None when it holds no comma. */
  function SplitAtLastComma(s: string): (r: Option<(string, string)>)
    ensures r.None? <==> ',' !in s
    ensures r.Some? ==> s == r.value.0 + "," + r.value.1 && ',' !in r.value.1
    decreases |s|
  {
    if |s| == 0 then None
    else if s[|s| - 1] == ',' then Some((s[..|s| - 1], ""))
    else
      match SplitAtLastComma(s[..|s| - 1])
      case None => None
      case Some((h, p)) =>
        assert s == s[..|s| - 1] + [s[|s| - 1]];
        Some((h, p + [s[|s| - 1]]))
  }

  /** Whatever precedes it, a comma-free tail after a comma is what SplitAtLastComma returns. */
  lemma {:induction false} SplitAtLastCommaOf(h: string, p: string)
    requires ',' !in p
    ensures SplitAtLastComma(h + "," + p) == Some((h, p))
    decreases |p|
  {
    var s := h + "," + p;
    if |p| == 0 {
      assert s[..|s| - 1] == h;
    } else {
      var p' := p[..|p| - 1];
      assert s[..|s| - 1] == h + "," + p';
      SplitAtLastCommaOf(h, p');
      assert p == p' + [p[|p| - 1]];
    }
  }

  /** The header ends with `;base64`. */
  predicate HasBase64Marker(header: string) {
    |header| >= |Base64Marker| && header[|header| - |Base64Marker|..] == Base64Marker
  }

  /**
   * Reads a data URL back as Render writes it: `data:`, a header up to the
   * last comma, and a payload that must be the strict base64url encoding
   * when the header ends with `;base64` and the strict percent-encoding
   * otherwise.
   */
  function Parse(s: string): (r: Option<DataUrl>)
  {
    if |s| < |Scheme| || s[..|Scheme|] != Scheme then None
    else
      match SplitAtLastComma(s[|Scheme|..])
      case None => None
      case Some((header, payload)) =>
        if HasBase64Marker(header) then
          match Base64Url.Decode(payload)
          case None => None
          case Some(d) => Some(DataUrl(header[..|header| - |Base64Marker|], true, d))
        else
          match PercentEncoding.Decode(payload)
          case None => None
          case Some(d) => Some(DataUrl(header, false, d))
  }

  /**
   * A rendering reads back as the record it came from, unless the record is
   * not base64-encoded and its media type already ends with `;base64`.
   */
  lemma ParseRender(u: DataUrl)
    requires u.base64Encoded || !HasBase64Marker(u.mediaType)
    ensures Parse(Render(u)) == Some(u)
  {
    var s := Render(u);
    var h, p := Header(u), Payload(u);
    assert SplitAtLastComma(s[|Scheme|..]) == Some((h, p));
    if u.base64Encoded {
      assert h == u.mediaType + Base64Marker;
      assert h[..|h| - |Base64Marker|] == u.mediaType;
      assert HasBase64Marker(h) by {
        assert h[|h| - |Base64Marker|..] == Base64Marker;
      }
      assert Base64Url.Decode(p) == Some(u.data);
    } else {
      assert h == u.mediaType;
      assert PercentEncoding.Decode(p) == Some(u.data);
    }
  }

  /** Every text Parse accepts is the rendering of what it returns. */
  lemma RenderParse(s: string)
    requires Parse(s).Some?
    ensures Render(Parse(s).value) == s
  {
    var u := Parse(s).value;
    var (header, payload) := SplitAtLastComma(s[|Scheme|..]).value;
    if HasBase64Marker(header) {
      Base64Url.DecodeIsInverse(payload, u.data);
      assert header == u.mediaType + Base64Marker;
    } else {
      PercentEncoding.DecodeIsInverse(payload, u.data);
    }
    assert Header(u) == header && Payload(u) == payload;
    assert s == s[..|Scheme|] + s[|Scheme|..];
  }

  /**
   * Because the media type is not validated, two different records can
   * render alike: a percent-encoded record whose media type ends with
   * `;base64` reads exactly like a base64 one.
   */
  lemma RenderNotInjective(mediaType: string)
    ensures DataUrl(mediaType + Base64Marker, false, []) != DataUrl(mediaType, true, [])
    ensures Render(DataUrl(mediaType + Base64Marker, false, [])) == Render(DataUrl(mediaType, true, []))
  {
    var u, w := DataUrl(mediaType + Base64Marker, false, []), DataUrl(mediaType, true, []);
    assert Payload(u) == "" == Payload(w);
    assert Header(u) == Header(w);
  }

  /**
   * The record built by `DataUrl::new` in the crate's own test, and the text
   * it renders to. The record is a parameter pinned by the precondition, not
   * a literal in the postcondition, so that the verifier does not unfold
   * Render on a literal argument.
   */
  lemma HelloWorldRendering(u: DataUrl)
    requires u == New("text/plain", BytesOf("Hello, World!"), true)
    ensures u.mediaType == "text/plain" && u.base64Encoded
    ensures u.data == [0x48, 0x65, 0x6C, 0x6C, 0x6F, 0x2C, 0x20, 0x57, 0x6F, 0x72, 0x6C, 0x64, 0x21]
    ensures Render(u) == "data:text/plain;base64,SGVsbG8sIFdvcmxkIQ"
  {
    HelloWorldOctets();
    Base64Url.HelloWorldEncoding(u.data);
    var h, p := Header(u), Payload(u);
    assert h == "text/plain" + ";base64";
    RenderPieces(u);
    HelloWorldRenderingText(h, p);
  }

  /** The rendering is the scheme, the header, a comma and the payload, in that order. */
  lemma RenderPieces(u: DataUrl)
    ensures Render(u) == Scheme + Header(u) + "," + Payload(u)
  {
  }

  /** The rendering of a base64 record starts with `data:`, its media type and `;base64,`. */
  lemma RenderPrefix(u: DataUrl)
    requires u.base64Encoded
    ensures var prefix := Scheme + u.mediaType + Base64Marker + ",";
      |prefix| <= |Render(u)| && Render(u)[..|prefix|] == prefix
  {
    RenderPieces(u);
    var prefix := Scheme + u.mediaType + Base64Marker + ",";
    assert Header(u) == u.mediaType + Base64Marker;
    assert Scheme + Header(u) + "," == prefix;
    assert Render(u) == prefix + Payload(u);
    SplitAppend(prefix, Payload(u));
  }

  /** The pieces of the expected rendering, joined. */
  lemma HelloWorldRenderingText(h: string, p: string)
    requires h == "text/plain" + ";base64" && p == "SGVsbG8sIFdvcmxkIQ"
    ensures Scheme + h + "," + p == "data:text/plain;base64,SGVsbG8sIFdvcmxkIQ"
  {
  }

  /** The octets of the byte string `b"Hello, World!"`. */
  lemma HelloWorldOctets()
    ensures BytesOf("Hello, World!") == [0x48, 0x65, 0x6C, 0x6C, 0x6F, 0x2C, 0x20, 0x57, 0x6F, 0x72, 0x6C, 0x64, 0x21]
  {
    var d := BytesOf("Hello, World!");
    assert d[0] as int == 0x48 && d[1] as int == 0x65 && d[2] as int == 0x6C && d[3] as int == 0x6C;
    assert d[4] as int == 0x6F && d[5] as int == 0x2C && d[6] as int == 0x20 && d[7] as int == 0x57;
    assert d[8] as int == 0x6F && d[9] as int == 0x72 && d[10] as int == 0x6C && d[11] as int == 0x64;
    assert d[12] as int == 0x21;
  }
}
