/**
 * `GetDataUrl`: turns an HTTP response into a base64 `DataUrl`. The HTTP
 * exchange itself is outside the model: a response is reduced to its raw
 * `Content-Type` header value and the outcome of reading its body, the
 * outcome of sending a request is a `Result`, and MIME parsing (with its
 * normalising `to_string`) is a function the caller supplies.
 */
module Converter {
  import opened Wrappers
  import opened Bytes
  import opened DataUrls

  /** Stands for the HTTP client's error: a failed send or a failed body read. */
  datatype TransportError = TransportError(cause: string)

  /** What the converter reads of a response: the raw `Content-Type` value, if any, and the body. */
  datatype Response = Response(contentType: Option<seq<uint8>>, body: Result<seq<uint8>, TransportError>)

  /** Parses a text as a MIME type and prints it back in its normal form, or None when it is no MIME type. */
  type MimeParser = string -> Option<string>

  /** The media type used when the response has no usable `Content-Type`. */
  const DefaultMediaType: string := "application/octet-stream"

  /** A byte a header value may hold to be read as text: visible ASCII or a tab. */
  predicate IsVisibleAscii(b: uint8) {
    b == 9 || (32 <= b && b <= 126)
  }

  /** The same test on a character. */
  predicate IsVisibleChar(c: char) {
    c == '\t' || (' ' <= c && c <= '~')
  }

  /** A header value's bytes as text, or None when one of them is not visible ASCII. */
  function HeaderText(v: seq<uint8>): (r: Option<string>)
    ensures r.Some? <==> forall i :: 0 <= i < |v| ==> IsVisibleAscii(v[i])
    ensures r.Some? ==> |r.value| == |v| && forall i :: 0 <= i < |v| ==> r.value[i] as int == v[i] as int
  {
    if |v| == 0 then Some("")
    else if !IsVisibleAscii(v[0]) then None
    else
      match HeaderText(v[1..])
      case None =>
        assert exists i :: 1 <= i < |v| && !IsVisibleAscii(v[i]) by {
          var j :| 0 <= j < |v[1..]| && !IsVisibleAscii(v[1..][j]);
          assert v[j + 1] == v[1..][j];
        }
        None
      case Some(t) =>
        assert forall i :: 1 <= i < |v| ==> v[i] == v[1..][i - 1];
        Some([(v[0] as int) as char] + t)
  }

  /** Header text read back: a value that reads as text is the octets of that text. */
  lemma HeaderTextOctets(v: seq<uint8>)
    requires HeaderText(v).Some?
    ensures IsOctetString(HeaderText(v).value) && BytesOf(HeaderText(v).value) == v
  {
  }

  /** And the other way: a visible text sent as a header value reads back unchanged. */
  lemma HeaderTextOfVisible(s: string)
    requires forall i :: 0 <= i < |s| ==> IsVisibleChar(s[i])
    ensures IsOctetString(s) && HeaderText(BytesOf(s)) == Some(s)
  {
    var v := BytesOf(s);
    assert forall i :: 0 <= i < |v| ==> IsVisibleAscii(v[i]) by {
      forall i | 0 <= i < |v|
        ensures IsVisibleAscii(v[i])
      {
        assert IsVisibleChar(s[i]);
        assert v[i] as int == s[i] as int;
      }
    }
    var t := HeaderText(v).value;
    assert forall i :: 0 <= i < |s| ==> t[i] == s[i] by {
      forall i | 0 <= i < |s|
        ensures t[i] == s[i]
      {
        assert t[i] as int == v[i] as int == s[i] as int;
      }
    }
    assert t == s;
  }

  /**
   * The media type of a response: its `Content-Type` read as text, parsed
   * and printed back, or DefaultMediaType when the header is missing, is
   * not text, or does not parse.
   */
  function MediaType(parse: MimeParser, contentType: Option<seq<uint8>>): (m: string)
    ensures m == DefaultMediaType || (contentType.Some? && HeaderText(contentType.value).Some? && parse(HeaderText(contentType.value).value) == Some(m))
    ensures contentType.Some? && HeaderText(contentType.value).Some? && parse(HeaderText(contentType.value).value).Some? ==> m == parse(HeaderText(contentType.value).value).value
  {
    match contentType
    case None => DefaultMediaType
    case Some(v) =>
      match HeaderText(v)
      case None => DefaultMediaType
      case Some(t) => parse(t).GetOr(DefaultMediaType)
  }

  /**
   * The media type is the default exactly when there is no header, no text
   * in it, no MIME type in the text, or a MIME type that is the default itself.
   */
  lemma MediaTypeFallback(parse: MimeParser, contentType: Option<seq<uint8>>)
    ensures MediaType(parse, contentType) == DefaultMediaType
        <==> || contentType.None?
             || HeaderText(contentType.value).None?
             || parse(HeaderText(contentType.value).value) in {None, Some(DefaultMediaType)}
  {
  }

  /**
   * `response_to_data_url`: a failed body read is passed on unchanged;
   * otherwise the record is base64-encoded, holds the body as it came and
   * carries the response's media type.
   */
  function ResponseToDataUrl(parse: MimeParser, response: Response): (r: Result<DataUrl, TransportError>)
    ensures r.Failure? <==> response.body.Failure?
    ensures r.Failure? ==> r.error == response.body.error
    ensures r.Success? ==> r.value.base64Encoded && r.value.data == response.body.value
    ensures r.Success? ==> r.value.mediaType == MediaType(parse, response.contentType)
  {
    var mediaType := MediaType(parse, response.contentType);
    match response.body
    case Failure(e) => Failure(e)
    case Success(bytes) => Success(New(mediaType, bytes, true))
  }

  /** `fetch`: the outcome of sending the request, then the response's conversion. */
  function Fetch(parse: MimeParser, sent: Result<Response, TransportError>): (r: Result<DataUrl, TransportError>)
    ensures sent.Failure? ==> r == Failure(sent.error)
    ensures sent.Success? ==> r == ResponseToDataUrl(parse, sent.value)
  {
    match sent
    case Failure(e) => Failure(e)
    case Success(response) => ResponseToDataUrl(parse, response)
  }

  /** `url_to_data_url`: the fetched record, rendered. */
  function UrlToDataUrl(parse: MimeParser, sent: Result<Response, TransportError>): (r: Result<string, TransportError>)
    ensures r.Failure? <==> Fetch(parse, sent).Failure?
    ensures r.Failure? ==> r.error == Fetch(parse, sent).error
    ensures r.Success? ==> Parse(r.value) == Some(Fetch(parse, sent).value)
  {
    match Fetch(parse, sent)
    case Failure(e) => Failure(e)
    case Success(u) =>
      ParseRender(u);
      Success(Render(u))
  }

  /**
   * What a successful conversion renders to: `data:`, the media type,
   * `;base64,` and a payload that decodes to the body.
   */
  lemma UrlToDataUrlShape(parse: MimeParser, response: Response)
    requires response.body.Success?
    ensures var r := UrlToDataUrl(parse, Success(response));
      var prefix := Scheme + MediaType(parse, response.contentType) + Base64Marker + ",";
      && r.Success?
      && |prefix| <= |r.value| && r.value[..|prefix|] == prefix
      && Parse(r.value) == Some(DataUrl(MediaType(parse, response.contentType), true, response.body.value))
  {
    var u := ResponseToDataUrl(parse, response).value;
    RenderPrefix(u);
  }

  /** A response without `Content-Type` becomes `application/octet-stream`. */
  lemma MissingContentType(parse: MimeParser, body: seq<uint8>)
    ensures ResponseToDataUrl(parse, Response(None, Success(body))) == Success(DataUrl(DefaultMediaType, true, body))
  {
  }

  /**
   * The crate's fetch test: a `text/plain` response carrying `Hello, World!`
   * becomes that body under `text/plain`, base64-encoded. The response is a
   * parameter pinned by the precondition, so that the verifier does not
   * unfold Fetch on a literal argument.
   */
  lemma FetchHelloWorld(parse: MimeParser, response: Response)
    requires parse("text/plain") == Some("text/plain")
    requires response == Response(Some(BytesOf("text/plain")), Success(BytesOf("Hello, World!")))
    ensures Fetch(parse, Success(response)) == Success(DataUrl("text/plain", true, BytesOf("Hello, World!")))
  {
    HeaderTextOfVisible("text/plain");
  }

  /** The crate's convenience test: a JSON response renders to text starting `data:application/json;base64,`. */
  lemma UrlToDataUrlJson(parse: MimeParser, response: Response)
    requires parse("application/json") == Some("application/json")
    requires response.contentType == Some(BytesOf("application/json")) && response.body.Success?
    ensures UrlToDataUrl(parse, Success(response)).Success?
    ensures var s := UrlToDataUrl(parse, Success(response)).value;
      |"data:application/json;base64,"| <= |s| && s[..|"data:application/json;base64,"|] == "data:application/json;base64,"
  {
    HeaderTextOfVisible("application/json");
    UrlToDataUrlShape(parse, response);
    JsonPrefixText(MediaType(parse, response.contentType));
  }

  /** The pieces of the expected prefix, joined. */
  lemma JsonPrefixText(m: string)
    requires m == "application/json"
    ensures Scheme + m + Base64Marker + "," == "data:application/json;base64,"
  {
  }

  /** The crate's invalid-URL test: a request that cannot be sent yields its error. */
  lemma InvalidUrl(parse: MimeParser, e: TransportError)
    ensures Fetch(parse, Failure(e)) == Failure(e)
    ensures UrlToDataUrl(parse, Failure(e)) == Failure(e)
  {
  }
}
