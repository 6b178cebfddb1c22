# get-data-url, modelled in Dafny

`get-data-url` is a small Rust library. It fetches a resource over HTTP and
turns it into a data URL (RFC 2397): `data:<media type>[;base64],<payload>`.
This project models the library's core, `src/lib.rs`:

- **`DataUrl` and `DataUrl::new`.** A record of a media type, a base64 flag and the data
  (`DataUrls.DataUrl`, `DataUrls.New`).
- **Its `Display` rendering.** `DataUrls.Render` writes `data:`, then the media type, then
  `;base64` when the flag is set, then a comma and the payload. The payload is the base64url
  encoding of the data without padding, or its percent-encoding with every octet that is not
  an ASCII letter or digit escaped as `%XX` in upper-case hexadecimal. Both encoders are
  written out: `Base64Url.Encode` and `PercentEncoding.Encode`.
- **`GetDataUrl::response_to_data_url`, `fetch` and the free function `url_to_data_url`**
  (module `Converter`). The media type comes from the `Content-Type` header, through the
  header's text form and a MIME parse. When any step fails it falls back to
  `application/octet-stream`. The record is always base64-encoded and holds the body
  unchanged. Transport errors pass through unchanged.

Each encoder has a strict decoder as its partner (`Base64Url.Decode`, `PercentEncoding.Decode`).
The text form has a partner too, a parser (`DataUrls.Parse`). The library has none of these. They
are here so the round trips can be stated and proved in both directions.

Files:

- `wrappers.dfy`: `Option` and `Result`.
- `bytes.dfy`: octets as `bv8`, and the octets of a text.
- `base64url.dfy`
- `percent_encoding.dfy`
- `data_url.dfy`
- `converter.dfy`

## Model

| member | source | states |
|---|---|---|
| DataUrls.New | src/lib.rs:22-28 | the record holds exactly the media type, data and flag it was given, whatever their order as arguments |
| DataUrls.Payload | src/lib.rs:35-40 | the payload holds no comma; with the flag set it decodes (base64url) to the data and has (4n+2)/3 characters, otherwise it percent-decodes to the data |
| DataUrls.Render | src/lib.rs:33-42 | the text starts with `data:`, and splitting the rest at its last comma gives the header (media type plus `;base64` when flagged) and the payload |
| DataUrls.SplitAtLastComma | src/lib.rs:41 | the split exists exactly when the text holds a comma; the text is header, comma, tail, and the tail holds no comma |
| DataUrls.SplitAtLastCommaOf | src/lib.rs:41 | a comma-free payload after a comma is recovered whatever the header holds, commas included |
| DataUrls.ParseRender | src/lib.rs:33-42 | reading a rendering back gives the record, unless an unflagged record's media type already ends with `;base64` |
| DataUrls.RenderParse | src/lib.rs:33-42 | every text the parser accepts is the rendering of the record it yields |
| DataUrls.RenderNotInjective | src/lib.rs:34-41 | for every media type, an unflagged empty record with `;base64` appended to its type renders exactly like the flagged empty record, although the two records differ |
| DataUrls.RenderPieces | src/lib.rs:41 | the rendering is `data:`, header, comma and payload in that order |
| DataUrls.RenderPrefix | src/lib.rs:41 | a flagged record's rendering starts with `data:`, its media type and `;base64,` |
| DataUrls.HelloWorldOctets | src/lib.rs:114 | the octets of `b"Hello, World!"` are 48 65 6C 6C 6F 2C 20 57 6F 72 6C 64 21 |
| DataUrls.HelloWorldRendering | src/lib.rs:114-121 | `DataUrl::new("text/plain", b"Hello, World!", true)` holds those fields and renders to `data:text/plain;base64,SGVsbG8sIFdvcmxkIQ` |
| Base64Url.Encode | src/lib.rs:36 | the encoding has (4n+2)/3 characters, all from the URL-safe alphabet |
| Base64Url.SymbolValueOfSymbol | src/lib.rs:36 | each of the 64 characters reads back as the sextet it encodes |
| Base64Url.EncodedLengthClosedForm | src/lib.rs:36 | 4 characters per full 3-octet group and 2 or 3 for a final partial group make (4n+2)/3 in all |
| Base64Url.JoinSplit | src/lib.rs:36 | joining the four sextets of a 3-octet group gives the group back |
| Base64Url.SplitJoin | src/lib.rs:36 | splitting the three octets joined from four sextets gives those sextets back |
| Base64Url.FromToSextets | src/lib.rs:36 | joining the sextets of any data gives the data back, partial final group included |
| Base64Url.ToFromSextets | src/lib.rs:36 | sextets that join into some data are exactly that data's sextets, so the unused low bits are zero |
| Base64Url.DecodeEncode | src/lib.rs:36 | decoding the encoding of any data gives the data |
| Base64Url.DecodeIsInverse | src/lib.rs:36 | the decoder accepts a text with result d exactly when the text is the encoding of d |
| Base64Url.EncodeHasNoPaddingOrComma | src/lib.rs:36 | the encoding never holds `=` or `,` |
| Base64Url.HelloWorldEncoding | src/lib.rs:120 | the base64url encoding of the octets of `Hello, World!` is `SGVsbG8sIFdvcmxkIQ` |
| PercentEncoding.HexValueOfDigit | src/lib.rs:39 | each upper-case hexadecimal digit reads back as its nibble |
| PercentEncoding.EncodeOctet | src/lib.rs:39 | a letter or digit octet becomes its one character; any other octet becomes `%` and two upper-case hex digits that join back into it |
| PercentEncoding.DecodeOctetEncode | src/lib.rs:39 | the first octet's encoding is read back from the front of any text, with its length |
| PercentEncoding.Encode | src/lib.rs:39 | the encoding has one character per letter or digit octet and three per other octet, each a letter, digit or `%` |
| PercentEncoding.EncodeAppend | src/lib.rs:39 | the encoding of a concatenation is the concatenation of the encodings |
| PercentEncoding.DecodeEncode | src/lib.rs:39 | decoding the encoding of any data gives the data |
| PercentEncoding.EncodeDecode | src/lib.rs:39 | a text that decodes to d is the encoding of d |
| PercentEncoding.DecodeIsInverse | src/lib.rs:39 | the decoder accepts a text with result d exactly when the text is the encoding of d |
| PercentEncoding.EncodeHasNoComma | src/lib.rs:39 | the encoding never holds `,` |
| Converter.HeaderText | src/lib.rs:86 | a header value reads as text exactly when each byte is visible ASCII or a tab, and the text has the same characters |
| Converter.HeaderTextOctets | src/lib.rs:86 | the text read from a header value is made of that value's octets |
| Converter.HeaderTextOfVisible | src/lib.rs:86 | a visible ASCII text sent as a header value reads back unchanged |
| Converter.MediaType | src/lib.rs:82-89 | the media type is the default, or the parser's output for the header's text; whenever the header is text that parses, it is that output |
| Converter.MediaTypeFallback | src/lib.rs:82-89 | the media type is `application/octet-stream` exactly when the header is missing, is not text, does not parse, or parses to that type |
| Converter.ResponseToDataUrl | src/lib.rs:78-96 | a body read failure is returned unchanged; otherwise the record is flagged base64, holds the body unchanged and carries the response's media type |
| Converter.MissingContentType | src/lib.rs:82-89 | a response without `Content-Type` becomes an `application/octet-stream` record of its body |
| Converter.Fetch | src/lib.rs:71-75 | a send failure is returned unchanged; a response is converted as `response_to_data_url` does |
| Converter.UrlToDataUrl | src/lib.rs:100-104 | fails exactly when fetching fails, with the same error; on success the text parses back to the fetched record |
| Converter.UrlToDataUrlShape | src/lib.rs:100-104 | a response with a body becomes text that starts with `data:<media type>;base64,` and parses back to the record of the body |
| Converter.FetchHelloWorld | src/lib.rs:125-142 | a `text/plain` response with body `Hello, World!` becomes the flagged `text/plain` record of that body |
| Converter.UrlToDataUrlJson | src/lib.rs:146-161 | a response labelled `application/json` becomes text starting `data:application/json;base64,` |
| Converter.InvalidUrl | src/lib.rs:164-169 | a request that cannot be sent makes both `fetch` and `url_to_data_url` fail with its error |

## Left out

- The HTTP exchange is not modelled: `reqwest::Client`, the URL and sending the request. `Fetch` and `UrlToDataUrl` take the outcome of sending as a parameter, and a response is reduced to its `Content-Type` value and the outcome of reading its body.
- `GetDataUrl::new`, `with_client` and `Default` only build or hold a client, so they have no model.
- Asynchrony and the `println!` of the response in `fetch` are not modelled.
- The `mime` crate's parser and its `to_string` are a function parameter (`Converter.MimeParser`). The crate's own grammar is not modelled. The tests-as-lemmas therefore assume that the parser maps `text/plain` and `application/json` to themselves.
- `reqwest::Error` is reduced to an opaque cause (`Converter.TransportError`).
- The `http` crate's code is not part of this model. `Converter.HeaderText` applies the same test as its `HeaderValue::to_str`: every byte is 32 to 126 or a tab.
- `Response.contentType` stands for the first `Content-Type` value only, the one `headers().get` returns. Further values of the header are not modelled, because the library never reads them.
- The mock servers in the tests are not modelled. The lemmas start from the response those servers send: `text/plain` for a string body, `application/json` for a JSON body.
- The decoders and the parser are strict partners written for the proofs, not functions of the library. They reject anything the encoders cannot produce: padding, non-zero unused bits, lower-case hex, and escapes of letters or digits.
