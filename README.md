# Request-attribute extraction of test2doc, in Dafny

test2doc records the HTTP requests a test suite makes and renders each as an
API-Blueprint "Request" section. This project models the part of
`doc/request.go` that turns a request's Content-Type header and body into an
ordered list of `Attribute` records:

- `GoStrings`: Go's `strings.Split` for a one-character separator, with its
  piece count, its round trip with `strings.Join` both ways, and the way it
  splits a concatenation.
- `Attributes`: the `Attribute` record and `attributeOf`. The schema lookup
  (`getPropertyOf`), the type classifier (`paramType`) and the value
  conversion (`ParameterValue`) are not shown in the source; they are
  function-valued fields of a `Lookups` value.
- `FormDecoder`: `parseForm`. It is an imperative method with a loop,
  `ParseForm`, proved equal to the function `DecodeForm`, with lemmas about
  that function.
- `MultipartDecoder`: `parseMultipartForm` as a loop over an abstract
  stream of parts (`ParseMultipartForm`, proved equal to `DecodeMultipart`).
- `JsonDecoder`: `parseJSON` over an abstract result of `json.Unmarshal`.
- `Dispatch`: `getAttributesOf`. It calls `mime.ParseMediaType`, the
  multipart reader and `json.Unmarshal`, which are collaborator fields of a
  `Collaborators` value. The routing is proved, and so is the fact that a
  route's result does not depend on the other routes' decoders.
- `RequestModel`: the `Request` record and the guards `HasBody`, `HasHeader`
  and `HasContentType`. They are tied to an outline of the sections that the
  request template (`requestFmt`) emits.

Every `panic` in the source is an `Err` of `ExtractionError` here. The body
is text (`string`). HTTP I/O is left out, and so are the clock, the network
and the template engine.

Three behaviours of `doc/request.go` that are easy to misread:

- A form segment is rejected only when its `=`-split does not give exactly
  two parts. So `=`, `k=` and `=v` are accepted, with an empty key or value.
- An empty Content-Type reaches `mime.ParseMediaType`, and a parse error there
  aborts extraction. It yields an empty list only if that parser accepts it
  (see `Dispatch.MediaTypeErrorAborts`).
- In the template, the attributes block is nested inside the
  `{{if or .HasBody .HasHeader}}` block. So attributes are never shown for a
  request that has no body and no header lines
  (see `RequestModel.AttributesShownIff`).

## Model

| member | source | states |
|---|---|---|
| `GoStrings.Split` | doc/request.go:81 | strings.Split always yields at least one piece (the empty string gives one empty piece) |
| `GoStrings.SplitLength` | doc/request.go:81 | the number of pieces is the number of separators plus one |
| `GoStrings.SplitPiecesFree` | doc/request.go:81 | no piece contains the separator |
| `GoStrings.JoinSplit` | doc/request.go:81 | joining the pieces with the separator gives back the input |
| `GoStrings.SplitJoin` | doc/request.go:81 | splitting a join of separator-free pieces gives back the pieces |
| `GoStrings.SplitAppend` | doc/request.go:81 | the split of `a + sep + b` is the split of `a` followed by the split of `b` |
| `GoStrings.SplitInTwo` | doc/request.go:87-88 | a split gives exactly two parts iff the separator occurs once; the parts are then the text before and after it |
| `FormDecoder.KeyValue` | doc/request.go:87-92 | a segment has a key and value iff it holds exactly one `=`; the segment is then `key=value`, with neither part containing `=` (no decoding) |
| `FormDecoder.NonEmpty` | doc/request.go:83-86 | the kept segments are exactly the non-empty ones, each as often as it occurs (the multiset of segments without the empty string) |
| `FormDecoder.NonEmptyAppend` | doc/request.go:83-86 | the kept segments of two runs are those of the first run followed by those of the second, so order is preserved |
| `FormDecoder.DecodeSegments` | doc/request.go:83-96 | the loop yields at most one attribute per segment; a failure names a non-empty segment of the input |
| `FormDecoder.DecodeForm` | doc/request.go:80-98 | at most one attribute per `&`-separated segment; a failure names a non-empty segment that holds no `&` |
| `FormDecoder.DecodeSegmentsShape` | doc/request.go:83-96 | the decode succeeds iff every non-empty segment holds exactly one `=`; it then gives one attribute per non-empty segment, in order, built from the literal key and value |
| `FormDecoder.DecodeSegmentsFirstError` | doc/request.go:87-91 | a failed decode reports the first malformed non-empty segment and returns no attributes |
| `FormDecoder.DecodeSegmentsAppend` | doc/request.go:83-96 | decoding two runs of segments gives the concatenated attributes, or the first error in document order |
| `FormDecoder.EmptyBody` | doc/request.go:81-86 | an empty body gives an empty list and no error |
| `FormDecoder.FormAppend` | doc/request.go:81-96 | the attributes of `a&b` are those of `a` followed by those of `b`, or the first error |
| `FormDecoder.EmptySegmentsIgnored` | doc/request.go:83-86 | a trailing `&` or a doubled `&&` adds no attributes |
| `FormDecoder.SinglePair` | doc/request.go:80-98 | a body `key=value` gives the one attribute of that key and value |
| `FormDecoder.TwoPairsExample` | doc/request.go:80-98 | `a=1&b=2` gives the attributes of `a`/`1` and `b`/`2`, in that order |
| `FormDecoder.MissingEqualsExample` | doc/request.go:87-91 | `a=1&b` aborts, naming segment `b` |
| `FormDecoder.EmptyKeyAndValueExample` | doc/request.go:87-94 | `=` is accepted, with an empty key and value |
| `FormDecoder.ParseForm` | doc/request.go:80-98 | the loop computes exactly the form decode of the body, including its error |
| `Attributes.AttributeOf` | doc/request.go:125-136 | the attribute is named by the key, takes description, required flag and default from the schema entry for that name, and takes its value and type from the formatted value |
| `MultipartDecoder.DecodeParts` | doc/request.go:104-121 | one attribute per part read; a failure is the read failure of a part whose payload could not be read |
| `MultipartDecoder.DecodeMultipart` | doc/request.go:100-123 | success means one attribute per part and a clean end of stream; a failure is a part read failure or a reader failure, the latter only when the stream did not end with EOF |
| `MultipartDecoder.DecodePartsShape` | doc/request.go:104-121 | reading succeeds iff every payload is read; it then gives one attribute per part, in order, holding the whole payload |
| `MultipartDecoder.MultipartShape` | doc/request.go:100-123 | the decode succeeds iff every payload is read and the stream ends with EOF; it then gives one attribute per part, in order |
| `MultipartDecoder.DecodePartsPrefixError` | doc/request.go:110-118 | once a part fails to read, the whole decode fails with that error |
| `MultipartDecoder.ParseMultipartForm` | doc/request.go:100-123 | the loop computes exactly the multipart decode of the stream, including its errors |
| `JsonDecoder.ParseJson` | doc/request.go:138-151 | an invalid body gives an empty list and no error; an object gives one attribute per top-level key in iteration order; any other value aborts |
| `Dispatch.RouteOf` | doc/request.go:69-77 | each of the three media types picks its own decoder, with multipart taking `params["boundary"]` ("" if absent); every other media type picks none |
| `Dispatch.GetAttributesOf` | doc/request.go:62-78 | extraction aborts with the media-type error exactly when the Content-Type does not parse; any other failure comes from the decoder of the parsed media type (form, multipart or JSON) |
| `Dispatch.MediaTypeErrorAborts` | doc/request.go:63-66 | a Content-Type that does not parse aborts extraction |
| `Dispatch.FormRouting` | doc/request.go:70-71 | form bodies give the form decode, independent of the multipart and JSON decoders |
| `Dispatch.MultipartRouting` | doc/request.go:72-73 | multipart bodies give the multipart decode with the boundary parameter, independent of the JSON decoder |
| `Dispatch.JsonRouting` | doc/request.go:74-75 | JSON bodies give the JSON decode, independent of the multipart reader |
| `Dispatch.OtherMediaTypes` | doc/request.go:68-77 | any other parsed media type gives an empty list, whatever the decoders would do |
| `Dispatch.InvalidJsonIsLenient` | doc/request.go:138-143 | an invalid JSON body under `application/json` gives an empty list and no error |
| `Dispatch.AttributesDescribedBySchema` | doc/request.go:125-136 | every attribute extracted, by any decoder, carries the schema's metadata for its own name |
| `RequestModel.HasBody` | doc/request.go:157-159 | holds exactly when the request has a body |
| `RequestModel.HasHeader` | doc/request.go:161-163 | holds exactly when there is a header and it has display lines |
| `RequestModel.HasContentType` | doc/request.go:165-167 | holds exactly when there is a header and its content type is non-empty |
| `RequestModel.Outline` | doc/request.go:18-26 | nothing is emitted unless `HasBody` or `HasHeader` holds; then the Request heading comes first and only once, and the header, attributes and body sections follow in the template's order, each at most once |
| `RequestModel.RenderedIff` | doc/request.go:18-26 | something is rendered iff `HasBody` or `HasHeader` holds (a body, or a header with display lines), and it starts with the Request heading |
| `RequestModel.ContentTypeShownIff` | doc/request.go:19 | the content type is shown beside the heading iff something is rendered and `HasContentType` holds for it |
| `RequestModel.AttributesShownIff` | doc/request.go:21-25 | the attributes section appears iff there are attributes and `HasBody` or `HasHeader` holds |
| `RequestModel.RenderOmission` | doc/request.go:157-167 | a request with no body, no display header lines and no attributes renders nothing |

## Left out

- `NewRequest`, `cloneBody` and `nopCloser` (doc/request.go:43-60 and the body-stream plumbing). They are I/O over `net/http` and `io`.
- The text of the rendered template, `init` and `Render` (doc/request.go:16-31, 153-155). Only the outline of which sections are emitted is modelled; the template engine is out of scope.
- `mime.ParseMediaType`, the `mime/multipart` reader and `encoding/json` parsing. They are library code and appear only as collaborator fields.
- `getPropertyOf`, `paramType`, `ParameterValue`, `NewHeader` and `NewBody`. They are not part of this model and appear only as collaborator fields or data.
- The `fmt.Sprintf("%s", val)` formatting in `attributeOf`. Form values are strings and pass through unchanged. Multipart payloads are modelled as text. JSON values arrive already formatted.
- Bytes: the body and the payloads are `string`. The `[]byte` to `string` conversion is taken as the identity.
- `JsonDecoder.ParseJson`: the order of a JSON object's attributes is the abstract iteration order of the decoded map. Go randomises that order, so the model states no ordering with respect to the document.
- `MultipartDecoder.ParseMultipartForm`: the reader is a finite list of parts followed by an end marker. A reader that never reaches EOF is not modelled.
- `Attributes.ParamType`: only the String, Number and Boolean types are named, because the classifier is not part of this model.
- The `Response` field of `Request`: its type is not part of this model.
- The distinction between Go's nil slice and an empty slice. Both are the empty sequence, and the template treats them alike.
