/** The content-type dispatcher (getAttributesOf): the Content-Type header
    is parsed into a media type and parameters, and the body goes to the
    decoder for that media type. */
module Dispatch {
  import opened Wrappers
  import opened Attributes
  import opened FormDecoder
  import opened MultipartDecoder
  import opened JsonDecoder
  import GoStrings

  const FormUrlEncoded: string := "application/x-www-form-urlencoded"
  const MultipartFormData: string := "multipart/form-data"
  const ApplicationJson: string := "application/json"

  /** A parsed Content-Type: the media type and its parameters. */
  datatype MediaType = MediaType(mediaType: string, params: map<string, string>)

  /** The collaborators attribute extraction calls and the model does not
      define: mime.ParseMediaType (None is a parse error), the multipart
      reader and json.Unmarshal. */
  datatype Collaborators = Collaborators(
    lookups: Lookups,
    parseMediaType: string -> Option<MediaType>,
    readParts: (string, string) -> PartStream,
    unmarshal: string -> JsonDocument)

  /** The decoders a media type can be sent to. */
  datatype Route = FormRoute | MultipartRoute(boundary: string) | JsonRoute | NoRoute

  /** params["boundary"], which is "" when there is no such parameter. */
  function Boundary(params: map<string, string>): string
  {
    if "boundary" in params then params["boundary"] else ""
  }

  /** The switch on the media type: an exact match on one of three strings. */
  function RouteOf(m: MediaType): (r: Route)
    ensures r == FormRoute <==> m.mediaType == FormUrlEncoded
    ensures r.MultipartRoute? <==> m.mediaType == MultipartFormData
    ensures r.MultipartRoute? ==> r.boundary == Boundary(m.params)
    ensures r == JsonRoute <==> m.mediaType == ApplicationJson
    ensures r == NoRoute <==> m.mediaType != FormUrlEncoded && m.mediaType != MultipartFormData && m.mediaType != ApplicationJson
  {
    if m.mediaType == FormUrlEncoded then FormRoute
    else if m.mediaType == MultipartFormData then MultipartRoute(Boundary(m.params))
    else if m.mediaType == ApplicationJson then JsonRoute
    else NoRoute
  }

  /** Runs the one decoder a route names. */
  function RunRoute(env: Collaborators, route: Route, body: string): Result<seq<Attribute>, ExtractionError>
  {
    match route
    case FormRoute => DecodeForm(env.lookups, body)
    case MultipartRoute(boundary) => DecodeMultipart(env.lookups, env.readParts(boundary, body))
    case JsonRoute => ParseJson(env.lookups, env.unmarshal(body))
    case NoRoute => Ok([])
  }

  /** getAttributesOf(contentType, body). */
  function GetAttributesOf(env: Collaborators, contentType: string, body: string): (r: Result<seq<Attribute>, ExtractionError>)
    ensures r == Err(InvalidMediaType(contentType)) <==> env.parseMediaType(contentType).None?
    ensures r.Err? && r.error.InvalidFormat? ==> RouteOf(env.parseMediaType(contentType).value) == FormRoute
    ensures r.Err? && (r.error.NextPartFailed? || r.error.PartReadFailed?) ==>
      RouteOf(env.parseMediaType(contentType).value).MultipartRoute?
    ensures r == Err(JsonNotObject) ==> RouteOf(env.parseMediaType(contentType).value) == JsonRoute
  {
    match env.parseMediaType(contentType)
    case None => Err(InvalidMediaType(contentType))
    case Some(m) => RunRoute(env, RouteOf(m), body)
  }

  /** A Content-Type that does not parse aborts extraction (the empty string
      among them, when the parser rejects it). */
  lemma MediaTypeErrorAborts(env: Collaborators, contentType: string, body: string)
    requires env.parseMediaType(contentType).None?
    ensures GetAttributesOf(env, contentType, body) == Err(InvalidMediaType(contentType))
  {
  }

  /** A form body goes to the form decoder only: neither the multipart reader
      nor json.Unmarshal affects the result. */
  lemma FormRouting(env: Collaborators, contentType: string, body: string,
                    readParts: (string, string) -> PartStream, unmarshal: string -> JsonDocument)
    requires env.parseMediaType(contentType).Some?
    requires env.parseMediaType(contentType).value.mediaType == FormUrlEncoded
    ensures GetAttributesOf(env, contentType, body) == DecodeForm(env.lookups, body)
    ensures GetAttributesOf(env.(readParts := readParts, unmarshal := unmarshal), contentType, body)
         == GetAttributesOf(env, contentType, body)
  {
  }

  /** A multipart body goes to the multipart decoder only, with the boundary
      parameter. */
  lemma MultipartRouting(env: Collaborators, contentType: string, body: string, unmarshal: string -> JsonDocument)
    requires env.parseMediaType(contentType).Some?
    requires env.parseMediaType(contentType).value.mediaType == MultipartFormData
    ensures GetAttributesOf(env, contentType, body)
         == DecodeMultipart(env.lookups, env.readParts(Boundary(env.parseMediaType(contentType).value.params), body))
    ensures GetAttributesOf(env.(unmarshal := unmarshal), contentType, body) == GetAttributesOf(env, contentType, body)
  {
  }

  /** A JSON body goes to the JSON decoder only. */
  lemma JsonRouting(env: Collaborators, contentType: string, body: string, readParts: (string, string) -> PartStream)
    requires env.parseMediaType(contentType).Some?
    requires env.parseMediaType(contentType).value.mediaType == ApplicationJson
    ensures GetAttributesOf(env, contentType, body) == ParseJson(env.lookups, env.unmarshal(body))
    ensures GetAttributesOf(env.(readParts := readParts), contentType, body) == GetAttributesOf(env, contentType, body)
  {
  }

  /** Any other media type gives no attributes, whatever the decoders would do. */
  lemma OtherMediaTypes(env: Collaborators, contentType: string, body: string,
                        readParts: (string, string) -> PartStream, unmarshal: string -> JsonDocument)
    requires env.parseMediaType(contentType).Some?
    requires env.parseMediaType(contentType).value.mediaType !in {FormUrlEncoded, MultipartFormData, ApplicationJson}
    ensures GetAttributesOf(env, contentType, body) == Ok([])
    ensures GetAttributesOf(env.(readParts := readParts, unmarshal := unmarshal), contentType, body) == Ok([])
  {
  }

  /** Invalid JSON under application/json gives no attributes and no error. */
  lemma InvalidJsonIsLenient(env: Collaborators, contentType: string, body: string)
    requires env.parseMediaType(contentType).Some?
    requires env.parseMediaType(contentType).value.mediaType == ApplicationJson
    requires env.unmarshal(body).NotJson?
    ensures GetAttributesOf(env, contentType, body) == Ok([])
  {
  }

  /** Whichever decoder ran, every attribute it produced carries the schema's
      description, required flag and default for its own name. */
  lemma {:induction false} AttributesDescribedBySchema(env: Collaborators, contentType: string, body: string)
    requires GetAttributesOf(env, contentType, body).Ok?
    ensures forall a :: a in GetAttributesOf(env, contentType, body).value ==> DescribedBySchema(env.lookups, a)
  {
    var m := env.parseMediaType(contentType).value;
    match RouteOf(m)
    case FormRoute =>
      DecodeSegmentsShape(env.lookups, GoStrings.Split(body, '&'));
    case MultipartRoute(boundary) =>
      MultipartShape(env.lookups, env.readParts(boundary, body));
    case JsonRoute =>
    case NoRoute =>
  }
}
