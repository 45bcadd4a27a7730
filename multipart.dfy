/** The multipart decoder (parseMultipartForm), over an abstract reading of
    the stream: the parts the reader yields, in order, and how the stream
    ends. */
module MultipartDecoder {
  import opened Wrappers
  import opened Attributes

  /** One part: its form field name, and its payload, or None when reading
      the payload failed. */
  datatype Part = Part(formName: string, payload: Option<string>)

  /** How NextPart behaves after the last part: io.EOF, or another error. */
  datatype StreamEnd = EndOfStream | NextPartError

  datatype PartStream = PartStream(parts: seq<Part>, end: StreamEnd)

  /** What the loop computes from the parts read so far. */
  function DecodeParts(lookups: Lookups, parts: seq<Part>): (r: Result<seq<Attribute>, ExtractionError>)
    ensures r.Ok? ==> |r.value| == |parts|
    ensures r.Err? ==> r.error.PartReadFailed? && exists i :: 0 <= i < |parts| && parts[i] == Part(r.error.formName, None)
  {
    if parts == [] then Ok([])
    else
      var last := parts[|parts| - 1];
      match DecodeParts(lookups, parts[..|parts| - 1])
      case Err(e) => Err(e)
      case Ok(attrs) =>
        match last.payload
        case None => Err(PartReadFailed(last.formName))
        case Some(s) => Ok(attrs + [AttributeOf(lookups, last.formName, s)])
  }

  /** parseMultipartForm as a value: every part read, then a clean end. */
  function DecodeMultipart(lookups: Lookups, stream: PartStream): (r: Result<seq<Attribute>, ExtractionError>)
    ensures r.Ok? ==> |r.value| == |stream.parts| && stream.end == EndOfStream
    ensures r.Err? ==> r.error == NextPartFailed || r.error.PartReadFailed?
    ensures r == Err(NextPartFailed) ==> stream.end.NextPartError?
  {
    match DecodeParts(lookups, stream.parts)
    case Err(e) => Err(e)
    case Ok(attrs) => if stream.end == EndOfStream then Ok(attrs) else Err(NextPartFailed)
  }

  /** Every payload was read. */
  predicate AllRead(parts: seq<Part>)
  {
    forall i :: 0 <= i < |parts| ==> parts[i].payload.Some?
  }

  /** Reading the parts succeeds exactly when every payload was read; then
      there is one attribute per part, in the parts' order, named by the
      part's form name and valued by its whole payload. */
  lemma {:induction false} DecodePartsShape(lookups: Lookups, parts: seq<Part>)
    ensures DecodeParts(lookups, parts).Ok? <==> AllRead(parts)
    ensures DecodeParts(lookups, parts).Ok? ==>
      var attrs := DecodeParts(lookups, parts).value;
      |attrs| == |parts| &&
      forall i :: 0 <= i < |parts| ==>
        attrs[i] == AttributeOf(lookups, parts[i].formName, parts[i].payload.value)
  {
    if parts != [] {
      var init := parts[..|parts| - 1];
      DecodePartsShape(lookups, init);
      assert AllRead(parts) <==> AllRead(init) && parts[|parts| - 1].payload.Some? by {
        if AllRead(init) && parts[|parts| - 1].payload.Some? {
          forall i | 0 <= i < |parts| ensures parts[i].payload.Some? {
            if i < |init| { assert parts[i] == init[i]; }
          }
        }
        if AllRead(parts) {
          forall i | 0 <= i < |init| ensures init[i].payload.Some? {
            assert init[i] == parts[i];
          }
        }
      }
    }
  }

  /** The whole decode succeeds exactly when every payload was read and the
      stream ended cleanly; it then yields one attribute per part, in order. */
  lemma {:induction false} MultipartShape(lookups: Lookups, stream: PartStream)
    ensures DecodeMultipart(lookups, stream).Ok? <==> AllRead(stream.parts) && stream.end == EndOfStream
    ensures DecodeMultipart(lookups, stream).Ok? ==>
      var attrs := DecodeMultipart(lookups, stream).value;
      |attrs| == |stream.parts| &&
      forall i :: 0 <= i < |attrs| ==>
        attrs[i] == AttributeOf(lookups, stream.parts[i].formName, stream.parts[i].payload.value)
  {
    DecodePartsShape(lookups, stream.parts);
  }

  /** Once a prefix of the parts fails, the decode fails with the same error. */
  lemma {:induction false} DecodePartsPrefixError(lookups: Lookups, parts: seq<Part>, k: nat)
    requires k <= |parts| && DecodeParts(lookups, parts[..k]).Err?
    ensures DecodeParts(lookups, parts) == DecodeParts(lookups, parts[..k])
  {
    if k < |parts| {
      var init := parts[..|parts| - 1];
      assert init[..k] == parts[..k];
      DecodePartsPrefixError(lookups, init, k);
    } else {
      assert parts[..k] == parts;
    }
  }

  /** parseMultipartForm: read parts until the reader reports the end. */
  method ParseMultipartForm(lookups: Lookups, stream: PartStream) returns (r: Result<seq<Attribute>, ExtractionError>)
    ensures r == DecodeMultipart(lookups, stream)
  {
    var attrs: seq<Attribute> := [];
    var i := 0;
    while i < |stream.parts|
      invariant 0 <= i <= |stream.parts|
      invariant DecodeParts(lookups, stream.parts[..i]) == Ok(attrs)
    {
      var part := stream.parts[i];
      assert stream.parts[..i + 1][..i] == stream.parts[..i];
      if part.payload.None? {
        DecodePartsPrefixError(lookups, stream.parts, i + 1);
        return Err(PartReadFailed(part.formName));
      }
      attrs := attrs + [AttributeOf(lookups, part.formName, part.payload.value)];
      i := i + 1;
    }
    assert stream.parts[..i] == stream.parts;
    if stream.end == NextPartError {
      return Err(NextPartFailed);
    }
    return Ok(attrs);
  }
}
