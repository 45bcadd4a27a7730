/** The JSON decoder (parseJSON), over an abstract result of json.Unmarshal. */
module JsonDecoder {
  import opened Wrappers
  import opened Attributes

  /** What json.Unmarshal makes of a body: not JSON at all, an object (its
      top-level keys with their values already formatted as text, in the
      order the map is iterated), or some other JSON value. */
  datatype JsonDocument =
    | NotJson
    | TopLevelObject(entries: seq<(string, string)>)
    | TopLevelOther

  /** parseJSON: an invalid body gives no attributes and no error; an object
      gives one attribute per key; any other value fails the type assertion. */
  function ParseJson(lookups: Lookups, doc: JsonDocument): (r: Result<seq<Attribute>, ExtractionError>)
    ensures doc.NotJson? ==> r == Ok([])
    ensures doc.TopLevelOther? ==> r == Err(JsonNotObject)
    ensures doc.TopLevelObject? ==>
      r.Ok? && |r.value| == |doc.entries| &&
      forall i :: 0 <= i < |doc.entries| ==>
        r.value[i] == AttributeOf(lookups, doc.entries[i].0, doc.entries[i].1)
  {
    match doc
    case NotJson => Ok([])
    case TopLevelOther => Err(JsonNotObject)
    case TopLevelObject(entries) =>
      Ok(seq(|entries|, i requires 0 <= i < |entries| => AttributeOf(lookups, entries[i].0, entries[i].1)))
  }
}
