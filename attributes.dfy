/** The Attribute record and its construction from one decoded key and
    value (attributeOf). The schema lookup, the type classifier and the
    value conversion are collaborators the model does not define; they are
    passed in as a `Lookups` value. */
module Attributes {

  /** Scalar type inferred for an attribute's value. */
  datatype ParamType = String | Number | Boolean

  /** What the schema lookup (getPropertyOf) returns for a field name. */
  datatype Property = Property(description: string, isRequired: bool, defaultValue: string)

  /** The external collaborators of attributeOf. */
  datatype Lookups = Lookups(
    propertyOf: string -> Property,
    paramType: string -> ParamType,
    parameterValue: string -> string)

  datatype Attribute = Attribute(
    name: string,
    description: string,
    value: string,
    paramType: ParamType,
    isRequired: bool,
    defaultValue: string)

  /** Why attribute extraction aborted; each case is a panic in the source. */
  datatype ExtractionError =
    | InvalidMediaType(contentType: string)   // mime.ParseMediaType failed
    | InvalidFormat(pair: string)             // a form segment without exactly one '='
    | NextPartFailed                          // the multipart reader failed between parts
    | PartReadFailed(formName: string)        // reading one part's payload failed
    | JsonNotObject                           // the JSON document is not an object

  /** The attribute's metadata is the schema's entry for its name. */
  predicate DescribedBySchema(lookups: Lookups, a: Attribute)
  {
    var p := lookups.propertyOf(a.name);
    a.description == p.description && a.isRequired == p.isRequired && a.defaultValue == p.defaultValue
  }

  /** attributeOf(key, val), with `s` the value already formatted as text. */
  function AttributeOf(lookups: Lookups, key: string, s: string): (a: Attribute)
    ensures a.name == key
    ensures DescribedBySchema(lookups, a)
    ensures a.value == lookups.parameterValue(s) && a.paramType == lookups.paramType(s)
  {
    var p := lookups.propertyOf(key);
    Attribute(key, p.description, lookups.parameterValue(s), lookups.paramType(s), p.isRequired, p.defaultValue)
  }
}
