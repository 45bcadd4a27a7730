/** The request model and the guards its documentation template tests. */
module RequestModel {
  import opened Wrappers
  import opened Attributes

  /** The parts of the Header collaborator the guards look at. */
  datatype Header = Header(displayHeader: seq<string>, contentType: string)

  /** The Body collaborator, reduced to the raw text it was built from. */
  datatype Body = Body(raw: string)

  datatype Request = Request(
    header: Option<Header>,
    body: Option<Body>,
    httpMethod: string,
    attributes: seq<Attribute>)

  /** HasBody: the request carries a body. */
  predicate HasBody(r: Request)
    ensures HasBody(r) <==> r.body != None
  {
    r.body.Some?
  }

  /** HasHeader: there is a header with lines to display. */
  predicate HasHeader(r: Request)
    ensures HasHeader(r) <==> exists h :: r.header == Some(h) && h.displayHeader != []
  {
    r.header.Some? && |r.header.value.displayHeader| > 0
  }

  /** HasContentType: there is a header with a non-empty content type. */
  predicate HasContentType(r: Request)
    ensures HasContentType(r) <==> exists h :: r.header == Some(h) && h.contentType != []
  {
    r.header.Some? && |r.header.value.contentType| > 0
  }

  /** The sections the request template emits, in order. */
  datatype Section =
    | RequestHeading(contentType: Option<string>)
    | HeaderSection(header: Header)
    | AttributesSection(attributes: seq<Attribute>)
    | BodySection(body: Body)

  /** Where a section stands in the template. */
  function SectionRank(s: Section): nat
  {
    match s
    case RequestHeading(_) => 0
    case HeaderSection(_) => 1
    case AttributesSection(_) => 2
    case BodySection(_) => 3
  }

  /** The outline of the rendered request: which conditional blocks of the
      template are taken, and with what data. */
  function Outline(r: Request): (o: seq<Section>)
    ensures o == [] <==> !HasBody(r) && !HasHeader(r)
    ensures |o| <= 4
    ensures o != [] ==> o[0].RequestHeading? && forall i :: 1 <= i < |o| ==> !o[i].RequestHeading?
    ensures forall i, j :: 0 <= i < j < |o| ==> SectionRank(o[i]) < SectionRank(o[j])
  {
    if HasBody(r) || HasHeader(r) then
      [RequestHeading(if HasContentType(r) then Some(r.header.value.contentType) else None)]
      + (if r.header.Some? then [HeaderSection(r.header.value)] else [])
      + (if |r.attributes| > 0 then [AttributesSection(r.attributes)] else [])
      + (if r.body.Some? then [BodySection(r.body.value)] else [])
    else []
  }

  /** Something is rendered exactly when there is a body, or a header with
      lines to display; it then starts with the Request heading. */
  lemma RenderedIff(r: Request)
    ensures Outline(r) != [] <==> r.body.Some? || (r.header.Some? && |r.header.value.displayHeader| > 0)
    ensures Outline(r) != [] ==> Outline(r)[0].RequestHeading?
  {
  }

  /** The content type appears beside the heading exactly when something is
      rendered and the header names a non-empty content type. */
  lemma ContentTypeShownIff(r: Request, ct: string)
    ensures RequestHeading(Some(ct)) in Outline(r) <==>
      Outline(r) != [] && r.header.Some? && r.header.value.contentType == ct && ct != []
  {
  }

  /** The attributes section appears exactly when there are attributes and
      something is rendered at all: attributes alone, with no body and no
      header lines, are not shown. */
  lemma AttributesShownIff(r: Request)
    ensures AttributesSection(r.attributes) in Outline(r) <==>
      |r.attributes| > 0 && (r.body.Some? || (r.header.Some? && |r.header.value.displayHeader| > 0))
  {
  }

  /** A request without a body, header lines or attributes renders nothing. */
  lemma RenderOmission(r: Request)
    requires r.body.None? && (r.header.None? || r.header.value.displayHeader == []) && r.attributes == []
    ensures Outline(r) == []
  {
  }
}
