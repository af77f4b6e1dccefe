/**
 * Body trees on their way through gRPC: `transformMultipartToProto` and `transformPartToProto`
 * (internal/smtp-proxy/grpc.go:65-109) and the way back (internal/grpcservers/mailer.go:183-252).
 */
module ProtoConversion {
  import opened Bytes
  import opened MailTypes
  import opened PartPrinter
  import opened ProtoTypes

  datatype ConversionError =
    | UnsupportedPart
    | NilBody
    | NilHeader
    | InvalidKey
    | UnknownContent

  // ----- to proto

  function TypePointer(contentType: ContentType): Option<ContentType> {
    if contentType.raw == "" then None else Some(contentType)
  }

  function PbHeaders(headers: seq<Header>): seq<Option<Header>> {
    seq(|headers|, i requires 0 <= i < |headers| => Some(headers[i]))
  }

  function PbOfContent(p: Part): PbContent
    requires Complete(p)
    decreases p, 1
  {
    match p
    case Text(text) => PbContentText(text)
    case Binary(data) => PbContentBytes(data)
    case Multipart(_) => PbNested(Some(PbOfMultipart(p)))
  }

  function PbOfMultipart(p: Part): PbBody
    requires p.Multipart? && Complete(p)
    decreases p, 0
  {
    PbBody(seq(|p.children|, i requires 0 <= i < |p.children| =>
      var c := p.children[i];
      PbPart(TypePointer(c.contentType), PbHeaders(c.headers), PbOfContent(c.part))))
  }

  function PbOfChild(c: Child): PbPart
    requires Complete(c.part)
  {
    PbPart(TypePointer(c.contentType), PbHeaders(c.headers), PbOfContent(c.part))
  }

  const BLANK_PART := PbPart(None, [], PbContentUnset)

  method TransformPartToProto(part: Part, contentType: ContentType, headers: seq<Header>)
    returns (r: Result<PbPart, ConversionError>)
    ensures r == if Complete(part) then Ok(PbOfChild(Child(contentType, headers, part))) else Err(UnsupportedPart)
    decreases part, 1
  {
    var pbHeaders: seq<Option<Header>> := [];
    for i := 0 to |headers|
      invariant pbHeaders == PbHeaders(headers)[..i]
    {
      pbHeaders := pbHeaders + [Some(headers[i])];
    }
    assert pbHeaders == PbHeaders(headers);
    var pbPart := PbPart(TypePointer(contentType), pbHeaders, PbContentUnset);
    match part {
      case Text(text) => pbPart := pbPart.(content := PbContentText(text));
      case Binary(data) => pbPart := pbPart.(content := PbContentBytes(data));
      case Multipart(_) =>
        var nestedBody := TransformMultipartToProto(part);
        if nestedBody.Err? {
          return Err(nestedBody.error);
        }
        pbPart := pbPart.(content := PbNested(Some(nestedBody.value)));
      case Nil => return Err(UnsupportedPart);
    }
    r := Ok(pbPart);
  }

  /** The preallocated slice, filled by index. */
  method TransformMultipartToProto(p: Part) returns (r: Result<PbBody, ConversionError>)
    requires p.Multipart?
    ensures r == if Complete(p) then Ok(PbOfMultipart(p)) else Err(UnsupportedPart)
    decreases p, 0
  {
    var n := |p.children|;
    var parts := new PbPart[n](_ => BLANK_PART);
    for i := 0 to n
      invariant forall k :: 0 <= k < i ==> Complete(p.children[k].part) && parts[k] == PbOfChild(p.children[k])
    {
      var child := p.children[i];
      var pbPart := TransformPartToProto(child.part, child.contentType, child.headers);
      if pbPart.Err? {
        return Err(pbPart.error);
      }
      parts[i] := pbPart.value;
    }
    assert parts[..] == PbOfMultipart(p).parts;
    r := Ok(PbBody(parts[..]));
  }

  // ----- from proto

  function DefaultType(content: PbContent): ContentType {
    match content
    case PbContentText(_) => PLAIN_TEXT
    case PbContentBytes(_) => OCTETS
    case PbNested(_) => MIXED
    case PbContentUnset => NO_TYPE
  }

  predicate GoodHeader(h: Option<Header>) {
    h.Some? && ValidHeaderKey(h.value.key)
  }

  /** The bodies that convert. */
  predicate Convertible(content: PbContent) {
    match content
    case PbContentText(_) => true
    case PbContentBytes(_) => true
    case PbNested(Some(body)) => forall i :: 0 <= i < |body.parts| ==> ConvertiblePart(body.parts[i])
    case _ => false
  }

  predicate ConvertiblePart(part: PbPart) {
    Convertible(part.content) && forall k :: 0 <= k < |part.headers| ==> GoodHeader(part.headers[k])
  }

  function PartOfContent(content: PbContent): Part
    requires Convertible(content)
    decreases content
  {
    match content
    case PbContentText(text) => Text(text)
    case PbContentBytes(data) => Binary(data)
    case PbNested(body) =>
      var parts := body.value.parts;
      Multipart(seq(|parts|, i requires 0 <= i < |parts| => assert ConvertiblePart(parts[i]); ChildOf(parts[i])))
  }

  function TypeOf(part: PbPart): ContentType {
    part.contentType.UnwrapOr(DefaultType(part.content))
  }

  function HeadersOf(headers: seq<Option<Header>>): seq<Header>
    requires forall k :: 0 <= k < |headers| ==> GoodHeader(headers[k])
  {
    seq(|headers|, i requires 0 <= i < |headers| => assert GoodHeader(headers[i]); headers[i].value)
  }

  function ChildOf(part: PbPart): Child
    requires ConvertiblePart(part)
    decreases part
  {
    Child(TypeOf(part), HeadersOf(part.headers), PartOfContent(part.content))
  }

  method TransformMimePartsToMailerParts(mimePart: PbPart) returns (r: Result<Part, ConversionError>)
    ensures r.Ok? <==> Convertible(mimePart.content)
    ensures r.Ok? ==> r.value == PartOfContent(mimePart.content)
    decreases mimePart.content, 1
  {
    match mimePart.content {
      case PbContentText(text) => return Ok(Text(text));
      case PbContentBytes(data) => return Ok(Binary(data));
      case PbNested(nested) => r := TransformPbMimeBodyToMailerBody(nested);
      case PbContentUnset => return Err(UnknownContent);
    }
  }

  method TransformHeaders(headers: seq<Option<Header>>) returns (r: Result<seq<Header>, ConversionError>)
    ensures r.Ok? <==> forall k :: 0 <= k < |headers| ==> GoodHeader(headers[k])
    ensures r.Ok? ==> r.value == HeadersOf(headers)
  {
    var out: seq<Header> := [];
    for i := 0 to |headers|
      invariant forall k :: 0 <= k < i ==> GoodHeader(headers[k])
      invariant |out| == i && forall k :: 0 <= k < i ==> out[k] == headers[k].value
    {
      if headers[i].None? {
        return Err(NilHeader);
      }
      if !ValidHeaderKey(headers[i].value.key) {
        return Err(InvalidKey);
      }
      out := out + [headers[i].value];
    }
    r := Ok(out);
  }

  method TransformPbMimeBodyToMailerBody(mimeBody: Option<PbBody>) returns (r: Result<Part, ConversionError>)
    ensures r.Ok? <==> Convertible(PbNested(mimeBody))
    ensures r.Ok? ==> r.value == PartOfContent(PbNested(mimeBody))
    decreases mimeBody, 0
  {
    if mimeBody.None? {
      return Err(NilBody);
    }
    var parts := mimeBody.value.parts;
    var children: seq<Child> := [];
    for i := 0 to |parts|
      invariant forall k :: 0 <= k < i ==> ConvertiblePart(parts[k])
      invariant |children| == i && forall k :: 0 <= k < i ==> children[k] == ChildOf(parts[k])
    {
      var part := parts[i];
      var contentType := TypeOf(part);
      var transformedPart := TransformMimePartsToMailerParts(part);
      if transformedPart.Err? {
        return Err(transformedPart.error);
      }
      var headers := TransformHeaders(part.headers);
      if headers.Err? {
        return Err(headers.error);
      }
      children := children + [Child(contentType, headers.value, transformedPart.value)];
    }
    assert Multipart(children) == PartOfContent(PbNested(mimeBody));
    r := Ok(Multipart(children));
  }

  // ----- there and back

  function DefaultFor(p: Part): ContentType {
    match p
    case Text(_) => PLAIN_TEXT
    case Binary(_) => OCTETS
    case _ => MIXED
  }

  function Filled(contentType: ContentType, p: Part): ContentType {
    if contentType.raw == "" then DefaultFor(p) else contentType
  }

  /** The tree with each empty content type replaced by the default of its part's kind, at every depth. */
  function FillTypes(p: Part): Part {
    match p
    case Multipart(children) =>
      Multipart(seq(|children|, i requires 0 <= i < |children| =>
        Child(Filled(children[i].contentType, children[i].part), children[i].headers, FillTypes(children[i].part))))
    case _ => p
  }

  predicate NoEmptyType(p: Part) {
    match p
    case Multipart(children) =>
      forall i :: 0 <= i < |children| ==> children[i].contentType.raw != "" && NoEmptyType(children[i].part)
    case _ => true
  }

  predicate ChildKeysGood(headers: seq<Header>) {
    forall k :: 0 <= k < |headers| ==> ValidHeaderKey(headers[k].key)
  }

  predicate GoodKeys(p: Part) {
    match p
    case Multipart(children) =>
      forall i :: 0 <= i < |children| ==> ChildKeysGood(children[i].headers) && GoodKeys(children[i].part)
    case _ => true
  }

  lemma HeadersConvert(headers: seq<Header>)
    ensures (forall k :: 0 <= k < |headers| ==> GoodHeader(PbHeaders(headers)[k])) <==> ChildKeysGood(headers)
    ensures ChildKeysGood(headers) ==> HeadersOf(PbHeaders(headers)) == headers
  {
    assert forall k :: 0 <= k < |headers| ==> PbHeaders(headers)[k] == Some(headers[k]);
  }

  /** A tree converts back exactly if its header keys are valid, at every depth. */
  lemma {:induction false} ConvertsIffKeysGood(p: Part)
    requires Complete(p)
    ensures Convertible(PbOfContent(p)) <==> GoodKeys(p)
    decreases p
  {
    if p.Multipart? {
      var parts := PbOfMultipart(p).parts;
      forall i | 0 <= i < |p.children|
        ensures ConvertiblePart(parts[i]) <==> ChildKeysGood(p.children[i].headers) && GoodKeys(p.children[i].part)
      {
        ConvertsIffKeysGood(p.children[i].part);
        HeadersConvert(p.children[i].headers);
      }
    }
  }

  /** Converting to proto and back fills the empty content types and changes nothing else. */
  lemma {:induction false} ProtoRoundTrip(p: Part)
    requires Complete(p) && GoodKeys(p)
    ensures Convertible(PbOfContent(p)) && PartOfContent(PbOfContent(p)) == FillTypes(p)
    decreases p
  {
    ConvertsIffKeysGood(p);
    if p.Multipart? {
      var parts := PbOfMultipart(p).parts;
      var back := PartOfContent(PbOfContent(p)).children;
      var filled := FillTypes(p).children;
      forall i | 0 <= i < |p.children|
        ensures back[i] == filled[i]
      {
        ProtoRoundTrip(p.children[i].part);
        HeadersConvert(p.children[i].headers);
        var c := p.children[i];
        assert parts[i] == PbOfChild(c) && back[i] == ChildOf(parts[i]);
        assert TypeOf(parts[i]) == Filled(c.contentType, c.part);
      }
      assert back == filled;
    }
  }

  lemma {:induction false} FillingIsIdempotent(p: Part)
    ensures NoEmptyType(FillTypes(p)) && FillTypes(FillTypes(p)) == FillTypes(p)
    decreases p
  {
    if p.Multipart? {
      var once := FillTypes(p).children;
      var twice := FillTypes(FillTypes(p)).children;
      forall i | 0 <= i < |p.children|
        ensures once[i].contentType.raw != "" && NoEmptyType(once[i].part) && twice[i] == once[i]
      {
        FillingIsIdempotent(p.children[i].part);
      }
      assert twice == once;
    }
  }

  /** The round trip is the identity exactly on trees without an empty content type. */
  lemma {:induction false} FillingIsIdentityIff(p: Part)
    ensures FillTypes(p) == p <==> NoEmptyType(p)
    decreases p
  {
    if p.Multipart? {
      var filled := FillTypes(p).children;
      forall i | 0 <= i < |p.children|
        ensures filled[i] == p.children[i] <==> p.children[i].contentType.raw != "" && NoEmptyType(p.children[i].part)
      {
        FillingIsIdentityIff(p.children[i].part);
      }
      assert FillTypes(p) == p <==> forall i :: 0 <= i < |p.children| ==> filled[i] == p.children[i];
    }
  }
}
