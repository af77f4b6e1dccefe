/**
 * Whole mails between the SMTP proxy and the API: `buildGrpcRequestFromMail`
 * (internal/smtp-proxy/grpc.go:11-63) and `pbMailToValidatedMail` with its address lists
 * (internal/grpcservers/mailer.go:14-181, :254-298).
 */
module MailConversion {
  import opened Bytes
  import opened MailTypes
  import opened PartPrinter
  import opened ProtoTypes
  import opened ProtoConversion
  import opened InternetMessage

  /** `mail.Address.String` and `mail.ParseAddress`. */
  datatype AddressSyntax = AddressSyntax(write: Address -> string, read: string -> Option<Address>)

  datatype MailError =
    | BadAddress
    | BadExtraHeader
    | BadContentType
    | BodyNotSet
    | ContentTypeNotAllowed
    | EmptySimpleMail
    | NilAttachment
    | BadBody(error: ConversionError)
    | InvalidMail(problems: seq<MailProblem>)

  // ----- addresses

  /** A plain address that reads as itself and still reads once its name is added. */
  predicate GoodAddress(syntax: AddressSyntax, a: Option<PbAddress>) {
    && a.Some? && a.value.PbMailAddress?
    && syntax.read(a.value.address).Some?
    && syntax.read(a.value.address).value.address == a.value.address
    && syntax.read(syntax.write(Address(a.value.name, a.value.address))).Some?
  }

  predicate GoodAddresses(syntax: AddressSyntax, list: seq<Option<PbAddress>>) {
    forall i :: 0 <= i < |list| ==> GoodAddress(syntax, list[i])
  }

  function AddressesOf(syntax: AddressSyntax, list: seq<Option<PbAddress>>): (r: seq<Address>)
    requires GoodAddresses(syntax, list)
    ensures |r| == |list|
  {
    seq(|list|, i requires 0 <= i < |list| =>
      assert GoodAddress(syntax, list[i]); Address(list[i].value.name, list[i].value.address))
  }

  method TransformAddress(syntax: AddressSyntax, a: Option<PbAddress>) returns (r: Result<Address, MailError>)
    ensures r == if GoodAddress(syntax, a) then Ok(Address(a.value.name, a.value.address)) else Err(BadAddress)
  {
    match a {
      case Some(PbMailAddress(name, address)) =>
        var parsed := syntax.read(address);
        if parsed.None? || parsed.value.address != address {
          return Err(BadAddress);
        }
        var std := Address(name, address);
        if syntax.read(syntax.write(std)).None? {
          return Err(BadAddress);
        }
        r := Ok(std);
      case _ => r := Err(BadAddress);
    }
  }

  method TransformAddressLists(syntax: AddressSyntax, list: seq<Option<PbAddress>>)
    returns (r: Result<seq<Address>, MailError>)
    ensures r == if GoodAddresses(syntax, list) then Ok(AddressesOf(syntax, list)) else Err(BadAddress)
  {
    var out: seq<Address> := [];
    for i := 0 to |list|
      invariant forall k :: 0 <= k < i ==> GoodAddress(syntax, list[k])
      invariant |out| == i
      invariant forall k :: 0 <= k < i ==> out[k] == Address(list[k].value.name, list[k].value.address)
    {
      var a := TransformAddress(syntax, list[i]);
      if a.Err? {
        return Err(BadAddress);
      }
      out := out + [a.value];
    }
    assert out == AddressesOf(syntax, list);
    r := Ok(out);
  }

  function PbAddresses(addresses: seq<Address>): seq<Option<PbAddress>> {
    seq(|addresses|, i requires 0 <= i < |addresses| =>
      Some(PbMailAddress(addresses[i].name, addresses[i].address)))
  }

  method MakePbAddresses(addresses: seq<Address>) returns (r: seq<Option<PbAddress>>)
    ensures r == PbAddresses(addresses)
  {
    var list := new Option<PbAddress>[|addresses|](_ => None);
    for i := 0 to |addresses|
      invariant forall k :: 0 <= k < i ==> list[k] == PbAddresses(addresses)[k]
    {
      list[i] := Some(PbMailAddress(addresses[i].name, addresses[i].address));
    }
    r := list[..];
  }

  // ----- to proto

  function PbOfBody(p: Part): PbBodyOneof
    requires Complete(p)
  {
    match p
    case Text(text) => PbPlainText(text)
    case Binary(data) => PbRawBody(data)
    case Multipart(_) => PbMultipartBody(Some(PbOfMultipart(p)))
  }

  function PbOfMail(m: Mail): PbMail
    requires Complete(m.body)
  {
    PbMail(m.subject, Some(PbMailAddress(m.from.name, m.from.address)),
           PbAddresses(m.to), PbAddresses(m.cc), PbAddresses(m.bcc), PbAddresses(m.replyTo),
           PbHeaders(m.headers), TypePointer(m.contentType), PbOfBody(m.body))
  }

  method BuildGrpcRequestFromMail(m: Mail) returns (r: Result<PbMail, ConversionError>)
    ensures r == if Complete(m.body) then Ok(PbOfMail(m)) else Err(UnsupportedPart)
  {
    var to := MakePbAddresses(m.to);
    var cc := MakePbAddresses(m.cc);
    var bcc := MakePbAddresses(m.bcc);
    var replyTo := MakePbAddresses(m.replyTo);
    var extraHeaders: seq<Option<Header>> := [];
    for i := 0 to |m.headers|
      invariant |extraHeaders| == i
      invariant forall k :: 0 <= k < i ==> extraHeaders[k] == Some(m.headers[k])
    {
      extraHeaders := extraHeaders + [Some(m.headers[i])];
    }
    assert extraHeaders == PbHeaders(m.headers);
    var body;
    match m.body {
      case Text(text) => body := PbPlainText(text);
      case Binary(data) => body := PbRawBody(data);
      case Multipart(_) =>
        var multipart := TransformMultipartToProto(m.body);
        if multipart.Err? {
          return Err(multipart.error);
        }
        body := PbMultipartBody(Some(multipart.value));
      case Nil => return Err(UnsupportedPart);
    }
    r := Ok(PbMail(m.subject, Some(PbMailAddress(m.from.name, m.from.address)), to, cc, bcc, replyTo,
                   extraHeaders, TypePointer(m.contentType), body));
  }

  // ----- from proto

  predicate GoodExtraHeader(h: Option<Header>) {
    GoodHeader(h) && !Reserved(h.value.key)
  }

  predicate GoodExtraHeaders(headers: seq<Option<Header>>) {
    forall i :: 0 <= i < |headers| ==> GoodExtraHeader(headers[i])
  }

  datatype TypedBody = TypedBody(contentType: ContentType, part: Part)

  /** The plain text, HTML or both of a simple mail. */
  function SimpleText(plain: Option<bytes>, html: Option<bytes>): Result<TypedBody, MailError> {
    match (plain, html)
    case (None, None) => Err(EmptySimpleMail)
    case (Some(text), None) => Ok(TypedBody(PLAIN_TEXT, Text(text)))
    case (None, Some(markup)) => Ok(TypedBody(HTML_TEXT, Text(markup)))
    case (Some(text), Some(markup)) =>
      Ok(TypedBody(ALTERNATIVE, Multipart([
        Child(PLAIN_TEXT, [], Text(text)),
        Child(HTML_TEXT, [], Text(markup))])))
  }

  predicate AllAttached(attachments: seq<Option<PbAttachment>>) {
    forall i :: 0 <= i < |attachments| ==> attachments[i].Some?
  }

  function AttachmentChildren(attachments: seq<Option<PbAttachment>>): seq<Child>
    requires AllAttached(attachments)
  {
    seq(|attachments|, i requires 0 <= i < |attachments| =>
      var a := attachments[i].value; Child(a.contentType.UnwrapOr(OCTETS), [], Binary(a.content)))
  }

  function WithAttachments(body: TypedBody, attachments: seq<Option<PbAttachment>>): Result<TypedBody, MailError> {
    if attachments == [] then Ok(body)
    else if !AllAttached(attachments) then Err(NilAttachment)
    else Ok(TypedBody(MIXED, Multipart([Child(body.contentType, [], body.part)] + AttachmentChildren(attachments))))
  }

  /** The body of a request and the content type it is sent with. */
  function BodyOf(req: PbMail): Result<TypedBody, MailError> {
    match req.body
    case PbPlainText(text) => Ok(TypedBody(req.contentType.UnwrapOr(PLAIN_TEXT), Text(text)))
    case PbSimpleMail(plain, html, attachments) =>
      if req.contentType.Some? then Err(ContentTypeNotAllowed)
      else
        var text :- SimpleText(plain, html);
        WithAttachments(text, attachments)
    case PbMultipartBody(body) =>
      if Convertible(PbNested(body)) then
        Ok(TypedBody(req.contentType.UnwrapOr(MIXED), PartOfContent(PbNested(body))))
      else Err(BadBody(UnsupportedPart))
    case PbRawBody(data) => Ok(TypedBody(req.contentType.UnwrapOr(OCTETS), Binary(data)))
    case PbBodyUnset => Err(BodyNotSet)
  }

  /** The mail a request stands for: extra headers are checked but not carried over. */
  function MailOf(syntax: AddressSyntax, req: PbMail, from: Address, now: int, body: TypedBody): Mail
    requires GoodAddresses(syntax, req.replyTo) && GoodAddresses(syntax, req.to)
    requires GoodAddresses(syntax, req.cc) && GoodAddresses(syntax, req.bcc)
  {
    Mail(from, AddressesOf(syntax, req.replyTo), AddressesOf(syntax, req.to), AddressesOf(syntax, req.cc),
         AddressesOf(syntax, req.bcc), req.subject, now, "", body.contentType, [], body.part)
  }

  predicate GoodEnvelope(syntax: AddressSyntax, req: PbMail, from: Address) {
    && GoodAddress(syntax, Some(PbMailAddress(from.name, from.address)))
    && GoodAddresses(syntax, req.replyTo) && GoodAddresses(syntax, req.to)
    && GoodAddresses(syntax, req.cc) && GoodAddresses(syntax, req.bcc)
    && GoodExtraHeaders(req.extraHeaders)
    && (req.contentType.Some? ==> Parses(req.contentType.value))
  }

  lemma {:induction false} ConvertedIsComplete(content: PbContent)
    requires Convertible(content)
    ensures Complete(PartOfContent(content))
    decreases content
  {
    if content.PbNested? {
      var parts := content.nested.value.parts;
      forall i | 0 <= i < |parts|
        ensures Complete(ChildOf(parts[i]).part)
      {
        assert ConvertiblePart(parts[i]);
        ConvertedIsComplete(parts[i].content);
      }
    }
  }

  lemma BodyIsComplete(req: PbMail)
    ensures BodyOf(req).Ok? ==> Complete(BodyOf(req).value.part)
  {
    if req.body.PbMultipartBody? && Convertible(PbNested(req.body.multipart)) {
      ConvertedIsComplete(PbNested(req.body.multipart));
    }
  }

  /** The requests that turn into a mail. */
  predicate Accepted(syntax: AddressSyntax, req: PbMail, from: Address, now: int) {
    && GoodEnvelope(syntax, req, from)
    && BodyOf(req).Ok?
    && (BodyIsComplete(req); ValidMail(MailOf(syntax, req, from, now, BodyOf(req).value)))
  }

  method ReadSimpleMail(plain: Option<bytes>, html: Option<bytes>, attachments: seq<Option<PbAttachment>>)
    returns (r: Result<TypedBody, MailError>)
    ensures r == match SimpleText(plain, html)
                 case Ok(text) => WithAttachments(text, attachments)
                 case Err(error) => Err(error)
  {
    var text := SimpleText(plain, html);
    if text.Err? {
      return Err(text.error);
    }
    r := text;
    if |attachments| > 0 {
      var allChildren := [Child(text.value.contentType, [], text.value.part)];
      for i := 0 to |attachments|
        invariant forall k :: 0 <= k < i ==> attachments[k].Some?
        invariant |allChildren| == i + 1 && allChildren[0] == Child(text.value.contentType, [], text.value.part)
        invariant forall k :: 0 <= k < i ==>
          allChildren[k + 1] ==
          Child(attachments[k].value.contentType.UnwrapOr(OCTETS), [], Binary(attachments[k].value.content))
      {
        var attachment := attachments[i];
        if attachment.None? {
          return Err(NilAttachment);
        }
        allChildren := allChildren +
          [Child(attachment.value.contentType.UnwrapOr(OCTETS), [], Binary(attachment.value.content))];
      }
      assert allChildren == [allChildren[0]] + AttachmentChildren(attachments);
      r := Ok(TypedBody(MIXED, Multipart(allChildren)));
    }
  }

  method ReadBodyOneof(req: PbMail) returns (r: Result<TypedBody, MailError>)
    ensures r == BodyOf(req)
  {
    match req.body {
      case PbPlainText(text) => r := Ok(TypedBody(req.contentType.UnwrapOr(PLAIN_TEXT), Text(text)));
      case PbSimpleMail(plain, html, attachments) =>
        if req.contentType.Some? {
          return Err(ContentTypeNotAllowed);
        }
        r := ReadSimpleMail(plain, html, attachments);
      case PbMultipartBody(body) =>
        var part := TransformPbMimeBodyToMailerBody(body);
        if part.Err? {
          return Err(BadBody(UnsupportedPart));
        }
        r := Ok(TypedBody(req.contentType.UnwrapOr(MIXED), part.value));
      case PbRawBody(data) => r := Ok(TypedBody(req.contentType.UnwrapOr(OCTETS), Binary(data)));
      case PbBodyUnset => r := Err(BodyNotSet);
    }
  }

  method PbMailToValidatedMail(syntax: AddressSyntax, req: PbMail, from: Address, now: int)
    returns (r: Result<Mail, MailError>)
    ensures r.Ok? <==> Accepted(syntax, req, from, now)
    ensures r.Ok? ==> r.value == MailOf(syntax, req, from, now, BodyOf(req).value)
  {
    var fromAddr := TransformAddress(syntax, Some(PbMailAddress(from.name, from.address)));
    var replyTo := TransformAddressLists(syntax, req.replyTo);
    var to := TransformAddressLists(syntax, req.to);
    var cc := TransformAddressLists(syntax, req.cc);
    var bcc := TransformAddressLists(syntax, req.bcc);
    if fromAddr.Err? || replyTo.Err? || to.Err? || cc.Err? || bcc.Err? {
      return Err(BadAddress);
    }
    for i := 0 to |req.extraHeaders|
      invariant forall k :: 0 <= k < i ==> GoodExtraHeader(req.extraHeaders[k])
    {
      var h := req.extraHeaders[i];
      if h.None? || !ValidHeaderKey(h.value.key) || Reserved(h.value.key) {
        return Err(BadExtraHeader);
      }
    }
    if req.contentType.Some? && !Parses(req.contentType.value) {
      return Err(BadContentType);
    }
    var body := ReadBodyOneof(req);
    if body.Err? {
      return Err(body.error);
    }
    BodyIsComplete(req);
    var m := Mail(fromAddr.value, replyTo.value, to.value, cc.value, bcc.value, req.subject, now, "",
                  body.value.contentType, [], body.value.part);
    CompleteNeverFaults(m.body);
    var problems := ValidateMail(m);
    if problems.value != [] {
      return Err(InvalidMail(problems.value));
    }
    r := Ok(m);
  }

  // ----- from the proxy to the API

  predicate ReadableAddress(syntax: AddressSyntax, a: Address) {
    GoodAddress(syntax, Some(PbMailAddress(a.name, a.address)))
  }

  predicate ReadableAddresses(syntax: AddressSyntax, addresses: seq<Address>) {
    forall i :: 0 <= i < |addresses| ==> ReadableAddress(syntax, addresses[i])
  }

  predicate GoodMailHeaders(headers: seq<Header>) {
    forall i :: 0 <= i < |headers| ==> ValidHeaderKey(headers[i].key) && !Reserved(headers[i].key)
  }

  /** What the API makes of a mail the proxy received. */
  function Rebuilt(m: Mail, from: Address, now: int): Mail {
    Mail(from, m.replyTo, m.to, m.cc, m.bcc, m.subject, now, "",
         Filled(m.contentType, m.body), [], FillTypes(m.body))
  }

  lemma AddressesReturn(syntax: AddressSyntax, addresses: seq<Address>)
    ensures GoodAddresses(syntax, PbAddresses(addresses)) <==> ReadableAddresses(syntax, addresses)
    ensures ReadableAddresses(syntax, addresses) ==> AddressesOf(syntax, PbAddresses(addresses)) == addresses
  {
    var list := PbAddresses(addresses);
    assert forall i :: 0 <= i < |list| ==> list[i] == Some(PbMailAddress(addresses[i].name, addresses[i].address));
    if ReadableAddresses(syntax, addresses) {
      assert forall i :: 0 <= i < |addresses| ==> ReadableAddress(syntax, addresses[i]);
      assert GoodAddresses(syntax, list);
      assert AddressesOf(syntax, list) == addresses;
    }
    if GoodAddresses(syntax, list) {
      forall i | 0 <= i < |addresses|
        ensures ReadableAddress(syntax, addresses[i])
      {
        assert GoodAddress(syntax, list[i]);
      }
    }
  }

  lemma BodyReturns(m: Mail)
    requires Complete(m.body)
    ensures BodyOf(PbOfMail(m)).Ok? <==> GoodKeys(m.body)
    ensures GoodKeys(m.body) ==>
              BodyOf(PbOfMail(m)).value == TypedBody(Filled(m.contentType, m.body), FillTypes(m.body))
  {
    ConvertsIffKeysGood(m.body);
    if m.body.Multipart? && GoodKeys(m.body) {
      ProtoRoundTrip(m.body);
    }
  }

  lemma ExtraHeadersReturn(headers: seq<Header>)
    ensures GoodExtraHeaders(PbHeaders(headers)) <==> GoodMailHeaders(headers)
  {
    assert forall i :: 0 <= i < |headers| ==> PbHeaders(headers)[i] == Some(headers[i]);
    if GoodExtraHeaders(PbHeaders(headers)) {
      forall i | 0 <= i < |headers|
        ensures ValidHeaderKey(headers[i].key) && !Reserved(headers[i].key)
      {
        assert GoodExtraHeader(PbHeaders(headers)[i]);
      }
    }
  }

  lemma EnvelopeReturns(syntax: AddressSyntax, m: Mail, from: Address)
    requires Complete(m.body)
    ensures GoodEnvelope(syntax, PbOfMail(m), from) <==>
              && ReadableAddress(syntax, from)
              && ReadableAddresses(syntax, m.replyTo) && ReadableAddresses(syntax, m.to)
              && ReadableAddresses(syntax, m.cc) && ReadableAddresses(syntax, m.bcc)
              && GoodMailHeaders(m.headers)
              && (m.contentType.raw != "" ==> m.contentType.media.Some?)
  {
    AddressesReturn(syntax, m.replyTo);
    AddressesReturn(syntax, m.to);
    AddressesReturn(syntax, m.cc);
    AddressesReturn(syntax, m.bcc);
    ExtraHeadersReturn(m.headers);
  }

  lemma {:induction false} FillKeepsComplete(p: Part)
    requires Complete(p)
    ensures Complete(FillTypes(p))
    decreases p
  {
    if p.Multipart? {
      forall i | 0 <= i < |p.children|
        ensures Complete(FillTypes(p).children[i].part)
      {
        FillKeepsComplete(p.children[i].part);
      }
    }
  }

  /**
   * A mail from the proxy is accepted exactly if its addresses read, its header keys and content
   * type are good and the rebuilt mail is valid.  The recipient lists come through unchanged.
   */
  lemma ProxyMailReturns(syntax: AddressSyntax, m: Mail, from: Address, now: int)
    requires Complete(m.body)
    ensures Accepted(syntax, PbOfMail(m), from, now) <==>
              && GoodEnvelope(syntax, PbOfMail(m), from) && GoodKeys(m.body)
              && (FillKeepsComplete(m.body); ValidMail(Rebuilt(m, from, now)))
    ensures Accepted(syntax, PbOfMail(m), from, now) ==>
              MailOf(syntax, PbOfMail(m), from, now, BodyOf(PbOfMail(m)).value) == Rebuilt(m, from, now)
  {
    FillKeepsComplete(m.body);
    EnvelopeReturns(syntax, m, from);
    BodyReturns(m);
    AddressesReturn(syntax, m.replyTo);
    AddressesReturn(syntax, m.to);
    AddressesReturn(syntax, m.cc);
    AddressesReturn(syntax, m.bcc);
  }
}
