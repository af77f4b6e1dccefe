/**
 * The whole message: `ValidateMail` (pkg/mailer/mail.go:73-121) and `GetInternetMessageFormat`
 * (pkg/mailer/imf.go:10-66).
 */
module InternetMessage {
  import opened Bytes
  import opened LineEndings
  import opened MailTypes
  import opened PartPrinter
  import opened TransferDecoding

  // ----- validation

  datatype MailProblem =
    | InvalidSubject
    | InvalidContentType
    | InvalidBodyBoundary
    | BodyIsNotMultipartType
    | InvalidKey
    | InvalidValue
    | ReservedKey
    | InvalidBody(problems: seq<Problem>)

  predicate Reserved(key: string) {
    ToLower(key) in {
      "from", "to", "cc", "bcc", "reply-to", "subject", "date", "message-id", "content-type" }
  }

  predicate ValidExtraHeader(h: Header) {
    ValidHeaderKey(h.key) && ValidHeaderValue(h.value) && !Reserved(h.key)
  }

  /** An empty content type is not looked at. */
  predicate ValidTopType(m: Mail) {
    m.contentType.raw != "" ==>
      && m.contentType.media.Some?
      && (m.body.Multipart? ==> ValidMultipartType(m.contentType.media.value))
  }

  predicate ValidMail(m: Mail) {
    && ValidHeaderValue(m.subject)
    && ValidTopType(m)
    && (forall k :: 0 <= k < |m.headers| ==> ValidExtraHeader(m.headers[k]))
    && ValidPart(m.body, m.contentType)
  }

  /** All problems of a mail, or `None` at the run-time fault of a nil part. */
  method ValidateMail(m: Mail) returns (result: Option<seq<MailProblem>>)
    ensures result.None? <==> Faults(m.body)
    ensures result.Some? ==> (result.value == [] <==> ValidMail(m))
  {
    var problems: seq<MailProblem> := [];
    if !ValidHeaderValue(m.subject) {
      problems := problems + [InvalidSubject];
    }
    if m.contentType.raw != "" {
      var media := m.contentType.media;
      if media.None? {
        problems := problems + [InvalidContentType];
      }
      if m.body.Multipart? {
        if media.None? || !HasPrefix(media.value.mediaType, "multipart/") {
          problems := problems + [BodyIsNotMultipartType];
        }
        if media.Some? && media.value.boundary.Some? && !ValidBoundary(media.value.boundary.value) {
          problems := problems + [InvalidBodyBoundary];
        }
      }
    }
    ghost var before := problems;
    for k := 0 to |m.headers|
      invariant problems == [] <==> before == [] && forall j :: 0 <= j < k ==> ValidExtraHeader(m.headers[j])
    {
      var h := m.headers[k];
      if !ValidHeaderKey(h.key) {
        problems := problems + [InvalidKey];
      }
      if !ValidHeaderValue(h.value) {
        problems := problems + [InvalidValue];
      }
      if Reserved(h.key) {
        problems := problems + [ReservedKey];
      }
    }
    var bodyProblems := Validate(m.body, m.contentType);
    if bodyProblems.None? {
      return None;
    }
    if bodyProblems.value != [] {
      problems := problems + [InvalidBody(bodyProblems.value)];
    }
    result := Some(problems);
  }

  // ----- printing

  /** How addresses, dates and header values are written; the library functions for it are parameters. */
  datatype Rendering = Rendering(
    address: Address -> bytes,
    date: int -> bytes,
    octets: string -> bytes,
    word: string -> bytes)

  /** Literals of the header block and valid header keys are ASCII. */
  function Octet(c: char): byte {
    if c < 128 as char then c as int else 0x3F
  }

  function Octets(s: string): bytes {
    seq(|s|, i requires 0 <= i < |s| => Octet(s[i]))
  }

  function JoinAddresses(r: Rendering, addresses: seq<Address>): bytes {
    if addresses == [] then []
    else if |addresses| == 1 then r.address(addresses[0])
    else r.address(addresses[0]) + Octets(", ") + JoinAddresses(r, addresses[1..])
  }

  /** A header field as it is written: its name, a colon and a blank, and what stands for its value. */
  datatype HeaderField = HeaderField(key: string, value: bytes)

  function FieldOctets(f: HeaderField): bytes {
    Octets(f.key) + Octets(": ") + f.value
  }

  function AddressField(r: Rendering, key: string, addresses: seq<Address>): seq<HeaderField> {
    if addresses == [] then [] else [HeaderField(key, JoinAddresses(r, addresses))]
  }

  /** The characters of a key that `textproto.CanonicalMIMEHeaderKey` changes the case of. */
  predicate TokenChar(c: char) {
    'a' <= c <= 'z' || 'A' <= c <= 'Z' || '0' <= c <= '9' || c in "!#$%&'*+-.^_`|~"
  }

  function UpperChar(c: char): char {
    if 'a' <= c <= 'z' then (c as int - 32) as char else c
  }

  function Capitalized(key: string, upper: bool): string {
    if key == "" then ""
    else [if upper then UpperChar(key[0]) else LowerChar(key[0])] + Capitalized(key[1..], key[0] == '-')
  }

  /** A letter that starts a word is upper case, every other one lower case; a key that is no token stays. */
  function CanonicalKey(key: string): string {
    if forall i :: 0 <= i < |key| ==> TokenChar(key[i]) then Capitalized(key, true) else key
  }

  const VERSION_KEY := "Mime-Version"

  const TYPE_KEY := "Content-Type"

  const ENCODING_KEY := "Content-Transfer-Encoding"

  predicate IsMimeVersion(h: Header) {
    CanonicalKey(h.key) == VERSION_KEY
  }

  /** Empty values are swallowed. */
  function ExtraField(r: Rendering, h: Header): seq<HeaderField> {
    if h.value == "" then [] else [HeaderField(CanonicalKey(h.key), r.word(h.value))]
  }

  function ExtraFields(r: Rendering, headers: seq<Header>): seq<HeaderField> {
    if headers == [] then []
    else ExtraFields(r, headers[..|headers| - 1]) + ExtraField(r, headers[|headers| - 1])
  }

  predicate HasMimeVersion(headers: seq<Header>) {
    headers != [] && (HasMimeVersion(headers[..|headers| - 1]) || IsMimeVersion(headers[|headers| - 1]))
  }

  lemma ExtraFieldsStep(r: Rendering, headers: seq<Header>, k: nat)
    requires k < |headers|
    ensures ExtraFields(r, headers[..k + 1]) == ExtraFields(r, headers[..k]) + ExtraField(r, headers[k])
    ensures HasMimeVersion(headers[..k + 1]) <==> HasMimeVersion(headers[..k]) || IsMimeVersion(headers[k])
  {
    var upTo := headers[..k + 1];
    assert upTo[..k] == headers[..k] && upTo[k] == headers[k];
  }

  function EnvelopeFields(r: Rendering, m: Mail): seq<HeaderField> {
    [HeaderField("From", r.address(m.from))]
    + AddressField(r, "To", m.to)
    + AddressField(r, "Cc", m.cc)
    + AddressField(r, "Reply-To", m.replyTo)
  }

  function IdentityFields(r: Rendering, m: Mail): seq<HeaderField> {
    [HeaderField("Date", r.date(m.date)),
     HeaderField("Message-Id", Octets("<") + r.octets(m.messageId) + Octets(">")),
     HeaderField("Subject", r.word(m.subject))]
  }

  function VersionField(m: Mail): seq<HeaderField> {
    if HasMimeVersion(m.headers) || m.contentType.raw == "" then []
    else [HeaderField(VERSION_KEY, Octets("1.0"))]
  }

  function BodyFields(r: Rendering, m: Mail, e: EncodedPart): seq<HeaderField> {
    (if m.contentType.raw == "" then [] else [HeaderField(TYPE_KEY, r.word(e.contentType.raw))])
    + [HeaderField(ENCODING_KEY, r.word(e.cte))]
  }

  /** The header fields of the message, in order. */
  function Fields(r: Rendering, m: Mail, e: EncodedPart): seq<HeaderField> {
    EnvelopeFields(r, m) + IdentityFields(r, m) + ExtraFields(r, m.headers) + VersionField(m) + BodyFields(r, m, e)
  }

  function FieldBlock(fields: seq<HeaderField>): bytes {
    if fields == [] then []
    else FieldBlock(fields[..|fields| - 1]) + (FieldOctets(fields[|fields| - 1]) + [LF])
  }

  function MessageText(r: Rendering, m: Mail, e: EncodedPart): bytes {
    FieldBlock(Fields(r, m, e)) + [LF] + e.content
  }

  /** A mail whose body is a multipart without a content type makes the printer write to a nil map. */
  predicate Printable(m: Mail) {
    Complete(m.body) && (m.body.Multipart? ==> m.contentType.raw != "")
  }

  lemma ValidNeverFaults(m: Mail)
    requires ValidMail(m)
    ensures Complete(m.body) && !Faults(m.body)
  {
    ValidIsComplete(m.body, m.contentType);
    CompleteNeverFaults(m.body);
  }

  lemma ValidMailIsEncodable(m: Mail)
    requires Printable(m) && ValidMail(m)
    ensures Encodable(m.body, m.contentType)
  {
    ValidIsEncodable(m.body, m.contentType);
  }

  /** The string builder of the header block; `fields` are the header fields written so far. */
  class HeaderBuilder {
    var content: bytes
    ghost var fields: seq<HeaderField>

    ghost predicate Valid()
      reads this
    {
      content == FieldBlock(fields)
    }

    constructor ()
      ensures Valid() && fields == []
    {
      content, fields := [], [];
    }

    method WriteField(key: string, value: bytes)
      requires Valid()
      modifies this
      ensures Valid() && fields == old(fields) + [HeaderField(key, value)]
    {
      content := content + (Octets(key) + Octets(": ") + value + [LF]);
      fields := fields + [HeaderField(key, value)];
      assert fields[..|fields| - 1] == old(fields);
    }

    method WriteAddresses(r: Rendering, key: string, addresses: seq<Address>)
      requires Valid()
      modifies this
      ensures Valid() && fields == old(fields) + AddressField(r, key, addresses)
    {
      if |addresses| > 0 {
        WriteField(key, JoinAddresses(r, addresses));
      }
    }

    method WriteEnvelope(r: Rendering, m: Mail)
      requires Valid()
      modifies this
      ensures Valid() && fields == old(fields) + EnvelopeFields(r, m)
    {
      ghost var before, from := fields, [HeaderField("From", r.address(m.from))];
      WriteField("From", r.address(m.from));
      WriteAddresses(r, "To", m.to);
      Assoc(before, from, AddressField(r, "To", m.to));
      WriteAddresses(r, "Cc", m.cc);
      Assoc(before, from + AddressField(r, "To", m.to), AddressField(r, "Cc", m.cc));
      WriteAddresses(r, "Reply-To", m.replyTo);
    }

    method WriteIdentity(r: Rendering, m: Mail)
      requires Valid()
      modifies this
      ensures Valid() && fields == old(fields) + IdentityFields(r, m)
    {
      WriteField("Date", r.date(m.date));
      WriteField("Message-Id", Octets("<") + r.octets(m.messageId) + Octets(">"));
      WriteField("Subject", r.word(m.subject));
    }

    method WriteExtraField(r: Rendering, h: Header)
      requires Valid()
      modifies this
      ensures Valid() && fields == old(fields) + ExtraField(r, h)
    {
      if h.value == "" {
        return;
      }
      WriteField(CanonicalKey(h.key), r.word(h.value));
    }

    method WriteExtraFields(r: Rendering, headers: seq<Header>) returns (hasMimeVersion: bool)
      requires Valid()
      modifies this
      ensures Valid() && fields == old(fields) + ExtraFields(r, headers)
      ensures hasMimeVersion == HasMimeVersion(headers)
    {
      hasMimeVersion := false;
      ghost var before := fields;
      for k := 0 to |headers|
        invariant Valid() && fields == before + ExtraFields(r, headers[..k])
        invariant hasMimeVersion == HasMimeVersion(headers[..k])
      {
        ExtraFieldsStep(r, headers, k);
        if IsMimeVersion(headers[k]) {
          hasMimeVersion := true;
        }
        WriteExtraField(r, headers[k]);
        Assoc(before, ExtraFields(r, headers[..k]), ExtraField(r, headers[k]));
      }
      assert headers[..|headers|] == headers;
    }

    method WriteVersion(m: Mail, hasMimeVersion: bool)
      requires Valid() && hasMimeVersion == HasMimeVersion(m.headers)
      modifies this
      ensures Valid() && fields == old(fields) + VersionField(m)
    {
      if !hasMimeVersion && m.contentType.raw != "" {
        WriteField(VERSION_KEY, Octets("1.0"));
      }
    }

    method WriteBodyFields(r: Rendering, m: Mail, e: EncodedPart)
      requires Valid()
      modifies this
      ensures Valid() && fields == old(fields) + BodyFields(r, m, e)
    {
      if m.contentType.raw != "" {
        WriteField(TYPE_KEY, r.word(e.contentType.raw));
      }
      WriteField(ENCODING_KEY, r.word(e.cte));
    }
  }

  method WriteHeader(r: Rendering, m: Mail, e: EncodedPart) returns (header: bytes)
    ensures header == FieldBlock(Fields(r, m, e))
  {
    var builder := new HeaderBuilder();
    builder.WriteEnvelope(r, m);
    assert builder.fields == EnvelopeFields(r, m);
    builder.WriteIdentity(r, m);
    assert builder.fields == EnvelopeFields(r, m) + IdentityFields(r, m);
    var hasMimeVersion := builder.WriteExtraFields(r, m.headers);
    builder.WriteVersion(m, hasMimeVersion);
    builder.WriteBodyFields(r, m, e);
    header := builder.content;
  }

  /** What printing a mail comes to; a fault ends the program. */
  datatype Printed = Fault | Refused(problems: seq<MailProblem>) | Message(text: bytes)

  /** A nil part is validated, or a multipart without a content type is written to a nil parameter map. */
  predicate PrintingFaults(m: Mail) {
    Faults(m.body) || (ValidMail(m) && !Printable(m))
  }

  method GetInternetMessageFormat(env: Env, r: Rendering, m: Mail) returns (printed: Printed)
    ensures printed.Fault? <==> PrintingFaults(m)
    ensures printed.Message? <==> ValidMail(m) && Printable(m)
    ensures printed.Message? ==>
              && Encodable(m.body, m.contentType)
              && printed.text == Canonical(MessageText(r, m, EncodePart(env, [], m.body, m.contentType)))
  {
    if ValidMail(m) {
      ValidNeverFaults(m);
    }
    var problems := ValidateMail(m);
    if problems.None? {
      return Fault;
    }
    if problems.value != [] {
      return Refused(problems.value);
    }
    if m.body.Multipart? && m.contentType.raw == "" {
      return Fault;
    }
    ValidMailIsEncodable(m);
    var e := Print(env, [], m.body, m.contentType);
    var header := WriteHeader(r, m, e);
    var messageContent := NormalizeLineEndings(header + [LF] + e.content);
    printed := Message(messageContent);
  }
}
