/**
 * What a delivered message says in its header fields (pkg/mailer/imf.go:15-55): each of them carries
 * its own component of the mail, and none of them the blind recipients.
 */
module SentHeaders {
  import opened Bytes
  import opened LineEndings
  import opened MailTypes
  import opened PartPrinter
  import opened PartParser
  import opened TransferDecoding
  import opened InternetMessage
  import opened HeaderFields
  import opened MessageReading
  import opened MailSender
  import opened TransportSafety

  // ----- reserved names

  /** A name in its canonical spelling. */
  predicate Spelling(name: string) {
    WellSpelled(name) && forall i :: 0 <= i < |name| ==> TokenChar(name[i])
  }

  lemma TokenInAnyCase(key: string, name: string)
    requires ToLower(key) == ToLower(name) && forall i :: 0 <= i < |name| ==> TokenChar(name[i])
    ensures forall i :: 0 <= i < |key| ==> TokenChar(key[i])
  {
    forall i | 0 <= i < |key|
      ensures TokenChar(key[i])
    {
      assert TokenChar(name[i]) && LowerChar(key[i]) == ToLower(key)[i] == ToLower(name)[i] == LowerChar(name[i]);
    }
  }

  /** The keys that are canonicalised to a name are those that are it in any case. */
  lemma CanonicalIff(key: string, name: string)
    requires Spelling(name)
    ensures CanonicalKey(key) == name <==> ToLower(key) == ToLower(name)
  {
    SameInAnyCase(key);
    if ToLower(key) == ToLower(name) {
      TokenInAnyCase(key, name);
      CapitalizedIsSpelled(key);
      SameSpelling(CanonicalKey(key), name);
    }
  }

  lemma NamesAreSpelled()
    ensures Spelling("From") && Spelling("To") && Spelling("Cc") && Spelling("Bcc")
    ensures Spelling("Subject") && Spelling("Date")
  {
  }

  lemma LongNamesAreSpelled()
    ensures Spelling("Reply-To") && Spelling("Message-Id")
  {
  }

  lemma TypeIsSpelled()
    ensures Spelling(TYPE_KEY)
  {
  }

  lemma ShortNamesInLower()
    ensures ToLower("From") == "from" && ToLower("To") == "to" && ToLower("Cc") == "cc" && ToLower("Bcc") == "bcc"
    ensures ToLower("Subject") == "subject" && ToLower("Date") == "date"
  {
  }

  lemma LongNamesInLower()
    ensures ToLower("Reply-To") == "reply-to" && ToLower("Message-Id") == "message-id"
    ensures ToLower(TYPE_KEY) == "content-type"
  {
  }

  /** The reserved keys as the source looks them up, in their canonical spelling. */
  lemma ReservedIff(key: string)
    ensures Reserved(key) <==>
              CanonicalKey(key) in {
                "From", "To", "Cc", "Bcc", "Reply-To", "Subject", "Date", "Message-Id", "Content-Type" }
  {
    NamesAreSpelled();
    LongNamesAreSpelled();
    TypeIsSpelled();
    ShortNamesInLower();
    LongNamesInLower();
    CanonicalIff(key, "From");
    CanonicalIff(key, "To");
    CanonicalIff(key, "Cc");
    CanonicalIff(key, "Bcc");
    CanonicalIff(key, "Reply-To");
    CanonicalIff(key, "Subject");
    CanonicalIff(key, "Date");
    CanonicalIff(key, "Message-Id");
    CanonicalIff(key, TYPE_KEY);
  }

  /** A child's header names its content type exactly if its key is canonicalised to that. */
  lemma NamesContentTypeIff(key: string)
    ensures NamesContentType(key) <==> CanonicalKey(key) == "Content-Type"
  {
    TypeIsSpelled();
    LongNamesInLower();
    CanonicalIff(key, TYPE_KEY);
  }

  /** The extra headers that a mail may have. */
  predicate FreeHeader(h: Header) {
    && KeyLike(h.key) && Visible(h.value)
    && CanonicalKey(h.key) !in {"From", "To", "Cc", "Bcc", "Reply-To", "Subject", "Date", "Message-Id", "Content-Type"}
  }

  lemma FreeHeaderIff(h: Header)
    ensures ValidExtraHeader(h) <==> FreeHeader(h)
  {
    HeaderCharacters(h.key);
    HeaderCharacters(h.value);
    ReservedIff(h.key);
  }

  /** Exactly the valid mails, by what is in them. */
  lemma ValidMailIff(m: Mail)
    ensures ValidMail(m) <==>
              && Visible(m.subject) && (forall k :: 0 <= k < |m.headers| ==> FreeHeader(m.headers[k]))
              && ValidPart(m.body, m.contentType)
              && (m.contentType.raw == "" || m.contentType.media.Some?)
              && (m.contentType.raw != "" && m.body.Multipart? ==>
                    && "multipart/" <= m.contentType.media.value.mediaType
                    && (match m.contentType.media.value.boundary case Some(b) => ValidBoundary(b) case None => true))
  {
    HeaderCharacters(m.subject);
    forall k | 0 <= k < |m.headers|
      ensures ValidExtraHeader(m.headers[k]) <==> FreeHeader(m.headers[k])
    {
      FreeHeaderIff(m.headers[k]);
    }
  }

  // ----- the fields of the envelope and the identity

  /** A list of addresses, and no field for none. */
  function ListValue(r: Rendering, addresses: seq<Address>): Option<bytes> {
    if addresses == [] then None else Some(WrittenValue(JoinAddresses(r, addresses)))
  }

  /** A list is written in order, with a comma between two addresses. */
  lemma {:induction false} AddressesAreJoined(r: Rendering, a: seq<Address>, b: seq<Address>)
    requires a != [] && b != []
    ensures JoinAddresses(r, [a[0]]) == r.address(a[0])
    ensures JoinAddresses(r, a + b) == JoinAddresses(r, a) + [0x2C, 0x20] + JoinAddresses(r, b)
  {
    var comma := Octets(", ");
    assert comma == [0x2C, 0x20];
    if |a| == 1 {
      assert (a + b)[1..] == b;
    } else {
      AddressesAreJoined(r, a[1..], b);
      assert (a + b)[1..] == a[1..] + b;
      Assoc(r.address(a[0]) + comma, JoinAddresses(r, a[1..]), comma);
      Assoc(r.address(a[0]) + comma, JoinAddresses(r, a[1..]) + comma, JoinAddresses(r, b));
    }
  }

  lemma FirstOfAddresses(key: string, r: Rendering, name: string, addresses: seq<Address>)
    ensures FirstOf(key, AddressField(r, name, addresses)) ==
            if ToLower(name) == key then ListValue(r, addresses) else None
  {
    if addresses != [] {
      FirstOfOne(key, HeaderField(name, JoinAddresses(r, addresses)));
    }
  }

  /** The addresses a name stands for; the blind recipients have no name. */
  function EnvelopeValue(key: string, r: Rendering, m: Mail): Option<bytes> {
    match key
    case "from" => Some(WrittenValue(r.address(m.from)))
    case "to" => ListValue(r, m.to)
    case "cc" => ListValue(r, m.cc)
    case "reply-to" => ListValue(r, m.replyTo)
    case _ => None
  }

  function IdentityValue(key: string, r: Rendering, m: Mail): Option<bytes> {
    match key
    case "date" => Some(WrittenValue(r.date(m.date)))
    case "message-id" => Some(WrittenValue([0x3C] + r.octets(m.messageId) + [0x3E]))
    case "subject" => Some(WrittenValue(r.word(m.subject)))
    case _ => None
  }

  function TypeValue(key: string, r: Rendering, m: Mail, e: EncodedPart): Option<bytes> {
    if key == "content-type" && m.contentType.raw != "" then Some(WrittenValue(r.word(e.contentType.raw))) else None
  }

  /** What a name says of the mail; it is in lower case. */
  function SentValue(key: string, r: Rendering, m: Mail, e: EncodedPart): Option<bytes> {
    if EnvelopeValue(key, r, m).Some? then EnvelopeValue(key, r, m)
    else if IdentityValue(key, r, m).Some? then IdentityValue(key, r, m)
    else TypeValue(key, r, m, e)
  }

  lemma FirstOfEnvelope(key: string, r: Rendering, m: Mail)
    ensures FirstOf(key, EnvelopeFields(r, m)) == EnvelopeValue(key, r, m)
  {
    var from := [HeaderField("From", r.address(m.from))];
    var to, cc := AddressField(r, "To", m.to), AddressField(r, "Cc", m.cc);
    ShortNamesInLower();
    LongNamesInLower();
    FirstOfOne(key, from[0]);
    FirstOfAddresses(key, r, "To", m.to);
    FirstOfAddresses(key, r, "Cc", m.cc);
    FirstOfAddresses(key, r, "Reply-To", m.replyTo);
    FirstOfAppend(key, from, to);
    FirstOfAppend(key, from + to, cc);
    FirstOfAppend(key, from + to + cc, AddressField(r, "Reply-To", m.replyTo));
  }

  lemma FirstOfIdentity(key: string, r: Rendering, m: Mail)
    ensures FirstOf(key, IdentityFields(r, m)) == IdentityValue(key, r, m)
  {
    var fields := IdentityFields(r, m);
    ShortNamesInLower();
    LongNamesInLower();
    assert Octets("<") == [0x3C] && Octets(">") == [0x3E];
    assert fields == [fields[0]] + [fields[1]] + [fields[2]];
    FirstOfAppend(key, [fields[0]], [fields[1]]);
    FirstOfAppend(key, [fields[0]] + [fields[1]], [fields[2]]);
    FirstOfOne(key, fields[0]);
    FirstOfOne(key, fields[1]);
    FirstOfOne(key, fields[2]);
  }

  lemma FirstOfVersion(key: string, m: Mail)
    requires key != VERSION
    ensures FirstOf(key, VersionField(m)).None?
  {
    LowerVersion();
    OtherFields(key, VersionField(m));
  }

  lemma FirstOfBody(key: string, r: Rendering, m: Mail, e: EncodedPart)
    requires key != ENCODING
    ensures FirstOf(key, BodyFields(r, m, e)) == TypeValue(key, r, m, e)
  {
    var body, last := BodyFields(r, m, e), HeaderField(ENCODING_KEY, r.word(e.cte));
    LowerEncoding();
    LongNamesInLower();
    FirstOfOne(key, last);
    if m.contentType.raw != "" {
      FirstOfAppend(key, [body[0]], [last]);
      FirstOfOne(key, body[0]);
    }
  }

  lemma NoReservedExtra(key: string, r: Rendering, m: Mail)
    requires ValidMail(m) && Reserved(key) && ToLower(key) == key
    ensures FirstOf(key, ExtraFields(r, m.headers)).None?
  {
    forall k | 0 <= k < |m.headers|
      ensures ToLower(m.headers[k].key) != key
    {
      assert ValidExtraHeader(m.headers[k]);
    }
    NoExtraField(key, r, m.headers);
  }

  lemma ReservedIsShort(key: string)
    requires Reserved(key) && ToLower(key) == key
    ensures key != VERSION && key != ENCODING && LowerCaseKey(key)
  {
    assert VERSION[0] == 'm' && "content-type"[0] == 'c';
  }

  lemma FirstOfReserved(key: string, r: Rendering, m: Mail, e: EncodedPart)
    requires ValidMail(m) && Reserved(key) && ToLower(key) == key
    ensures FirstOf(key, Fields(r, m, e)) == SentValue(key, r, m, e)
  {
    var envelope, identity, extra := EnvelopeFields(r, m), IdentityFields(r, m), ExtraFields(r, m.headers);
    var version, body := VersionField(m), BodyFields(r, m, e);
    ReservedIsShort(key);
    NoReservedExtra(key, r, m);
    FirstOfEnvelope(key, r, m);
    FirstOfIdentity(key, r, m);
    FirstOfVersion(key, m);
    FirstOfBody(key, r, m, e);
    FirstOfAppend(key, envelope, identity);
    FirstOfAppend(key, envelope + identity, extra);
    FirstOfAppend(key, envelope + identity + extra, version);
    FirstOfAppend(key, envelope + identity + extra + version, body);
  }

  /**
   * The reader of a printed message finds, under each reserved name, the component of the mail that
   * belongs there, and nothing where the mail has none.
   */
  lemma ReservedFieldsAreSent(key: string, r: Rendering, m: Mail, e: EncodedPart)
    requires ValidMail(m) && Reserved(key) && ToLower(key) == key
    requires FieldsSurvive(Fields(r, m, e)) && AllFolded(Fields(r, m, e))
    ensures FirstField(key, HeaderLines(Lines(Canonical(MessageText(r, m, e))))) == SentValue(key, r, m, e)
  {
    MessageSplits(r, m, e);
    ReservedIsShort(key);
    ValidHeaderKeys(m);
    FieldNamesAreValid(r, m, e);
    FieldsAreRead(key, Fields(r, m, e));
    FirstOfReserved(key, r, m, e);
  }

  /** No field of that name is in the message. */
  lemma BccIsNotSent(r: Rendering, m: Mail, e: EncodedPart)
    requires ValidMail(m) && FieldsSurvive(Fields(r, m, e)) && AllFolded(Fields(r, m, e))
    ensures FirstField("bcc", HeaderLines(Lines(Canonical(MessageText(r, m, e))))) == None
  {
    ShortNamesInLower();
    assert ToLower("bcc") == "bcc";
    ReservedFieldsAreSent("bcc", r, m, e);
  }

  // ----- extra headers

  /** The spelling of a key on the wire: that of the library for tokens, its own otherwise. */
  lemma CanonicalSpelling(key: string, i: nat)
    requires i < |key|
    ensures |CanonicalKey(key)| == |key|
    ensures CanonicalKey(key)[i] ==
            if exists k :: 0 <= k < |key| && !TokenChar(key[k]) then key[i]
            else if i == 0 || key[i - 1] == '-' then UpperChar(key[i]) else LowerChar(key[i])
  {
    CapitalizedAt(key, true, i);
  }

  lemma Case(c: char)
    ensures UpperChar(c) == if 'a' <= c <= 'z' then c - 'a' + 'A' else c
    ensures LowerChar(c) == if 'A' <= c <= 'Z' then c - 'A' + 'a' else c
  {
  }

  /** Section 3.2.3 of RFC 5322 leaves out these, and the dot, which is allowed here. */
  lemma TokenCharacters(c: char)
    requires '!' <= c < '@'
    ensures TokenChar(c) <==> c !in "()<>,;:\"/?="
  {
  }

  lemma LaterTokenCharacters(c: char)
    requires '@' <= c <= '~'
    ensures TokenChar(c) <==> c !in "@\\[]{}"
  {
  }

  predicate IsField(f: HeaderField, r: Rendering, h: Header) {
    h.value != "" && f == HeaderField(CanonicalKey(h.key), r.word(h.value))
  }

  predicate AmongFields(f: HeaderField, r: Rendering, headers: seq<Header>) {
    exists k :: 0 <= k < |headers| && IsField(f, r, headers[k])
  }

  lemma AmongStep(f: HeaderField, r: Rendering, headers: seq<Header>)
    requires headers != []
    ensures AmongFields(f, r, headers) <==>
              AmongFields(f, r, headers[..|headers| - 1]) || IsField(f, r, headers[|headers| - 1])
  {
    var init := headers[..|headers| - 1];
    if k :| 0 <= k < |headers| && IsField(f, r, headers[k]) {
      assert k < |init| ==> init[k] == headers[k];
    }
    if AmongFields(f, r, init) {
      var k :| 0 <= k < |init| && IsField(f, r, init[k]);
      assert headers[k] == init[k];
    }
  }

  /** Exactly the extra headers with a value are written, each under its canonical key. */
  lemma {:induction false} ExtraFieldsIff(r: Rendering, headers: seq<Header>, f: HeaderField)
    ensures f in ExtraFields(r, headers) <==> AmongFields(f, r, headers)
  {
    if headers != [] {
      ExtraFieldsIff(r, headers[..|headers| - 1], f);
      AmongStep(f, r, headers);
    }
  }

  lemma FreeName(key: string, r: Rendering, m: Mail, e: EncodedPart)
    requires !Reserved(key) && ToLower(key) == key
    ensures EnvelopeValue(key, r, m).None? && IdentityValue(key, r, m).None? && TypeValue(key, r, m, e).None?
  {
  }

  /** Under any other name the reader finds the first extra header of that name that has a value. */
  lemma ExtraIsRead(key: string, r: Rendering, m: Mail, e: EncodedPart)
    requires ValidMail(m) && LowerCaseKey(key) && ToLower(key) == key && !Reserved(key) && key !in {VERSION, ENCODING}
    requires FieldsSurvive(Fields(r, m, e)) && AllFolded(Fields(r, m, e))
    ensures FirstField(key, HeaderLines(Lines(Canonical(MessageText(r, m, e))))) ==
            FirstOf(key, ExtraFields(r, m.headers))
  {
    var envelope, identity, extra := EnvelopeFields(r, m), IdentityFields(r, m), ExtraFields(r, m.headers);
    MessageSplits(r, m, e);
    ValidHeaderKeys(m);
    FieldNamesAreValid(r, m, e);
    FieldsAreRead(key, Fields(r, m, e));
    FreeName(key, r, m, e);
    FirstOfEnvelope(key, r, m);
    FirstOfIdentity(key, r, m);
    FirstOfVersion(key, m);
    FirstOfBody(key, r, m, e);
    FirstOfAppend(key, envelope, identity);
    FirstOfAppend(key, envelope + identity, extra);
    FirstOfAppend(key, envelope + identity + extra, VersionField(m));
    FirstOfAppend(key, envelope + identity + extra + VersionField(m), BodyFields(r, m, e));
  }

  // ----- the delivery

  lemma FieldsHideBcc(r: Rendering, m: Mail, bcc: seq<Address>, e: EncodedPart)
    ensures MessageText(r, m.(bcc := bcc), e) == MessageText(r, m, e)
  {
    assert Fields(r, m.(bcc := bcc), e) == Fields(r, m, e);
  }

  /** Blind recipients change nothing of the message, whoever they are. */
  lemma BccIsHidden(env: Env, r: Rendering, m: Mail, bcc: seq<Address>)
    requires Sendable(m)
    ensures Sendable(m.(bcc := bcc))
    ensures DeliveryOf(env, r, m.(bcc := bcc)).message == DeliveryOf(env, r, m).message
  {
    ValidMailIsEncodable(m);
    FieldsHideBcc(r, m, bcc, EncodePart(env.(has8Bit := false), [], m.body, m.contentType));
  }

  /** They are delivered to all the same, after everybody who is named. */
  lemma BccIsReached(m: Mail)
    ensures |FinalRecipients(m)| == |m.to| + |m.cc| + |m.bcc|
    ensures forall i :: 0 <= i < |m.to| ==> FinalRecipients(m)[i] == m.to[i].address
    ensures forall i :: 0 <= i < |m.cc| ==> FinalRecipients(m)[|m.to| + i] == m.cc[i].address
    ensures forall i :: 0 <= i < |m.bcc| ==> FinalRecipients(m)[|m.to| + |m.cc| + i] == m.bcc[i].address
  {
  }

  /** The envelope sender is the address that the From field shows. */
  lemma SenderIsShown(env: Env, r: Rendering, m: Mail) returns (shown: Address)
    requires Sendable(m) && Encodable(m.body, m.contentType)
    requires var e := EncodePart(env.(has8Bit := false), [], m.body, m.contentType);
             FieldsSurvive(Fields(r, m, e)) && AllFolded(Fields(r, m, e))
    ensures DeliveryOf(env, r, m).from == shown.address
    ensures FirstField("from", HeaderLines(Lines(DeliveryOf(env, r, m).message))) ==
            Some(WrittenValue(r.address(shown)))
  {
    shown := m.from;
    ShortNamesInLower();
    assert ToLower("from") == "from";
    ReservedFieldsAreSent("from", r, m, EncodePart(env.(has8Bit := false), [], m.body, m.contentType));
  }

  lemma BodyIsSafe(ls: seq<bytes>, body: seq<bytes>)
    requires HeaderEnd(ls) < |ls| && BodyLines(ls) == body && SafeLines(false, body)
    ensures forall i :: HeaderEnd(ls) <= i < |ls| ==> |ls[i]| <= 998 && Ascii(ls[i])
  {
    forall i | HeaderEnd(ls) < i < |ls|
      ensures |ls[i]| <= 998 && Ascii(ls[i])
    {
      assert ls[i] == body[i - HeaderEnd(ls) - 1] && SafeLine(false, body[i - HeaderEnd(ls) - 1]);
    }
  }

  /** After its header every line of a delivered message is ASCII and has at most 998 octets. */
  lemma DeliveryIsTransportSafe(env: Env, r: Rendering, m: Mail)
    requires Sendable(m) && SafeFraming(env.(has8Bit := false), [], m.body, m.contentType)
    requires FieldsSurvive(Fields(r, m, EncodePart(env.(has8Bit := false), [], m.body, m.contentType)))
    ensures var ls := Lines(DeliveryOf(env, r, m).message);
            && HeaderEnd(ls) < |ls|
            && forall i :: HeaderEnd(ls) <= i < |ls| ==> |ls[i]| <= 998 && Ascii(ls[i])
  {
    var env' := env.(has8Bit := false);
    var e := EncodePart(env', [], m.body, m.contentType);
    MessageSplits(r, m, e);
    TreeIsTransportSafe(env', [], m.body, m.contentType);
    LinesOfCanonical(e.content);
    BodyIsSafe(Lines(DeliveryOf(env, r, m).message), Lines(e.content));
  }
}
