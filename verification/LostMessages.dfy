/** Valid mails and bodies that do not come back from their printed form, one for each reason. */
module LostMessages {
  import opened Bytes
  import opened LineEndings
  import opened MailTypes
  import opened PartPrinter
  import opened PartParser
  import opened TransferDecoding
  import opened InternetMessage
  import opened HeaderFields
  import opened TreeRoundTrip
  import opened TreeFidelity
  import opened Collisions
  import opened MessageReading
  import Acceptance
  import QP = QuotedPrintable
  import Utf8

  // ----- the sample

  /** An environment whose codec reads every header block as `h`. */
  function SampleEnv(h: EntityHeader): Env {
    Env(Codec(media => ContentType("multipart/mixed", Some(media)), _ => [[0x61]], _ => Some(h), (_, raw) => raw),
        _ => [DASH], false)
  }

  function SampleRendering(): Rendering {
    Rendering((a: Address) => Octets(a.address), _ => Octets("0"), s => Octets(s), s => Octets(s))
  }

  /** A mail whose body is the letter h. */
  function SampleMail(contentType: ContentType, headers: seq<Header>): Mail {
    Mail(Address("", "a@x"), [], [Address("", "b@x")], [], [], "s", 0, "1@x", contentType, headers, Text([0x68]))
  }

  /** The message that goes out for it. */
  function SampleMessage(contentType: ContentType, headers: seq<Header>): bytes {
    var m := SampleMail(contentType, headers);
    var env := SampleEnv(EntityHeader(contentType, "7bit"));
    Canonical(MessageText(SampleRendering(), m, EncodePart(env, [], m.body, contentType)))
  }

  function SampleRead(contentType: ContentType, headers: seq<Header>): Result<Part, ParseError> {
    ReadBody(SampleEnv(EntityHeader(contentType, "7bit")).codec, SampleMessage(contentType, headers))
  }

  predicate CleanValues(fields: seq<HeaderField>) {
    forall i :: 0 <= i < |fields| ==> Clean(fields[i].value)
  }

  lemma OneLinersSurvive(fields: seq<HeaderField>)
    requires ValidKeys(fields) && CleanValues(fields)
    ensures FieldsSurvive(fields) && AllFolded(fields)
  {
    forall i | 0 <= i < |fields|
      ensures FieldSurvives(fields[i]) && Folded(fields[i])
    {
      KeyIsClean(fields[i].key);
      LinesOfClean(FieldOctets(fields[i]));
    }
  }

  lemma VisibleIsClean(s: string)
    requires ValidHeaderValue(s)
    ensures Clean(Octets(s))
  {
    forall i | 0 <= i < |s|
      ensures Octets(s)[i] != CR && Octets(s)[i] != LF
    {
      assert !IsControl(s[i]);
    }
  }

  lemma {:induction false} ExtraValuesAreClean(headers: seq<Header>)
    requires forall k :: 0 <= k < |headers| ==> ValidHeaderValue(headers[k].value)
    ensures CleanValues(ExtraFields(SampleRendering(), headers))
  {
    if headers != [] {
      ExtraValuesAreClean(headers[..|headers| - 1]);
      VisibleIsClean(headers[|headers| - 1].value);
    }
  }

  lemma CleanValuesAppend(a: seq<HeaderField>, b: seq<HeaderField>)
    requires CleanValues(a) && CleanValues(b)
    ensures CleanValues(a + b)
  {
  }

  lemma SampleWords(contentType: ContentType)
    requires contentType == NO_TYPE || contentType == PLAIN_TEXT
    ensures Clean(Octets("a@x")) && Clean(Octets("b@x")) && Clean(Octets("0")) && Clean(Octets("1.0"))
    ensures Clean(Octets("<") + Octets("1@x") + Octets(">"))
    ensures Clean(Octets("s")) && Clean(Octets("7bit")) && Clean(Octets(contentType.raw))
  {
    VisibleIsClean("a@x");
    VisibleIsClean("b@x");
    VisibleIsClean("0");
    VisibleIsClean("1.0");
    VisibleIsClean("<");
    VisibleIsClean("1@x");
    VisibleIsClean(">");
    VisibleIsClean("s");
    VisibleIsClean("7bit");
    VisibleIsClean(contentType.raw);
  }

  lemma SampleFieldsSurvive(contentType: ContentType, headers: seq<Header>)
    requires contentType == NO_TYPE || contentType == PLAIN_TEXT
    requires forall k :: 0 <= k < |headers| ==> ValidExtraHeader(headers[k])
    ensures var fields := Fields(SampleRendering(), SampleMail(contentType, headers),
                                 EncodedPart([0x68], "7bit", contentType));
            FieldsSurvive(fields) && AllFolded(fields)
  {
    var r, m, e := SampleRendering(), SampleMail(contentType, headers), EncodedPart([0x68], "7bit", contentType);
    SampleWords(contentType);
    ExtraValuesAreClean(headers);
    CleanValuesAppend(EnvelopeFields(r, m), IdentityFields(r, m));
    CleanValuesAppend(EnvelopeFields(r, m) + IdentityFields(r, m), ExtraFields(r, headers));
    CleanValuesAppend(EnvelopeFields(r, m) + IdentityFields(r, m) + ExtraFields(r, headers), VersionField(m));
    FieldNamesAreValid(r, m, e);
    OneLinersSurvive(Fields(r, m, e));
  }

  lemma SampleIsValid(contentType: ContentType, headers: seq<Header>)
    requires contentType == NO_TYPE || contentType == PLAIN_TEXT
    requires forall k :: 0 <= k < |headers| ==> ValidExtraHeader(headers[k])
    ensures ValidMail(SampleMail(contentType, headers))
  {
    Utf8.AsciiIsValid([0x68]);
    assert "text/plain; charset=utf-8"[0] == 't' && "message/"[0] == 'm' && "multipart/"[0] == 'm';
  }

  /** A short line of visible ASCII is printed as it is. */
  lemma LineIsPrinted(env: Env, path: seq<nat>, s: bytes, contentType: ContentType)
    requires !env.has8Bit && |s| <= Acceptance.MAX_LINE && forall i :: 0 <= i < |s| ==> 0x20 <= s[i] < 0x7F
    ensures EncodePart(env, path, Text(s), contentType) == EncodedPart(s, "7bit", contentType)
    ensures Lines(s) == [s] && Canonical(s) == s
  {
    LinesOfClean(s);
    Acceptance.ChunksOfPaired(s);
  }

  /** The sample as it is read. */
  lemma SampleIsRead(contentType: ContentType, headers: seq<Header>)
    requires contentType == NO_TYPE || contentType == PLAIN_TEXT
    requires forall k :: 0 <= k < |headers| ==> ValidExtraHeader(headers[k])
    ensures var m, r := SampleMail(contentType, headers), SampleRendering();
            var e := EncodedPart([0x68], "7bit", contentType);
            && ValidMail(m)
            && SampleRead(contentType, headers) ==
               ParseBody(SampleEnv(EntityHeader(contentType, "7bit")).codec, SendsVersion(r, m),
                         EntityHeader(contentType, SentEncoding(r, m, e)), [[0x68]])
  {
    var m, r, e := SampleMail(contentType, headers), SampleRendering(), EncodedPart([0x68], "7bit", contentType);
    var env := SampleEnv(EntityHeader(contentType, "7bit"));
    SampleIsValid(contentType, headers);
    LineIsPrinted(env, [], [0x68], contentType);
    SampleFieldsSurvive(contentType, headers);
    MessageIsRead(env, r, m, e);
  }

  // ----- without a MIME version

  /** Without a content type there is no Mime-Version field, and the text arrives as octets. */
  lemma UntypedTextIsReadAsOctets()
    ensures ValidMail(SampleMail(NO_TYPE, []))
    ensures SampleRead(NO_TYPE, []) == Ok(Binary([0x68]))
  {
    SampleIsRead(NO_TYPE, []);
  }

  lemma LowerNameIsFree(lower: string)
    requires |lower| > 12 || (|lower| == 12 && lower[1] == 'i')
    ensures lower !in { "from", "to", "cc", "bcc", "reply-to", "subject", "date", "message-id", "content-type" }
  {
    assert "content-type"[1] == 'o';
  }

  lemma NamesAreTokens()
    ensures forall i :: 0 <= i < |VERSION| ==> TokenChar(VERSION[i])
    ensures forall i :: 0 <= i < |ENCODING| ==> TokenChar(ENCODING[i])
  {
  }

  lemma FreeNameIsValid(key: string, value: string)
    requires ToLower(key) == VERSION || ToLower(key) == ENCODING
    requires ValidHeaderValue(value)
    ensures ValidExtraHeader(Header(key, value))
  {
    LowerNameIsFree(ToLower(key));
    NamesAreTokens();
    LowerIsToken(key);
  }

  lemma EmptyVersionIsSwallowed(r: Rendering, contentType: ContentType, key: string)
    requires ToLower(key) == VERSION
    ensures !SendsVersion(r, SampleMail(contentType, [Header(key, "")]))
  {
    var headers, none: seq<Header> := [Header(key, "")], [];
    AnyCaseIsMimeVersion(key);
    assert headers[..0] == none;
    assert HasMimeVersion(headers) && ExtraFields(r, headers) == [];
  }

  /** An empty Mime-Version header suppresses the printer's own field and is swallowed itself. */
  lemma EmptyVersionIsReadAsOctets(key: string)
    requires ToLower(key) == VERSION
    ensures ValidMail(SampleMail(PLAIN_TEXT, [Header(key, "")]))
    ensures SampleRead(PLAIN_TEXT, [Header(key, "")]) == Ok(Binary([0x68]))
  {
    FreeNameIsValid(key, "");
    SampleIsRead(PLAIN_TEXT, [Header(key, "")]);
    EmptyVersionIsSwallowed(SampleRendering(), PLAIN_TEXT, key);
  }

  // ----- with a transfer encoding of somebody else's

  lemma ForeignEncodingIsSent(r: Rendering, m: Mail, e: EncodedPart, key: string)
    requires m.headers == [Header(key, "base64")] && ToLower(key) == ENCODING && r.word("base64") == Octets("base64")
    ensures SentEncoding(r, m, e) == "base64" && !HasMimeVersion(m.headers)
  {
    var h, none: seq<Header> := Header(key, "base64"), [];
    assert [h][..0] == none;
    SameInAnyCase(key);
    AnyCaseIsMimeVersion(key);
    FirstOfOne(ENCODING, HeaderField(CanonicalKey(key), Octets("base64")));
    assert ExtraFields(r, [h]) == [HeaderField(CanonicalKey(key), Octets("base64"))];
    NamesArePlain();
    NameIsPlain("base64");
  }

  lemma SentVersion(r: Rendering, m: Mail)
    requires !HasMimeVersion(m.headers) && m.contentType.raw != ""
    ensures SendsVersion(r, m)
  {
  }

  lemma LetterIsNotBase64(codec: Codec)
    ensures ParsePart(codec, EntityHeader(PLAIN_TEXT, "base64"), [[0x68]]) == Err(UndecodableBody)
  {
    NormalizeNames();
    assert "text/plain"[0] != "multipart/"[0];
  }

  /** An extra Content-Transfer-Encoding header goes out before the printer's own and is the one that is read. */
  lemma ForeignEncodingIsLost(key: string)
    requires ToLower(key) == ENCODING
    ensures ValidMail(SampleMail(PLAIN_TEXT, [Header(key, "base64")]))
    ensures SampleRead(PLAIN_TEXT, [Header(key, "base64")]) == Err(UndecodableBody)
  {
    var m := SampleMail(PLAIN_TEXT, [Header(key, "base64")]);
    FreeNameIsValid(key, "base64");
    SampleIsRead(PLAIN_TEXT, [Header(key, "base64")]);
    ForeignEncodingIsSent(SampleRendering(), m, EncodedPart([0x68], "7bit", PLAIN_TEXT), key);
    SentVersion(SampleRendering(), m);
    LetterIsNotBase64(SampleEnv(EntityHeader(PLAIN_TEXT, "7bit")).codec);
  }

  // ----- with a boundary in the text

  /** The text --x below a multipart whose boundary is x. */
  function BoundedType(): ContentType {
    ContentType("multipart/mixed; boundary=x", Some(Media("multipart/mixed", "", Some([0x78]))))
  }

  function BoundaryInText(): Part {
    Multipart([Child(PLAIN_TEXT, [], Text([DASH, DASH, 0x78]))])
  }

  lemma TextTypeMatches(text: bytes)
    requires Ascii(text)
    ensures TypesMatchKinds(Text(text), PLAIN_TEXT) && !HasPrefix(MediaOf(PLAIN_TEXT).mediaType, "multipart/")
  {
    NormalizeName("utf-8");
    Utf8.AsciiIsValid(text);
    assert "text/plain"[0] != "multipart/"[0];
  }

  lemma BoundaryInTextTravels(env: Env)
    requires env == SampleEnv(EntityHeader(PLAIN_TEXT, "7bit"))
    ensures BoundaryTravels(env, [], BoundedType().media.value)
  {
    var media := BoundedType().media.value;
    assert ValidBoundary([0x78]);
    assert "multipart/" <= media.mediaType;
  }

  lemma TextIsFramed(env: Env, path: seq<nat>)
    requires env == SampleEnv(EntityHeader(PLAIN_TEXT, "7bit"))
    ensures var text := Text([DASH, DASH, 0x78]);
            && Framed(env, path, text, PLAIN_TEXT) && TypesMatchKinds(text, PLAIN_TEXT)
            && EncodePart(env, path, text, PLAIN_TEXT) == EncodedPart(text.text, "7bit", PLAIN_TEXT)
            && HeaderOfChildSurvives(env, EncodePart(env, path, text, PLAIN_TEXT))
  {
    LineIsPrinted(env, path, [DASH, DASH, 0x78], PLAIN_TEXT);
    TextTypeMatches([DASH, DASH, 0x78]);
  }

  lemma BoundaryInTextIsFramed(env: Env)
    requires env == SampleEnv(EntityHeader(PLAIN_TEXT, "7bit"))
    ensures Framed(env, [], BoundaryInText(), BoundedType()) && TypesMatchKinds(BoundaryInText(), BoundedType())
    ensures EncodeChild(env, [], BoundaryInText(), BoundedType(), 0) ==
            EncodedPart([DASH, DASH, 0x78], "7bit", PLAIN_TEXT)
  {
    BoundaryInTextTravels(env);
    TextIsFramed(env, [] + [0]);
  }

  /** The text ends its own part: the tree is printed in good form and not read back. */
  lemma BoundaryInTextIsLost()
    ensures var env, p, t := SampleEnv(EntityHeader(PLAIN_TEXT, "7bit")), BoundaryInText(), BoundedType();
            && Framed(env, [], p, t) && TypesMatchKinds(p, t) && Collides(env, [], p, t)
            && var e := EncodePart(env, [], p, t);
               !ReadsBack(env, p, EntityHeader(e.contentType, e.cte), Lines(Canonical(e.content)))
  {
    var env, p, t := SampleEnv(EntityHeader(PLAIN_TEXT, "7bit")), BoundaryInText(), BoundedType();
    var line: bytes := [DASH, DASH, 0x78];
    BoundaryInTextIsFramed(env);
    LineIsPrinted(env, [0], line, PLAIN_TEXT);
    DelimiterLine([0x78]);
    assert DashBoundary([0x78]) == line;
    assert EndsChild([line][0], [0x78]);
    assert ChildCollides(env, [], p, t, 0);
    RoundTripIff(env, [], p, t);
  }
}
