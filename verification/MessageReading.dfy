/**
 * The receiving side's view of a whole message (pkg/smtpserver/server.go:222, :343-355): where its
 * header ends, and when its body comes back.
 */
module MessageReading {
  import opened Bytes
  import opened LineEndings
  import opened MailTypes
  import opened PartPrinter
  import opened PartParser
  import opened TransferDecoding
  import opened InternetMessage
  import opened HeaderFields
  import opened TreeFidelity
  import opened Collisions
  import opened EncodingMismatch
  import TreeRoundTrip
  import QP = QuotedPrintable
  import SizeEstimate

  // ----- reading a message

  /** The header lines and the body lines of a message: the first blank line separates them. */
  function HeaderLines(message: seq<bytes>): seq<bytes> {
    message[..HeaderEnd(message)]
  }

  function BodyLines(message: seq<bytes>): seq<bytes>
    requires HeaderEnd(message) < |message|
  {
    message[HeaderEnd(message) + 1..]
  }

  /** The rewritten message splits into its header fields and the lines of the printed body. */
  lemma MessageSplits(r: Rendering, m: Mail, e: EncodedPart)
    requires FieldsSurvive(Fields(r, m, e))
    ensures var ls := Lines(Canonical(MessageText(r, m, e)));
            && HeaderEnd(ls) < |ls|
            && HeaderLines(ls) == FieldLines(Fields(r, m, e))
            && BodyLines(ls) == Lines(e.content)
  {
    var fields := Fields(r, m, e);
    var text := MessageText(r, m, e);
    LinesOfCanonical(text);
    LinesOfFieldBlock(fields, [LF] + e.content);
    assert FieldBlock(fields) + ([LF] + e.content) == text;
    LinesAfterLf(e.content);
    FieldLinesNotBlank(fields);
    var ls := Lines(text);
    assert ls == FieldLines(fields) + [[]] + Lines(e.content);
    TreeRoundTrip.HeaderEndAt(FieldLines(fields), Lines(e.content));
  }

  /** The body of a received message. */
  function ReadBody(codec: Codec, message: bytes): Result<Part, ParseError> {
    var ls := Lines(message);
    if HeaderEnd(ls) == |ls| then Err(MalformedHeader)
    else
      match codec.readHeader(HeaderLines(ls))
      case None => Err(MalformedHeader)
      case Some(h) =>
        var header := EntityHeader(h.contentType, EncodingOf(HeaderLines(ls)));
        ParseBody(codec, NamesVersion(HeaderLines(ls)), header, BodyLines(ls))
  }

  // ----- the round trip

  /** Octets that are read the same whether their encoding is undone or not. */
  predicate NeedsNoDecoding(has8Bit: bool, p: Part) {
    p.Binary? && LeafFits(has8Bit, p.data, "")
  }

  lemma NoName()
    ensures DecoderOf("") == Plain
  {
  }

  /** Short printable lines ended by LF are such a body, of any length: they may go as quoted-printable. */
  lemma PlainNeedsNoDecoding(has8Bit: bool, data: bytes)
    requires QP.Plain(data) && CR !in data
    ensures NeedsNoDecoding(has8Bit, Binary(data))
  {
    SizeEstimate.EstimateOfPlain(data);
    SentDecoder(has8Bit, data);
    NoName();
  }

  lemma UndecodedLeaf(env: Env, p: Part, contentType: ContentType)
    requires Encodable(p, contentType) && TypesMatchKinds(p, contentType)
    ensures var e := EncodePart(env, [], p, contentType);
            Arrives(env.has8Bit, p, Binary(Canonical(e.content))) <==> NeedsNoDecoding(env.has8Bit, p)
  {
    if p.Binary? {
      LeafFitsIff(env, p, contentType, "");
      NoName();
    }
  }

  /** Reading a message gives its body tree, up to line endings. */
  predicate BodyReturns(env: Env, message: bytes, p: Part) {
    ReadBody(env.codec, message).Ok? && Arrives(env.has8Bit, p, ReadBody(env.codec, message).value)
  }

  /** The header reads back with its content type. */
  predicate TypeSurvives(codec: Codec, fields: seq<HeaderField>, contentType: ContentType) {
    var read := codec.readHeader(FieldLines(fields));
    read.Some? && read.value.contentType == contentType
  }

  /**
   * A printed message is read under its printed content type, as MIME exactly if it was sent so, and
   * under the transfer encoding that was sent first.
   */
  lemma MessageIsRead(env: Env, r: Rendering, m: Mail, e: EncodedPart)
    requires forall k :: 0 <= k < |m.headers| ==> ValidHeaderKey(m.headers[k].key)
    requires FieldsSurvive(Fields(r, m, e)) && AllFolded(Fields(r, m, e))
    requires TypeSurvives(env.codec, Fields(r, m, e), e.contentType)
    ensures ReadBody(env.codec, Canonical(MessageText(r, m, e))) ==
            ParseBody(env.codec, SendsVersion(r, m), EntityHeader(e.contentType, SentEncoding(r, m, e)),
                      Lines(e.content))
  {
    MessageSplits(r, m, e);
    FieldsDecide(r, m, e);
  }

  lemma ValidHeaderKeys(m: Mail)
    requires ValidMail(m)
    ensures forall k :: 0 <= k < |m.headers| ==> ValidHeaderKey(m.headers[k].key)
  {
    assert forall k :: 0 <= k < |m.headers| ==> ValidExtraHeader(m.headers[k]);
  }

  /**
   * Whether a printed message gives its body back.  Where it names a MIME version it does so exactly
   * if the transfer encoding that was sent first fits the body and no line of the body looks like a
   * boundary around it; otherwise the printed body arrives as octets, and it does so exactly if it is
   * octets that no encoding changed.
   */
  lemma MessageRoundTrip(env: Env, r: Rendering, m: Mail)
    requires ValidMail(m) && Framed(env, [], m.body, m.contentType) && TypesMatchKinds(m.body, m.contentType)
    requires var e := EncodePart(env, [], m.body, m.contentType);
             && FieldsSurvive(Fields(r, m, e)) && AllFolded(Fields(r, m, e))
             && TypeSurvives(env.codec, Fields(r, m, e), e.contentType)
    ensures var e := EncodePart(env, [], m.body, m.contentType);
            BodyReturns(env, Canonical(MessageText(r, m, e)), m.body) <==>
              if SendsVersion(r, m) then
                && NameFits(env.has8Bit, m.body, SentEncoding(r, m, e))
                && !Collides(env, [], m.body, m.contentType)
              else NeedsNoDecoding(env.has8Bit, m.body)
    ensures var e := EncodePart(env, [], m.body, m.contentType);
            !SendsVersion(r, m) ==>
              ReadBody(env.codec, Canonical(MessageText(r, m, e))) == Ok(Binary(Canonical(e.content)))
  {
    var e := EncodePart(env, [], m.body, m.contentType);
    ValidHeaderKeys(m);
    MessageIsRead(env, r, m, e);
    if SendsVersion(r, m) {
      NamedRoundTripIff(env, [], m.body, m.contentType, SentEncoding(r, m, e));
    } else {
      UndecodedLeaf(env, m.body, m.contentType);
    }
  }

  lemma OwnNameIsPlain(env: Env, path: seq<nat>, p: Part, contentType: ContentType)
    requires Encodable(p, contentType)
    ensures PlainName(EncodePart(env, path, p, contentType).cte)
  {
    NamesArePlain();
  }

  lemma OwnNameFits(env: Env, path: seq<nat>, p: Part, contentType: ContentType)
    requires Encodable(p, contentType)
    ensures NameFits(env.has8Bit, p, EncodePart(env, path, p, contentType).cte)
  {
    TreeRoundTrip.IdentityNames();
  }

  /** Without an extra header of that name the printer's own transfer encoding is the one that is read. */
  lemma OwnEncodingFits(env: Env, r: Rendering, m: Mail)
    requires Encodable(m.body, m.contentType)
    requires forall k :: 0 <= k < |m.headers| ==> ToLower(m.headers[k].key) != ENCODING
    requires var e := EncodePart(env, [], m.body, m.contentType); r.word(e.cte) == Octets(e.cte)
    ensures var e := EncodePart(env, [], m.body, m.contentType);
            SentEncoding(r, m, e) == e.cte && NameFits(env.has8Bit, m.body, e.cte)
  {
    var e := EncodePart(env, [], m.body, m.contentType);
    NoExtraField(ENCODING, r, m.headers);
    OwnNameIsPlain(env, [], m.body, m.contentType);
    NameIsPlain(e.cte);
    OwnNameFits(env, [], m.body, m.contentType);
  }
}
