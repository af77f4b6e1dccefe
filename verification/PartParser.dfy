/** Reading a body tree back: `parsePart` and `parseChild` of pkg/smtpserver/server.go:369-472. */
module PartParser {
  import opened Bytes
  import opened LineEndings
  import opened MailTypes
  import opened PartPrinter
  import opened TransferDecoding
  import QP = QuotedPrintable
  import Utf8

  datatype ParseError =
    | EncodedMultipart
    | MissingBoundary
    | MalformedHeader
    | UnexpectedEnd
    | UnexpectedLine
    | UndecodableBody

  /** The default of section 5.2 of RFC 2045, also for a content type that does not parse. */
  const DEFAULT_MEDIA := Media("text/plain", "us-ascii", None)

  function MediaOf(contentType: ContentType): Media {
    match contentType.media
    case Some(media) => media
    case None => DEFAULT_MEDIA
  }

  predicate IdentityCte(cte: string) {
    var lower := ToLower(cte);
    lower == "" || lower == "7bit" || lower == "8bit" || lower == "binary"
  }

  predicate Utf8Charset(charset: string) {
    var name := NormalizeCte(charset);
    name == "" || name == "us-ascii" || name == "ascii" || name == "utf-8"
  }

  function DecodeText(codec: Codec, raw: bytes, charset: string): bytes {
    if Utf8Charset(charset) then raw else codec.transcode(NormalizeCte(charset), raw)
  }

  /** Text where the media type says so and the octets allow it, otherwise octets. */
  function LeafOf(codec: Codec, media: Media, raw: bytes): Part {
    if HasPrefix(media.mediaType, "text/") && Utf8.Valid(DecodeText(codec, raw, media.charset)) then
      Text(ReplaceAll(DecodeText(codec, raw, media.charset), CRLF, [LF]))
    else
      Binary(raw)
  }

  // ----- boundary lines, section 5.1.1 of RFC 2046

  predicate AllBlank(s: bytes) {
    forall i :: 0 <= i < |s| ==> QP.Blank(s[i])
  }

  predicate StartsWith(line: bytes, prefix: bytes) {
    |prefix| <= |line| && line[..|prefix|] == prefix
  }

  /** A delimiter line, padding allowed. */
  predicate IsDelimiter(line: bytes, b: bytes) {
    StartsWith(line, DashBoundary(b)) && AllBlank(line[|b| + 2..])
  }

  predicate IsClose(line: bytes, b: bytes) {
    StartsWith(line, CloseDelimiter(b)) && AllBlank(line[|b| + 4..])
  }

  /** A line at which the reader ends the content of a child. */
  predicate EndsChild(line: bytes, b: bytes) {
    && StartsWith(line, DashBoundary(b))
    && (|line| == |b| + 2 || QP.Blank(line[|b| + 2]) || StartsWith(line, CloseDelimiter(b)))
  }

  /** The first blank line, or the number of lines. */
  function HeaderEnd(ls: seq<bytes>): (k: nat)
    ensures k <= |ls|
    ensures forall i :: 0 <= i < k ==> ls[i] != []
    ensures k < |ls| ==> ls[k] == []
  {
    if ls == [] || ls[0] == [] then 0 else 1 + HeaderEnd(ls[1..])
  }

  /** The first line that ends a child, or the number of lines. */
  function ChildEnd(ls: seq<bytes>, b: bytes): (k: nat)
    ensures k <= |ls|
    ensures forall i :: 0 <= i < k ==> !EndsChild(ls[i], b)
    ensures k < |ls| ==> EndsChild(ls[k], b)
  {
    if ls == [] || EndsChild(ls[0], b) then 0 else 1 + ChildEnd(ls[1..], b)
  }

  // ----- the parser

  function ParsePart(codec: Codec, header: EntityHeader, body: seq<bytes>): Result<Part, ParseError>
    decreases |body|, 2
  {
    var media := MediaOf(header.contentType);
    if HasPrefix(media.mediaType, "multipart/") then
      if !IdentityCte(header.cte) then Err(EncodedMultipart)
      else if media.boundary == None || media.boundary == Some([]) then Err(MissingBoundary)
      else
        match ParsePreamble(codec, media.boundary.value, body)
        case Ok(children) => Ok(Multipart(children))
        case Err(error) => Err(error)
    else
      match DecodeTransferEncoding(header.cte, Join(body, CRLF))
      case Some(raw) => Ok(LeafOf(codec, media, raw))
      case None => Err(UndecodableBody)
  }

  /** The body of a message: without a Mime-Version field it is octets, and no encoding is undone. */
  function ParseBody(codec: Codec, isMime: bool, header: EntityHeader, body: seq<bytes>): Result<Part, ParseError> {
    if isMime then ParsePart(codec, header, body) else Ok(Binary(Join(body, CRLF)))
  }

  /** Lines before the first delimiter are skipped. */
  function ParsePreamble(codec: Codec, b: bytes, ls: seq<bytes>): Result<seq<Child>, ParseError>
    decreases |ls|, 1
  {
    if ls == [] then Err(UnexpectedEnd)
    else if IsDelimiter(ls[0], b) then ParseChildren(codec, b, ls[1..])
    else if IsClose(ls[0], b) then Ok([])
    else ParsePreamble(codec, b, ls[1..])
  }

  /** A child as the reader cuts it out after a delimiter: its header, its content, and what follows. */
  datatype Section = Section(header: EntityHeader, body: seq<bytes>, end: bytes, rest: seq<bytes>)

  function NextSection(codec: Codec, b: bytes, ls: seq<bytes>): (r: Result<Section, ParseError>)
    ensures r.Ok? ==> |r.value.body| < |ls| && |r.value.rest| < |ls|
  {
    var h := HeaderEnd(ls);
    if h == |ls| then Err(MalformedHeader)
    else
      match codec.readHeader(ls[..h])
      case None => Err(MalformedHeader)
      case Some(header) =>
        var rest := ls[h + 1..];
        var k := ChildEnd(rest, b);
        if k == |rest| then Err(UnexpectedEnd)
        else Ok(Section(header, rest[..k], rest[k], rest[k + 1..]))
  }

  function ParseChildren(codec: Codec, b: bytes, ls: seq<bytes>): Result<seq<Child>, ParseError>
    decreases |ls|, 1
  {
    var s :- NextSection(codec, b, ls);
    var part :- ParsePart(codec, s.header, s.body);
    var child := Child(s.header.contentType, [], part);
    if IsDelimiter(s.end, b) then
      var more :- ParseChildren(codec, b, s.rest);
      Ok([child] + more)
    else if IsClose(s.end, b) then Ok([child])
    else Err(UnexpectedLine)
  }

  /** Skips to the first delimiter; `children` tells whether a child follows it. */
  method SkipPreamble(codec: Codec, b: bytes, body: seq<bytes>) returns (found: bool, children: bool, rest: seq<bytes>)
    ensures found ==> |rest| < |body|
    ensures ParsePreamble(codec, b, body) ==
            if !found then Err(UnexpectedEnd) else if children then ParseChildren(codec, b, rest) else Ok([])
  {
    var ls := body;
    while ls != [] && !IsDelimiter(ls[0], b) && !IsClose(ls[0], b)
      invariant |ls| <= |body|
      invariant ParsePreamble(codec, b, ls) == ParsePreamble(codec, b, body)
      decreases |ls|
    {
      ls := ls[1..];
    }
    if ls == [] {
      return false, false, [];
    }
    return true, IsDelimiter(ls[0], b), ls[1..];
  }

  /** The recursive reader. */
  method ReadPart(codec: Codec, header: EntityHeader, body: seq<bytes>) returns (r: Result<Part, ParseError>)
    ensures r == ParsePart(codec, header, body)
    decreases |body|, 2
  {
    var media := MediaOf(header.contentType);
    if HasPrefix(media.mediaType, "multipart/") {
      if !IdentityCte(header.cte) {
        return Err(EncodedMultipart);
      }
      if media.boundary == None || media.boundary == Some([]) {
        return Err(MissingBoundary);
      }
      var b := media.boundary.value;
      var found, any, rest := SkipPreamble(codec, b, body);
      if !found {
        return Err(UnexpectedEnd);
      }
      var children: Result<seq<Child>, ParseError> := Ok([]);
      if any {
        children := ReadChildren(codec, b, rest);
      }
      if children.Err? {
        return Err(children.error);
      }
      return Ok(Multipart(children.value));
    }
    var raw := DecodeTransferEncoding(header.cte, Join(body, CRLF));
    return if raw.Some? then Ok(LeafOf(codec, media, raw.value)) else Err(UndecodableBody);
  }

  function Prepend(children: seq<Child>, r: Result<seq<Child>, ParseError>): Result<seq<Child>, ParseError> {
    match r
    case Ok(more) => Ok(children + more)
    case Err(error) => Err(error)
  }

  lemma ParseOneMore(codec: Codec, b: bytes, ls: seq<bytes>, s: Section, part: Part)
    requires NextSection(codec, b, ls) == Ok(s) && ParsePart(codec, s.header, s.body) == Ok(part)
    requires IsDelimiter(s.end, b)
    ensures ParseChildren(codec, b, ls) ==
            Prepend([Child(s.header.contentType, [], part)], ParseChildren(codec, b, s.rest))
  {
  }

  lemma PrependNothing(r: Result<seq<Child>, ParseError>)
    ensures Prepend([], r) == r
  {
    if r.Ok? {
      assert [] + r.value == r.value;
    }
  }

  lemma PrependAppends(children: seq<Child>, child: Child, r: Result<seq<Child>, ParseError>)
    ensures Prepend(children, Prepend([child], r)) == Prepend(children + [child], r)
  {
    if r.Ok? {
      Assoc(children, [child], r.value);
    }
  }

  /** The loop over the parts of a multipart, appending one child at a time. */
  method ReadChildren(codec: Codec, b: bytes, body: seq<bytes>) returns (r: Result<seq<Child>, ParseError>)
    ensures r == ParseChildren(codec, b, body)
    decreases |body|, 1
  {
    var children: seq<Child> := [];
    var ls := body;
    PrependNothing(ParseChildren(codec, b, body));
    while true
      invariant |ls| <= |body|
      invariant ParseChildren(codec, b, body) == Prepend(children, ParseChildren(codec, b, ls))
      decreases |ls|
    {
      var section := NextSection(codec, b, ls);
      if section.Err? {
        return Err(section.error);
      }
      var s := section.value;
      var part := ReadPart(codec, s.header, s.body);
      if part.Err? {
        return Err(part.error);
      }
      var child := Child(s.header.contentType, [], part.value);
      if IsClose(s.end, b) && !IsDelimiter(s.end, b) {
        return Ok(children + [child]);
      }
      if !IsDelimiter(s.end, b) {
        return Err(UnexpectedLine);
      }
      ParseOneMore(codec, b, ls, s, part.value);
      PrependAppends(children, child, ParseChildren(codec, b, s.rest));
      children := children + [child];
      ls := s.rest;
    }
  }
}
