/** Validation and printing of a body tree: pkg/mailer/part.go. */
module PartPrinter {
  import opened Bytes
  import opened LineEndings
  import opened Acceptance
  import opened MailTypes
  import Encoding
  import TransferDecoding
  import Utf8

  // ----- validation

  datatype Problem =
    | NotSevenBit
    | InvalidUtf8
    | UnparsableType
    | InvalidBoundary
    | NotMultipartType
    | InvalidHeaderKey
    | InvalidHeaderValue
    | ContentTypeHeader

  predicate Requires7Or8Bit(contentType: ContentType) {
    HasPrefix(contentType.raw, "message/") || HasPrefix(contentType.raw, "multipart/")
  }

  /** Octets section 5.1.1 of RFC 2046 allows in a boundary. */
  predicate BoundaryOctet(c: int) {
    || 0x30 <= c <= 0x39 || 0x41 <= c <= 0x5A || 0x61 <= c <= 0x7A
    || c == 0x20 || c == 0x27 || c == 0x28 || c == 0x29 || c == 0x2B || c == 0x2C || c == 0x2D
    || c == 0x2E || c == 0x2F || c == 0x3A || c == 0x3D || c == 0x3F || c == 0x5F
  }

  predicate ValidBoundary(b: bytes) {
    1 <= |b| <= 70 && b[|b| - 1] != SPACE && forall i :: 0 <= i < |b| ==> BoundaryOctet(b[i])
  }

  /** Printable ASCII without space and colon; the empty key passes. */
  predicate ValidHeaderKey(key: string) {
    forall i :: 0 <= i < |key| ==> 0x20 as char < key[i] < 0x7F as char && key[i] != ':'
  }

  predicate IsControl(c: char) {
    c < 0x20 as char || 0x7F as char <= c <= 0x9F as char
  }

  predicate ValidHeaderValue(value: string) {
    forall i :: 0 <= i < |value| ==> !IsControl(value[i])
  }

  /** Printable ASCII without the colon. */
  predicate KeyLike(s: string) {
    forall i :: 0 <= i < |s| ==> '!' <= s[i] <= '9' || ';' <= s[i] <= '~'
  }

  /** Characters that are shown, blanks included. */
  predicate Visible(s: string) {
    forall i :: 0 <= i < |s| ==> ' ' <= s[i] <= '~' || 0xA0 as char <= s[i]
  }

  lemma HeaderCharacters(s: string)
    ensures ValidHeaderKey(s) <==> KeyLike(s)
    ensures ValidHeaderValue(s) <==> Visible(s)
  {
  }

  predicate BoundaryChar(c: char) {
    '0' <= c <= '9' || 'A' <= c <= 'Z' || 'a' <= c <= 'z' || c in "'()+_,-./:=? "
  }

  lemma BoundaryIff(b: bytes)
    requires forall i :: 0 <= i < |b| ==> b[i] < 0x80
    ensures ValidBoundary(b) <==>
              && 1 <= |b| <= 70 && b[|b| - 1] != ' ' as int
              && forall i :: 0 <= i < |b| ==> BoundaryChar(b[i] as char)
  {
    forall i | 0 <= i < |b|
      ensures BoundaryOctet(b[i]) <==> BoundaryChar(b[i] as char)
    {
    }
  }

  /** `textproto.CanonicalMIMEHeaderKey` maps exactly these keys to Content-Type. */
  predicate NamesContentType(key: string) {
    TransferDecoding.ToLower(key) == "content-type"
  }

  predicate ValidChildHeader(h: Header) {
    ValidHeaderKey(h.key) && ValidHeaderValue(h.value) && !NamesContentType(h.key)
  }

  /** What a content type must satisfy when the child below it is a multipart. */
  predicate ValidMultipartType(media: Media) {
    && HasPrefix(media.mediaType, "multipart/")
    && (media.boundary.Some? ==> ValidBoundary(media.boundary.value))
  }

  predicate ValidChildType(c: Child) {
    && Parses(c.contentType)
    && (c.part.Multipart? ==> ValidMultipartType(c.contentType.media.value))
  }

  /** A tree that validates, given the content type it is sent with. */
  predicate ValidPart(p: Part, contentType: ContentType) {
    match p
    case Nil => false
    case Text(text) => (Requires7Or8Bit(contentType) ==> Is7Bit(text)) && Utf8.Valid(text)
    case Binary(data) => Requires7Or8Bit(contentType) ==> Is7Bit(data)
    case Multipart(children) => forall i :: 0 <= i < |children| ==> ValidChild(children[i])
  }

  predicate ValidChild(c: Child) {
    && ValidChildType(c)
    && (forall k :: 0 <= k < |c.headers| ==> ValidChildHeader(c.headers[k]))
    && ValidPart(c.part, c.contentType)
  }

  lemma {:induction false} ValidIsComplete(p: Part, contentType: ContentType)
    requires ValidPart(p, contentType)
    ensures Complete(p)
    decreases p
  {
    if p.Multipart? {
      forall i | 0 <= i < |p.children|
        ensures Complete(p.children[i].part)
      {
        assert ValidChild(p.children[i]);
        ValidIsComplete(p.children[i].part, p.children[i].contentType);
      }
    }
  }

  /**
   * Calling a method of a nil part is a run-time fault.  Validation reaches every part but those below
   * a child whose content type does not parse.
   */
  predicate Faults(p: Part) {
    match p
    case Nil => true
    case Multipart(children) =>
      exists i :: 0 <= i < |children| && Parses(children[i].contentType) && Faults(children[i].part)
    case _ => false
  }

  lemma {:induction false} CompleteNeverFaults(p: Part)
    requires Complete(p)
    ensures !Faults(p)
    decreases p
  {
    if p.Multipart? {
      forall i | 0 <= i < |p.children|
        ensures !Faults(p.children[i].part)
      {
        CompleteNeverFaults(p.children[i].part);
      }
    }
  }

  method ValidateHeaders(headers: seq<Header>) returns (problems: seq<Problem>)
    ensures problems == [] <==> forall k :: 0 <= k < |headers| ==> ValidChildHeader(headers[k])
  {
    problems := [];
    for k := 0 to |headers|
      invariant problems == [] <==> forall j :: 0 <= j < k ==> ValidChildHeader(headers[j])
    {
      var h := headers[k];
      if !ValidHeaderKey(h.key) {
        problems := problems + [InvalidHeaderKey];
        continue;
      }
      if !ValidHeaderValue(h.value) {
        problems := problems + [InvalidHeaderValue];
        continue;
      }
      if NamesContentType(h.key) {
        problems := problems + [ContentTypeHeader];
      }
    }
  }

  /** All problems of a tree, in order, or `None` at the run-time fault. */
  method Validate(p: Part, contentType: ContentType) returns (problems: Option<seq<Problem>>)
    ensures problems.None? <==> Faults(p)
    ensures problems.Some? ==> (problems.value == [] <==> ValidPart(p, contentType))
    decreases p
  {
    match p {
      case Nil => return None;
      case Text(text) =>
        var is7Bit, _ := IsAcceptable7or8Bit(text);
        if Requires7Or8Bit(contentType) && !is7Bit {
          return Some([NotSevenBit]);
        }
        return Some(if Utf8.Valid(text) then [] else [InvalidUtf8]);
      case Binary(data) =>
        var is7Bit, _ := IsAcceptable7or8Bit(data);
        return Some(if Requires7Or8Bit(contentType) && !is7Bit then [NotSevenBit] else []);
      case Multipart(children) =>
        var found: seq<Problem> := [];
        for i := 0 to |children|
          invariant forall j :: 0 <= j < i ==> !(Parses(children[j].contentType) && Faults(children[j].part))
          invariant found == [] <==> forall j :: 0 <= j < i ==> ValidChild(children[j])
        {
          var c := children[i];
          if !Parses(c.contentType) {
            found := found + [UnparsableType];
            continue;
          }
          var media := c.contentType.media.value;
          if c.part.Multipart? {
            if media.boundary.Some? && !ValidBoundary(media.boundary.value) {
              found := found + [InvalidBoundary];
            }
            if !HasPrefix(media.mediaType, "multipart/") {
              found := found + [NotMultipartType];
            }
          }
          var headerProblems := ValidateHeaders(c.headers);
          var partProblems := Validate(c.part, c.contentType);
          if partProblems.None? {
            return None;
          }
          found := found + headerProblems + partProblems.value;
        }
        problems := Some(found);
    }
  }

  // ----- printing

  datatype EntityHeader = EntityHeader(contentType: ContentType, cte: string)

  /**
   * The header syntax of `net/textproto` and `mime`, and the charset tables, as parameters.
   * `headerLines` gives the lines of a header block, `readHeader` reads them and `formatType` writes a
   * content type.
   */
  datatype Codec = Codec(
    formatType: Media -> ContentType,
    headerLines: EntityHeader -> seq<bytes>,
    readHeader: seq<bytes> -> Option<EntityHeader>,
    transcode: (string, bytes) -> bytes)

  /** `draw` is the boundary that the random source yields for the multipart at a position of the tree. */
  datatype Env = Env(codec: Codec, draw: seq<nat> -> bytes, has8Bit: bool)

  datatype EncodedPart = EncodedPart(content: bytes, cte: string, contentType: ContentType)

  /** Every multipart has a content type that parses; printing any other one is a run-time fault. */
  predicate Encodable(p: Part, contentType: ContentType) {
    match p
    case Nil => false
    case Multipart(children) =>
      && contentType.media.Some?
      && forall i :: 0 <= i < |children| ==> Encodable(children[i].part, children[i].contentType)
    case _ => true
  }

  lemma {:induction false} ValidIsEncodable(p: Part, contentType: ContentType)
    requires ValidPart(p, contentType)
    requires p.Multipart? ==> contentType.media.Some?
    ensures Encodable(p, contentType)
  {
    if p.Multipart? {
      forall i | 0 <= i < |p.children|
        ensures Encodable(p.children[i].part, p.children[i].contentType)
      {
        assert ValidChild(p.children[i]);
        ValidIsEncodable(p.children[i].part, p.children[i].contentType);
      }
    }
  }

  function DashBoundary(b: bytes): bytes {
    [DASH, DASH] + b
  }

  function CloseDelimiter(b: bytes): bytes {
    DashBoundary(b) + [DASH, DASH]
  }

  /** The boundary the writer uses: the one of the content type if it is valid, else a drawn one. */
  function Boundary(env: Env, path: seq<nat>, media: Media): bytes {
    match media.boundary
    case Some(b) => if ValidBoundary(b) then b else env.draw(path)
    case None => env.draw(path)
  }

  /** The content type a multipart is sent with always names a boundary. */
  function SentMedia(env: Env, path: seq<nat>, media: Media): Media {
    if media.boundary.Some? then media else media.(boundary := Some(env.draw(path)))
  }

  function HeaderBlock(lines: seq<bytes>): bytes {
    if lines == [] then [] else lines[0] + CRLF + HeaderBlock(lines[1..])
  }

  /** The text a leaf is encoded from. */
  function LeafOctets(p: Part): bytes
    requires p.Text? || p.Binary?
  {
    if p.Text? then Canonical(p.text) else p.data
  }

  /** `encode` of each kind of part. */
  function EncodePart(env: Env, path: seq<nat>, p: Part, contentType: ContentType): EncodedPart
    requires Encodable(p, contentType)
    decreases p, if p.Multipart? then |p.children| + 1 else 0
  {
    if p.Multipart? then
      var media := contentType.media.value;
      var b := Boundary(env, path, media);
      EncodedPart(
        Frames(env, path, p, contentType, |p.children|) + (CRLF + CloseDelimiter(b) + CRLF),
        if env.has8Bit then "8bit" else "7bit",
        env.codec.formatType(SentMedia(env, path, media)))
    else
      var e := Encoding.Encode(env.has8Bit, LeafOctets(p));
      EncodedPart(e.content, e.cte, contentType)
  }

  function EncodeChild(env: Env, path: seq<nat>, p: Part, contentType: ContentType, i: nat): EncodedPart
    requires p.Multipart? && Encodable(p, contentType) && i < |p.children|
    decreases p, 0
  {
    EncodePart(env, path + [i], p.children[i].part, p.children[i].contentType)
  }

  /** A child as the multipart writer frames it, without the CRLF that ends the one before. */
  function Frame(env: Env, b: bytes, e: EncodedPart): bytes {
    DashBoundary(b) + CRLF + (HeaderBlock(env.codec.headerLines(EntityHeader(e.contentType, e.cte))) + CRLF + e.content)
  }

  /** The first `n` children of a multipart. */
  function Frames(env: Env, path: seq<nat>, p: Part, contentType: ContentType, n: nat): bytes
    requires p.Multipart? && Encodable(p, contentType) && n <= |p.children|
    decreases p, n
  {
    if n == 0 then []
    else
      var b := Boundary(env, path, contentType.media.value);
      var frame := Frame(env, b, EncodeChild(env, path, p, contentType, n - 1));
      if n == 1 then frame else Frames(env, path, p, contentType, n - 1) + CRLF + frame
  }

  lemma FramesStep(env: Env, path: seq<nat>, p: Part, contentType: ContentType, i: nat)
    requires p.Multipart? && Encodable(p, contentType) && i < |p.children|
    ensures Frames(env, path, p, contentType, i + 1) ==
            Frames(env, path, p, contentType, i) + (if i > 0 then CRLF else [])
            + Frame(env, Boundary(env, path, contentType.media.value), EncodeChild(env, path, p, contentType, i))
  {
  }

  /** The recursive printer. */
  method Print(env: Env, path: seq<nat>, p: Part, contentType: ContentType) returns (e: EncodedPart)
    requires Encodable(p, contentType)
    ensures e == EncodePart(env, path, p, contentType)
    decreases p, 1
  {
    match p {
      case Text(text) =>
        var normalizedLinesContent := NormalizeLineEndings(text);
        var content, cte := Encoding.EncodeBytes(env.has8Bit, normalizedLinesContent);
        e := EncodedPart(content, cte, contentType);
      case Binary(data) =>
        var content, cte := Encoding.EncodeBytes(env.has8Bit, data);
        e := EncodedPart(content, cte, contentType);
      case Multipart(_) =>
        e := PrintMultipart(env, path, p, contentType);
    }
  }

  /** A multipart is written to its buffer child by child. */
  method PrintMultipart(env: Env, path: seq<nat>, p: Part, contentType: ContentType) returns (e: EncodedPart)
    requires p.Multipart? && Encodable(p, contentType)
    ensures e == EncodePart(env, path, p, contentType)
    decreases p, 0
  {
    var cte := if env.has8Bit then "8bit" else "7bit";
    var media := contentType.media.value;
    var b := env.draw(path);
    if media.boundary.Some? {
      if ValidBoundary(media.boundary.value) {
        b := media.boundary.value;
      }
    } else {
      media := media.(boundary := Some(b));
    }
    assert b == Boundary(env, path, contentType.media.value);
    var buf: bytes := [];
    for i := 0 to |p.children|
      invariant buf == Frames(env, path, p, contentType, i)
    {
      var child := p.children[i];
      var encodedChild := Print(env, path + [i], child.part, child.contentType);
      FramesStep(env, path, p, contentType, i);
      if i > 0 {
        buf := buf + CRLF;
      }
      buf := buf + Frame(env, b, encodedChild);
    }
    buf := buf + (CRLF + CloseDelimiter(b) + CRLF);
    e := EncodedPart(buf, cte, env.codec.formatType(media));
  }

  // ----- the lines of a printed multipart

  function FrameLines(env: Env, b: bytes, e: EncodedPart): seq<bytes> {
    [DashBoundary(b)] + (env.codec.headerLines(EntityHeader(e.contentType, e.cte)) + [[]] + Lines(e.content))
  }

  /** Child `i` and everything after it, to the end of the multipart. */
  function TailLines(env: Env, path: seq<nat>, p: Part, contentType: ContentType, i: nat): seq<bytes>
    requires p.Multipart? && Encodable(p, contentType) && i <= |p.children|
    decreases |p.children| - i
  {
    var b := Boundary(env, path, contentType.media.value);
    if i == |p.children| then [CloseDelimiter(b), []]
    else FrameLines(env, b, EncodeChild(env, path, p, contentType, i)) + TailLines(env, path, p, contentType, i + 1)
  }

  lemma BoundaryIsClean(b: bytes)
    requires ValidBoundary(b)
    ensures Clean(DashBoundary(b)) && Clean(CloseDelimiter(b))
  {
  }

  lemma {:induction false} LinesOfHeaderBlock(lines: seq<bytes>, content: bytes)
    requires AllClean(lines)
    ensures Lines(HeaderBlock(lines) + CRLF + content) == lines + [[]] + Lines(content)
  {
    if lines == [] {
      LinesAcrossCrlf([], content);
      assert [] + CRLF + content == CRLF + content;
    } else {
      LinesOfHeaderBlock(lines[1..], content);
      LinesOfClean(lines[0]);
      var block := HeaderBlock(lines[1..]);
      LinesAcrossCrlf(lines[0], block + CRLF + content);
      Assoc(lines[0] + CRLF, block, CRLF);
      Assoc(lines[0] + CRLF, block + CRLF, content);
      Assoc([lines[0]], lines[1..], [[]]);
      Assoc([lines[0]], lines[1..] + [[]], Lines(content));
      assert lines == [lines[0]] + lines[1..];
    }
  }

  lemma LinesOfFrame(env: Env, b: bytes, e: EncodedPart)
    requires ValidBoundary(b) && AllClean(env.codec.headerLines(EntityHeader(e.contentType, e.cte)))
    ensures Lines(Frame(env, b, e)) == FrameLines(env, b, e)
  {
    var lines := env.codec.headerLines(EntityHeader(e.contentType, e.cte));
    LinesOfHeaderBlock(lines, e.content);
    BoundaryIsClean(b);
    LinesOfClean(DashBoundary(b));
    LinesAcrossCrlf(DashBoundary(b), HeaderBlock(lines) + CRLF + e.content);
  }

  predicate CleanHeaders(env: Env, path: seq<nat>, p: Part, contentType: ContentType)
    requires p.Multipart? && Encodable(p, contentType)
  {
    forall i :: 0 <= i < |p.children| ==>
      var e := EncodeChild(env, path, p, contentType, i);
      AllClean(env.codec.headerLines(EntityHeader(e.contentType, e.cte)))
  }

  /** Framing seen over lines: what the first `n` children, and then the rest, amount to. */
  lemma {:induction false} LinesOfFrames(env: Env, path: seq<nat>, p: Part, contentType: ContentType, n: nat)
    requires p.Multipart? && Encodable(p, contentType) && 1 <= n <= |p.children|
    requires ValidBoundary(Boundary(env, path, contentType.media.value))
    requires CleanHeaders(env, path, p, contentType)
    ensures Lines(Frames(env, path, p, contentType, n)) + TailLines(env, path, p, contentType, n) ==
            TailLines(env, path, p, contentType, 0)
  {
    var b := Boundary(env, path, contentType.media.value);
    var e := EncodeChild(env, path, p, contentType, n - 1);
    LinesOfFrame(env, b, e);
    if n > 1 {
      LinesOfFrames(env, path, p, contentType, n - 1);
      LinesAcrossCrlf(Frames(env, path, p, contentType, n - 1), Frame(env, b, e));
      Assoc(Lines(Frames(env, path, p, contentType, n - 1)), FrameLines(env, b, e),
            TailLines(env, path, p, contentType, n));
    }
  }

  lemma LinesOfMultipart(env: Env, path: seq<nat>, p: Part, contentType: ContentType)
    requires p.Multipart? && Encodable(p, contentType)
    requires ValidBoundary(Boundary(env, path, contentType.media.value))
    requires CleanHeaders(env, path, p, contentType)
    ensures Lines(EncodePart(env, path, p, contentType).content) ==
            (if p.children == [] then [[]] else []) + TailLines(env, path, p, contentType, 0)
  {
    var b := Boundary(env, path, contentType.media.value);
    var n := |p.children|;
    var frames := Frames(env, path, p, contentType, n);
    BoundaryIsClean(b);
    LinesOfClean(CloseDelimiter(b));
    LinesAcrossCrlf(CloseDelimiter(b), []);
    assert CloseDelimiter(b) + CRLF + [] == CloseDelimiter(b) + CRLF;
    LinesAcrossCrlf(frames, CloseDelimiter(b) + CRLF);
    assert frames + CRLF + (CloseDelimiter(b) + CRLF) == frames + (CRLF + CloseDelimiter(b) + CRLF);
    if n > 0 {
      LinesOfFrames(env, path, p, contentType, n);
    }
  }
}
