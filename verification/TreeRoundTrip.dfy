/**
 * Parsing undoes printing for whole body trees: `parsePart` (pkg/smtpserver/server.go:380-461) on
 * the output of `encode` (pkg/mailer/part.go:57-179) after the message-wide line-ending rewrite
 * (pkg/mailer/imf.go:60-63).
 */
module TreeRoundTrip {
  import opened Bytes
  import opened LineEndings
  import opened MailTypes
  import opened PartPrinter
  import opened PartParser
  import opened TransferDecoding
  import Encoding
  import Utf8

  /** The header of a part reads back, as lines that are neither blank nor broken. */
  predicate HeaderSurvives(codec: Codec, h: EntityHeader) {
    && codec.readHeader(codec.headerLines(h)) == Some(h)
    && forall i :: 0 <= i < |codec.headerLines(h)| ==>
         codec.headerLines(h)[i] != [] && Clean(codec.headerLines(h)[i])
  }

  predicate HeaderOfChildSurvives(env: Env, e: EncodedPart) {
    HeaderSurvives(env.codec, EntityHeader(e.contentType, e.cte))
  }

  /** No line of a child's content looks like a boundary line of the multipart around it. */
  predicate NoCollision(b: bytes, content: bytes) {
    forall i :: 0 <= i < |Lines(content)| ==> !EndsChild(Lines(content)[i], b)
  }

  /** A multipart's own content type and boundary. */
  predicate BoundaryTravels(env: Env, path: seq<nat>, media: Media) {
    var sent := SentMedia(env, path, media);
    && HasPrefix(media.mediaType, "multipart/")
    && ValidBoundary(Boundary(env, path, media))
    && sent.boundary == Some(Boundary(env, path, media))
    && env.codec.formatType(sent).media == Some(sent)
  }

  predicate ChildTravels(env: Env, path: seq<nat>, p: Part, contentType: ContentType, i: nat)
    requires p.Multipart? && Encodable(p, contentType) && i < |p.children|
  {
    var e := EncodeChild(env, path, p, contentType, i);
    && HeaderOfChildSurvives(env, e)
    && NoCollision(Boundary(env, path, contentType.media.value), e.content)
  }

  /**
   * The conditions under which a tree travels: about its content types, boundaries and headers, and
   * about its content that no line of it looks like a boundary.
   */
  predicate Carried(env: Env, path: seq<nat>, p: Part, contentType: ContentType)
    decreases p
  {
    && Encodable(p, contentType)
    && match p
       case Nil => false
       case Multipart(children) =>
         && BoundaryTravels(env, path, contentType.media.value)
         && (forall i :: 0 <= i < |children| ==> ChildTravels(env, path, p, contentType, i))
         && forall i :: 0 <= i < |children| ==>
              Carried(env, path + [i], children[i].part, children[i].contentType)
       case _ => !HasPrefix(MediaOf(contentType).mediaType, "multipart/")
  }

  /** The octets of a leaf as the receiver decodes them. */
  function ReceivedOctets(env: Env, p: Part): bytes
    requires p.Text? || p.Binary?
  {
    var octets := LeafOctets(p);
    if Encoding.Encode(env.has8Bit, octets).cte == "base64" then octets else Canonical(octets)
  }

  /** The tree the receiver builds. */
  function Received(env: Env, path: seq<nat>, p: Part, contentType: ContentType): Part
    requires Encodable(p, contentType)
    decreases p, if p.Multipart? then |p.children| + 1 else 0
  {
    match p
    case Nil => Nil
    case Multipart(children) => Multipart(ReceivedFrom(env, path, p, contentType, 0))
    case _ => LeafOf(env.codec, MediaOf(contentType), ReceivedOctets(env, p))
  }

  function ReceivedChild(env: Env, path: seq<nat>, p: Part, contentType: ContentType, i: nat): Child
    requires p.Multipart? && Encodable(p, contentType) && i < |p.children|
    decreases p, 0
  {
    var child := p.children[i];
    Child(EncodeChild(env, path, p, contentType, i).contentType, [],
          Received(env, path + [i], child.part, child.contentType))
  }

  function ReceivedFrom(env: Env, path: seq<nat>, p: Part, contentType: ContentType, i: nat): seq<Child>
    requires p.Multipart? && Encodable(p, contentType) && i <= |p.children|
    decreases p, |p.children| - i
  {
    if i == |p.children| then []
    else [ReceivedChild(env, path, p, contentType, i)] + ReceivedFrom(env, path, p, contentType, i + 1)
  }

  // ----- boundary lines

  lemma DelimiterLine(b: bytes)
    ensures IsDelimiter(DashBoundary(b), b) && EndsChild(DashBoundary(b), b)
  {
  }

  lemma CloseLine(b: bytes)
    ensures IsClose(CloseDelimiter(b), b) && EndsChild(CloseDelimiter(b), b) && !IsDelimiter(CloseDelimiter(b), b)
  {
    var line := CloseDelimiter(b);
    assert line[..|b| + 2] == DashBoundary(b);
    assert line[|b| + 2..][0] == DASH;
  }

  lemma {:induction false} HeaderEndAt(header: seq<bytes>, rest: seq<bytes>)
    requires forall i :: 0 <= i < |header| ==> header[i] != []
    ensures HeaderEnd(header + [[]] + rest) == |header|
  {
    if header != [] {
      HeaderEndAt(header[1..], rest);
      assert (header + [[]] + rest)[1..] == header[1..] + [[]] + rest;
    }
  }

  lemma {:induction false} ChildEndAt(body: seq<bytes>, end: bytes, rest: seq<bytes>, b: bytes)
    requires forall i :: 0 <= i < |body| ==> !EndsChild(body[i], b)
    requires EndsChild(end, b)
    ensures ChildEnd(body + [end] + rest, b) == |body|
  {
    if body != [] {
      ChildEndAt(body[1..], end, rest, b);
      assert (body + [end] + rest)[1..] == body[1..] + [end] + rest;
    }
  }

  /** A section is its header and the lines before the first that ends a child. */
  lemma FirstSection(codec: Codec, b: bytes, h: EntityHeader, after: seq<bytes>)
    requires HeaderSurvives(codec, h) && ChildEnd(after, b) < |after|
    ensures var c := ChildEnd(after, b);
            NextSection(codec, b, codec.headerLines(h) + [[]] + after) ==
            Ok(Section(h, after[..c], after[c], after[c + 1..]))
  {
    var lines := codec.headerLines(h);
    var ls := lines + [[]] + after;
    HeaderEndAt(lines, after);
    assert ls[..|lines|] == lines && ls[|lines| + 1..] == after;
  }

  /** The reader cuts a printed child out exactly where the writer put it. */
  lemma SectionOf(codec: Codec, b: bytes, h: EntityHeader, body: seq<bytes>, end: bytes, rest: seq<bytes>)
    requires HeaderSurvives(codec, h)
    requires forall i :: 0 <= i < |body| ==> !EndsChild(body[i], b)
    requires EndsChild(end, b)
    ensures NextSection(codec, b, codec.headerLines(h) + [[]] + body + [end] + rest) ==
            Ok(Section(h, body, end, rest))
  {
    var lines := codec.headerLines(h);
    var after := body + [end] + rest;
    assert lines + [[]] + body + [end] + rest == lines + [[]] + after;
    ChildEndAt(body, end, rest, b);
    FirstSection(codec, b, h, after);
    assert after[..|body|] == body && after[|body|] == end && after[|body| + 1..] == rest;
  }

  // ----- leaves

  lemma LeafParses(env: Env, path: seq<nat>, p: Part, contentType: ContentType)
    requires Carried(env, path, p, contentType) && !p.Multipart?
    ensures var e := EncodePart(env, path, p, contentType);
            ParsePart(env.codec, EntityHeader(e.contentType, e.cte), Lines(e.content)) ==
            Ok(Received(env, path, p, contentType))
  {
    Encoding.LeafRoundTrip(env.has8Bit, LeafOctets(p));
  }

  // ----- multiparts

  predicate ChildParses(env: Env, path: seq<nat>, p: Part, contentType: ContentType, i: nat)
    requires p.Multipart? && Encodable(p, contentType) && i < |p.children|
  {
    var e := EncodeChild(env, path, p, contentType, i);
    var child := p.children[i];
    ParsePart(env.codec, EntityHeader(e.contentType, e.cte), Lines(e.content)) ==
    Ok(Received(env, path + [i], child.part, child.contentType))
  }

  /** The line after child `i`: the delimiter of the next one, or the end of the multipart. */
  lemma TailStart(env: Env, path: seq<nat>, p: Part, contentType: ContentType, i: nat)
    requires p.Multipart? && Encodable(p, contentType) && i <= |p.children|
    ensures var b := Boundary(env, path, contentType.media.value);
            var tail := TailLines(env, path, p, contentType, i);
            && tail != [] && EndsChild(tail[0], b)
            && tail[0] == (if i < |p.children| then DashBoundary(b) else CloseDelimiter(b))
            && (IsDelimiter(tail[0], b) <==> i < |p.children|)
            && (IsClose(tail[0], b) <== i == |p.children|)
  {
    var b := Boundary(env, path, contentType.media.value);
    DelimiterLine(b);
    CloseLine(b);
  }

  /** A child cut out of its own lines and the line after them. */
  lemma SectionBefore(codec: Codec, b: bytes, h: EntityHeader, body: seq<bytes>, tail: seq<bytes>)
    requires HeaderSurvives(codec, h)
    requires forall i :: 0 <= i < |body| ==> !EndsChild(body[i], b)
    requires tail != [] && EndsChild(tail[0], b)
    ensures NextSection(codec, b, codec.headerLines(h) + [[]] + body + tail) ==
            Ok(Section(h, body, tail[0], tail[1..]))
  {
    assert tail == [tail[0]] + tail[1..];
    Assoc(codec.headerLines(h) + [[]] + body, [tail[0]], tail[1..]);
    SectionOf(codec, b, h, body, tail[0], tail[1..]);
  }

  /** The lines of child `i` and what follows them. */
  lemma TailOfChild(env: Env, path: seq<nat>, p: Part, contentType: ContentType, i: nat)
    requires p.Multipart? && Encodable(p, contentType) && i < |p.children|
    ensures var e := EncodeChild(env, path, p, contentType, i);
            TailLines(env, path, p, contentType, i)[1..] ==
            env.codec.headerLines(EntityHeader(e.contentType, e.cte)) + [[]] + Lines(e.content)
            + TailLines(env, path, p, contentType, i + 1)
  {
  }

  lemma ChildIsCutOut(env: Env, path: seq<nat>, p: Part, contentType: ContentType, i: nat)
    requires p.Multipart? && Encodable(p, contentType) && i < |p.children|
    requires ChildTravels(env, path, p, contentType, i)
    ensures var b := Boundary(env, path, contentType.media.value);
            var e := EncodeChild(env, path, p, contentType, i);
            var tail := TailLines(env, path, p, contentType, i + 1);
            && tail != []
            && NextSection(env.codec, b, TailLines(env, path, p, contentType, i)[1..]) ==
               Ok(Section(EntityHeader(e.contentType, e.cte), Lines(e.content), tail[0], tail[1..]))
  {
    var b := Boundary(env, path, contentType.media.value);
    var e := EncodeChild(env, path, p, contentType, i);
    TailStart(env, path, p, contentType, i + 1);
    TailOfChild(env, path, p, contentType, i);
    SectionBefore(env.codec, b, EntityHeader(e.contentType, e.cte), Lines(e.content),
                  TailLines(env, path, p, contentType, i + 1));
  }

  /** Everything after the delimiter of child `i`. */
  lemma {:induction false} ChildrenParse(env: Env, path: seq<nat>, p: Part, contentType: ContentType, i: nat)
    requires p.Multipart? && Encodable(p, contentType) && i < |p.children|
    requires forall k :: i <= k < |p.children| ==> ChildTravels(env, path, p, contentType, k)
    requires forall k :: i <= k < |p.children| ==> ChildParses(env, path, p, contentType, k)
    ensures ParseChildren(env.codec, Boundary(env, path, contentType.media.value),
                          TailLines(env, path, p, contentType, i)[1..]) ==
            Ok(ReceivedFrom(env, path, p, contentType, i))
    decreases |p.children| - i
  {
    ChildIsCutOut(env, path, p, contentType, i);
    TailStart(env, path, p, contentType, i + 1);
    assert ChildParses(env, path, p, contentType, i);
    if i + 1 < |p.children| {
      ChildrenParse(env, path, p, contentType, i + 1);
    } else {
      var last := ReceivedFrom(env, path, p, contentType, i);
      assert ReceivedFrom(env, path, p, contentType, i + 1) == [];
      assert last == [last[0]];
    }
  }

  lemma EmptyMultipartParses(codec: Codec, b: bytes)
    ensures ParsePreamble(codec, b, [[], CloseDelimiter(b), []]) == Ok([])
  {
    var ls := [[], CloseDelimiter(b), []];
    CloseLine(b);
    assert ls[1..][0] == CloseDelimiter(b);
    assert ParsePreamble(codec, b, ls[1..]) == Ok([]);
  }

  lemma MultipartLines(env: Env, path: seq<nat>, p: Part, contentType: ContentType)
    requires p.Multipart? && Encodable(p, contentType) && BoundaryTravels(env, path, contentType.media.value)
    requires forall i :: 0 <= i < |p.children| ==>
               HeaderOfChildSurvives(env, EncodeChild(env, path, p, contentType, i))
    ensures Lines(EncodePart(env, path, p, contentType).content) ==
            (if p.children == [] then [[]] else []) + TailLines(env, path, p, contentType, 0)
  {
    forall i | 0 <= i < |p.children|
      ensures var c := EncodeChild(env, path, p, contentType, i);
              AllClean(env.codec.headerLines(EntityHeader(c.contentType, c.cte)))
    {
      assert HeaderOfChildSurvives(env, EncodeChild(env, path, p, contentType, i));
    }
    LinesOfMultipart(env, path, p, contentType);
  }

  lemma MultipartParses(env: Env, path: seq<nat>, p: Part, contentType: ContentType)
    requires p.Multipart? && Carried(env, path, p, contentType)
    requires forall k :: 0 <= k < |p.children| ==> ChildParses(env, path, p, contentType, k)
    ensures ParsePreamble(env.codec, Boundary(env, path, contentType.media.value),
                          Lines(EncodePart(env, path, p, contentType).content)) ==
            Ok(ReceivedFrom(env, path, p, contentType, 0))
  {
    var b := Boundary(env, path, contentType.media.value);
    var ls := Lines(EncodePart(env, path, p, contentType).content);
    var tail := TailLines(env, path, p, contentType, 0);
    forall i | 0 <= i < |p.children|
      ensures HeaderOfChildSurvives(env, EncodeChild(env, path, p, contentType, i))
    {
      assert ChildTravels(env, path, p, contentType, i);
    }
    MultipartLines(env, path, p, contentType);
    TailStart(env, path, p, contentType, 0);
    if p.children == [] {
      assert ls == [[], CloseDelimiter(b), []];
      EmptyMultipartParses(env.codec, b);
    } else {
      assert ls == tail;
      ChildrenParse(env, path, p, contentType, 0);
    }
  }

  lemma IdentityNames()
    ensures IdentityCte("7bit") && IdentityCte("8bit")
  {
    assert ToLower("7bit") == "7bit" && ToLower("8bit") == "8bit";
  }

  /** Reading the lines of a printed tree gives the tree the receiver is meant to get. */
  lemma {:induction false} PrintedTreeParses(env: Env, path: seq<nat>, p: Part, contentType: ContentType)
    requires Carried(env, path, p, contentType)
    ensures var e := EncodePart(env, path, p, contentType);
            ParsePart(env.codec, EntityHeader(e.contentType, e.cte), Lines(e.content)) ==
            Ok(Received(env, path, p, contentType))
    decreases p
  {
    if p.Multipart? {
      forall k | 0 <= k < |p.children|
        ensures ChildParses(env, path, p, contentType, k)
      {
        PrintedTreeParses(env, path + [k], p.children[k].part, p.children[k].contentType);
      }
      MultipartParses(env, path, p, contentType);
      IdentityNames();
    } else {
      LeafParses(env, path, p, contentType);
    }
  }
}
