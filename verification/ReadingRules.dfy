/**
 * What the reader does with any input, printed by this program or not: which leaves become texts and
 * with what content, and what in a multipart does not matter (pkg/smtpserver/server.go:380-491).
 */
module ReadingRules {
  import opened Bytes
  import opened LineEndings
  import opened MailTypes
  import opened PartPrinter
  import opened PartParser
  import opened TransferDecoding
  import opened TreeFidelity
  import Acceptance
  import Base64
  import QP = QuotedPrintable
  import Utf8

  // ----- what becomes of line breaks

  predicate HasCrlf(s: bytes) {
    exists i :: 0 <= i < |s| - 1 && s[i] == CR && s[i + 1] == LF
  }

  /** Somewhere a CR comes directly before a CRLF. */
  predicate HasDoubleCr(s: bytes) {
    exists i :: 0 <= i < |s| - 2 && s[i] == CR && s[i + 1] == CR && s[i + 2] == LF
  }

  predicate StartsDoubleCr(s: bytes) {
    |s| >= 3 && s[0] == CR && s[1] == CR && s[2] == LF
  }

  lemma HasCrlfStep(c: byte, s: bytes)
    ensures HasCrlf([c] + s) <==> (c == CR && s != [] && s[0] == LF) || HasCrlf(s)
  {
    var all := [c] + s;
    if HasCrlf(s) {
      var i :| 0 <= i < |s| - 1 && s[i] == CR && s[i + 1] == LF;
      assert all[i + 1] == CR && all[i + 1 + 1] == LF;
    }
    if c == CR && s != [] && s[0] == LF {
      assert all[0] == CR && all[0 + 1] == LF;
    }
  }

  lemma HasDoubleCrStep(s: bytes)
    requires s != []
    ensures HasDoubleCr(s) <==> StartsDoubleCr(s) || HasDoubleCr(s[1..])
  {
    var t := s[1..];
    if HasDoubleCr(t) {
      var i :| 0 <= i < |t| - 2 && t[i] == CR && t[i + 1] == CR && t[i + 2] == LF;
      assert s[i + 1] == CR && s[i + 1 + 1] == CR && s[i + 1 + 2] == LF;
    }
    if HasDoubleCr(s) && !StartsDoubleCr(s) {
      var i :| 0 <= i < |s| - 2 && s[i] == CR && s[i + 1] == CR && s[i + 2] == LF;
      assert t[i - 1] == CR && t[i - 1 + 1] == CR && t[i - 1 + 2] == LF;
    }
    if StartsDoubleCr(s) {
      assert s[0] == CR && s[0 + 1] == CR && s[0 + 2] == LF;
    }
  }

  /** `strings.ReplaceAll` of CRLF is splitting at CRLF and joining again: nothing else is touched. */
  lemma {:induction false} ReplaceIsSplitAndJoin(s: bytes, with: bytes)
    ensures ReplaceAll(s, CRLF, with) == Join(Acceptance.Chunks(s), with)
  {
    if s != [] {
      if CRLF <= s {
        var rest := Acceptance.Chunks(s[2..]);
        ReplaceIsSplitAndJoin(s[2..], with);
        assert ([[]] + rest)[1..] == rest;
      } else {
        var rest := Acceptance.Chunks(s[1..]);
        ReplaceIsSplitAndJoin(s[1..], with);
        assert ([[s[0]] + rest[0]] + rest[1..])[1..] == rest[1..];
      }
    }
  }

  lemma {:induction false} ReplaceByItself(s: bytes)
    ensures ReplaceAll(s, CRLF, CRLF) == s
  {
    if s != [] {
      if CRLF <= s {
        ReplaceByItself(s[2..]);
        assert s == CRLF + s[2..];
      } else {
        ReplaceByItself(s[1..]);
      }
    }
  }

  lemma {:induction false} ChunksHaveNoCrlf(s: bytes)
    ensures forall i :: 0 <= i < |Acceptance.Chunks(s)| ==> !HasCrlf(Acceptance.Chunks(s)[i])
    ensures Acceptance.Chunks(s)[0] <= s
  {
    if s == [] {
    } else if StartsCrlf(s) {
      ChunksHaveNoCrlf(s[2..]);
    } else {
      var rest := Acceptance.Chunks(s[1..]);
      ChunksHaveNoCrlf(s[1..]);
      HasCrlfStep(s[0], rest[0]);
    }
  }

  /** The chunks are the text split at CRLF: joined they give it back, and none has a CRLF in it. */
  lemma ChunksSplit(s: bytes)
    ensures Join(Acceptance.Chunks(s), CRLF) == s
    ensures forall i :: 0 <= i < |Acceptance.Chunks(s)| ==> !HasCrlf(Acceptance.Chunks(s)[i])
  {
    ReplaceByItself(s);
    ReplaceIsSplitAndJoin(s, CRLF);
    ChunksHaveNoCrlf(s);
  }

  /** A CR, and the CRLF after it, of which only the LF is left. */
  lemma ReplaceDoubleCr(s: bytes)
    requires StartsDoubleCr(s)
    ensures ReplaceAll(s, CRLF, [LF]) == CRLF + ReplaceAll(s[3..], CRLF, [LF])
  {
    var tail := s[1..];
    assert tail[2..] == s[3..] && CRLF <= tail;
    assert ReplaceAll(tail, CRLF, [LF]) == [LF] + ReplaceAll(s[3..], CRLF, [LF]);
    Assoc([CR], [LF], ReplaceAll(s[3..], CRLF, [LF]));
  }

  lemma LinesOfDoubleCr(s: bytes)
    requires StartsDoubleCr(s)
    ensures |Lines(s)| == 2 + |Lines(s[3..])|
  {
    assert s[1..][2..] == s[3..];
    assert Lines(s[1..]) == [[]] + Lines(s[3..]);
  }

  lemma LinesAfterCrlf(t: bytes)
    ensures Lines(CRLF + t) == [[]] + Lines(t)
  {
    assert (CRLF + t)[2..] == t;
  }

  /** The replacement keeps the lines of a text, or loses some where a CR comes directly before a CRLF. */
  lemma {:induction false} ReplaceKeepsLines(s: bytes)
    ensures !HasDoubleCr(s) ==> Lines(ReplaceAll(s, CRLF, [LF])) == Lines(s)
    ensures HasDoubleCr(s) ==> |Lines(ReplaceAll(s, CRLF, [LF]))| < |Lines(s)|
  {
    if s != [] {
      HasDoubleCrStep(s);
      if StartsCrlf(s) {
        HasDoubleCrStep(s[1..]);
        ReplaceKeepsLines(s[2..]);
        LinesAfterLf(ReplaceAll(s[2..], CRLF, [LF]));
      } else if StartsDoubleCr(s) {
        ReplaceKeepsLines(s[3..]);
        ReplaceDoubleCr(s);
        LinesOfDoubleCr(s);
        LinesAfterCrlf(ReplaceAll(s[3..], CRLF, [LF]));
      } else {
        ReplaceKeepsLines(s[1..]);
        var t := ReplaceAll(s[1..], CRLF, [LF]);
        assert ([s[0]] + t)[1..] == t;
      }
    }
  }

  lemma {:induction false} ReplaceLeavesCrlf(s: bytes)
    ensures HasCrlf(ReplaceAll(s, CRLF, [LF])) <==> HasDoubleCr(s)
  {
    if s != [] {
      HasDoubleCrStep(s);
      if StartsCrlf(s) {
        HasDoubleCrStep(s[1..]);
        ReplaceLeavesCrlf(s[2..]);
        HasCrlfStep(LF, ReplaceAll(s[2..], CRLF, [LF]));
      } else if StartsDoubleCr(s) {
        ReplaceDoubleCr(s);
        HasCrlfStep(CR, [LF] + ReplaceAll(s[3..], CRLF, [LF]));
        Assoc([CR], [LF], ReplaceAll(s[3..], CRLF, [LF]));
      } else {
        ReplaceLeavesCrlf(s[1..]);
        HasCrlfStep(s[0], ReplaceAll(s[1..], CRLF, [LF]));
      }
    }
  }

  /** Reading text keeps its lines, and leaves no CRLF in it, exactly if no CR comes directly before a CRLF. */
  lemma ReplaceKeepsCanonicalIff(s: bytes)
    ensures Canonical(ReplaceAll(s, CRLF, [LF])) == Canonical(s) <==> !HasDoubleCr(s)
    ensures HasCrlf(ReplaceAll(s, CRLF, [LF])) <==> HasDoubleCr(s)
  {
    ReplaceKeepsLines(s);
    ReplaceLeavesCrlf(s);
    LinesOfCanonical(s);
    LinesOfCanonical(ReplaceAll(s, CRLF, [LF]));
  }

  lemma {:induction false} ReplaceAfter(head: bytes, rest: bytes)
    requires CR !in head
    ensures ReplaceAll(head + rest, CRLF, [LF]) == head + ReplaceAll(rest, CRLF, [LF])
  {
    if head == [] {
      assert head + rest == rest;
    } else {
      assert head[0] in head;
      ReplaceAfter(head[1..], rest);
      assert (head + rest)[1..] == head[1..] + rest;
      Assoc([head[0]], head[1..], ReplaceAll(rest, CRLF, [LF]));
      assert [head[0]] + head[1..] == head;
    }
  }

  lemma RuneHasNoCr(s: bytes, w: nat)
    requires w <= |s| && forall k :: 0 <= k < w ==> s[k] >= 128
    ensures CR !in s[..w]
  {
    assert forall k :: 0 <= k < w ==> s[..w][k] == s[k];
  }

  lemma RuneInFront(s: bytes, rest: bytes)
    requires Utf8.First(s).Some?
    ensures var w := Utf8.First(s).value.width;
            Utf8.First(s[..w] + rest) == Utf8.First(s) && (s[..w] + rest)[w..] == rest
  {
    var w := Utf8.First(s).value.width;
    assert (s[..w] + rest)[..w] == s[..w];
    FirstIsLocal(s, s[..w] + rest);
  }

  lemma ReplaceAfterRune(s: bytes)
    requires Utf8.First(s).Some? && s[0] >= 128
    ensures var w := Utf8.First(s).value.width;
            ReplaceAll(s, CRLF, [LF]) == s[..w] + ReplaceAll(s[w..], CRLF, [LF])
  {
    var w := Utf8.First(s).value.width;
    RuneHasNoCr(s, w);
    assert s == s[..w] + s[w..];
    ReplaceAfter(s[..w], s[w..]);
  }

  lemma {:induction false} ReplaceKeepsUtf8(s: bytes)
    requires Utf8.Valid(s)
    ensures Utf8.Valid(ReplaceAll(s, CRLF, [LF]))
  {
    if s == [] {
    } else if s[0] >= 128 {
      var w := Utf8.First(s).value.width;
      ReplaceAfterRune(s);
      ReplaceKeepsUtf8(s[w..]);
      RuneInFront(s, ReplaceAll(s[w..], CRLF, [LF]));
    } else {
      var n := if StartsCrlf(s) then 2 else 1;
      assert StartsCrlf(s) ==> s[1..][1..] == s[2..];
      ReplaceKeepsUtf8(s[n..]);
      var c, t := if StartsCrlf(s) then LF else s[0], ReplaceAll(s[n..], CRLF, [LF]);
      assert ([c] + t)[1..] == t;
    }
  }

  // ----- leaves

  /**
   * A text is the decoded content, transcoded from its charset where that is not UTF-8 or ASCII, and
   * split at CRLF.  It is well-formed, and has the lines of the content exactly if no CR comes
   * directly before a CRLF there.
   */
  lemma TextIsDecoded(codec: Codec, header: EntityHeader, body: seq<bytes>, t: bytes) returns (raw: bytes, text: bytes)
    requires ParsePart(codec, header, body) == Ok(Text(t))
    ensures DecodeTransferEncoding(header.cte, Join(body, CRLF)) == Some(raw)
    ensures var charset := NormalizeCte(MediaOf(header.contentType).charset);
            text == if charset in {"", "us-ascii", "ascii", "utf-8"} then raw else codec.transcode(charset, raw)
    ensures HasPrefix(MediaOf(header.contentType).mediaType, "text/") && Utf8.Valid(text) && Utf8.Valid(t)
    ensures t == Join(Acceptance.Chunks(text), [LF])
    ensures Canonical(t) == Canonical(text) <==> !HasDoubleCr(text)
    ensures HasCrlf(t) <==> HasDoubleCr(text)
  {
    raw := DecodeTransferEncoding(header.cte, Join(body, CRLF)).value;
    text := DecodeText(codec, raw, MediaOf(header.contentType).charset);
    ReplaceKeepsUtf8(text);
    ReplaceIsSplitAndJoin(text, [LF]);
    ReplaceKeepsCanonicalIff(text);
  }

  /** Octets are the decoded content, whatever the charset, of a leaf that is no text or is not well-formed as one. */
  lemma OctetsAreDecoded(codec: Codec, header: EntityHeader, body: seq<bytes>, data: bytes)
    requires ParsePart(codec, header, body) == Ok(Binary(data))
    ensures DecodeTransferEncoding(header.cte, Join(body, CRLF)) == Some(data)
    ensures var charset := NormalizeCte(MediaOf(header.contentType).charset);
            HasPrefix(MediaOf(header.contentType).mediaType, "text/") ==>
              !Utf8.Valid(if charset in {"", "us-ascii", "ascii", "utf-8"} then data
                          else codec.transcode(charset, data))
  {
  }

  lemma Base64IsRead(s: bytes)
    ensures DecodeTransferEncoding("base64", Join([Base64.Encode(s)], CRLF)) == Some(s)
  {
    NormalizeNames();
    Base64.EncodeIsPrintable(s);
    Base64.UnwrapPrintable(Base64.Encode(s));
    Base64.DecodeInvertsEncode(s);
  }

  lemma PlainTextIsRead(codec: Codec, cte: string, body: seq<bytes>, raw: bytes)
    requires DecodeTransferEncoding(cte, Join(body, CRLF)) == Some(raw) && Utf8.Valid(raw)
    ensures ParsePart(codec, EntityHeader(PLAIN_TEXT, cte), body) == Ok(Text(ReplaceAll(raw, CRLF, [LF])))
  {
    NormalizeName("utf-8");
    assert "text/plain"[0] != "multipart/"[0] && "text/" <= "text/plain";
  }

  /** The text CR CR LF loses a line when it is read, and still has a CRLF in it. */
  lemma DoubleCrLosesALine(codec: Codec)
    ensures ParsePart(codec, EntityHeader(PLAIN_TEXT, "base64"), [Base64.Encode([CR, CR, LF])]) == Ok(Text(CRLF))
    ensures Canonical(CRLF) != Canonical([CR, CR, LF]) && HasCrlf(CRLF)
  {
    var s := [CR, CR, LF];
    Base64IsRead(s);
    Utf8.AsciiIsValid(s);
    PlainTextIsRead(codec, "base64", [Base64.Encode(s)], s);
    ReplaceDoubleCr(s);
    assert s[3..] == [] && CRLF + [] == CRLF;
    ReplaceKeepsCanonicalIff(s);
    assert StartsDoubleCr(s) && s[1..] == CRLF;
    HasDoubleCrStep(s);
  }

  /** Without a content type, or with one that does not parse, a leaf is plain text in ASCII. */
  lemma DefaultIsPlainText(codec: Codec, contentType: ContentType, cte: string, body: seq<bytes>)
    requires contentType.media.None?
    ensures ParsePart(codec, EntityHeader(contentType, cte), body) ==
            match DecodeTransferEncoding(cte, Join(body, CRLF))
            case Some(raw) => Ok(if Utf8.Valid(raw) then Text(Join(Acceptance.Chunks(raw), [LF])) else Binary(raw))
            case None => Err(UndecodableBody)
  {
    NormalizeName("us-ascii");
    assert "text/plain"[0] != "multipart/"[0] && "text/" <= "text/plain";
    if DecodeTransferEncoding(cte, Join(body, CRLF)).Some? {
      ReplaceIsSplitAndJoin(DecodeTransferEncoding(cte, Join(body, CRLF)).value, [LF]);
    }
  }

  // ----- trees

  /** Every text in the tree is well-formed UTF-8. */
  predicate TextsAreUtf8(p: Part) {
    match p
    case Text(text) => Utf8.Valid(text)
    case Multipart(children) => forall i :: 0 <= i < |children| ==> TextsAreUtf8(children[i].part)
    case _ => true
  }

  predicate ChildrenAreUtf8(r: Result<seq<Child>, ParseError>) {
    r.Ok? ==> forall i :: 0 <= i < |r.value| ==> TextsAreUtf8(r.value[i].part)
  }

  /** Whatever the reader accepts has well-formed texts only. */
  lemma {:induction false} ParsedTextsAreUtf8(codec: Codec, header: EntityHeader, body: seq<bytes>)
    ensures ParsePart(codec, header, body).Ok? ==> TextsAreUtf8(ParsePart(codec, header, body).value)
    decreases |body|, 2
  {
    var r, media := ParsePart(codec, header, body), MediaOf(header.contentType);
    if r.Ok? {
      if r.value.Multipart? {
        PreambleIsUtf8(codec, media.boundary.value, body);
      } else if r.value.Text? {
        var _, _ := TextIsDecoded(codec, header, body, r.value.text);
      }
    }
  }

  lemma {:induction false} PreambleIsUtf8(codec: Codec, b: bytes, ls: seq<bytes>)
    ensures ChildrenAreUtf8(ParsePreamble(codec, b, ls))
    decreases |ls|, 1
  {
    if ls != [] {
      if IsDelimiter(ls[0], b) {
        SectionsAreUtf8(codec, b, ls[1..]);
      } else if !IsClose(ls[0], b) {
        PreambleIsUtf8(codec, b, ls[1..]);
      }
    }
  }

  lemma OneMoreIsUtf8(child: Child, more: seq<Child>)
    requires TextsAreUtf8(child.part) && forall i :: 0 <= i < |more| ==> TextsAreUtf8(more[i].part)
    ensures forall i :: 0 <= i < |[child] + more| ==> TextsAreUtf8(([child] + more)[i].part)
  {
  }

  lemma {:induction false} SectionsAreUtf8(codec: Codec, b: bytes, ls: seq<bytes>)
    ensures ChildrenAreUtf8(ParseChildren(codec, b, ls))
    decreases |ls|, 1
  {
    var section := NextSection(codec, b, ls);
    if section.Ok? {
      var s := section.value;
      ParsedTextsAreUtf8(codec, s.header, s.body);
      SectionsAreUtf8(codec, b, s.rest);
      var part, more := ParsePart(codec, s.header, s.body), ParseChildren(codec, b, s.rest);
      if part.Ok? && more.Ok? {
        OneMoreIsUtf8(Child(s.header.contentType, [], part.value), more.value);
      }
    }
  }

  // ----- what does not matter in a multipart

  /** Lines in front of the first delimiter are skipped. */
  lemma {:induction false} PreambleDoesNotMatter(codec: Codec, b: bytes, front: seq<bytes>, ls: seq<bytes>)
    requires forall i :: 0 <= i < |front| ==> !IsDelimiter(front[i], b) && !IsClose(front[i], b)
    ensures ParsePreamble(codec, b, front + ls) == ParsePreamble(codec, b, ls)
  {
    if front == [] {
      assert front + ls == ls;
    } else {
      PreambleDoesNotMatter(codec, b, front[1..], ls);
      assert (front + ls)[1..] == front[1..] + ls;
    }
  }

  lemma {:induction false} HeaderEndStays(ls: seq<bytes>, more: seq<bytes>)
    requires HeaderEnd(ls) < |ls|
    ensures HeaderEnd(ls + more) == HeaderEnd(ls)
  {
    if ls[0] != [] {
      HeaderEndStays(ls[1..], more);
      assert (ls + more)[1..] == ls[1..] + more;
    }
  }

  lemma {:induction false} ChildEndStays(ls: seq<bytes>, b: bytes, more: seq<bytes>)
    requires ChildEnd(ls, b) < |ls|
    ensures ChildEnd(ls + more, b) == ChildEnd(ls, b)
  {
    if !EndsChild(ls[0], b) {
      ChildEndStays(ls[1..], b, more);
      assert (ls + more)[1..] == ls[1..] + more;
    }
  }

  lemma SplitStays(ls: seq<bytes>, more: seq<bytes>, k: nat)
    requires k < |ls|
    ensures (ls + more)[..k] == ls[..k] && (ls + more)[k] == ls[k] && (ls + more)[k + 1..] == ls[k + 1..] + more
  {
  }

  lemma SectionFrom(codec: Codec, b: bytes, ls: seq<bytes>, header: EntityHeader, rest: seq<bytes>)
    requires HeaderEnd(ls) < |ls| && codec.readHeader(ls[..HeaderEnd(ls)]) == Some(header)
    requires rest == ls[HeaderEnd(ls) + 1..] && ChildEnd(rest, b) < |rest|
    ensures var k := ChildEnd(rest, b);
            NextSection(codec, b, ls) == Ok(Section(header, rest[..k], rest[k], rest[k + 1..]))
  {
  }

  /** The cut of a section, with its content told apart from what the lines go on with. */
  lemma CutStays(b: bytes, rest: seq<bytes>, more: seq<bytes>)
    requires ChildEnd(rest, b) < |rest|
    ensures var k := ChildEnd(rest, b);
            && ChildEnd(rest + more, b) == k && k < |rest + more|
            && (rest + more)[..k] == rest[..k] && (rest + more)[k] == rest[k]
            && (rest + more)[k + 1..] == rest[k + 1..] + more
  {
    ChildEndStays(rest, b, more);
    SplitStays(rest, more, ChildEnd(rest, b));
  }

  lemma SectionStays(codec: Codec, b: bytes, ls: seq<bytes>, more: seq<bytes>)
    requires NextSection(codec, b, ls).Ok?
    ensures var s := NextSection(codec, b, ls).value;
            NextSection(codec, b, ls + more) == Ok(s.(rest := s.rest + more))
  {
    var h := HeaderEnd(ls);
    var rest, header := ls[h + 1..], codec.readHeader(ls[..h]).value;
    HeaderEndStays(ls, more);
    SplitStays(ls, more, h);
    CutStays(b, rest, more);
    SectionFrom(codec, b, ls, header, rest);
    SectionFrom(codec, b, ls + more, header, rest + more);
  }

  lemma {:induction false} ChildrenStay(codec: Codec, b: bytes, ls: seq<bytes>, more: seq<bytes>)
    requires ParseChildren(codec, b, ls).Ok?
    ensures ParseChildren(codec, b, ls + more) == ParseChildren(codec, b, ls)
    decreases |ls|
  {
    var s := NextSection(codec, b, ls).value;
    SectionStays(codec, b, ls, more);
    if IsDelimiter(s.end, b) {
      ChildrenStay(codec, b, s.rest, more);
    }
  }

  /** Lines after the closing delimiter are not looked at. */
  lemma {:induction false} EpilogueDoesNotMatter(codec: Codec, b: bytes, ls: seq<bytes>, more: seq<bytes>)
    requires ParsePreamble(codec, b, ls).Ok?
    ensures ParsePreamble(codec, b, ls + more) == ParsePreamble(codec, b, ls)
  {
    assert (ls + more)[0] == ls[0] && (ls + more)[1..] == ls[1..] + more;
    if IsDelimiter(ls[0], b) {
      ChildrenStay(codec, b, ls[1..], more);
    } else if !IsClose(ls[0], b) {
      EpilogueDoesNotMatter(codec, b, ls[1..], more);
    }
  }

  /** Which lines end a child: the delimiter with nothing or a blank after it, or the closing one. */
  lemma EndsChildIff(b: bytes, rest: bytes)
    ensures EndsChild([DASH, DASH] + b + rest, b) <==>
              rest == [] || rest[0] == 0x20 || rest[0] == 0x09 || (|rest| >= 2 && rest[0] == rest[1] == 0x2D)
  {
    var line := [DASH, DASH] + b + rest;
    assert line[..|b| + 2] == DashBoundary(b) && line[|b| + 2..] == rest;
    if StartsWith(line, CloseDelimiter(b)) {
      assert rest[0] == line[..|b| + 4][|b| + 2] && rest[1] == line[..|b| + 4][|b| + 3];
    }
    if |rest| >= 2 && rest[0] == rest[1] == 0x2D {
      assert line[..|b| + 4] == CloseDelimiter(b);
    }
  }

  lemma EndStartsWithBoundary(line: bytes, b: bytes)
    requires EndsChild(line, b) || IsDelimiter(line, b) || IsClose(line, b)
    ensures [DASH, DASH] + b <= line
  {
    if IsClose(line, b) {
      assert line[..|b| + 2] == line[..|b| + 4][..|b| + 2] == DashBoundary(b);
    }
  }

  /** The two delimiters mean the same with blanks after them. */
  lemma PaddingDoesNotMatter(b: bytes, pad: bytes)
    requires forall i :: 0 <= i < |pad| ==> pad[i] == 0x20 || pad[i] == 0x09
    ensures IsDelimiter([DASH, DASH] + b + pad, b) && EndsChild([DASH, DASH] + b + pad, b)
    ensures IsClose([DASH, DASH] + b + [DASH, DASH] + pad, b) && EndsChild([DASH, DASH] + b + [DASH, DASH] + pad, b)
    ensures !IsDelimiter([DASH, DASH] + b + [DASH, DASH] + pad, b)
  {
    var open, close := [DASH, DASH] + b + pad, [DASH, DASH] + b + [DASH, DASH] + pad;
    EndsChildIff(b, pad);
    EndsChildIff(b, [DASH, DASH] + pad);
    Assoc([DASH, DASH] + b, [DASH, DASH], pad);
    assert open[..|b| + 2] == DashBoundary(b) && open[|b| + 2..] == pad;
    assert close[..|b| + 4] == CloseDelimiter(b) && close[|b| + 4..] == pad;
    assert close[|b| + 2..][0] == DASH;
  }

  /** A multipart is refused for its label unless that stands for no encoding, in any case. */
  lemma MultipartLabels(codec: Codec, header: EntityHeader, body: seq<bytes>)
    requires HasPrefix(MediaOf(header.contentType).mediaType, "multipart/")
    ensures ParsePart(codec, header, body) == Err(EncodedMultipart) <==>
              ToLower(header.cte) !in {"", "7bit", "8bit", "binary"} || (
                && MediaOf(header.contentType).boundary.UnwrapOr([]) != []
                && ParsePreamble(codec, MediaOf(header.contentType).boundary.value, body) == Err(EncodedMultipart))
  {
  }

  /** A multipart whose content type names no boundary, or an empty one, is not read. */
  lemma MultipartNeedsBoundary(codec: Codec, header: EntityHeader, body: seq<bytes>)
    requires HasPrefix(MediaOf(header.contentType).mediaType, "multipart/")
    requires MediaOf(header.contentType).boundary.UnwrapOr([]) == []
    ensures || ParsePart(codec, header, body) == Err(MissingBoundary)
            || ParsePart(codec, header, body) == Err(EncodedMultipart)
  {
  }

  /** A boundary with a blank and something else after it ends the child it is in, and the multipart cannot be read. */
  lemma StrayBoundaryIsRefused(codec: Codec, b: bytes, ls: seq<bytes>, s: Section, rest: bytes, i: nat)
    requires NextSection(codec, b, ls) == Ok(s) && s.end == [DASH, DASH] + b + rest
    requires i < |rest| && !QP.Blank(rest[i]) && QP.Blank(rest[0])
    ensures EndsChild(s.end, b)
    ensures ParseChildren(codec, b, ls) ==
            match ParsePart(codec, s.header, s.body)
            case Ok(_) => Err(UnexpectedLine)
            case Err(error) => Err(error)
  {
    EndsChildIff(b, rest);
    assert s.end[|b| + 2..] == rest && s.end[|b| + 2] == rest[0];
  }
}
