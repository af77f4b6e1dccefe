/**
 * What a content line that looks like a boundary does: the writer does not look for one, so the tree
 * is lost.  With this the conditions of the round trip are exact.
 */
module Collisions {
  import opened Bytes
  import opened LineEndings
  import opened Counting
  import opened MailTypes
  import opened PartPrinter
  import opened PartParser
  import opened TransferDecoding
  import opened TreeRoundTrip
  import opened TreeFidelity
  import Base64
  import Encoding
  import QP = QuotedPrintable

  predicate IsDash(c: byte) {
    c == DASH
  }

  // ----- leaves

  predicate StartsDashes(line: bytes) {
    |line| >= 2 && line[0] == DASH && line[1] == DASH
  }

  /** The lines before a line of dashes have fewer of them. */
  lemma FewerDashes(ls: seq<bytes>, k: nat)
    requires k < |ls| && StartsDashes(ls[k])
    ensures CountIn(IsDash, ls[..k]) < CountIn(IsDash, ls)
  {
    assert ls == ls[..k] + ls[k..];
    CountInAppend(IsDash, ls[..k], ls[k..]);
    assert ls[k..][0] == ls[k];
  }

  /** The alphabet of base64 has no dash. */
  predicate DashFree(s: bytes) {
    forall i :: 0 <= i < |s| ==> s[i] != DASH
  }

  lemma {:induction false} Base64HasNoDash(s: bytes)
    ensures DashFree(Base64.Encode(s))
  {
    if |s| >= 3 {
      Base64HasNoDash(s[3..]);
    }
  }

  lemma {:induction false} WrapHasNoDash(enc: bytes)
    requires DashFree(enc)
    ensures DashFree(Base64.Wrap(enc))
  {
    if |enc| > Base64.WIDTH {
      WrapHasNoDash(enc[Base64.WIDTH..]);
    }
  }

  lemma Base64NeverCollides(b: bytes, k: nat)
    requires k < |Lines(Encoding.Base64Text(b))|
    ensures !StartsDashes(Lines(Encoding.Base64Text(b))[k])
  {
    var text := Encoding.Base64Text(b);
    Base64HasNoDash(b);
    WrapHasNoDash(Base64.Encode(b));
    CountNone(IsDash, text);
    CountOfLines(IsDash, text);
    if StartsDashes(Lines(text)[k]) {
      FewerDashes(Lines(text), k);
    }
  }

  // ----- quoted-printable, cut short

  lemma {:induction false} TrimKeepsFront(line: bytes, n: nat)
    requires n <= |line| && forall i :: 0 <= i < n ==> !QP.Blank(line[i])
    ensures |QP.TrimRight(line)| >= n && QP.TrimRight(line)[..n] == line[..n]
    decreases |line|
  {
    if line != [] && QP.Blank(line[|line| - 1]) {
      TrimKeepsFront(line[..|line| - 1], n);
      assert line[..|line| - 1][..n] == line[..n];
    }
  }

  /** A line of dashes contributes a dash. */
  lemma DashLineContributes(line: bytes, last: bool)
    requires StartsDashes(line) && QP.DecodeLine(line, last).Some?
    ensures Count(IsDash, QP.DecodeLine(line, last).value) >= 1
  {
    TrimKeepsFront(line, 2);
    var trimmed := QP.TrimRight(line);
    assert trimmed[..2][0] == DASH && trimmed[..2][1] == DASH;
    var text := if QP.Soft(trimmed) then trimmed[..|trimmed| - 1] else trimmed;
    assert text[0] == DASH;
    var rest := QP.DecodeText(text[1..]).value;
    assert QP.DecodeText(text).value == [DASH] + rest;
    CountAppend(IsDash, [DASH] + rest, if QP.Soft(trimmed) || last then [] else CRLF);
  }

  /** As the last line of a text a line contributes no more than in the middle of it. */
  lemma LastContributesLess(line: bytes)
    requires QP.DecodeLine(line, true).Some? && QP.DecodeLine(line, false).Some?
    ensures Count(IsDash, QP.DecodeLine(line, true).value) <= Count(IsDash, QP.DecodeLine(line, false).value)
  {
    var trimmed := QP.TrimRight(line);
    if !QP.Soft(trimmed) {
      var text := QP.DecodeText(trimmed).value;
      CountAppend(IsDash, text, []);
      CountAppend(IsDash, text, CRLF);
    }
  }

  /** Encoded lines cut short at a line of dashes decode to fewer dashes, if at all. */
  lemma {:induction false} CutDecodesToLess(ls: seq<bytes>, k: nat)
    requires k < |ls| && StartsDashes(ls[k])
    requires QP.DecodeLines(ls).Some? && QP.DecodeLines(ls[..k]).Some?
    ensures Count(IsDash, QP.DecodeLines(ls[..k]).value) < Count(IsDash, QP.DecodeLines(ls).value)
  {
    var line, rest := QP.DecodeLine(ls[0], |ls| == 1), QP.DecodeLines(ls[1..]);
    CountAppend(IsDash, line.value, rest.value);
    if k == 0 {
      DashLineContributes(ls[0], |ls| == 1);
    } else {
      var cut := ls[..k];
      assert cut[1..] == ls[1..][..k - 1];
      var cutLine, cutRest := QP.DecodeLine(ls[0], |cut| == 1), QP.DecodeLines(cut[1..]);
      assert QP.DecodeLines(cut) == QP.Then(cutLine, cutRest);
      CountAppend(IsDash, cutLine.value, cutRest.value);
      CutDecodesToLess(ls[1..], k - 1);
      if k == 1 {
        LastContributesLess(ls[0]);
      }
    }
  }

  // ----- a leaf, cut short

  /** The tree is read from these lines, up to line endings. */
  predicate ReadsBack(env: Env, p: Part, header: EntityHeader, ls: seq<bytes>) {
    var r := ParsePart(env.codec, header, ls);
    r.Ok? && Arrives(env.has8Bit, p, r.value)
  }

  lemma EmptyTextDecodes()
    ensures QP.Decode([]) == Some([])
  {
    var none: seq<bytes> := [];
    QP.DecodeEmpty(none);
    assert [[]] + none == [[]];
    assert QP.After(none) == [];
  }

  lemma CutLeafDecodesToLess(has8Bit: bool, octets: bytes, k: nat)
    requires var e := Encoding.Encode(has8Bit, octets);
             k < |Lines(e.content)| && StartsDashes(Lines(e.content)[k])
    ensures var e := Encoding.Encode(has8Bit, octets);
            var raw := DecodeTransferEncoding(e.cte, Join(Lines(e.content)[..k], CRLF));
            raw.Some? ==> Count(IsDash, raw.value) < Count(IsDash, octets)
  {
    var e := Encoding.Encode(has8Bit, octets);
    var ls := Lines(e.content);
    var cut := Join(ls[..k], CRLF);
    NormalizeNames();
    if e.cte == "base64" {
      Base64NeverCollides(octets, k);
    } else if e.cte == "quoted-printable" {
      QP.EncodeShape(octets);
      QP.RoundTrip(octets);
      CountOfCanonical(IsDash, octets);
      LinesAreClean(e.content);
      if k == 0 {
        var none: seq<bytes> := ls[..k];
        assert none == [] && QP.DecodeLines(none) == Some([]);
        EmptyTextDecodes();
      } else {
        LinesOfJoin(ls[..k], CRLF);
      }
      if QP.DecodeLines(ls[..k]).Some? {
        CutDecodesToLess(ls, k);
      }
    } else {
      FewerDashes(ls, k);
      CountOfJoin(IsDash, ls[..k], CRLF);
      CountOfLines(IsDash, octets);
    }
  }

  /** Octets that do not have as many of some sort as the leaf are not read as the leaf. */
  lemma OtherCountIsLost(sort: byte -> bool, env: Env, p: Part, contentType: ContentType, raw: bytes)
    requires (p.Text? || p.Binary?) && TypesMatchKinds(p, contentType)
    requires NoBreaks(sort) && Count(sort, raw) != Count(sort, LeafOctets(p))
    ensures !Arrives(env.has8Bit, p, LeafOf(env.codec, MediaOf(contentType), raw))
  {
    CountOfReplaced(sort, raw);
    if p.Text? {
      CountOfCanonical(sort, p.text);
      CountOfLines(sort, p.text);
      CountOfJoin(sort, Lines(p.text), [LF]);
    } else {
      CountOfCanonical(sort, p.data);
    }
  }

  lemma CutLeafIsLost(env: Env, p: Part, contentType: ContentType, k: nat)
    requires (p.Text? || p.Binary?) && TypesMatchKinds(p, contentType)
    requires !HasPrefix(MediaOf(contentType).mediaType, "multipart/")
    requires var e := Encoding.Encode(env.has8Bit, LeafOctets(p));
             k < |Lines(e.content)| && StartsDashes(Lines(e.content)[k])
    ensures var e := Encoding.Encode(env.has8Bit, LeafOctets(p));
            !ReadsBack(env, p, EntityHeader(contentType, e.cte), Lines(e.content)[..k])
  {
    var e := Encoding.Encode(env.has8Bit, LeafOctets(p));
    CutLeafDecodesToLess(env.has8Bit, LeafOctets(p), k);
    var raw := DecodeTransferEncoding(e.cte, Join(Lines(e.content)[..k], CRLF));
    if raw.Some? {
      OtherCountIsLost(IsDash, env, p, contentType, raw.value);
    }
  }

  // ----- trees

  /** What `Carried` asks for, except that no content line looks like a boundary. */
  predicate Framed(env: Env, path: seq<nat>, p: Part, contentType: ContentType)
    decreases p
  {
    && Encodable(p, contentType)
    && match p
       case Nil => false
       case Multipart(children) =>
         && BoundaryTravels(env, path, contentType.media.value)
         && (forall i :: 0 <= i < |children| ==> HeaderOfChildSurvives(env, EncodeChild(env, path, p, contentType, i)))
         && forall i :: 0 <= i < |children| ==>
              Framed(env, path + [i], children[i].part, children[i].contentType)
       case _ => !HasPrefix(MediaOf(contentType).mediaType, "multipart/")
  }

  predicate ChildCollides(env: Env, path: seq<nat>, p: Part, contentType: ContentType, i: nat)
    requires p.Multipart? && Encodable(p, contentType) && i < |p.children|
  {
    !NoCollision(Boundary(env, path, contentType.media.value), EncodeChild(env, path, p, contentType, i).content)
  }

  /** Somewhere in the tree a line of a child looks like a boundary line around it. */
  predicate Collides(env: Env, path: seq<nat>, p: Part, contentType: ContentType)
    requires Encodable(p, contentType)
    decreases p
  {
    match p
    case Multipart(children) =>
      (exists i :: 0 <= i < |children|
         && (ChildCollides(env, path, p, contentType, i)
             || Collides(env, path + [i], children[i].part, children[i].contentType)))
    case _ => false
  }

  /** The trees that are carried are the framed ones in which nothing collides. */
  lemma {:induction false} CarriedIff(env: Env, path: seq<nat>, p: Part, contentType: ContentType)
    ensures Carried(env, path, p, contentType) <==>
              Framed(env, path, p, contentType) && !Collides(env, path, p, contentType)
    decreases p
  {
    if p.Multipart? && Encodable(p, contentType) {
      forall i | 0 <= i < |p.children|
        ensures Carried(env, path + [i], p.children[i].part, p.children[i].contentType) <==>
                  && Framed(env, path + [i], p.children[i].part, p.children[i].contentType)
                  && !Collides(env, path + [i], p.children[i].part, p.children[i].contentType)
        ensures ChildTravels(env, path, p, contentType, i) <==>
                  && HeaderOfChildSurvives(env, EncodeChild(env, path, p, contentType, i))
                  && !ChildCollides(env, path, p, contentType, i)
      {
        CarriedIff(env, path + [i], p.children[i].part, p.children[i].contentType);
      }
      if Carried(env, path, p, contentType) {
        assert Framed(env, path, p, contentType);
      }
      if Framed(env, path, p, contentType) && !Collides(env, path, p, contentType) {
        forall i | 0 <= i < |p.children|
          ensures ChildTravels(env, path, p, contentType, i)
          ensures Carried(env, path + [i], p.children[i].part, p.children[i].contentType)
        {
        }
      }
    }
  }

  // ----- a multipart, cut short

  lemma EndStartsDashes(line: bytes, b: bytes)
    requires EndsChild(line, b)
    ensures StartsDashes(line)
  {
    assert line[..|b| + 2][0] == DASH && line[..|b| + 2][1] == DASH;
  }

  lemma {:induction false} HeaderEndOfNone(ls: seq<bytes>)
    requires forall i :: 0 <= i < |ls| ==> ls[i] != []
    ensures HeaderEnd(ls) == |ls|
  {
    if ls != [] {
      HeaderEndOfNone(ls[1..]);
    }
  }

  lemma {:induction false} ChildEndOfPrefix(ls: seq<bytes>, b: bytes, m: nat)
    requires m <= ChildEnd(ls, b)
    ensures ChildEnd(ls[..m], b) == m
  {
    if m > 0 {
      assert ls[..m][1..] == ls[1..][..m - 1];
      ChildEndOfPrefix(ls[1..], b, m - 1);
    }
  }

  /** Lines that end before the content does make no section. */
  lemma CutHeader(codec: Codec, b: bytes, lines: seq<bytes>, after: seq<bytes>, k: nat)
    requires forall i :: 0 <= i < |lines| ==> lines[i] != []
    requires k <= |lines|
    ensures NextSection(codec, b, (lines + [[]] + after)[..k]).Err?
  {
    assert (lines + [[]] + after)[..k] == lines[..k];
    HeaderEndOfNone(lines[..k]);
  }

  lemma CutBody(codec: Codec, b: bytes, lines: seq<bytes>, after: seq<bytes>, m: nat)
    requires forall i :: 0 <= i < |lines| ==> lines[i] != []
    requires m <= ChildEnd(after, b)
    ensures NextSection(codec, b, (lines + [[]] + after)[..|lines| + 1 + m]).Err?
  {
    var ls := lines + [[]] + after[..m];
    assert (lines + [[]] + after)[..|lines| + 1 + m] == ls;
    HeaderEndAt(lines, after[..m]);
    ChildEndOfPrefix(after, b, m);
    assert ls[|lines| + 1..] == after[..m];
  }

  lemma ChildEndParts(after: seq<bytes>, b: bytes)
    requires ChildEnd(after, b) < |after|
    ensures var c := ChildEnd(after, b);
            EndsChild(after[c], b) && forall i :: 0 <= i < |after[..c]| ==> !EndsChild(after[..c][i], b)
  {
  }

  lemma {:induction false} ChildEndWithin(ls: seq<bytes>, b: bytes, m: nat)
    requires ChildEnd(ls, b) < m <= |ls|
    ensures ChildEnd(ls[..m], b) == ChildEnd(ls, b)
  {
    if !EndsChild(ls[0], b) {
      assert ls[..m][1..] == ls[1..][..m - 1];
      ChildEndWithin(ls[1..], b, m - 1);
    }
  }

  /** The first line that ends the child decides, whoever wrote it. */
  lemma CutSection(codec: Codec, b: bytes, h: EntityHeader, after: seq<bytes>, m: nat)
    requires HeaderSurvives(codec, h) && ChildEnd(after, b) < m <= |after|
    ensures var c := ChildEnd(after, b);
            NextSection(codec, b, codec.headerLines(h) + [[]] + after[..m]) ==
            Ok(Section(h, after[..c], after[c], after[c + 1..m]))
  {
    var c := ChildEnd(after, b);
    ChildEndWithin(after, b, m);
    FirstSection(codec, b, h, after[..m]);
    assert after[..m][..c] == after[..c] && after[..m][c + 1..] == after[c + 1..m];
  }

  lemma TakeBehind(start: seq<bytes>, after: seq<bytes>, m: nat)
    requires m <= |after|
    ensures (start + after)[..|start| + m] == start + after[..m]
  {
  }

  lemma CutSlice(codec: Codec, b: bytes, h: EntityHeader, after: seq<bytes>, m: nat, k: nat)
    requires HeaderSurvives(codec, h) && ChildEnd(after, b) < m <= |after| && k == |codec.headerLines(h) + [[]]| + m
    ensures var c := ChildEnd(after, b);
            NextSection(codec, b, (codec.headerLines(h) + [[]] + after)[..k]) ==
            Ok(Section(h, after[..c], after[c], after[c + 1..m]))
  {
    TakeBehind(codec.headerLines(h) + [[]], after, m);
    CutSection(codec, b, h, after, m);
  }

  lemma {:induction false} ChildEndInFront(body: seq<bytes>, tail: seq<bytes>, b: bytes)
    requires tail != [] && EndsChild(tail[0], b)
    ensures ChildEnd(body + tail, b) <= |body|
    ensures ChildEnd(body + tail, b) == |body| <==> forall i :: 0 <= i < |body| ==> !EndsChild(body[i], b)
  {
    if body == [] {
      assert body + tail == tail;
    } else {
      assert (body + tail)[1..] == body[1..] + tail;
      ChildEndInFront(body[1..], tail, b);
    }
  }

  lemma SliceOfTail(body: seq<bytes>, tail: seq<bytes>, m: nat)
    requires |body| < m <= |body| + |tail| && tail != []
    ensures (body + tail)[|body|] == tail[0] && (body + tail)[..|body|] == body
    ensures (body + tail)[|body| + 1..m] == tail[1..][..m - |body| - 1]
  {
  }

  /** What ends the child: a line of its own that looks like a boundary, or the one after it. */
  lemma SectionParts(body: seq<bytes>, tail: seq<bytes>, b: bytes, m: nat)
    requires tail != [] && EndsChild(tail[0], b) && ChildEnd(body + tail, b) < m <= |body + tail|
    ensures var after, c := body + tail, ChildEnd(body + tail, b);
            && c <= |body| && after[..c] == body[..c]
            && (c < |body| ==> StartsDashes(body[c]))
            && (c == |body| ==> after[c] == tail[0] && after[c + 1..m] == tail[1..][..m - |body| - 1])
  {
    var c := ChildEnd(body + tail, b);
    ChildEndInFront(body, tail, b);
    ChildEndParts(body + tail, b);
    assert (body + tail)[..c] == body[..c];
    if c < |body| {
      assert (body + tail)[c] == body[c];
      EndStartsDashes(body[c], b);
    } else {
      SliceOfTail(body, tail, m);
    }
  }

  /** Cut before the line that ends the child, the lines make no section. */
  lemma SectionMissing(codec: Codec, b: bytes, h: EntityHeader, after: seq<bytes>, k: nat)
    requires HeaderSurvives(codec, h)
    requires k <= |codec.headerLines(h)| + 1 + ChildEnd(after, b)
    ensures NextSection(codec, b, (codec.headerLines(h) + [[]] + after)[..k]).Err?
  {
    var lines := codec.headerLines(h);
    if k <= |lines| {
      CutHeader(codec, b, lines, after, k);
    } else {
      CutBody(codec, b, lines, after, k - |lines| - 1);
    }
  }

  /** Cut after it, they give the child up to the first line that looks like a boundary. */
  lemma SectionFound(codec: Codec, b: bytes, h: EntityHeader, body: seq<bytes>, tail: seq<bytes>, k: nat)
    returns (s: Section)
    requires HeaderSurvives(codec, h) && tail != [] && EndsChild(tail[0], b)
    requires |codec.headerLines(h)| + 1 + ChildEnd(body + tail, b) < k <= |codec.headerLines(h)| + 1 + |body + tail|
    ensures NextSection(codec, b, (codec.headerLines(h) + [[]] + (body + tail))[..k]) == Ok(s)
    ensures var c := ChildEnd(body + tail, b);
            && c <= |body| && s.header == h && s.body == body[..c]
            && (c < |body| ==> StartsDashes(body[c]))
            && (c == |body| ==>
                  s.end == tail[0] && s.rest == tail[1..][..k - |codec.headerLines(h)| - 1 - |body| - 1])
  {
    var m, after := k - |codec.headerLines(h)| - 1, body + tail;
    var c := ChildEnd(after, b);
    s := Section(h, after[..c], after[c], after[c + 1..m]);
    CutSlice(codec, b, h, after, m, k);
    SectionParts(body, tail, b, m);
  }

  // ----- framed children, cut short

  /** A child on the wire: its header and the lines of its content. */
  datatype Framing = Framing(header: EntityHeader, body: seq<bytes>)

  /** What follows the first delimiter of a multipart with these children. */
  function FrameTail(codec: Codec, b: bytes, fs: seq<Framing>): seq<bytes>
    requires fs != []
    decreases |fs|, 0
  {
    codec.headerLines(fs[0].header) + [[]] + (fs[0].body + NextFrame(codec, b, fs[1..]))
  }

  /** The line after a child and what follows it. */
  function NextFrame(codec: Codec, b: bytes, fs: seq<Framing>): seq<bytes>
    decreases |fs|, 1
  {
    if fs == [] then [CloseDelimiter(b), []] else [DashBoundary(b)] + FrameTail(codec, b, fs)
  }

  lemma NextFrameEnds(codec: Codec, b: bytes, fs: seq<Framing>)
    ensures var tail := NextFrame(codec, b, fs);
            && tail != [] && EndsChild(tail[0], b)
            && (IsDelimiter(tail[0], b) <==> fs != [])
            && tail[1..] == if fs == [] then [[]] else FrameTail(codec, b, fs)
  {
    DelimiterLine(b);
    CloseLine(b);
  }

  predicate ChildrenArrive(has8Bit: bool, cs: seq<Child>, r: Result<seq<Child>, ParseError>) {
    && r.Ok? && |r.value| == |cs|
    && forall k :: 0 <= k < |cs| ==> ChildArrives(has8Bit, cs[k], r.value[k])
  }

  /** The child is not read back from its lines cut short at a line of dashes. */
  predicate CutLoses(env: Env, c: Child, f: Framing) {
    forall k :: 0 <= k < |f.body| && StartsDashes(f.body[k]) ==> !ReadsBack(env, c.part, f.header, f.body[..k])
  }

  /** The child has a line that looks like a boundary, or is not read back from all of its lines. */
  predicate Lossy(env: Env, b: bytes, c: Child, f: Framing) {
    (exists i :: 0 <= i < |f.body| && EndsChild(f.body[i], b)) || !ReadsBack(env, c.part, f.header, f.body)
  }

  predicate Losable(env: Env, cs: seq<Child>, fs: seq<Framing>) {
    |cs| == |fs| && forall i :: 0 <= i < |fs| ==> HeaderSurvives(env.codec, fs[i].header) && CutLoses(env, cs[i], fs[i])
  }

  predicate SomeLossy(env: Env, b: bytes, cs: seq<Child>, fs: seq<Framing>)
    requires |cs| == |fs|
  {
    exists i :: 0 <= i < |fs| && Lossy(env, b, cs[i], fs[i])
  }

  /** The lines are cut short at a line of dashes, or one of the children is lossy. */
  predicate CutOrLossy(env: Env, b: bytes, cs: seq<Child>, fs: seq<Framing>, ls: seq<bytes>, k: nat)
    requires |cs| == |fs|
  {
    k <= |ls| && ((k < |ls| && StartsDashes(ls[k])) || SomeLossy(env, b, cs, fs))
  }

  lemma FirstIsLost(env: Env, b: bytes, cs: seq<Child>, ls: seq<bytes>, s: Section)
    requires cs != [] && NextSection(env.codec, b, ls) == Ok(s) && !ReadsBack(env, cs[0].part, s.header, s.body)
    ensures !ChildrenArrive(env.has8Bit, cs, ParseChildren(env.codec, b, ls))
  {
    var part, all := ParsePart(env.codec, s.header, s.body), ParseChildren(env.codec, b, ls);
    if part.Ok? && all.Ok? {
      assert all.value[0].part == part.value;
      assert ChildrenArrive(env.has8Bit, cs, all) ==> ChildArrives(env.has8Bit, cs[0], all.value[0]);
    }
  }

  lemma TailArrives(has8Bit: bool, cs: seq<Child>, child: Child, more: seq<Child>)
    requires cs != [] && ChildrenArrive(has8Bit, cs, Ok([child] + more))
    ensures ChildrenArrive(has8Bit, cs[1..], Ok(more))
  {
    var all := [child] + more;
    forall k | 0 <= k < |more|
      ensures ChildArrives(has8Bit, cs[1..][k], more[k])
    {
      assert more[k] == all[k + 1] && cs[1..][k] == cs[k + 1];
    }
  }

  lemma MoreIsLost(env: Env, b: bytes, cs: seq<Child>, ls: seq<bytes>, s: Section)
    requires cs != [] && NextSection(env.codec, b, ls) == Ok(s) && IsDelimiter(s.end, b)
    requires !ChildrenArrive(env.has8Bit, cs[1..], ParseChildren(env.codec, b, s.rest))
    ensures !ChildrenArrive(env.has8Bit, cs, ParseChildren(env.codec, b, ls))
  {
    var part, more := ParsePart(env.codec, s.header, s.body), ParseChildren(env.codec, b, s.rest);
    if part.Ok? && more.Ok? {
      var child := Child(s.header.contentType, [], part.value);
      assert ParseChildren(env.codec, b, ls) == Ok([child] + more.value);
      if ChildrenArrive(env.has8Bit, cs, Ok([child] + more.value)) {
        TailArrives(env.has8Bit, cs, child, more.value);
      }
    }
  }

  lemma LossyLater(env: Env, b: bytes, cs: seq<Child>, fs: seq<Framing>)
    requires |cs| == |fs| > 0 && SomeLossy(env, b, cs, fs) && !Lossy(env, b, cs[0], fs[0])
    ensures SomeLossy(env, b, cs[1..], fs[1..])
  {
    var i :| 0 <= i < |fs| && Lossy(env, b, cs[i], fs[i]);
    assert cs[1..][i - 1] == cs[i] && fs[1..][i - 1] == fs[i];
  }

  lemma LosableLater(env: Env, cs: seq<Child>, fs: seq<Framing>)
    requires Losable(env, cs, fs) && fs != []
    ensures Losable(env, cs[1..], fs[1..])
  {
    forall i | 0 <= i < |fs[1..]|
      ensures HeaderSurvives(env.codec, fs[1..][i].header) && CutLoses(env, cs[1..][i], fs[1..][i])
    {
      assert cs[1..][i] == cs[i + 1] && fs[1..][i] == fs[i + 1];
    }
  }

  lemma IndexBehind(front: seq<bytes>, next: seq<bytes>, k: nat)
    requires next != [] && |front| < k <= |front + next|
    ensures k - |front| - 1 <= |next[1..]|
    ensures k < |front + next| <==> k - |front| - 1 < |next[1..]|
    ensures k < |front + next| ==> (front + next)[k] == next[1..][k - |front| - 1]
  {
  }

  lemma FrameTailParts(codec: Codec, b: bytes, fs: seq<Framing>)
    requires fs != []
    ensures FrameTail(codec, b, fs) ==
            codec.headerLines(fs[0].header) + [[]] + fs[0].body + NextFrame(codec, b, fs[1..])
  {
    Assoc(codec.headerLines(fs[0].header) + [[]], fs[0].body, NextFrame(codec, b, fs[1..]));
  }

  lemma CutChildIsLost(env: Env, c: Child, f: Framing, n: nat)
    requires CutLoses(env, c, f) && n <= |f.body|
    requires if n < |f.body| then StartsDashes(f.body[n]) else !ReadsBack(env, c.part, f.header, f.body)
    ensures !ReadsBack(env, c.part, f.header, f.body[..n])
  {
    assert f.body[..|f.body|] == f.body;
  }

  /** A child that is read whole leaves the loss to the later ones. */
  lemma RestIsLost(env: Env, b: bytes, cs: seq<Child>, fs: seq<Framing>, k: nat, ls: seq<bytes>, s: Section)
    requires Losable(env, cs, fs) && fs != [] && !Lossy(env, b, cs[0], fs[0])
    requires CutOrLossy(env, b, cs, fs, FrameTail(env.codec, b, fs), k)
    requires NextSection(env.codec, b, ls) == Ok(s)
    requires var n := |env.codec.headerLines(fs[0].header)| + 1 + |fs[0].body|;
             var next := NextFrame(env.codec, b, fs[1..]);
             n < k <= n + |next| && next != [] && s.end == next[0] && s.rest == next[1..][..k - n - 1]
    ensures !ChildrenArrive(env.has8Bit, cs, ParseChildren(env.codec, b, ls))
    decreases |fs|, 0
  {
    var front := env.codec.headerLines(fs[0].header) + [[]] + fs[0].body;
    var next := NextFrame(env.codec, b, fs[1..]);
    FrameTailParts(env.codec, b, fs);
    NextFrameEnds(env.codec, b, fs[1..]);
    IndexBehind(front, next, k);
    if SomeLossy(env, b, cs, fs) {
      LossyLater(env, b, cs, fs);
    }
    if fs[1..] != [] {
      LosableLater(env, cs, fs);
      FramesAreLost(env, b, cs[1..], fs[1..], k - |front| - 1);
      MoreIsLost(env, b, cs, ls, s);
    }
  }

  /** The first child is cut out, whole or short. */
  lemma FoundIsLost(env: Env, b: bytes, cs: seq<Child>, fs: seq<Framing>, k: nat)
    requires Losable(env, cs, fs) && fs != []
    requires CutOrLossy(env, b, cs, fs, FrameTail(env.codec, b, fs), k)
    requires k > |env.codec.headerLines(fs[0].header)| + 1 + ChildEnd(fs[0].body + NextFrame(env.codec, b, fs[1..]), b)
    ensures !ChildrenArrive(env.has8Bit, cs, ParseChildren(env.codec, b, FrameTail(env.codec, b, fs)[..k]))
    decreases |fs|, 1
  {
    var h, body, next := fs[0].header, fs[0].body, NextFrame(env.codec, b, fs[1..]);
    var ls := FrameTail(env.codec, b, fs)[..k];
    NextFrameEnds(env.codec, b, fs[1..]);
    ChildEndInFront(body, next, b);
    var s := SectionFound(env.codec, b, h, body, next, k);
    if |s.body| < |body| || !ReadsBack(env, cs[0].part, h, body) {
      CutChildIsLost(env, cs[0], fs[0], |s.body|);
      FirstIsLost(env, b, cs, ls, s);
    } else {
      RestIsLost(env, b, cs, fs, k, ls, s);
    }
  }

  /** Framed children whose lines are cut short at a line of dashes, or one of which is lossy, do not arrive. */
  lemma {:induction false} FramesAreLost(env: Env, b: bytes, cs: seq<Child>, fs: seq<Framing>, k: nat)
    requires Losable(env, cs, fs) && fs != []
    requires CutOrLossy(env, b, cs, fs, FrameTail(env.codec, b, fs), k)
    ensures !ChildrenArrive(env.has8Bit, cs, ParseChildren(env.codec, b, FrameTail(env.codec, b, fs)[..k]))
    decreases |fs|, 2
  {
    var h, body, next := fs[0].header, fs[0].body, NextFrame(env.codec, b, fs[1..]);
    if k <= |env.codec.headerLines(h)| + 1 + ChildEnd(body + next, b) {
      SectionMissing(env.codec, b, h, body + next, k);
    } else {
      FoundIsLost(env, b, cs, fs, k);
    }
  }

  lemma EmptyIsLost(codec: Codec, b: bytes, k: nat)
    requires 0 < k < 3 && StartsDashes([[], CloseDelimiter(b), []][k])
    ensures ParsePreamble(codec, b, [[], CloseDelimiter(b), []][..k]) == Err(UnexpectedEnd)
  {
    var ls := [[], CloseDelimiter(b), []][..k];
    assert ls[1..] == [];
  }

  lemma NothingIsLost(env: Env, b: bytes, cs: seq<Child>)
    ensures !ChildrenArrive(env.has8Bit, cs, ParsePreamble(env.codec, b, []))
  {
  }

  lemma EmptyPreambleIsLost(env: Env, b: bytes, k: nat)
    requires 0 < k < 3 && StartsDashes([[], CloseDelimiter(b), []][k])
    ensures !ChildrenArrive(env.has8Bit, [], ParsePreamble(env.codec, b, [[], CloseDelimiter(b), []][..k]))
  {
    EmptyIsLost(env.codec, b, k);
  }

  lemma FirstDelimiter(codec: Codec, b: bytes, tail: seq<bytes>, k: nat)
    requires 0 < k <= |tail| + 1
    ensures ParsePreamble(codec, b, ([DashBoundary(b)] + tail)[..k]) == ParseChildren(codec, b, tail[..k - 1])
  {
    var ls := ([DashBoundary(b)] + tail)[..k];
    DelimiterLine(b);
    assert ls[0] == DashBoundary(b) && ls[1..] == tail[..k - 1];
  }

  lemma CutBehind(env: Env, b: bytes, cs: seq<Child>, fs: seq<Framing>, line: bytes, tail: seq<bytes>, k: nat)
    requires |cs| == |fs| && k > 0 && CutOrLossy(env, b, cs, fs, [line] + tail, k)
    ensures CutOrLossy(env, b, cs, fs, tail, k - 1)
  {
  }

  lemma BehindDelimiterIsLost(env: Env, b: bytes, cs: seq<Child>, tail: seq<bytes>, k: nat)
    requires 0 < k <= |tail| + 1
    requires !ChildrenArrive(env.has8Bit, cs, ParseChildren(env.codec, b, tail[..k - 1]))
    ensures !ChildrenArrive(env.has8Bit, cs, ParsePreamble(env.codec, b, ([DashBoundary(b)] + tail)[..k]))
  {
    FirstDelimiter(env.codec, b, tail, k);
  }

  lemma FullPreambleIsLost(env: Env, b: bytes, cs: seq<Child>, fs: seq<Framing>, k: nat)
    requires Losable(env, cs, fs) && fs != [] && k > 0
    requires CutOrLossy(env, b, cs, fs, [DashBoundary(b)] + FrameTail(env.codec, b, fs), k)
    ensures var ls := [DashBoundary(b)] + FrameTail(env.codec, b, fs);
            !ChildrenArrive(env.has8Bit, cs, ParsePreamble(env.codec, b, ls[..k]))
  {
    CutBehind(env, b, cs, fs, DashBoundary(b), FrameTail(env.codec, b, fs), k);
    FramesAreLost(env, b, cs, fs, k - 1);
    BehindDelimiterIsLost(env, b, cs, FrameTail(env.codec, b, fs), k);
  }

  /** The lines of a multipart: a blank line first if it has no child. */
  function FramedLines(codec: Codec, b: bytes, fs: seq<Framing>): seq<bytes> {
    if fs == [] then [[], CloseDelimiter(b), []] else [DashBoundary(b)] + FrameTail(codec, b, fs)
  }

  /** A multipart: the lines in front of its first child, and no child at all. */
  lemma PreambleIsLost(env: Env, b: bytes, cs: seq<Child>, fs: seq<Framing>, k: nat)
    requires Losable(env, cs, fs)
    requires CutOrLossy(env, b, cs, fs, FramedLines(env.codec, b, fs), k)
    ensures !ChildrenArrive(env.has8Bit, cs, ParsePreamble(env.codec, b, FramedLines(env.codec, b, fs)[..k]))
  {
    if k == 0 {
      assert FramedLines(env.codec, b, fs)[..k] == [];
      NothingIsLost(env, b, cs);
    } else if fs == [] {
      EmptyPreambleIsLost(env, b, k);
    } else {
      FullPreambleIsLost(env, b, cs, fs, k);
    }
  }

  // ----- trees, cut short

  lemma FramedChild(env: Env, path: seq<nat>, p: Part, contentType: ContentType, i: nat)
    requires p.Multipart? && Framed(env, path, p, contentType) && TypesMatchKinds(p, contentType)
    requires i < |p.children|
    ensures Framed(env, path + [i], p.children[i].part, p.children[i].contentType)
    ensures TypesMatchKinds(p.children[i].part, p.children[i].contentType)
    ensures var e := EncodeChild(env, path, p, contentType, i);
            && e == EncodePart(env, path + [i], p.children[i].part, p.children[i].contentType)
            && HeaderSurvives(env.codec, EntityHeader(e.contentType, e.cte))
  {
    assert HeaderOfChildSurvives(env, EncodeChild(env, path, p, contentType, i));
  }

  /** The children of a multipart on the wire. */
  function Framings(env: Env, path: seq<nat>, p: Part, contentType: ContentType): seq<Framing>
    requires p.Multipart? && Encodable(p, contentType)
  {
    seq(|p.children|, i requires 0 <= i < |p.children| =>
      var e := EncodeChild(env, path, p, contentType, i);
      Framing(EntityHeader(e.contentType, e.cte), Lines(e.content)))
  }

  lemma {:induction false} TailIsFrames(env: Env, path: seq<nat>, p: Part, contentType: ContentType, i: nat)
    requires p.Multipart? && Encodable(p, contentType) && i <= |p.children|
    ensures TailLines(env, path, p, contentType, i) ==
            NextFrame(env.codec, Boundary(env, path, contentType.media.value), Framings(env, path, p, contentType)[i..])
    decreases |p.children| - i
  {
    if i < |p.children| {
      var fs := Framings(env, path, p, contentType);
      TailIsFrames(env, path, p, contentType, i + 1);
      assert fs[i..][0] == fs[i] && fs[i..][1..] == fs[i + 1..];
    }
  }

  /** Framing gives a multipart the header, the boundary and the lines its reader needs. */
  lemma FramedIsRead(env: Env, path: seq<nat>, p: Part, contentType: ContentType, ls: seq<bytes>)
    requires p.Multipart? && Framed(env, path, p, contentType)
    ensures var e := EncodePart(env, path, p, contentType);
            ParsePart(env.codec, EntityHeader(e.contentType, e.cte), ls) ==
            match ParsePreamble(env.codec, Boundary(env, path, contentType.media.value), ls)
            case Ok(children) => Ok(Multipart(children))
            case Err(error) => Err(error)
  {
    IdentityNames();
    assert ValidBoundary(Boundary(env, path, contentType.media.value));
  }

  lemma ArriveTogether(has8Bit: bool, p: Part, children: seq<Child>)
    requires p.Multipart?
    ensures Arrives(has8Bit, p, Multipart(children)) ==> ChildrenArrive(has8Bit, p.children, Ok(children))
  {
    if Arrives(has8Bit, p, Multipart(children)) {
      forall k | 0 <= k < |children|
        ensures ChildArrives(has8Bit, p.children[k], children[k])
      {
        assert SameType(p.children[k], Multipart(children).children[k]);
      }
    }
  }

  lemma LostMultipart(env: Env, p: Part, header: EntityHeader, b: bytes, ls: seq<bytes>)
    requires p.Multipart? && !ChildrenArrive(env.has8Bit, p.children, ParsePreamble(env.codec, b, ls))
    requires ParsePart(env.codec, header, ls) ==
             match ParsePreamble(env.codec, b, ls)
             case Ok(children) => Ok(Multipart(children))
             case Err(error) => Err(error)
    ensures !ReadsBack(env, p, header, ls)
  {
    if ParsePreamble(env.codec, b, ls).Ok? {
      ArriveTogether(env.has8Bit, p, ParsePreamble(env.codec, b, ls).value);
    }
  }

  /** A collision in the tree makes one of its children lossy. */
  lemma CollisionIsLossy(env: Env, path: seq<nat>, p: Part, contentType: ContentType)
    requires p.Multipart? && Encodable(p, contentType) && Collides(env, path, p, contentType)
    requires forall i :: 0 <= i < |p.children|
                           && Collides(env, path + [i], p.children[i].part, p.children[i].contentType) ==>
               var f := Framings(env, path, p, contentType)[i];
               !ReadsBack(env, p.children[i].part, f.header, f.body)
    ensures SomeLossy(env, Boundary(env, path, contentType.media.value), p.children,
                      Framings(env, path, p, contentType))
  {
    var b, fs := Boundary(env, path, contentType.media.value), Framings(env, path, p, contentType);
    var i :| 0 <= i < |p.children|
             && (ChildCollides(env, path, p, contentType, i)
                 || Collides(env, path + [i], p.children[i].part, p.children[i].contentType));
    assert Lossy(env, b, p.children[i], fs[i]);
  }

  /** The lines of a printed part, cut short at a line of dashes or with a collision, are not read back. */
  lemma {:induction false} CutIsLost(env: Env, path: seq<nat>, p: Part, contentType: ContentType, k: nat)
    requires Framed(env, path, p, contentType) && TypesMatchKinds(p, contentType)
    requires var ls := Lines(EncodePart(env, path, p, contentType).content);
             && k <= |ls|
             && ((k < |ls| && StartsDashes(ls[k])) || Collides(env, path, p, contentType))
    ensures var e := EncodePart(env, path, p, contentType);
            !ReadsBack(env, p, EntityHeader(e.contentType, e.cte), Lines(e.content)[..k])
    decreases p, 1
  {
    if p.Multipart? {
      MultipartIsLost(env, path, p, contentType, k);
    } else {
      CutLeafIsLost(env, p, contentType, k);
    }
  }

  lemma ChildIsLosable(env: Env, path: seq<nat>, p: Part, contentType: ContentType, i: nat)
    requires p.Multipart? && Framed(env, path, p, contentType) && TypesMatchKinds(p, contentType)
    requires i < |p.children|
    ensures var f := Framings(env, path, p, contentType)[i];
            && HeaderSurvives(env.codec, f.header) && CutLoses(env, p.children[i], f)
            && (Collides(env, path + [i], p.children[i].part, p.children[i].contentType) ==>
                  !ReadsBack(env, p.children[i].part, f.header, f.body))
    decreases p, 0, 0
  {
    var f, c := Framings(env, path, p, contentType)[i], p.children[i];
    FramedChild(env, path, p, contentType, i);
    forall k | 0 <= k < |f.body| && StartsDashes(f.body[k])
      ensures !ReadsBack(env, c.part, f.header, f.body[..k])
    {
      CutIsLost(env, path + [i], c.part, c.contentType, k);
    }
    if Collides(env, path + [i], c.part, c.contentType) {
      CutIsLost(env, path + [i], c.part, c.contentType, |f.body|);
      assert f.body[..|f.body|] == f.body;
    }
  }

  lemma LinesAreFramed(env: Env, path: seq<nat>, p: Part, contentType: ContentType)
    requires p.Multipart? && Framed(env, path, p, contentType)
    ensures Lines(EncodePart(env, path, p, contentType).content) ==
            FramedLines(env.codec, Boundary(env, path, contentType.media.value), Framings(env, path, p, contentType))
  {
    var fs := Framings(env, path, p, contentType);
    MultipartLines(env, path, p, contentType);
    TailIsFrames(env, path, p, contentType, 0);
    assert fs[0..] == fs;
  }

  lemma MultipartIsLost(env: Env, path: seq<nat>, p: Part, contentType: ContentType, k: nat)
    requires p.Multipart? && Framed(env, path, p, contentType) && TypesMatchKinds(p, contentType)
    requires var ls := Lines(EncodePart(env, path, p, contentType).content);
             && k <= |ls|
             && ((k < |ls| && StartsDashes(ls[k])) || Collides(env, path, p, contentType))
    ensures var e := EncodePart(env, path, p, contentType);
            !ReadsBack(env, p, EntityHeader(e.contentType, e.cte), Lines(e.content)[..k])
    decreases p, 0, 1
  {
    var e, b := EncodePart(env, path, p, contentType), Boundary(env, path, contentType.media.value);
    var ls, fs := Lines(e.content), Framings(env, path, p, contentType);
    forall i | 0 <= i < |p.children|
      ensures HeaderSurvives(env.codec, fs[i].header) && CutLoses(env, p.children[i], fs[i])
      ensures Collides(env, path + [i], p.children[i].part, p.children[i].contentType) ==>
                !ReadsBack(env, p.children[i].part, fs[i].header, fs[i].body)
    {
      ChildIsLosable(env, path, p, contentType, i);
    }
    if Collides(env, path, p, contentType) {
      CollisionIsLossy(env, path, p, contentType);
    }
    LinesAreFramed(env, path, p, contentType);
    PreambleIsLost(env, b, p.children, fs, k);
    FramedIsRead(env, path, p, contentType, ls[..k]);
    LostMultipart(env, p, EntityHeader(e.contentType, e.cte), b, ls[..k]);
  }

  // ----- the exact condition

  /**
   * A tree with good headers, boundaries and types is read back from its printed and rewritten form
   * if and only if no line of a child looks like a boundary line around it, at any depth.
   */
  lemma RoundTripIff(env: Env, path: seq<nat>, p: Part, contentType: ContentType)
    requires Framed(env, path, p, contentType) && TypesMatchKinds(p, contentType)
    ensures var e := EncodePart(env, path, p, contentType);
            ReadsBack(env, p, EntityHeader(e.contentType, e.cte), Lines(Canonical(e.content))) <==>
              !Collides(env, path, p, contentType)
  {
    var e := EncodePart(env, path, p, contentType);
    var ls := Lines(e.content);
    LinesOfCanonical(e.content);
    CarriedIff(env, path, p, contentType);
    if Collides(env, path, p, contentType) {
      CutIsLost(env, path, p, contentType, |ls|);
      assert ls[..|ls|] == ls;
    } else {
      var q := ParsingUndoesPrinting(env, path, p, contentType);
    }
  }
}
