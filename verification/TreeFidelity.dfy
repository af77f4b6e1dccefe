/**
 * What the received tree has in common with the printed one: shape, order, media types, kinds and
 * content.
 */
module TreeFidelity {
  import opened Bytes
  import opened LineEndings
  import opened MailTypes
  import opened PartPrinter
  import opened PartParser
  import opened TreeRoundTrip
  import Encoding
  import Utf8

  // ----- the line-ending rewrite and UTF-8

  /** The first code point of a text depends only on the octets it takes. */
  lemma FirstIsLocal(s: bytes, t: bytes)
    requires Utf8.First(s).Some?
    requires var w := Utf8.First(s).value.width; |t| >= w && s[..w] == t[..w]
    ensures Utf8.First(t) == Utf8.First(s)
  {
    var w := Utf8.First(s).value.width;
    assert forall k :: 0 <= k < w ==> s[..w][k] == s[k] && t[..w][k] == t[k];
  }

  lemma {:induction false} CanonicalAfter(head: bytes, rest: bytes)
    requires Clean(head)
    ensures Canonical(head + rest) == head + Canonical(rest)
  {
    if head == [] {
      assert head + rest == rest;
    } else {
      assert head[0] in head;
      CanonicalAfter(head[1..], rest);
      var s := head + rest;
      assert s[0] == head[0] && s[1..] == head[1..] + rest;
      JoinCons(s);
      Assoc([head[0]], head[1..], Canonical(rest));
      assert [head[0]] + head[1..] == head;
    }
  }

  lemma ValidAfterBreak(t: bytes)
    ensures Utf8.Valid(CRLF + t) <==> Utf8.Valid(t)
  {
    assert (CRLF + t)[1..] == [LF] + t;
    assert ([LF] + t)[1..] == t;
  }

  /** The rewrite leaves a code point at the start alone. */
  lemma CanonicalAfterRune(s: bytes)
    requires Utf8.First(s).Some? && s[0] != CR && s[0] != LF
    ensures var c, w := Canonical(s), Utf8.First(s).value.width;
            Utf8.First(c) == Utf8.First(s) && c[w..] == Canonical(s[w..])
  {
    var c, w := Canonical(s), Utf8.First(s).value.width;
    var head := s[..w];
    assert Clean(head) by {
      assert forall k :: 0 <= k < w ==> head[k] == s[k];
    }
    assert s == head + s[w..];
    CanonicalAfter(head, s[w..]);
    assert c[..w] == head;
    FirstIsLocal(s, c);
  }

  /** While the rewritten text has no line break, it runs along with the text. */
  lemma {:induction false} SamePrefix(s: bytes, w: nat)
    requires w <= |Canonical(s)|
    requires forall k :: 0 <= k < w ==> Canonical(s)[k] >= 128
    ensures |s| >= w && s[..w] == Canonical(s)[..w]
  {
    if w > 0 {
      var c := Canonical(s);
      assert s != [];
      JoinCons(s);
      assert s[0] != CR && s[0] != LF by {
        assert c[0] >= 128;
      }
      assert c[1..] == Canonical(s[1..]);
      forall k | 0 <= k < w - 1
        ensures Canonical(s[1..])[k] >= 128
      {
        assert Canonical(s[1..])[k] == c[k + 1];
      }
      SamePrefix(s[1..], w - 1);
      assert s[..w] == [s[0]] + s[1..][..w - 1];
      assert c[..w] == [c[0]] + c[1..][..w - 1];
    }
  }

  /** A code point at the start of the rewritten text was at the start of the text. */
  lemma FirstOfCanonical(s: bytes)
    requires s != [] && s[0] != CR && s[0] != LF
    requires Utf8.First(Canonical(s)).Some?
    ensures Utf8.First(s).Some?
  {
    var c := Canonical(s);
    var w := Utf8.First(c).value.width;
    JoinCons(s);
    if s[0] >= 128 {
      assert forall k :: 0 <= k < w ==> c[k] >= 128;
      SamePrefix(s, w);
      FirstIsLocal(c, s);
    }
  }

  /** The rewrite keeps text well-formed, and cannot make it so. */
  lemma {:induction false} CanonicalKeepsUtf8(s: bytes)
    ensures Utf8.Valid(Canonical(s)) <==> Utf8.Valid(s)
  {
    if s == [] {
    } else if s[0] == CR || s[0] == LF {
      var n := if StartsCrlf(s) then 2 else 1;
      JoinCons(s);
      CanonicalKeepsUtf8(s[n..]);
      ValidAfterBreak(Canonical(s[n..]));
      if StartsCrlf(s) {
        assert s == CRLF + s[2..];
        ValidAfterBreak(s[2..]);
      }
    } else {
      JoinCons(s);
      if Utf8.First(s).Some? {
        CanonicalAfterRune(s);
        CanonicalKeepsUtf8(s[Utf8.First(s).value.width..]);
      } else if Utf8.First(Canonical(s)).Some? {
        FirstOfCanonical(s);
      }
    }
  }

  /** What the reader makes of received text: the same lines, each ended by LF. */
  lemma {:induction false} BackToLf(s: bytes)
    ensures ReplaceAll(Canonical(s), CRLF, [LF]) == Join(Lines(s), [LF])
  {
    if s != [] {
      JoinCons(s);
      var n := if StartsCrlf(s) then 2 else 1;
      var t := s[n..];
      BackToLf(t);
      var c := Canonical(s);
      if s[0] == CR || s[0] == LF {
        assert c[2..] == Canonical(t) && CRLF <= c;
        assert Lines(s)[1..] == Lines(t);
      } else {
        assert c[1..] == Canonical(t) && !(CRLF <= c);
        assert Lines(s)[1..] == Lines(t)[1..];
      }
    }
  }

  // ----- kinds

  predicate ReadsAsText(codec: Codec, media: Media, raw: bytes) {
    HasPrefix(media.mediaType, "text/") && Utf8.Valid(DecodeText(codec, raw, media.charset))
  }

  /** Every leaf is read as the kind it was written from. */
  predicate LeavesKeepKind(env: Env, p: Part, contentType: ContentType) {
    match p
    case Nil => true
    case Multipart(children) =>
      forall i :: 0 <= i < |children| ==> LeavesKeepKind(env, children[i].part, children[i].contentType)
    case _ => p.Text? <==> ReadsAsText(env.codec, MediaOf(contentType), ReceivedOctets(env, p))
  }

  predicate SameShape(p: Part, q: Part) {
    match p
    case Nil => q.Nil?
    case Text(_) => q.Text?
    case Binary(_) => q.Binary?
    case Multipart(children) =>
      && q.Multipart? && |q.children| == |children|
      && forall i :: 0 <= i < |children| ==> SameShape(children[i].part, q.children[i].part)
  }

  lemma {:induction false} ReceivedAt(env: Env, path: seq<nat>, p: Part, contentType: ContentType, i: nat)
    requires p.Multipart? && Encodable(p, contentType) && i <= |p.children|
    ensures var cs := ReceivedFrom(env, path, p, contentType, i);
            && |cs| == |p.children| - i
            && forall k :: i <= k < |p.children| ==> cs[k - i] == ReceivedChild(env, path, p, contentType, k)
    decreases |p.children| - i
  {
    if i < |p.children| {
      ReceivedAt(env, path, p, contentType, i + 1);
    }
  }

  /** The shape of the tree arrives if and only if every leaf is read as the kind it was written from. */
  lemma {:induction false} ShapeIffKindsKept(env: Env, path: seq<nat>, p: Part, contentType: ContentType)
    requires Encodable(p, contentType)
    ensures SameShape(p, Received(env, path, p, contentType)) <==> LeavesKeepKind(env, p, contentType)
    decreases p
  {
    if p.Multipart? {
      ReceivedAt(env, path, p, contentType, 0);
      forall i | 0 <= i < |p.children|
        ensures SameShape(p.children[i].part, Received(env, path, p, contentType).children[i].part) <==>
                LeavesKeepKind(env, p.children[i].part, p.children[i].contentType)
      {
        assert ReceivedFrom(env, path, p, contentType, 0)[i - 0] == ReceivedChild(env, path, p, contentType, i);
        ShapeIffKindsKept(env, path + [i], p.children[i].part, p.children[i].contentType);
      }
    }
  }

  // ----- content

  /** Text leaves are UTF-8 under a text type that says so; binary leaves are under another type. */
  predicate TypesMatchKinds(p: Part, contentType: ContentType) {
    var media := MediaOf(contentType);
    match p
    case Nil => true
    case Text(text) => HasPrefix(media.mediaType, "text/") && Utf8Charset(media.charset) && Utf8.Valid(text)
    case Binary(_) => !HasPrefix(media.mediaType, "text/")
    case Multipart(children) =>
      forall i :: 0 <= i < |children| ==> TypesMatchKinds(children[i].part, children[i].contentType)
  }

  /** A multipart arrives with its media type; any other part with its content type. */
  predicate SameType(c: Child, d: Child) {
    if c.part.Multipart? then
      && c.contentType.media.Some? && d.contentType.media.Some?
      && d.contentType.media.value.mediaType == c.contentType.media.value.mediaType
      && d.contentType.media.value.charset == c.contentType.media.value.charset
    else d.contentType == c.contentType
  }

  /**
   * The received tree: the same kinds in the same order under the same types; text with the same
   * lines, ended by LF; octets unchanged where they went as base64, with CRLF line ends otherwise.
   */
  predicate Arrives(has8Bit: bool, p: Part, q: Part) {
    match p
    case Nil => q.Nil?
    case Text(text) => q == Text(Join(Lines(text), [LF]))
    case Binary(data) =>
      q == Binary(if Encoding.Encode(has8Bit, data).cte == "base64" then data else Canonical(data))
    case Multipart(children) =>
      && q.Multipart? && |q.children| == |children|
      && forall i :: 0 <= i < |children| ==>
           SameType(children[i], q.children[i]) && Arrives(has8Bit, children[i].part, q.children[i].part)
  }

  lemma LeafArrives(env: Env, p: Part, contentType: ContentType)
    requires (p.Text? || p.Binary?) && TypesMatchKinds(p, contentType)
    ensures Arrives(env.has8Bit, p, LeafOf(env.codec, MediaOf(contentType), ReceivedOctets(env, p)))
  {
    if p.Text? {
      CanonicalIsIdempotent(p.text);
      assert ReceivedOctets(env, p) == Canonical(p.text);
      CanonicalKeepsUtf8(p.text);
      BackToLf(p.text);
    }
  }

  predicate ChildArrives(has8Bit: bool, c: Child, d: Child) {
    SameType(c, d) && Arrives(has8Bit, c.part, d.part)
  }

  lemma TypeArrives(env: Env, path: seq<nat>, p: Part, contentType: ContentType, i: nat)
    requires p.Multipart? && Carried(env, path, p, contentType) && i < |p.children|
    ensures SameType(p.children[i], ReceivedChild(env, path, p, contentType, i))
  {
    var c := p.children[i];
    assert Carried(env, path + [i], c.part, c.contentType);
    var t := EncodePart(env, path + [i], c.part, c.contentType).contentType;
    if c.part.Multipart? {
      var sent := SentMedia(env, path + [i], c.contentType.media.value);
      assert t == env.codec.formatType(sent) && t.media == Some(sent);
    } else {
      assert t == c.contentType;
    }
  }

  lemma MultipartArrives(env: Env, path: seq<nat>, p: Part, contentType: ContentType)
    requires p.Multipart? && Encodable(p, contentType)
    requires forall i :: 0 <= i < |p.children| ==>
               ChildArrives(env.has8Bit, p.children[i], ReceivedChild(env, path, p, contentType, i))
    ensures Arrives(env.has8Bit, p, Received(env, path, p, contentType))
  {
    ReceivedAt(env, path, p, contentType, 0);
    var cs := ReceivedFrom(env, path, p, contentType, 0);
    forall i | 0 <= i < |p.children|
      ensures ChildArrives(env.has8Bit, p.children[i], cs[i])
    {
      assert cs[i - 0] == ReceivedChild(env, path, p, contentType, i);
    }
  }

  lemma {:induction false} ReceivedArrives(env: Env, path: seq<nat>, p: Part, contentType: ContentType)
    requires Carried(env, path, p, contentType) && TypesMatchKinds(p, contentType)
    ensures Arrives(env.has8Bit, p, Received(env, path, p, contentType))
    decreases p
  {
    if p.Multipart? {
      forall i | 0 <= i < |p.children|
        ensures ChildArrives(env.has8Bit, p.children[i], ReceivedChild(env, path, p, contentType, i))
      {
        TypeArrives(env, path, p, contentType, i);
        ReceivedArrives(env, path + [i], p.children[i].part, p.children[i].contentType);
      }
      MultipartArrives(env, path, p, contentType);
    } else {
      LeafArrives(env, p, contentType);
    }
  }

  lemma {:induction false} ArrivalKeepsShape(has8Bit: bool, p: Part, q: Part)
    requires Arrives(has8Bit, p, q)
    ensures SameShape(p, q)
    decreases p
  {
    if p.Multipart? {
      forall i | 0 <= i < |p.children|
        ensures SameShape(p.children[i].part, q.children[i].part)
      {
        ArrivalKeepsShape(has8Bit, p.children[i].part, q.children[i].part);
      }
    }
  }

  /**
   * The whole way: print a tree, rewrite the line endings of the message, read it back.  `q` is the
   * tree that is read.
   */
  lemma ParsingUndoesPrinting(env: Env, path: seq<nat>, p: Part, contentType: ContentType) returns (q: Part)
    requires Carried(env, path, p, contentType) && TypesMatchKinds(p, contentType)
    ensures var e := EncodePart(env, path, p, contentType);
            ParsePart(env.codec, EntityHeader(e.contentType, e.cte), Lines(Canonical(e.content))) == Ok(q)
    ensures Arrives(env.has8Bit, p, q) && SameShape(p, q)
  {
    LinesOfCanonical(EncodePart(env, path, p, contentType).content);
    PrintedTreeParses(env, path, p, contentType);
    ReceivedArrives(env, path, p, contentType);
    q := Received(env, path, p, contentType);
    ArrivalKeepsShape(env.has8Bit, p, q);
  }

  // ----- when nothing changes at all

  /** Text without CR, and octets that go as base64 or have paired line ends. */
  predicate Intact(has8Bit: bool, p: Part) {
    match p
    case Nil => true
    case Text(text) => CR !in text
    case Binary(data) => Encoding.Encode(has8Bit, data).cte == "base64" || PairedBreaks(data)
    case Multipart(children) => forall i :: 0 <= i < |children| ==> Intact(has8Bit, children[i].part)
  }

  predicate SameContent(p: Part, q: Part) {
    match p
    case Multipart(children) =>
      && q.Multipart? && |q.children| == |children|
      && forall i :: 0 <= i < |children| ==> SameContent(children[i].part, q.children[i].part)
    case _ => q == p
  }

  lemma {:induction false} JoinedByLf(ls: seq<bytes>)
    requires AllClean(ls)
    ensures CR !in Join(ls, [LF])
  {
    if |ls| > 1 {
      JoinedByLf(ls[1..]);
    }
  }

  lemma {:induction false} LfTextIsKept(s: bytes)
    requires CR !in s
    ensures Join(Lines(s), [LF]) == s
  {
    if s != [] {
      assert s[0] in s;
      LfTextIsKept(s[1..]);
      if s[0] == LF {
        assert Lines(s)[1..] == Lines(s[1..]);
      } else {
        assert Lines(s)[1..] == Lines(s[1..])[1..];
      }
    }
  }

  /** A received tree has the very content of the one sent if and only if that was intact to begin with. */
  lemma {:induction false} ContentIntactIff(has8Bit: bool, p: Part, q: Part)
    requires Arrives(has8Bit, p, q)
    ensures SameContent(p, q) <==> Intact(has8Bit, p)
    decreases p
  {
    match p {
      case Nil =>
      case Text(text) =>
        LinesAreClean(text);
        JoinedByLf(Lines(text));
        if CR !in text {
          LfTextIsKept(text);
        }
      case Binary(data) =>
        CanonicalIffPaired(data);
      case Multipart(children) =>
        forall i | 0 <= i < |children|
          ensures SameContent(children[i].part, q.children[i].part) <==> Intact(has8Bit, children[i].part)
        {
          ContentIntactIff(has8Bit, children[i].part, q.children[i].part);
        }
    }
  }
}
