/** What a printed tree looks like on the wire: line lengths, octets, and parts that must not be encoded. */
module TransportSafety {
  import opened Bytes
  import opened LineEndings
  import opened Acceptance
  import opened MailTypes
  import opened PartPrinter
  import Encoding

  predicate SafeLine(has8Bit: bool, line: bytes) {
    |line| <= MAX_LINE && (!has8Bit ==> Ascii(line))
  }

  predicate SafeLines(has8Bit: bool, ls: seq<bytes>) {
    forall i :: 0 <= i < |ls| ==> SafeLine(has8Bit, ls[i])
  }

  predicate SafeHeader(env: Env, e: EncodedPart) {
    var lines := env.codec.headerLines(EntityHeader(e.contentType, e.cte));
    AllClean(lines) && SafeLines(env.has8Bit, lines)
  }

  /** Valid boundaries, and header blocks that fit on lines themselves. */
  predicate SafeFraming(env: Env, path: seq<nat>, p: Part, contentType: ContentType)
    decreases p
  {
    && Encodable(p, contentType)
    && (p.Multipart? ==>
          && ValidBoundary(Boundary(env, path, contentType.media.value))
          && (forall i :: 0 <= i < |p.children| ==> SafeHeader(env, EncodeChild(env, path, p, contentType, i)))
          && forall i :: 0 <= i < |p.children| ==>
               SafeFraming(env, path + [i], p.children[i].part, p.children[i].contentType))
  }

  /** The lines of a printed part. */
  predicate SafePart(env: Env, path: seq<nat>, p: Part, contentType: ContentType)
    requires Encodable(p, contentType)
  {
    SafeLines(env.has8Bit, Lines(EncodePart(env, path, p, contentType).content))
  }

  lemma BoundaryLinesAreSafe(has8Bit: bool, b: bytes)
    requires ValidBoundary(b)
    ensures SafeLine(has8Bit, DashBoundary(b)) && SafeLine(has8Bit, CloseDelimiter(b))
  {
  }

  /** The lines of an ASCII text are ASCII. */
  lemma {:induction false} LinesOfAscii(s: bytes)
    requires Ascii(s)
    ensures forall i :: 0 <= i < |Lines(s)| ==> Ascii(Lines(s)[i])
  {
    if s != [] {
      LinesOfAscii(s[if StartsCrlf(s) then 2 else 1..]);
    }
  }

  lemma LeafIsSafe(env: Env, path: seq<nat>, p: Part, contentType: ContentType)
    requires Encodable(p, contentType) && !p.Multipart?
    ensures SafePart(env, path, p, contentType)
  {
    var e := Encoding.Encode(env.has8Bit, LeafOctets(p));
    Encoding.LeafIsTransportSafe(env.has8Bit, LeafOctets(p));
    LinesOfCanonical(e.content);
    if !env.has8Bit {
      LinesOfAscii(Canonical(e.content));
    }
  }

  lemma {:induction false} TailIsSafe(env: Env, path: seq<nat>, p: Part, contentType: ContentType, i: nat)
    requires p.Multipart? && Encodable(p, contentType) && i <= |p.children|
    requires ValidBoundary(Boundary(env, path, contentType.media.value))
    requires forall k :: i <= k < |p.children| ==>
               var e := EncodeChild(env, path, p, contentType, k);
               SafeHeader(env, e) && SafeLines(env.has8Bit, Lines(e.content))
    ensures SafeLines(env.has8Bit, TailLines(env, path, p, contentType, i))
    decreases |p.children| - i
  {
    BoundaryLinesAreSafe(env.has8Bit, Boundary(env, path, contentType.media.value));
    if i < |p.children| {
      TailIsSafe(env, path, p, contentType, i + 1);
    }
  }

  /**
   * Every line of a printed tree, framing included, has at most 998 octets, and without 8bit support
   * all of them are ASCII; the rewrite of the message changes none of these lines.
   */
  lemma {:induction false} TreeIsTransportSafe(env: Env, path: seq<nat>, p: Part, contentType: ContentType)
    requires SafeFraming(env, path, p, contentType)
    ensures SafeLines(env.has8Bit, Lines(Canonical(EncodePart(env, path, p, contentType).content)))
    decreases p
  {
    LinesOfCanonical(EncodePart(env, path, p, contentType).content);
    if p.Multipart? {
      forall k | 0 <= k < |p.children|
        ensures var e := EncodeChild(env, path, p, contentType, k);
                SafeHeader(env, e) && SafeLines(env.has8Bit, Lines(e.content))
      {
        TreeIsTransportSafe(env, path + [k], p.children[k].part, p.children[k].contentType);
        LinesOfCanonical(EncodeChild(env, path, p, contentType, k).content);
      }
      LinesOfMultipart(env, path, p, contentType);
      TailIsSafe(env, path, p, contentType, 0);
    } else {
      LeafIsSafe(env, path, p, contentType);
    }
  }

  /**
   * A leaf that validates under a message or multipart media type goes out unencoded as 7bit; a text
   * changes in its line endings alone.
   */
  lemma CompositeTypesStayUnencoded(env: Env, path: seq<nat>, p: Part, contentType: ContentType)
    requires p.Text? || p.Binary?
    requires ValidPart(p, contentType) && Requires7Or8Bit(contentType)
    ensures var e := EncodePart(env, path, p, contentType);
            e == EncodedPart(if p.Text? then Canonical(p.text) else p.data, "7bit", contentType)
  {
    if p.Text? {
      SevenBitSurvivesRewrite(p.text);
    }
  }

  /**
   * The label of a part says what is in it: 8bit is named only where it may be sent, and what is named
   * as 7bit is ASCII throughout, whatever its children are.
   */
  lemma LabelsAreHonest(env: Env, path: seq<nat>, p: Part, contentType: ContentType)
    requires SafeFraming(env, path, p, contentType)
    ensures var e := EncodePart(env, path, p, contentType);
            && (e.cte == "8bit" ==> env.has8Bit)
            && (e.cte == "7bit" ==> SafeLines(false, Lines(Canonical(e.content))))
            && (p.Multipart? ==> e.cte == "7bit" || e.cte == "8bit")
  {
    var e := EncodePart(env, path, p, contentType);
    TreeIsTransportSafe(env, path, p, contentType);
    if !p.Multipart? && e.cte == "7bit" {
      Encoding.IdentityIsSafe(e.content);
      LinesOfCanonical(e.content);
      LinesOfAscii(Canonical(e.content));
    }
  }
}
