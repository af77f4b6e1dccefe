/** `isAcceptable7or8Bit` of pkg/mailer/encoding.go: may a text travel without a transfer encoding? */
module Acceptance {
  import opened Bytes
  import opened LineEndings
  import Utf8

  /** Section 2.1.1 of RFC 5322: a line has at most 998 octets before its CRLF. */
  const MAX_LINE := 998

  /** Control characters other than TAB, LF and CR, and DEL. */
  predicate BadControl(c: int) {
    (c < 0x20 && c != TAB && c != LF && c != CR) || c == DEL
  }

  predicate NoBadControls(s: bytes) {
    forall i :: 0 <= i < |s| ==> !BadControl(s[i])
  }

  /** `strings.SplitSeq(s, "\r\n")`: a lone CR or LF does not end a chunk. */
  function Chunks(s: bytes): (cs: seq<bytes>)
    ensures cs != []
  {
    if s == [] then [[]]
    else if StartsCrlf(s) then [[]] + Chunks(s[2..])
    else var rest := Chunks(s[1..]); [[s[0]] + rest[0]] + rest[1..]
  }

  predicate Within(ls: seq<bytes>, width: nat) {
    forall i :: 0 <= i < |ls| ==> |ls[i]| <= width
  }

  /** 7bit data: section 2.7 of RFC 2045, with the stricter set of controls the source uses. */
  predicate Is7Bit(s: bytes) {
    Ascii(s) && NoBadControls(s) && Within(Chunks(s), MAX_LINE)
  }

  /** 8bit data: section 2.8 of RFC 2045, restricted to UTF-8. */
  predicate Is8Bit(s: bytes) {
    Utf8.Valid(s) && NoBadControls(s) && Within(Chunks(s), MAX_LINE)
  }

  /** The second loop, over the chunks between CRLFs; it stops at the first one that is too long. */
  method ScanChunks(b: bytes) returns (needSoftNewLines: bool)
    ensures needSoftNewLines <==> !Within(Chunks(b), MAX_LINE)
  {
    var chunks := Chunks(b);
    for k := 0 to |chunks|
      invariant forall i :: 0 <= i < k ==> |chunks[i]| <= MAX_LINE
    {
      if |chunks[k]| > MAX_LINE {
        return true;
      }
    }
    needSoftNewLines := false;
  }

  /** One code point decides the same about the prefix as its octets do. */
  lemma ScanStep(b: bytes, i: nat)
    requires i < |b| && Utf8.Valid(b[i..])
    ensures var r := Utf8.First(b[i..]).value;
            && i + r.width <= |b|
            && Utf8.Valid(b[i + r.width..])
            && (Ascii(b[..i + r.width]) <==> Ascii(b[..i]) && r.code < 128)
            && (NoBadControls(b[..i + r.width]) <==> NoBadControls(b[..i]) && !BadControl(r.code))
            && (r.code >= 128 ==> !Ascii(b))
            && (BadControl(r.code) ==> !NoBadControls(b))
            && (!Ascii(b[..i]) ==> !Ascii(b))
            && (!NoBadControls(b[..i]) ==> !NoBadControls(b))
  {
    var r := Utf8.First(b[i..]).value;
    var j := i + r.width;
    assert b[i..][r.width..] == b[j..];
    assert b[i] == b[i..][0];
    assert forall k :: i <= k < j ==> b[k] == b[i..][k - i];
    assert forall k :: 0 <= k < i ==> b[..j][k] == b[..i][k];
    assert b[..j][i] == b[i];
    if r.code >= 128 {
      assert forall k :: i <= k < j ==> b[k] >= 128;
    }
  }

  /** The first loop of the scan, over code points; it stops once neither answer can change. */
  method ScanRunes(b: bytes) returns (isAscii: bool, hasBadControls: bool)
    requires Utf8.Valid(b)
    ensures isAscii <==> Ascii(b)
    ensures hasBadControls <==> !NoBadControls(b)
  {
    isAscii, hasBadControls := true, false;
    var i := 0;
    while i < |b|
      invariant 0 <= i <= |b|
      invariant Utf8.Valid(b[i..])
      invariant isAscii <==> Ascii(b[..i])
      invariant hasBadControls <==> !NoBadControls(b[..i])
    {
      var r := Utf8.First(b[i..]).value;
      ScanStep(b, i);
      if r.code >= 128 {
        isAscii := false;
      }
      if BadControl(r.code) {
        hasBadControls := true;
      }
      if !isAscii && hasBadControls {
        return;
      }
      i := i + r.width;
    }
    assert b[..|b|] == b;
  }

  /** The scan with its early exits. */
  method IsAcceptable7or8Bit(b: bytes) returns (is7Bit: bool, is8Bit: bool)
    ensures is7Bit <==> Is7Bit(b)
    ensures is8Bit <==> Is8Bit(b)
  {
    if !Utf8.Valid(b) {
      if Ascii(b) {
        Utf8.AsciiIsValid(b);
      }
      return false, false;
    }
    var isAscii, hasBadControls := ScanRunes(b);
    var needSoftNewLines := ScanChunks(b);
    is7Bit := isAscii && !hasBadControls && !needSoftNewLines;
    is8Bit := !hasBadControls && !needSoftNewLines;
  }

  lemma WithinTail(line: bytes, ls: seq<bytes>, width: nat)
    requires Within([line] + ls, width)
    ensures Within(ls, width)
  {
    assert forall i :: 0 <= i < |ls| ==> ([line] + ls)[i + 1] == ls[i];
  }

  /** Lines with one octet more in front of the first. */
  lemma WithinFront(c: byte, ls: seq<bytes>, width: nat)
    requires ls != []
    ensures Within([[c] + ls[0]] + ls[1..], width) <==> Within(ls, width) && |ls[0]| < width
  {
    var more := [[c] + ls[0]] + ls[1..];
    assert |more[0]| == 1 + |ls[0]|;
    assert forall i :: 1 <= i < |ls| ==> more[i] == ls[i];
  }

  /** Splitting at every line break never gives a longer line than splitting at CRLF alone. */
  lemma {:induction false} LinesWithinChunks(s: bytes, width: nat)
    requires Within(Chunks(s), width)
    ensures Within(Lines(s), width)
    ensures |Lines(s)[0]| <= |Chunks(s)[0]|
  {
    if s == [] {
    } else if StartsCrlf(s) {
      WithinTail([], Chunks(s[2..]), width);
      LinesWithinChunks(s[2..], width);
    } else {
      WithinFront(s[0], Chunks(s[1..]), width);
      LinesWithinChunks(s[1..], width);
      WithinFront(s[0], Lines(s[1..]), width);
    }
  }

  /** On canonical text the two splits agree. */
  lemma {:induction false} ChunksOfPaired(s: bytes)
    requires PairedBreaks(s)
    ensures Chunks(s) == Lines(s)
  {
    if s != [] {
      assert PairedAt(s, 0);
      var t := s[if StartsCrlf(s) then 2 else 1..];
      forall i | 0 <= i < |t|
        ensures PairedAt(t, i)
      {
        assert PairedAt(s, i + |s| - |t|);
      }
      ChunksOfPaired(t);
    }
  }

  lemma Concatenated(a: bytes, b: bytes)
    ensures Ascii(a + b) <==> Ascii(a) && Ascii(b)
    ensures NoBadControls(a + b) <==> NoBadControls(a) && NoBadControls(b)
  {
    assert forall i :: 0 <= i < |a| ==> (a + b)[i] == a[i];
    assert forall i :: 0 <= i < |b| ==> (a + b)[|a| + i] == b[i];
  }

  /** Octets that agree in both tests. */
  predicate SameKind(a: bytes, b: bytes) {
    (Ascii(a) <==> Ascii(b)) && (NoBadControls(a) <==> NoBadControls(b))
  }

  lemma SameKindAppend(a: bytes, b: bytes, c: bytes, d: bytes)
    requires SameKind(a, c) && SameKind(b, d)
    ensures SameKind(a + b, c + d)
  {
    Concatenated(a, b);
    Concatenated(c, d);
  }

  /** The rewrite only adds and removes CR and LF. */
  lemma {:induction false} CanonicalOctets(s: bytes)
    ensures SameKind(Canonical(s), s)
  {
    if s != [] {
      JoinCons(s);
      var n := if StartsCrlf(s) then 2 else 1;
      var head: bytes := if s[0] == CR || s[0] == LF then CRLF else [s[0]];
      assert s == s[..n] + s[n..];
      CanonicalOctets(s[n..]);
      SameKindAppend(head, Canonical(s[n..]), s[..n], s[n..]);
    }
  }

  /**
   * Acceptance as 7bit survives the line-ending rewrite: validation looks at the raw text,
   * encoding at the rewritten one.
   */
  lemma SevenBitSurvivesRewrite(s: bytes)
    requires Is7Bit(s)
    ensures Is7Bit(Canonical(s))
  {
    CanonicalOctets(s);
    LinesWithinChunks(s, MAX_LINE);
    LinesOfCanonical(s);
    CanonicalIsPaired(s);
    ChunksOfPaired(Canonical(s));
  }
}
