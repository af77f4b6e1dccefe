/**
 * A body whose transfer encoding is read under another name than the one it was written in: the
 * reader takes the first Content-Transfer-Encoding field (pkg/smtpserver/server.go:387), and
 * pkg/mailer/imf.go:34-53 writes extra headers before its own.
 */
module EncodingMismatch {
  import opened Bytes
  import opened LineEndings
  import opened Counting
  import opened MailTypes
  import opened PartPrinter
  import opened PartParser
  import opened TransferDecoding
  import opened TreeRoundTrip
  import opened TreeFidelity
  import opened Collisions
  import Acceptance
  import Base64
  import Encoding
  import QP = QuotedPrintable

  // ----- which names fit

  /** What the reader does for a name; one it does not know stands for no encoding. */
  datatype Decoder = Plain | Quoted | Base

  function DecoderOf(cte: string): Decoder {
    match NormalizeCte(cte)
    case "quoted-printable" => Quoted
    case "base64" => Base
    case _ => Plain
  }

  /**
   * The names under which a leaf can be read.  One that stands for another decoder fits only text
   * without anything to decode in it, or text that the encoder copied.
   */
  predicate LeafFits(has8Bit: bool, octets: bytes, cte: string) {
    var sent, read := DecoderOf(Encoding.Encode(has8Bit, octets).cte), DecoderOf(cte);
    || read == sent
    || (sent.Plain? && read.Quoted? && QP.AllUndisturbed(Lines(octets)))
    || (sent.Plain? && read.Base? && octets == [])
    || (sent.Quoted? && read.Plain? && QP.Plain(octets))
  }

  /** A multipart must be named as unencoded. */
  predicate NameFits(has8Bit: bool, p: Part, cte: string) {
    match p
    case Nil => false
    case Multipart(_) => IdentityCte(cte)
    case _ => LeafFits(has8Bit, LeafOctets(p), cte)
  }

  lemma SentDecoder(has8Bit: bool, octets: bytes)
    ensures var e := Encoding.Encode(has8Bit, octets);
            DecoderOf(e.cte) ==
            if e.cte == "base64" then Base else if e.cte == "quoted-printable" then Quoted else Plain
  {
    NormalizeNames();
  }

  lemma DecoderDecodes(cte: string, wire: bytes)
    ensures DecodeTransferEncoding(cte, wire) ==
            match DecoderOf(cte)
            case Plain => Some(wire)
            case Quoted => QP.Decode(wire)
            case Base => Base64.Decode(wire)
  {
  }

  lemma SentContent(has8Bit: bool, octets: bytes)
    ensures var e := Encoding.Encode(has8Bit, octets);
            e.content ==
            match DecoderOf(e.cte)
            case Plain => octets
            case Quoted => QP.Encode(octets)
            case Base => Encoding.Base64Text(octets)
  {
    SentDecoder(has8Bit, octets);
  }

  // ----- octets that are not the leaf

  predicate IsVisible(c: byte) {
    c != CR && c != LF
  }

  predicate IsCode(c: byte) {
    c != CR && c != LF && c != EQUALS
  }

  predicate LeafArrivesAs(env: Env, p: Part, contentType: ContentType, raw: bytes) {
    Arrives(env.has8Bit, p, LeafOf(env.codec, MediaOf(contentType), raw))
  }

  lemma JoinedIsEmpty(ls: seq<bytes>)
    requires ls != []
    ensures Join(ls, [LF]) == [] ==> Join(ls, CRLF) == []
  {
  }

  /** Nothing but an empty leaf is read from no octets. */
  lemma EmptyIsLost(env: Env, p: Part, contentType: ContentType)
    requires (p.Text? || p.Binary?) && TypesMatchKinds(p, contentType) && LeafOctets(p) != []
    ensures !LeafArrivesAs(env, p, contentType, [])
  {
    if p.Text? {
      JoinedIsEmpty(Lines(p.text));
    } else {
      JoinCons(p.data);
    }
  }

  /** Octets with paired breaks and other lines are not the leaf, unless it went as base64. */
  lemma OtherLinesAreLost(env: Env, p: Part, contentType: ContentType, raw: bytes)
    requires (p.Text? || p.Binary?) && TypesMatchKinds(p, contentType)
    requires PairedBreaks(raw) && Lines(raw) != Lines(LeafOctets(p))
    requires p.Binary? ==> raw != p.data
    ensures !LeafArrivesAs(env, p, contentType, raw)
  {
    if p.Text? {
      LinesOfCanonical(p.text);
      CanonicalIffPaired(raw);
      BackToLf(raw);
      LinesAreClean(raw);
      LinesAreClean(p.text);
      LinesOfJoin(Lines(raw), [LF]);
      LinesOfJoin(Lines(p.text), [LF]);
    } else {
      LinesOfCanonical(p.data);
    }
  }

  // ----- sent as it is

  lemma CountClean(line: bytes)
    requires Clean(line)
    ensures Count(IsVisible, line) == |line|
  {
    assert forall i :: 0 <= i < |line| ==> line[i] in line;
    CountBound(IsVisible, line);
  }

  /** Without visible octets a text is made of line breaks. */
  lemma {:induction false} VisibleLines(ls: seq<bytes>)
    requires AllClean(ls)
    ensures CountIn(IsVisible, ls) == 0 <==> forall i :: 0 <= i < |ls| ==> ls[i] == []
  {
    if ls != [] {
      VisibleLines(ls[1..]);
      CountClean(ls[0]);
      assert ls == [ls[0]] + ls[1..];
    }
  }

  /** Decoding one line as quoted-printable shows less of it, unless there is nothing to decode. */
  lemma DecodeLineKeeps(line: bytes, last: bool)
    requires Clean(line)
    ensures QP.DecodeLine(line, last).Some? && !QP.Undisturbed(line) ==>
              Count(IsVisible, QP.DecodeLine(line, last).value) < |line|
    ensures QP.DecodeLine(line, last).Some? ==> Count(IsVisible, QP.DecodeLine(line, last).value) <= |line|
    ensures QP.Undisturbed(line) ==> QP.DecodeLine(line, last) == Some(line + if last then [] else CRLF)
  {
    var trimmed := QP.TrimRight(line);
    var text := if QP.Soft(trimmed) then trimmed[..|trimmed| - 1] else trimmed;
    var end := if QP.Soft(trimmed) || last then [] else CRLF;
    QP.TrimIsShorter(line);
    if QP.Tidy(line) {
      QP.TidyIsTrimmed(line);
    }
    QP.DecodeTextKeeps(text);
    if QP.DecodeText(text).Some? {
      var x := QP.DecodeText(text).value;
      CountAppend(IsVisible, x, end);
      CountBound(IsVisible, x);
      CountBreak(IsVisible);
    }
  }

  lemma UndisturbedCons(ls: seq<bytes>)
    requires ls != []
    ensures QP.AllUndisturbed(ls) <==> QP.Undisturbed(ls[0]) && QP.AllUndisturbed(ls[1..])
  {
    assert forall i :: 0 < i < |ls| ==> ls[i] == ls[1..][i - 1];
    if QP.AllUndisturbed(ls) {
      forall i | 0 <= i < |ls[1..]|
        ensures QP.Undisturbed(ls[1..][i])
      {
        assert ls[1..][i] == ls[i + 1];
      }
    }
  }

  lemma {:induction false} DecodeLinesKeep(ls: seq<bytes>)
    requires AllClean(ls)
    ensures QP.DecodeLines(ls).Some? && !QP.AllUndisturbed(ls) ==>
              Count(IsVisible, QP.DecodeLines(ls).value) < CountIn(IsVisible, ls)
    ensures QP.DecodeLines(ls).Some? ==> Count(IsVisible, QP.DecodeLines(ls).value) <= CountIn(IsVisible, ls)
    ensures QP.AllUndisturbed(ls) ==> QP.DecodeLines(ls) == Some(Join(ls, CRLF))
  {
    if ls != [] {
      var tail := ls[1..];
      DecodeLineKeeps(ls[0], |ls| == 1);
      DecodeLinesKeep(tail);
      CountClean(ls[0]);
      UndisturbedCons(ls);
      var line, rest := QP.DecodeLine(ls[0], |ls| == 1), QP.DecodeLines(tail);
      if line.Some? && rest.Some? {
        CountAppend(IsVisible, line.value, rest.value);
        if |ls| == 1 {
          assert rest.value == [] && ls[0] + [] + rest.value == ls[0];
        }
      }
    }
  }

  /** A text that goes as it is, read as quoted-printable. */
  lemma PlainReadAsQuoted(env: Env, p: Part, contentType: ContentType)
    requires (p.Text? || p.Binary?) && TypesMatchKinds(p, contentType)
    requires DecoderOf(Encoding.Encode(env.has8Bit, LeafOctets(p)).cte) == Plain
    ensures var raw := QP.Decode(Canonical(LeafOctets(p)));
            (raw.Some? && LeafArrivesAs(env, p, contentType, raw.value)) <==> QP.AllUndisturbed(Lines(LeafOctets(p)))
  {
    var octets := LeafOctets(p);
    SentDecoder(env.has8Bit, octets);
    LinesOfCanonical(octets);
    LinesAreClean(octets);
    DecodeLinesKeep(Lines(octets));
    CountOfLines(IsVisible, octets);
    var raw := QP.Decode(Canonical(octets));
    if QP.AllUndisturbed(Lines(octets)) {
      assert raw == Some(ReceivedOctets(env, p));
      LeafArrives(env, p, contentType);
    } else if raw.Some? {
      OtherCountIsLost(IsVisible, env, p, contentType, raw.value);
    }
  }

  // ----- read as base64

  lemma {:induction false} UnwrapSize(s: bytes)
    ensures |Base64.Unwrap(s)| == Count(IsVisible, s)
  {
    if s != [] {
      UnwrapSize(s[1..]);
    }
  }

  lemma {:induction false} QuantaSize(s: bytes)
    ensures Base64.DecodeQuanta(s).Some? ==> 4 * |Base64.DecodeQuanta(s).value| <= 3 * |s|
  {
    if |s| > 4 {
      QuantaSize(s[4..]);
    }
  }

  /** Base64 text stands for fewer octets than it has. */
  lemma DecodedIsShorter(s: bytes)
    ensures Base64.Decode(s).Some? ==> 4 * Count(IsVisible, Base64.Decode(s).value) <= 3 * Count(IsVisible, s)
    ensures Base64.Decode(s).Some? && Count(IsVisible, s) == 0 ==> Base64.Decode(s).value == []
  {
    UnwrapSize(s);
    QuantaSize(Base64.Unwrap(s));
    if Base64.Decode(s).Some? {
      CountBound(IsVisible, Base64.Decode(s).value);
    }
  }

  /** Text that shows the octets of a leaf and no more, read as base64. */
  lemma ReadAsBase(env: Env, p: Part, contentType: ContentType, wire: bytes)
    requires (p.Text? || p.Binary?) && TypesMatchKinds(p, contentType) && LeafOctets(p) != []
    requires Count(IsVisible, wire) == Count(IsVisible, LeafOctets(p))
    ensures Base64.Decode(wire).Some? ==> !LeafArrivesAs(env, p, contentType, Base64.Decode(wire).value)
  {
    DecodedIsShorter(wire);
    if Base64.Decode(wire).Some? {
      if Count(IsVisible, wire) == 0 {
        EmptyIsLost(env, p, contentType);
      } else {
        OtherCountIsLost(IsVisible, env, p, contentType, Base64.Decode(wire).value);
      }
    }
  }

  lemma PlainReadAsBase(env: Env, p: Part, contentType: ContentType)
    requires (p.Text? || p.Binary?) && TypesMatchKinds(p, contentType)
    requires DecoderOf(Encoding.Encode(env.has8Bit, LeafOctets(p)).cte) == Plain
    ensures var raw := Base64.Decode(Canonical(LeafOctets(p)));
            (raw.Some? && LeafArrivesAs(env, p, contentType, raw.value)) <==> LeafOctets(p) == []
  {
    var octets := LeafOctets(p);
    CountOfCanonical(IsVisible, octets);
    if octets == [] {
      SentDecoder(env.has8Bit, octets);
      assert Base64.Decode(octets) == Some(octets);
      assert ReceivedOctets(env, p) == octets;
      LeafArrives(env, p, contentType);
    } else {
      ReadAsBase(env, p, contentType, Canonical(octets));
    }
  }

  // ----- sent as quoted-printable

  lemma QuotedReadAsPlain(env: Env, p: Part, contentType: ContentType)
    requires (p.Text? || p.Binary?) && TypesMatchKinds(p, contentType)
    requires DecoderOf(Encoding.Encode(env.has8Bit, LeafOctets(p)).cte) == Quoted
    ensures LeafArrivesAs(env, p, contentType, Canonical(QP.Encode(LeafOctets(p)))) <==> QP.Plain(LeafOctets(p))
  {
    var octets := LeafOctets(p);
    SentDecoder(env.has8Bit, octets);
    QP.EncodeShape(octets);
    QP.EncodeCopiesIff(octets);
    if QP.Plain(octets) {
      LeafArrives(env, p, contentType);
    } else {
      QP.FillAllCopies(Lines(octets));
      CanonicalIsPaired(QP.Encode(octets));
      if p.Binary? {
        assert Canonical(p.data) != QP.Encode(octets);
      } else {
        OtherLinesAreLost(env, p, contentType, QP.Encode(octets));
      }
    }
  }

  function Flat(ls: seq<bytes>): bytes {
    if ls == [] then [] else ls[0] + Flat(ls[1..])
  }

  lemma {:induction false} FlatAppend(a: seq<bytes>, b: seq<bytes>)
    ensures Flat(a + b) == Flat(a) + Flat(b)
  {
    if a == [] {
      assert a + b == b;
    } else {
      FlatAppend(a[1..], b);
      assert (a + b)[1..] == a[1..] + b;
      Assoc(a[0], Flat(a[1..]), Flat(b));
    }
  }

  lemma {:induction false} UnwrapClean(line: bytes)
    requires Clean(line)
    ensures Base64.Unwrap(line) == line
  {
    if line != [] {
      assert line[0] in line;
      UnwrapClean(line[1..]);
    }
  }

  lemma UnwrapBreak()
    ensures Base64.Unwrap(CRLF) == []
  {
    var lf: bytes := CRLF[1..];
    assert lf == [LF] && lf[1..] == [];
    assert Base64.Unwrap(lf) == [];
  }

  lemma {:induction false} UnwrapOfJoin(ls: seq<bytes>)
    requires AllClean(ls)
    ensures Base64.Unwrap(Join(ls, CRLF)) == Flat(ls)
  {
    if ls != [] {
      UnwrapClean(ls[0]);
      if |ls| == 1 {
        assert Flat(ls[1..]) == [] && ls[0] + [] == ls[0];
      } else {
        UnwrapOfJoin(ls[1..]);
        Base64.UnwrapAppend(ls[0] + CRLF, Join(ls[1..], CRLF));
        Base64.UnwrapAppend(ls[0], CRLF);
        UnwrapBreak();
        assert ls[0] + [] == ls[0];
      }
    }
  }

  predicate EndsOpen(s: bytes) {
    s == [] || s[|s| - 1] != EQUALS
  }

  lemma EndsOpenAppend(a: bytes, b: bytes)
    requires EndsOpen(a) || b != []
    requires EndsOpen(b)
    ensures EndsOpen(a + b)
  {
    if b != [] {
      assert (a + b)[|a + b| - 1] == b[|b| - 1];
    } else {
      assert a + b == a;
    }
  }

  lemma FlatOne(line: bytes)
    ensures Flat([line]) == line
  {
    assert [line][1..] == [] && line + [] == line;
  }

  lemma FlatFront(tok: bytes, ls: seq<bytes>)
    requires ls != []
    ensures Flat(QP.PutFront(tok, ls)) == tok + Flat(ls)
  {
    Assoc(tok, ls[0], Flat(ls[1..]));
  }

  /** Encoded lines end in something else than an equals sign, soft line breaks included. */
  lemma {:induction false} FillEndsOpen(line: bytes, col: nat)
    requires Clean(line)
    ensures EndsOpen(Flat(QP.Fill(line, col))) && (line != [] ==> Flat(QP.Fill(line, col)) != [])
  {
    if line == [] {
      var none: seq<bytes> := QP.Fill(line, col);
      assert none == [[]] && none[1..] == [];
    } else {
      assert line[0] in line;
      var tok := QP.Token(line[0], |line| == 1);
      var ls := QP.Fill(line[1..], QP.Start(col, tok) + |tok|);
      QP.TokenFacts(line[0], |line| == 1);
      FillEndsOpen(line[1..], QP.Start(col, tok) + |tok|);
      EndsOpenAppend(tok, Flat(ls));
      FlatFront(tok, ls);
      if QP.Start(col, tok) < col {
        FlatAppend([[EQUALS]], QP.PutFront(tok, ls));
        EndsOpenAppend([EQUALS], tok + Flat(ls));
        FlatOne([EQUALS]);
      }
    }
  }

  lemma {:induction false} FillAllEndsOpen(ls: seq<bytes>)
    requires AllClean(ls)
    ensures EndsOpen(Flat(QP.FillAll(ls)))
  {
    if ls != [] {
      FillEndsOpen(ls[0], 0);
      FillAllEndsOpen(ls[1..]);
      FlatAppend(QP.Fill(ls[0], 0), QP.FillAll(ls[1..]));
      EndsOpenAppend(Flat(QP.Fill(ls[0], 0)), Flat(QP.FillAll(ls[1..])));
    }
  }

  /** In base64 text an equals sign is padding, which ends it. */
  lemma {:induction false} PaddingEnds(s: bytes)
    requires Base64.DecodeQuanta(s).Some? && EndsOpen(s)
    ensures EQUALS !in s
  {
    if |s| > 4 {
      assert s[4..][|s| - 5] == s[|s| - 1];
      PaddingEnds(s[4..]);
      assert s == s[..4] + s[4..];
    }
  }

  lemma SoftBreakShows(line: bytes, col: nat)
    requires line != [] && QP.Start(col, QP.Token(line[0], |line| == 1)) < col
    ensures EQUALS in Flat(QP.Fill(line, col))
  {
    var ls := QP.Fill(line, col);
    assert ls[0] == [EQUALS] && Flat(ls)[0] == EQUALS;
  }

  /** A line without an equals sign on the wire was copied. */
  lemma {:induction false} CopiedWithoutEquals(line: bytes, col: nat)
    requires Clean(line) && EQUALS !in Flat(QP.Fill(line, col))
    ensures QP.Copied(line, col)
  {
    if line != [] {
      var tok := QP.Token(line[0], |line| == 1);
      var ls := QP.Fill(line[1..], QP.Start(col, tok) + |tok|);
      if QP.Start(col, tok) < col {
        SoftBreakShows(line, col);
      } else {
        assert line[0] in line;
        FlatFront(tok, ls);
        assert EQUALS !in tok && EQUALS !in Flat(ls);
        assert tok[0] in tok;
        CopiedWithoutEquals(line[1..], QP.Start(col, tok) + |tok|);
        QP.CopiedStep(line, col);
      }
    }
  }

  lemma {:induction false} AllCopied(ls: seq<bytes>)
    requires AllClean(ls) && EQUALS !in Flat(QP.FillAll(ls))
    ensures QP.FillAll(ls) == ls
  {
    if ls != [] {
      FlatAppend(QP.Fill(ls[0], 0), QP.FillAll(ls[1..]));
      CopiedWithoutEquals(ls[0], 0);
      QP.FillCopies(ls[0], 0);
      AllCopied(ls[1..]);
      assert ls == [ls[0]] + ls[1..];
    }
  }

  /** Quoted-printable text that is base64 text as well has nothing encoded in it, and stands for less. */
  lemma QuotedReadAsBase(env: Env, p: Part, contentType: ContentType)
    requires (p.Text? || p.Binary?) && TypesMatchKinds(p, contentType)
    requires DecoderOf(Encoding.Encode(env.has8Bit, LeafOctets(p)).cte) == Quoted
    ensures var raw := Base64.Decode(Canonical(QP.Encode(LeafOctets(p))));
            raw.Some? ==> !LeafArrivesAs(env, p, contentType, raw.value)
  {
    var octets := LeafOctets(p);
    var ls, wire := Lines(octets), QP.Encode(octets);
    SentDecoder(env.has8Bit, octets);
    QP.EncodeShape(octets);
    LinesAreClean(octets);
    LinesAreClean(wire);
    UnwrapOfJoin(QP.FillAll(ls));
    FillAllEndsOpen(ls);
    if Base64.Decode(wire).Some? {
      PaddingEnds(Base64.Unwrap(wire));
      AllCopied(ls);
      assert wire == Canonical(octets);
      CountOfCanonical(IsVisible, octets);
      ReadAsBase(env, p, contentType, wire);
    }
  }

  // ----- sent as base64

  lemma BaseReadAsPlain(env: Env, p: Part, contentType: ContentType)
    requires (p.Text? || p.Binary?) && TypesMatchKinds(p, contentType)
    requires DecoderOf(Encoding.Encode(env.has8Bit, LeafOctets(p)).cte) == Base
    ensures !LeafArrivesAs(env, p, contentType, Canonical(Encoding.Base64Text(LeafOctets(p))))
  {
    var octets := LeafOctets(p);
    var raw := Canonical(Encoding.Base64Text(octets));
    SentDecoder(env.has8Bit, octets);
    Encoding.Base64DiffersFromInput(env.has8Bit, octets);
    if p.Text? {
      CanonicalIsPaired(Encoding.Base64Text(octets));
      CanonicalIsIdempotent(Encoding.Base64Text(octets));
      CanonicalIsIdempotent(p.text);
      OtherLinesAreLost(env, p, contentType, raw);
    }
  }

  /** Characters of base64, with padding at the end only. */
  predicate Padded(s: bytes) {
    && (forall i :: 0 <= i < |s| ==> 0x2B <= s[i] <= 0x7A)
    && forall i, k :: 0 <= i < k < |s| && s[i] == EQUALS ==> s[k] == EQUALS
  }

  lemma PaddedAppend(a: bytes, b: bytes)
    requires Padded(a) && Padded(b) && EQUALS !in a
    ensures Padded(a + b)
  {
    var s := a + b;
    forall i | 0 <= i < |s|
      ensures 0x2B <= s[i] <= 0x7A && (s[i] == EQUALS ==> i >= |a| && b[i - |a|] == EQUALS)
    {
      assert s[i] == if i < |a| then a[i] else b[i - |a|];
      assert i < |a| ==> a[i] in a;
    }
  }

  lemma {:induction false} EncodeIsPadded(s: bytes)
    ensures Padded(Base64.Encode(s))
    ensures s != [] ==> Count(IsCode, Base64.Encode(s)) > |s|
  {
    if |s| >= 3 {
      var quantum := Base64.EncodeQuantum(s[0], s[1], s[2]);
      EncodeIsPadded(s[3..]);
      PaddedAppend(quantum, Base64.Encode(s[3..]));
      CountAppend(IsCode, quantum, Base64.Encode(s[3..]));
      CountBound(IsCode, quantum);
    } else if s != [] {
      var enc := Base64.Encode(s);
      assert enc == enc[..|s| + 1] + enc[|s| + 1..];
      CountAppend(IsCode, enc[..|s| + 1], enc[|s| + 1..]);
      CountBound(IsCode, enc[..|s| + 1]);
    }
  }

  lemma PaddedSplit(s: bytes, n: nat)
    requires Padded(s) && n <= |s|
    ensures Padded(s[..n]) && Padded(s[n..])
  {
  }

  predicate AllPadded(ls: seq<bytes>) {
    forall i :: 0 <= i < |ls| ==> Padded(ls[i])
  }

  lemma PaddedCons(line: bytes, ls: seq<bytes>)
    requires Padded(line) && AllPadded(ls)
    ensures AllPadded([line] + ls) && CountIn(IsCode, [line] + ls) == Count(IsCode, line) + CountIn(IsCode, ls)
  {
    assert ([line] + ls)[1..] == ls;
  }

  lemma {:induction false} WrapIsPadded(enc: bytes)
    requires Padded(enc)
    ensures AllPadded(Lines(Base64.Wrap(enc))) && CountIn(IsCode, Lines(Base64.Wrap(enc))) == Count(IsCode, enc)
  {
    if |enc| <= Base64.WIDTH {
      LinesOfClean(enc);
      assert [enc][1..] == [];
    } else {
      var line, rest := enc[..Base64.WIDTH], enc[Base64.WIDTH..];
      assert enc == line + rest;
      PaddedSplit(enc, Base64.WIDTH);
      WrapIsPadded(rest);
      LinesOfClean(line);
      LinesAcrossLf(line, Base64.Wrap(rest));
      CountAppend(IsCode, line, rest);
      PaddedCons(line, Lines(Base64.Wrap(rest)));
    }
  }

  /** Decoding such a line as quoted-printable drops an equals sign at most. */
  lemma DecodePadded(line: bytes, last: bool)
    requires Padded(line)
    ensures QP.DecodeLine(line, last).Some? ==> Count(IsCode, QP.DecodeLine(line, last).value) == Count(IsCode, line)
  {
    QP.TidyIsTrimmed(line);
    var text := if QP.Soft(line) then line[..|line| - 1] else line;
    var end := if QP.Soft(line) || last then [] else CRLF;
    assert QP.Legible(text);
    assert QP.NoEscape(text) by {
      forall i | 0 <= i < |text|
        ensures !QP.EscapeAt(text, i)
      {
        assert text[i] == line[i] && (i + 1 < |text| && line[i] == EQUALS ==> line[i + 1] == EQUALS);
      }
    }
    QP.DecodeTextKeeps(text);
    CountAppend(IsCode, text, end);
    CountBreak(IsCode);
    if QP.Soft(line) {
      assert line == text + [EQUALS];
      CountAppend(IsCode, text, [EQUALS]);
      CountNone(IsCode, [EQUALS]);
    }
  }

  lemma {:induction false} DecodeAllPadded(ls: seq<bytes>)
    requires AllPadded(ls)
    ensures QP.DecodeLines(ls).Some? ==> Count(IsCode, QP.DecodeLines(ls).value) == CountIn(IsCode, ls)
  {
    if ls != [] && QP.DecodeLines(ls).Some? {
      DecodePadded(ls[0], |ls| == 1);
      DecodeAllPadded(ls[1..]);
      CountAppend(IsCode, QP.DecodeLine(ls[0], |ls| == 1).value, QP.DecodeLines(ls[1..]).value);
    }
  }

  /** Base64 text read as quoted-printable shows more characters than the leaf has octets. */
  lemma BaseReadAsQuoted(env: Env, p: Part, contentType: ContentType)
    requires (p.Text? || p.Binary?) && TypesMatchKinds(p, contentType)
    requires DecoderOf(Encoding.Encode(env.has8Bit, LeafOctets(p)).cte) == Base
    ensures var raw := QP.Decode(Canonical(Encoding.Base64Text(LeafOctets(p))));
            raw.Some? ==> !LeafArrivesAs(env, p, contentType, raw.value)
  {
    var octets := LeafOctets(p);
    var wire := Encoding.Base64Text(octets);
    SentDecoder(env.has8Bit, octets);
    EncodeIsPadded(octets);
    WrapIsPadded(Base64.Encode(octets));
    LinesOfCanonical(wire);
    DecodeAllPadded(Lines(wire));
    CountBound(IsCode, octets);
    if QP.Decode(Canonical(wire)).Some? {
      OtherCountIsLost(IsCode, env, p, contentType, QP.Decode(Canonical(wire)).value);
    }
  }

  // ----- any name

  /** Under a name for the decoder that undoes the encoding, a leaf is read back. */
  lemma SameDecoderReads(env: Env, p: Part, contentType: ContentType, cte: string)
    requires (p.Text? || p.Binary?) && TypesMatchKinds(p, contentType)
    requires DecoderOf(cte) == DecoderOf(Encoding.Encode(env.has8Bit, LeafOctets(p)).cte)
    ensures var raw := DecodeTransferEncoding(cte, Canonical(Encoding.Encode(env.has8Bit, LeafOctets(p)).content));
            raw.Some? && LeafArrivesAs(env, p, contentType, raw.value)
  {
    var e := Encoding.Encode(env.has8Bit, LeafOctets(p));
    DecoderDecodes(cte, Canonical(e.content));
    DecoderDecodes(e.cte, Canonical(e.content));
    Encoding.LeafRoundTrip(env.has8Bit, LeafOctets(p));
    LeafArrives(env, p, contentType);
  }

  /** A leaf is read back under a name exactly if that name fits. */
  lemma LeafFitsIff(env: Env, p: Part, contentType: ContentType, cte: string)
    requires (p.Text? || p.Binary?) && TypesMatchKinds(p, contentType)
    ensures var raw := DecodeTransferEncoding(cte, Canonical(Encoding.Encode(env.has8Bit, LeafOctets(p)).content));
            (raw.Some? && LeafArrivesAs(env, p, contentType, raw.value)) <==>
              LeafFits(env.has8Bit, LeafOctets(p), cte)
  {
    var e := Encoding.Encode(env.has8Bit, LeafOctets(p));
    SentContent(env.has8Bit, LeafOctets(p));
    DecoderDecodes(cte, Canonical(e.content));
    match (DecoderOf(e.cte), DecoderOf(cte)) {
      case (Plain, Quoted) => PlainReadAsQuoted(env, p, contentType);
      case (Plain, Base) => PlainReadAsBase(env, p, contentType);
      case (Quoted, Plain) => QuotedReadAsPlain(env, p, contentType);
      case (Quoted, Base) => QuotedReadAsBase(env, p, contentType);
      case (Base, Plain) => BaseReadAsPlain(env, p, contentType);
      case (Base, Quoted) => BaseReadAsQuoted(env, p, contentType);
      case _ => SameDecoderReads(env, p, contentType, cte);
    }
  }

  /** A multipart is read like under its own name if the name stands for no encoding, and not at all otherwise. */
  lemma NamedMultipart(env: Env, path: seq<nat>, p: Part, contentType: ContentType, cte: string)
    requires p.Multipart? && Framed(env, path, p, contentType)
    ensures var e := EncodePart(env, path, p, contentType);
            ReadsBack(env, p, EntityHeader(e.contentType, cte), Lines(e.content)) <==>
              IdentityCte(cte) && ReadsBack(env, p, EntityHeader(e.contentType, e.cte), Lines(Canonical(e.content)))
  {
    var e := EncodePart(env, path, p, contentType);
    LinesOfCanonical(e.content);
    IdentityNames();
    var read, sent := ParsePart(env.codec, EntityHeader(e.contentType, cte), Lines(e.content)),
                      ParsePart(env.codec, EntityHeader(e.contentType, e.cte), Lines(e.content));
    assert if IdentityCte(cte) then read == sent else read.Err?;
  }

  lemma NamedLeaf(env: Env, path: seq<nat>, p: Part, contentType: ContentType, cte: string)
    requires Framed(env, path, p, contentType) && TypesMatchKinds(p, contentType) && !p.Multipart?
    ensures var e := EncodePart(env, path, p, contentType);
            ReadsBack(env, p, EntityHeader(e.contentType, cte), Lines(e.content)) <==>
              LeafFits(env.has8Bit, LeafOctets(p), cte)
  {
    LeafFitsIff(env, p, contentType, cte);
  }

  /** A body read under any name for its transfer encoding. */
  lemma NamedRoundTripIff(env: Env, path: seq<nat>, p: Part, contentType: ContentType, cte: string)
    requires Framed(env, path, p, contentType) && TypesMatchKinds(p, contentType)
    ensures var e := EncodePart(env, path, p, contentType);
            ReadsBack(env, p, EntityHeader(e.contentType, cte), Lines(e.content)) <==>
              NameFits(env.has8Bit, p, cte) && !Collides(env, path, p, contentType)
  {
    if p.Multipart? {
      RoundTripIff(env, path, p, contentType);
      NamedMultipart(env, path, p, contentType, cte);
    } else {
      NamedLeaf(env, path, p, contentType, cte);
    }
  }
}
