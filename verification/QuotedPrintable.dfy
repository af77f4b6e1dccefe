/**
 * Quoted-printable, section 6.7 of RFC 2045: text is encoded line by line, every output line has
 * at most 76 characters, and lines are filled greedily.
 */
module QuotedPrintable {
  import opened Bytes
  import opened LineEndings

  /** 76 characters, one of them kept for the `=` of a soft line break. */
  const ROOM := 75

  predicate Blank(c: int) {
    c == SPACE || c == TAB
  }

  /** Octets that may stand for themselves, blanks included. */
  predicate Literal(c: int) {
    (0x20 <= c <= 0x7E && c != EQUALS) || c == TAB
  }

  /** Lower-case digits are accepted as well. */
  function HexValue(c: int): (r: Option<int>)
    ensures r.Some? ==> 0 <= r.value < 16
  {
    if 48 <= c <= 57 then Some(c - 48)
    else if 65 <= c <= 70 then Some(c - 55)
    else if 97 <= c <= 102 then Some(c - 87)
    else None
  }

  function HexDigit(v: int): (c: byte)
    requires 0 <= v < 16
    ensures HexValue(c) == Some(v)
    ensures Literal(c) && !Blank(c)
  {
    if v < 10 then 48 + v else 55 + v
  }

  function Escape(c: byte): bytes {
    [EQUALS, HexDigit(c / 16), HexDigit(c % 16)]
  }

  /** One octet of a line; a blank that ends the line is escaped. */
  function Token(c: byte, last: bool): (r: bytes)
    ensures |r| == 1 || |r| == 3
  {
    if Literal(c) && !(last && Blank(c)) then [c] else Escape(c)
  }

  /** The column a token starts in: a new line if it no longer fits. */
  function Start(col: nat, tok: bytes): nat {
    if col + |tok| > ROOM then 0 else col
  }

  function PutFront(tok: bytes, ls: seq<bytes>): (r: seq<bytes>)
    requires ls != []
    ensures |r| == |ls| && r[0] == tok + ls[0] && r[1..] == ls[1..]
  {
    [tok + ls[0]] + ls[1..]
  }

  /** A token in front of the output lines of what follows it, after a soft line break if it does not fit. */
  function FillStep(tok: bytes, col: nat, rest: seq<bytes>): (ls: seq<bytes>)
    requires rest != []
    ensures ls != []
  {
    if Start(col, tok) < col then [[EQUALS]] + PutFront(tok, rest) else PutFront(tok, rest)
  }

  /** The output lines for the rest of an input line when the current output line has `col` characters. */
  function Fill(line: bytes, col: nat): (ls: seq<bytes>)
    ensures ls != []
  {
    if line == [] then [[]]
    else
      var tok := Token(line[0], |line| == 1);
      FillStep(tok, col, Fill(line[1..], Start(col, tok) + |tok|))
  }

  function FillAll(ls: seq<bytes>): (r: seq<bytes>)
    ensures ls != [] ==> r != []
  {
    if ls == [] then [] else Fill(ls[0], 0) + FillAll(ls[1..])
  }

  function Encode(s: bytes): bytes {
    Join(FillAll(Lines(s)), CRLF)
  }

  /** Trailing blanks of an encoded line were added in transport and are dropped. */
  function TrimRight(line: bytes): (r: bytes)
    ensures |r| <= |line|
  {
    if line != [] && Blank(line[|line| - 1]) then TrimRight(line[..|line| - 1]) else line
  }

  /** Escapes and literals of one line; an `=` without two hex digits stands for itself. */
  function DecodeText(line: bytes): Option<bytes> {
    if line == [] then Some([])
    else if line[0] == EQUALS && |line| >= 3 && HexValue(line[1]).Some? && HexValue(line[2]).Some? then
      match DecodeText(line[3..])
      case Some(rest) => Some([HexValue(line[1]).value * 16 + HexValue(line[2]).value] + rest)
      case None => None
    else if (line[0] < 0x20 && line[0] != TAB) || line[0] == DEL then None
    else
      match DecodeText(line[1..])
      case Some(rest) => Some([line[0]] + rest)
      case None => None
  }

  predicate Soft(line: bytes) {
    line != [] && line[|line| - 1] == EQUALS
  }

  function Then(a: Option<bytes>, b: Option<bytes>): Option<bytes> {
    if a.Some? && b.Some? then Some(a.value + b.value) else None
  }

  /** What one line contributes; only a hard line break is part of the text. */
  function DecodeLine(line: bytes, last: bool): Option<bytes> {
    var trimmed := TrimRight(line);
    if Soft(trimmed) then
      if trimmed != line || (last && trimmed == [EQUALS]) then None
      else DecodeText(trimmed[..|trimmed| - 1])
    else
      Then(DecodeText(trimmed), Some(if last then [] else CRLF))
  }

  function DecodeLines(ls: seq<bytes>): Option<bytes> {
    if ls == [] then Some([])
    else Then(DecodeLine(ls[0], |ls| == 1), DecodeLines(ls[1..]))
  }

  function Decode(s: bytes): Option<bytes> {
    DecodeLines(Lines(s))
  }

  // ----- the decoder undoes the encoder

  lemma TokenFacts(c: byte, last: bool)
    requires c != CR && c != LF
    ensures var tok := Token(c, last);
            && Clean(tok) && Ascii(tok)
            && tok[|tok| - 1] != EQUALS
            && (last ==> !Blank(tok[|tok| - 1]))
  {
  }

  lemma DecodeEscape(high: byte, low: byte, rest: bytes)
    requires HexValue(high).Some? && HexValue(low).Some? && DecodeText(rest).Some?
    ensures DecodeText([EQUALS, high, low] + rest) ==
            Some([HexValue(high).value * 16 + HexValue(low).value] + DecodeText(rest).value)
  {
    assert ([EQUALS, high, low] + rest)[3..] == rest;
  }

  lemma DecodeToken(c: byte, last: bool, rest: bytes)
    requires DecodeText(rest).Some?
    ensures DecodeText(Token(c, last) + rest) == Some([c] + DecodeText(rest).value)
  {
    if Literal(c) && !(last && Blank(c)) {
      assert ([c] + rest)[1..] == rest;
    } else {
      assert c / 16 * 16 + c % 16 == c;
      DecodeEscape(HexDigit(c / 16), HexDigit(c % 16), rest);
    }
  }

  /** The last octet is not a blank. */
  predicate Tidy(line: bytes) {
    line != [] ==> !Blank(line[|line| - 1])
  }

  lemma TidyIsTrimmed(line: bytes)
    requires Tidy(line)
    ensures TrimRight(line) == line
  {
  }

  /** Putting a token in front of a line changes neither its last octet nor its being soft. */
  lemma FrontKeepsEnd(c: byte, last: bool, line: bytes)
    requires c != CR && c != LF
    requires Tidy(line) && (line == [] <==> last)
    ensures Tidy(Token(c, last) + line)
    ensures Soft(Token(c, last) + line) <==> Soft(line)
  {
    TokenFacts(c, last);
    var r := Token(c, last) + line;
    if line != [] {
      assert r[|r| - 1] == line[|line| - 1];
    }
  }

  lemma {:induction false} FirstIsTidy(line: bytes, col: nat)
    requires Clean(line)
    ensures Tidy(Fill(line, col)[0]) && (Fill(line, col)[0] == [] <==> line == [])
  {
    if line != [] {
      assert line[0] in line;
      var tok := Token(line[0], |line| == 1);
      var rest := Fill(line[1..], Start(col, tok) + |tok|);
      FirstIsTidy(line[1..], Start(col, tok) + |tok|);
      FrontKeepsEnd(line[0], |line| == 1, rest[0]);
    }
  }

  /** One more token in front of a line puts one more octet in front of what it contributes. */
  lemma DecodeLineFront(c: byte, last: bool, line: bytes, final: bool)
    requires c != CR && c != LF
    requires Tidy(line) && (line == [] <==> last)
    requires DecodeLine(line, final).Some?
    ensures DecodeLine(Token(c, last) + line, final) == Some([c] + DecodeLine(line, final).value)
  {
    var tok := Token(c, last);
    var r := tok + line;
    FrontKeepsEnd(c, last, line);
    TidyIsTrimmed(line);
    TidyIsTrimmed(r);
    if Soft(line) {
      assert r[..|r| - 1] == tok + line[..|line| - 1];
      DecodeToken(c, last, line[..|line| - 1]);
    } else {
      DecodeToken(c, last, line);
      var end := if final then [] else CRLF;
      assert DecodeLine(r, final) == Then(DecodeText(r), Some(end));
      assert [c] + DecodeText(line).value + end == [c] + (DecodeText(line).value + end);
    }
  }

  /** The text that follows an input line when `more` holds the output lines of the later ones. */
  function After(more: seq<bytes>): bytes
    requires DecodeLines(more).Some?
  {
    (if more == [] then [] else CRLF) + DecodeLines(more).value
  }

  lemma DecodeEmpty(more: seq<bytes>)
    requires DecodeLines(more).Some?
    ensures DecodeLines([[]] + more) == Some(After(more))
  {
    var all := [[]] + more;
    var empty: bytes := all[0];
    assert all[1..] == more && empty == [];
    var end := if |all| == 1 then [] else CRLF;
    assert DecodeText(empty) == Some(empty) && empty + end == end;
    assert DecodeLine(empty, |all| == 1) == Some(end);
  }

  /** A soft line break in front of some lines adds nothing to the text. */
  lemma DecodeSoft(ls: seq<bytes>)
    requires ls != [] && DecodeLines(ls).Some?
    ensures DecodeLines([[EQUALS]] + ls) == DecodeLines(ls)
  {
    var all := [[EQUALS]] + ls;
    assert all[1..] == ls;
    TidyIsTrimmed(all[0]);
    assert Soft(all[0]) && all[0][..0] == [] && |all| > 1;
    assert DecodeText([]) == Some([]);
    assert [] + DecodeLines(ls).value == DecodeLines(ls).value;
  }

  lemma DecodeFirst(c: byte, last: bool, ls: seq<bytes>, merged: seq<bytes>)
    requires c != CR && c != LF
    requires ls != [] && Tidy(ls[0]) && (ls[0] == [] <==> last)
    requires DecodeLines(ls).Some?
    requires |merged| == |ls| && merged[0] == Token(c, last) + ls[0] && merged[1..] == ls[1..]
    ensures DecodeLines(merged) == Some([c] + DecodeLines(ls).value)
  {
    DecodeLineFront(c, last, ls[0], |ls| == 1);
    var line, rest := DecodeLine(ls[0], |ls| == 1), DecodeLines(ls[1..]);
    assert DecodeLines(ls) == Then(line, rest);
    assert DecodeLines(merged) == Then(Some([c] + line.value), rest);
    Assoc([c], line.value, rest.value);
  }

  lemma DecodeTail(line: bytes, tok: bytes, rest: seq<bytes>, more: seq<bytes>, after: bytes)
    requires line != [] && Clean(line) && tok == Token(line[0], |line| == 1)
    requires rest != [] && Tidy(rest[0]) && (rest[0] == [] <==> |line| == 1)
    requires DecodeLines(rest + more) == Some(line[1..] + after)
    ensures DecodeLines(PutFront(tok, rest) + more) == Some(line + after)
  {
    assert line[0] in line;
    var ls, merged := rest + more, PutFront(tok, rest) + more;
    assert ls[0] == rest[0] && ls[1..] == rest[1..] + more;
    assert merged[0] == tok + rest[0] && merged[1..] == rest[1..] + more;
    DecodeFirst(line[0], |line| == 1, ls, merged);
    assert [line[0]] + (line[1..] + after) == line + after;
  }

  /** A line that starts with a soft line break decodes like the line without it. */
  lemma DecodeSoftFill(line: bytes, rest: seq<bytes>, more: seq<bytes>)
    requires rest != [] && DecodeLines(rest + more) == Some(line)
    ensures DecodeLines([[EQUALS]] + rest + more) == Some(line)
  {
    Assoc([[EQUALS]], rest, more);
    DecodeSoft(rest + more);
  }

  lemma DecodeFillStep(line: bytes, tok: bytes, col: nat, rest: seq<bytes>, more: seq<bytes>, after: bytes)
    requires line != [] && Clean(line) && tok == Token(line[0], |line| == 1)
    requires rest != [] && Tidy(rest[0]) && (rest[0] == [] <==> |line| == 1)
    requires DecodeLines(rest + more) == Some(line[1..] + after)
    ensures DecodeLines(FillStep(tok, col, rest) + more) == Some(line + after)
  {
    DecodeTail(line, tok, rest, more, after);
    if Start(col, tok) < col {
      DecodeSoftFill(line + after, PutFront(tok, rest), more);
    }
  }

  lemma FillUnfolds(line: bytes, col: nat)
    requires line != []
    ensures var tok := Token(line[0], |line| == 1);
            Fill(line, col) == FillStep(tok, col, Fill(line[1..], Start(col, tok) + |tok|))
  {
  }

  lemma DecodeLonger(line: bytes, col: nat, more: seq<bytes>, after: bytes, rest: seq<bytes>)
    requires line != [] && Clean(line)
    requires var tok := Token(line[0], |line| == 1); rest == Fill(line[1..], Start(col, tok) + |tok|)
    requires DecodeLines(rest + more) == Some(line[1..] + after)
    ensures DecodeLines(Fill(line, col) + more) == Some(line + after)
  {
    var tok := Token(line[0], |line| == 1);
    FillUnfolds(line, col);
    FirstIsTidy(line[1..], Start(col, tok) + |tok|);
    DecodeFillStep(line, tok, col, rest, more, after);
  }

  /** The output lines of an input line put the line in front of what an empty one contributes. */
  lemma {:induction false} DecodeFill(line: bytes, col: nat, more: seq<bytes>, after: bytes)
    requires Clean(line)
    requires DecodeLines([[]] + more) == Some(after)
    ensures DecodeLines(Fill(line, col) + more) == Some(line + after)
  {
    if line == [] {
      assert line + after == after;
    } else {
      var tok := Token(line[0], |line| == 1);
      var col' := Start(col, tok) + |tok|;
      DecodeFill(line[1..], col', more, after);
      DecodeLonger(line, col, more, after, Fill(line[1..], col'));
    }
  }

  lemma {:induction false} DecodeFillAll(ls: seq<bytes>)
    requires AllClean(ls)
    ensures DecodeLines(FillAll(ls)) == Some(Join(ls, CRLF))
  {
    if ls != [] {
      var more := FillAll(ls[1..]);
      DecodeFillAll(ls[1..]);
      DecodeEmpty(more);
      DecodeFill(ls[0], 0, more, After(more));
      assert ls[0] + After(more) == Join(ls, CRLF);
    }
  }

  /** What one output line of the encoder is allowed to be. */
  predicate Sendable(line: bytes, width: int) {
    Clean(line) && Ascii(line) && |line| <= width
  }

  lemma SendableStep(c: byte, last: bool, col: nat, rest: seq<bytes>)
    requires c != CR && c != LF && col <= ROOM && rest != []
    requires var tok := Token(c, last); Sendable(rest[0], ROOM + 1 - (Start(col, tok) + |tok|))
    requires forall l :: l in rest[1..] ==> Sendable(l, ROOM + 1)
    ensures var ls := FillStep(Token(c, last), col, rest);
            Sendable(ls[0], ROOM + 1 - col) && forall l :: l in ls[1..] ==> Sendable(l, ROOM + 1)
  {
    var tok := Token(c, last);
    TokenFacts(c, last);
    assert Sendable(tok + rest[0], ROOM + 1 - Start(col, tok));
    assert PutFront(tok, rest) == [tok + rest[0]] + rest[1..];
  }

  lemma {:induction false} FillIsSendable(line: bytes, col: nat)
    requires Clean(line) && col <= ROOM
    ensures Sendable(Fill(line, col)[0], ROOM + 1 - col)
    ensures forall l :: l in Fill(line, col)[1..] ==> Sendable(l, ROOM + 1)
  {
    if line != [] {
      assert line[0] in line;
      var tok := Token(line[0], |line| == 1);
      var col' := Start(col, tok) + |tok|;
      FillIsSendable(line[1..], col');
      SendableStep(line[0], |line| == 1, col, Fill(line[1..], col'));
    }
  }

  lemma {:induction false} FillAllShape(ls: seq<bytes>)
    requires AllClean(ls)
    ensures forall l :: l in FillAll(ls) ==> Sendable(l, ROOM + 1)
  {
    if ls != [] {
      FillIsSendable(ls[0], 0);
      FillAllShape(ls[1..]);
      assert Fill(ls[0], 0) == [Fill(ls[0], 0)[0]] + Fill(ls[0], 0)[1..];
    }
  }

  /** The encoder's output: canonical line breaks, at most 76 characters a line, all of them ASCII. */
  lemma EncodeShape(s: bytes)
    ensures Lines(Encode(s)) == FillAll(Lines(s))
    ensures Canonical(Encode(s)) == Encode(s)
    ensures forall l :: l in Lines(Encode(s)) ==> Sendable(l, ROOM + 1)
  {
    LinesAreClean(s);
    FillAllShape(Lines(s));
    assert AllClean(FillAll(Lines(s))) by {
      forall i | 0 <= i < |FillAll(Lines(s))|
        ensures Clean(FillAll(Lines(s))[i])
      {
        assert FillAll(Lines(s))[i] in FillAll(Lines(s));
      }
    }
    LinesOfJoin(FillAll(Lines(s)), CRLF);
  }

  /** Digits that rule 1 allows after an `=`: those of upper case. */
  predicate UpperHex(c: int) {
    0x30 <= c <= 0x39 || 0x41 <= c <= 0x46
  }

  /** An `=` starts an escape of two digits or ends the line; any other octet is printable or a tab. */
  predicate WellFormedAt(line: bytes, i: nat)
    requires i < |line|
  {
    if line[i] == 0x3D then i == |line| - 1 || (i + 2 < |line| && UpperHex(line[i + 1]) && UpperHex(line[i + 2]))
    else 0x20 <= line[i] <= 0x7E || line[i] == 0x09
  }

  /** What section 6.7 of RFC 2045 asks of a line: escapes, and no blank at its end. */
  predicate WellFormed(line: bytes) {
    && (forall i :: 0 <= i < |line| ==> WellFormedAt(line, i))
    && (line != [] ==> line[|line| - 1] != 0x20 && line[|line| - 1] != 0x09)
  }

  lemma TokenIsWellFormed(c: byte, last: bool)
    ensures forall i :: 0 <= i < |Token(c, last)| ==> WellFormedAt(Token(c, last), i)
    ensures Token(c, last)[|Token(c, last)| - 1] != EQUALS
    ensures last ==> WellFormed(Token(c, last))
  {
    if |Token(c, last)| == 3 {
      assert UpperHex(HexDigit(c / 16)) && UpperHex(HexDigit(c % 16));
    }
  }

  lemma WellFormedFront(tok: bytes, line: bytes)
    requires forall i :: 0 <= i < |tok| ==> WellFormedAt(tok, i)
    requires tok != [] && tok[|tok| - 1] != EQUALS && WellFormed(line) && (line == [] ==> WellFormed(tok))
    ensures WellFormed(tok + line)
  {
    var r := tok + line;
    forall i | 0 <= i < |r|
      ensures WellFormedAt(r, i)
    {
      if i < |tok| {
        assert r[i] == tok[i] && WellFormedAt(tok, i);
      } else {
        assert WellFormedAt(line, i - |tok|);
      }
    }
    if line == [] {
      assert r == tok;
    } else {
      assert r[|r| - 1] == line[|line| - 1];
    }
  }

  lemma {:induction false} FillIsWellFormed(line: bytes, col: nat)
    ensures forall l :: l in Fill(line, col) ==> WellFormed(l)
    ensures Fill(line, col)[0] == [] ==> line == []
  {
    if line != [] {
      var tok := Token(line[0], |line| == 1);
      var rest := Fill(line[1..], Start(col, tok) + |tok|);
      FillIsWellFormed(line[1..], Start(col, tok) + |tok|);
      TokenIsWellFormed(line[0], |line| == 1);
      WellFormedFront(tok, rest[0]);
      assert WellFormed([EQUALS]);
      assert PutFront(tok, rest) == [tok + rest[0]] + rest[1..];
    }
  }

  lemma {:induction false} FillAllIsWellFormed(ls: seq<bytes>)
    ensures forall l :: l in FillAll(ls) ==> WellFormed(l)
  {
    if ls != [] {
      FillIsWellFormed(ls[0], 0);
      FillAllIsWellFormed(ls[1..]);
    }
  }

  /** Every line of the output is well-formed quoted-printable, and has at most 76 characters. */
  lemma EncodeIsWellFormed(s: bytes)
    ensures forall l :: l in Lines(Encode(s)) ==> WellFormed(l) && |l| <= 76
  {
    EncodeShape(s);
    FillAllIsWellFormed(Lines(s));
  }

  /** The reader takes lower-case digits for the same. */
  lemma DigitCaseDoesNotMatter(high: byte, low: byte, rest: bytes)
    requires UpperHex(high) && UpperHex(low) && DecodeText(rest).Some?
    ensures var lowered := (c: byte) => if c >= 0x41 then c + 0x20 else c;
            DecodeText([EQUALS, lowered(high), lowered(low)] + rest) == DecodeText([EQUALS, high, low] + rest) ==
            Some([HexValue(high).value * 16 + HexValue(low).value] + DecodeText(rest).value)
  {
    var lowered := (c: byte) => if c >= 0x41 then c + 0x20 else c;
    DecodeEscape(high, low, rest);
    DecodeEscape(lowered(high), lowered(low), rest);
  }

  /** The sixteen digits in order. */
  lemma DigitsAreHex(v: int)
    requires 0 <= v < 16
    ensures HexDigit(0) == '0' as int && HexDigit(9) == '9' as int
    ensures HexDigit(10) == 'A' as int && HexDigit(15) == 'F' as int
    ensures v !in {9, 15} ==> HexDigit(v + 1) == HexDigit(v) + 1
  {
  }

  /** Decoding gives the content back with canonical line breaks. */
  lemma RoundTrip(s: bytes)
    ensures Decode(Encode(s)) == Some(Canonical(s))
  {
    EncodeShape(s);
    LinesAreClean(s);
    DecodeFillAll(Lines(s));
  }

  // ----- text that is its own encoding

  /** A line the encoder copies: nothing to escape, and no soft line break. */
  predicate PlainLine(line: bytes) {
    |line| <= ROOM && Tidy(line) && forall i :: 0 <= i < |line| ==> Literal(line[i])
  }

  predicate Plain(s: bytes) {
    forall i :: 0 <= i < |Lines(s)| ==> PlainLine(Lines(s)[i])
  }

  /** No octet takes less than one character. */
  lemma {:induction false} FillIsNotShorter(line: bytes, col: nat)
    ensures |Fill(line, col)| == 1 ==> |Fill(line, col)[0]| >= |line|
  {
    if line != [] {
      var tok := Token(line[0], |line| == 1);
      FillIsNotShorter(line[1..], Start(col, tok) + |tok|);
    }
  }

  predicate Copied(line: bytes, col: nat) {
    line == [] || (col + |line| <= ROOM && Tidy(line) && forall i :: 0 <= i < |line| ==> Literal(line[i]))
  }

  lemma CopiedStep(line: bytes, col: nat)
    requires line != []
    ensures Copied(line, col) <==>
              col < ROOM && Literal(line[0]) && (|line| == 1 ==> !Blank(line[0])) && Copied(line[1..], col + 1)
  {
    var tail := line[1..];
    assert forall i :: 0 < i < |line| ==> line[i] == tail[i - 1];
    if Literal(line[0]) && Copied(tail, col + 1) {
      forall i | 0 <= i < |line|
        ensures Literal(line[i])
      {
        assert i > 0 ==> line[i] == tail[i - 1];
      }
    }
  }

  /** One octet is copied if its token is itself, no soft line break comes before it, and the rest is copied. */
  lemma StepCopies(c: byte, last: bool, col: nat, tail: bytes, rest: seq<bytes>)
    requires rest != [] && (|rest| == 1 ==> |rest[0]| >= |tail|)
    ensures var tok := Token(c, last);
            FillStep(tok, col, rest) == [[c] + tail] <==> tok == [c] && Start(col, tok) >= col && rest == [tail]
  {
    var tok := Token(c, last);
    if Start(col, tok) >= col && |rest| == 1 && tok + rest[0] == [c] + tail {
      assert |tok| == 1 && tok[0] == (tok + rest[0])[0] == c;
      assert rest[0] == (tok + rest[0])[1..] == ([c] + tail)[1..] == tail;
    }
  }

  /** An octet that stands for itself and still fits in the line. */
  lemma TokenIsItself(c: byte, last: bool, col: nat)
    ensures Token(c, last) == [c] <==> Literal(c) && (last ==> !Blank(c))
    ensures Token(c, last) == [c] ==> (Start(col, Token(c, last)) >= col <==> col < ROOM)
    ensures Token(c, last) == [c] && col < ROOM ==> Start(col, Token(c, last)) == col
  {
  }

  lemma FillCopiesStep(line: bytes, col: nat, rest: seq<bytes>)
    requires line != []
    requires var tok := Token(line[0], |line| == 1);
             && rest == Fill(line[1..], Start(col, tok) + |tok|) && (|rest| == 1 ==> |rest[0]| >= |line| - 1)
             && (rest == [line[1..]] <==> Copied(line[1..], Start(col, tok) + |tok|))
    ensures Fill(line, col) == [line] <==> Copied(line, col)
  {
    TokenIsItself(line[0], |line| == 1, col);
    StepCopies(line[0], |line| == 1, col, line[1..], rest);
    CopiedStep(line, col);
    assert line == [line[0]] + line[1..];
  }

  lemma {:induction false} FillCopies(line: bytes, col: nat)
    ensures Fill(line, col) == [line] <==> Copied(line, col)
  {
    if line != [] {
      var tok := Token(line[0], |line| == 1);
      var next := Start(col, tok) + |tok|;
      FillCopies(line[1..], next);
      FillIsNotShorter(line[1..], next);
      FillCopiesStep(line, col, Fill(line[1..], next));
    }
  }

  lemma {:induction false} FillAllIsNotShorter(ls: seq<bytes>)
    ensures |FillAll(ls)| >= |ls|
  {
    if ls != [] {
      FillAllIsNotShorter(ls[1..]);
    }
  }

  lemma {:induction false} FillAllCopies(ls: seq<bytes>)
    ensures FillAll(ls) == ls <==> forall i :: 0 <= i < |ls| ==> PlainLine(ls[i])
  {
    if ls != [] {
      var first, rest := Fill(ls[0], 0), FillAll(ls[1..]);
      FillCopies(ls[0], 0);
      FillAllCopies(ls[1..]);
      FillAllIsNotShorter(ls[1..]);
      assert ls == [ls[0]] + ls[1..];
      if FillAll(ls) == ls {
        assert |first| == 1;
        assert first == FillAll(ls)[..1] == [ls[0]];
        assert rest == FillAll(ls)[1..] == ls[1..];
      }
      assert (forall i :: 0 <= i < |ls| ==> PlainLine(ls[i])) <==>
             PlainLine(ls[0]) && forall i :: 0 <= i < |ls[1..]| ==> PlainLine(ls[1..][i]) by {
        assert forall i :: 0 < i < |ls| ==> ls[i] == ls[1..][i - 1];
      }
    }
  }

  /** The encoder changes nothing but line breaks exactly if no line needs an escape or a soft break. */
  lemma EncodeCopiesIff(s: bytes)
    ensures Encode(s) == Canonical(s) <==> Plain(s)
  {
    EncodeShape(s);
    LinesOfCanonical(s);
    FillAllCopies(Lines(s));
  }

  // ----- text that decoding leaves alone

  /** Octets the decoder takes as they are. */
  predicate Legible(line: bytes) {
    forall i :: 0 <= i < |line| ==> (line[i] >= 0x20 || line[i] == TAB) && line[i] != DEL
  }

  predicate EscapeAt(line: bytes, i: nat)
    requires i < |line|
  {
    line[i] == EQUALS && i + 2 < |line| && HexValue(line[i + 1]).Some? && HexValue(line[i + 2]).Some?
  }

  predicate NoEscape(line: bytes) {
    forall i :: 0 <= i < |line| ==> !EscapeAt(line, i)
  }

  /** A line without anything that stands for something else or may have been added in transport. */
  predicate Undisturbed(line: bytes) {
    Legible(line) && NoEscape(line) && Tidy(line) && !Soft(line)
  }

  predicate AllUndisturbed(ls: seq<bytes>) {
    forall i :: 0 <= i < |ls| ==> Undisturbed(ls[i])
  }

  lemma LegibleTail(line: bytes)
    requires line != []
    ensures Legible(line) <==> (line[0] >= 0x20 || line[0] == TAB) && line[0] != DEL && Legible(line[1..])
  {
    assert line == [line[0]] + line[1..];
    assert forall i :: 0 <= i < |line[1..]| ==> line[1..][i] == line[i + 1];
    assert forall i :: 0 < i < |line| ==> line[i] == line[1..][i - 1];
  }

  lemma NoEscapeTail(line: bytes)
    requires line != []
    ensures NoEscape(line) <==> !EscapeAt(line, 0) && NoEscape(line[1..])
  {
    var tail := line[1..];
    forall i | 0 <= i < |tail|
      ensures EscapeAt(tail, i) <==> EscapeAt(line, i + 1)
    {
    }
    if !EscapeAt(line, 0) && NoEscape(tail) {
      forall i | 0 <= i < |line|
        ensures !EscapeAt(line, i)
      {
        assert i > 0 ==> !EscapeAt(tail, i - 1);
      }
    }
    if NoEscape(line) {
      forall i | 0 <= i < |tail|
        ensures !EscapeAt(tail, i)
      {
        assert !EscapeAt(line, i + 1);
      }
    }
  }

  /** Decoding a line never makes it longer, and keeps its length only where it keeps the line. */
  lemma {:induction false} DecodeTextKeeps(line: bytes)
    ensures DecodeText(line).Some? ==> |DecodeText(line).value| <= |line|
    ensures DecodeText(line).Some? && |DecodeText(line).value| == |line| ==> Legible(line) && NoEscape(line)
    ensures Legible(line) && NoEscape(line) ==> DecodeText(line) == Some(line)
    decreases |line|
  {
    if line != [] {
      LegibleTail(line);
      NoEscapeTail(line);
      DecodeTextKeeps(line[1..]);
      if EscapeAt(line, 0) {
        DecodeTextKeeps(line[3..]);
      } else {
        assert [line[0]] + line[1..] == line;
      }
    }
  }

  lemma {:induction false} TrimIsShorter(line: bytes)
    ensures !Tidy(line) ==> |TrimRight(line)| < |line|
  {
  }

  /** A line decodes exactly if it has no control characters but tabs; what its escapes stand for may be anything. */
  lemma {:induction false} DecodableIff(line: bytes)
    ensures DecodeText(line).Some? <==>
              forall i :: 0 <= i < |line| ==> line[i] == 0x09 || (line[i] >= 0x20 && line[i] != 0x7F)
    decreases |line|
  {
    if line != [] {
      DecodableIff(line[1..]);
      assert forall i :: 0 < i < |line| ==> line[i] == line[1..][i - 1];
      if line[0] == EQUALS && |line| >= 3 && HexValue(line[1]).Some? && HexValue(line[2]).Some? {
        DecodableIff(line[3..]);
        assert forall i :: 3 <= i < |line| ==> line[i] == line[3..][i - 3];
      }
    }
  }

  /** A soft line break with nothing after it is an error. */
  lemma {:induction false} SoftBreakNeedsMore(ls: seq<bytes>)
    ensures DecodeLines(ls + [[EQUALS]]).None?
  {
    var all := ls + [[EQUALS]];
    if ls == [] {
      TidyIsTrimmed(all[0]);
    } else {
      SoftBreakNeedsMore(ls[1..]);
      assert all[1..] == ls[1..] + [[EQUALS]];
    }
  }
}
