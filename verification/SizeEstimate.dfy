/**
 * The size estimate for quoted-printable, `estimateQuotedPrintableSize` of pkg/mailer/encoding.go:18-47,
 * against the output length of the encoder.
 */
module SizeEstimate {
  import opened Bytes
  import opened LineEndings
  import QP = QuotedPrintable

  /** What the estimator takes for an octet that needs no escape: a break or a blank included. */
  predicate Safe(c: int) {
    (0x20 <= c <= 0x7E && c != EQUALS) || c == TAB || c == CR || c == LF
  }

  /** The estimate for the rest of a text when the current line is taken to have `col` characters. */
  function Estimate(s: bytes, col: nat): nat {
    if s == [] then 0
    else
      var n := if Safe(s[0]) then 1 else 3;
      if s[0] == LF then n + Estimate(s[1..], 0)
      else if col + n > 75 then 3 + n + Estimate(s[1..], n)
      else n + Estimate(s[1..], col + n)
  }

  method EstimateQuotedPrintableSize(content: bytes) returns (size: nat)
    ensures size == Estimate(content, 0)
  {
    size := 0;
    var currentLineLen := 0;
    for i := 0 to |content|
      invariant currentLineLen >= 0
      invariant size + Estimate(content[i..], currentLineLen) == Estimate(content, 0)
    {
      var c := content[i];
      assert content[i..][1..] == content[i + 1..];
      var charLen := if Safe(c) then 1 else 3;
      if c == LF {
        size := size + charLen;
        currentLineLen := 0;
        continue;
      }
      if currentLineLen + charLen > 75 {
        size := size + 3;
        currentLineLen := 0;
      }
      size := size + charLen;
      currentLineLen := currentLineLen + charLen;
    }
  }

  /** Octets taken by lines joined with CRLF. */
  function Size(ls: seq<bytes>): nat {
    if ls == [] then 0
    else if |ls| == 1 then |ls[0]|
    else |ls[0]| + 2 + Size(ls[1..])
  }

  lemma {:induction false} SizeOfJoin(ls: seq<bytes>)
    ensures |Join(ls, CRLF)| == Size(ls)
  {
    if |ls| > 1 {
      SizeOfJoin(ls[1..]);
    }
  }

  lemma {:induction false} SizeAppend(a: seq<bytes>, b: seq<bytes>)
    requires a != [] && b != []
    ensures Size(a + b) == Size(a) + 2 + Size(b)
  {
    if |a| == 1 {
      assert (a + b)[1..] == b;
    } else {
      SizeAppend(a[1..], b);
      assert (a + b)[1..] == a[1..] + b;
    }
  }

  /** The column the estimator is in after a line. */
  function EndColumn(line: bytes, col: nat): nat {
    if line == [] then col
    else
      var tok := QP.Token(line[0], false);
      EndColumn(line[1..], QP.Start(col, tok) + |tok|)
  }

  /**
   * What the estimator leaves out for a blank at the end of a line: the two characters its escape is
   * longer, and a soft line break where only the escape does not fit any more.
   */
  function BlankCost(line: bytes, col: nat): nat {
    if line == [] then 0
    else if |line| == 1 then (if !QP.Blank(line[0]) then 0 else if 72 < col < 75 then 5 else 2)
    else
      var tok := QP.Token(line[0], false);
      BlankCost(line[1..], QP.Start(col, tok) + |tok|)
  }

  lemma TidyTail(line: bytes)
    requires |line| > 1
    ensures QP.Tidy(line) <==> QP.Tidy(line[1..])
  {
    assert line[|line| - 1] == line[1..][|line| - 2];
  }

  lemma {:induction false} BlankCostBounds(line: bytes, col: nat)
    ensures BlankCost(line, col) == 0 || BlankCost(line, col) == 2 || BlankCost(line, col) == 5
    ensures BlankCost(line, col) == 0 <==> QP.Tidy(line)
  {
    if |line| > 1 {
      var tok := QP.Token(line[0], false);
      TidyTail(line);
      BlankCostBounds(line[1..], QP.Start(col, tok) + |tok|);
    }
  }

  lemma SizeOfStep(tok: bytes, col: nat, rest: seq<bytes>)
    requires rest != []
    ensures Size(QP.FillStep(tok, col, rest)) == (if QP.Start(col, tok) < col then 3 else 0) + |tok| + Size(rest)
  {
    assert Size(QP.PutFront(tok, rest)) == |tok| + Size(rest);
    if QP.Start(col, tok) < col {
      SizeAppend([[EQUALS]], QP.PutFront(tok, rest));
    }
  }

  lemma FillSize(line: bytes, col: nat)
    requires line != []
    ensures var tok := QP.Token(line[0], |line| == 1);
            var start := QP.Start(col, tok);
            Size(QP.Fill(line, col)) ==
            (if start < col then 3 else 0) + |tok| + Size(QP.Fill(line[1..], start + |tok|))
  {
    var tok := QP.Token(line[0], |line| == 1);
    SizeOfStep(tok, col, QP.Fill(line[1..], QP.Start(col, tok) + |tok|));
  }

  /** On one line the estimate falls short of the encoder's output length by the cost of a final blank. */
  lemma EstimateOfLast(c: byte, col: nat)
    requires c != CR && c != LF
    ensures Estimate([c], col) + BlankCost([c], col) == Size(QP.Fill([c], col))
  {
    FillSize([c], col);
    assert [c][1..] == [];
  }

  predicate AllTidy(ls: seq<bytes>) {
    forall i :: 0 <= i < |ls| ==> QP.Tidy(ls[i])
  }

  // ----- any octets

  /** A text up to its first line break. */
  function FirstLine(s: bytes): (h: bytes)
    ensures |h| <= |s| && s[..|h|] == h && Clean(h)
    ensures |h| < |s| ==> s[|h|] == CR || s[|h|] == LF
  {
    if s == [] || s[0] == CR || s[0] == LF then []
    else
      var h := FirstLine(s[1..]);
      assert s[1..][..|h|] == s[1..|h| + 1];
      [s[0]] + h
  }

  predicate StartsBreak(s: bytes) {
    s != [] && (s[0] == CR || s[0] == LF)
  }

  function BreakWidth(s: bytes): nat {
    if StartsCrlf(s) then 2 else 1
  }

  predicate HasBreak(s: bytes) {
    |FirstLine(s)| < |s|
  }

  /** A text from its first line break on. */
  function BreakOf(s: bytes): (rest: bytes)
    requires HasBreak(s)
    ensures StartsBreak(rest) && s == FirstLine(s) + rest
  {
    s[|FirstLine(s)|..]
  }

  /** What follows the first line break. */
  function NextText(s: bytes): (next: bytes)
    requires HasBreak(s)
    ensures |next| < |s|
  {
    BreakOf(s)[BreakWidth(BreakOf(s))..]
  }

  /** The estimator takes a CR for one more character, and a LF for a line break. */
  function BreakExcess(s: bytes, col: nat): nat
    requires StartsBreak(s)
  {
    if s[0] == CR && col >= 75 then 3 else 0
  }

  /** The column the estimator is in after a line break that it meets in column `col`. */
  function ColumnAfter(s: bytes, col: nat): nat
    requires StartsBreak(s)
  {
    if s[0] == LF || StartsCrlf(s) then 0 else if col >= 75 then 1 else col + 1
  }

  lemma NoBreak(s: bytes)
    requires !HasBreak(s)
    ensures FirstLine(s) == s && Clean(s)
  {
  }

  lemma {:induction false} LinesByFirst(s: bytes)
    ensures Lines(s) == if HasBreak(s) then [FirstLine(s)] + Lines(NextText(s)) else [s]
  {
    if !HasBreak(s) {
      NoBreak(s);
      LinesOfClean(s);
    } else if StartsBreak(s) {
      assert FirstLine(s) == [] && BreakOf(s) == s;
    } else {
      LinesByFirst(s[1..]);
      assert BreakOf(s[1..]) == BreakOf(s);
    }
  }

  lemma EstimateOfBreak(s: bytes, col: nat)
    requires StartsBreak(s)
    ensures Estimate(s, col) ==
            BreakExcess(s, col) + BreakWidth(s) + Estimate(s[BreakWidth(s)..], ColumnAfter(s, col))
  {
    if StartsCrlf(s) {
      assert s[1..][0] == LF && s[1..][1..] == s[2..];
    }
  }

  lemma EstimateOfOctet(c: byte, rest: bytes, col: nat)
    requires c != CR && c != LF
    ensures var tok := QP.Token(c, false);
            Estimate([c] + rest, col) ==
            (if QP.Start(col, tok) < col then 3 else 0) + |tok| + Estimate(rest, QP.Start(col, tok) + |tok|)
  {
    assert ([c] + rest)[1..] == rest;
  }

  lemma {:induction false} EstimateOfLine(line: bytes, col: nat)
    requires Clean(line)
    ensures Estimate(line, col) + BlankCost(line, col) == Size(QP.Fill(line, col))
  {
    if line == [] {
    } else {
      assert line[0] in line;
      if |line| == 1 {
        assert line == [line[0]];
        EstimateOfLast(line[0], col);
      } else {
        var tok, tail := QP.Token(line[0], false), line[1..];
        FillSize(line, col);
        EstimateOfLine(tail, QP.Start(col, tok) + |tok|);
        EstimateOfOctet(line[0], tail, col);
        assert line == [line[0]] + tail;
      }
    }
  }

  /** Text without line breaks: the estimate is exact if and only if the text does not end in a blank. */
  lemma EstimateExactOnOneLine(s: bytes)
    requires Clean(s)
    ensures Estimate(s, 0) == |QP.Encode(s)| <==> QP.Tidy(s)
    ensures Estimate(s, 0) <= |QP.Encode(s)| <= Estimate(s, 0) + 5
  {
    LinesOfClean(s);
    assert QP.FillAll([s]) == QP.Fill(s, 0);
    SizeOfJoin(QP.Fill(s, 0));
    EstimateOfLine(s, 0);
    BlankCostBounds(s, 0);
  }

  /** The estimate of a line and what follows it. */
  lemma {:induction false} EstimateAlong(h: bytes, rest: bytes, col: nat)
    requires Clean(h)
    ensures Estimate(h + rest, col) == Estimate(h, col) + Estimate(rest, EndColumn(h, col))
  {
    if h == [] {
      assert h + rest == rest;
    } else {
      var c, tail := h[0], h[1..];
      var tok := QP.Token(c, false);
      CleanTail(h);
      EstimateAlong(tail, rest, QP.Start(col, tok) + |tok|);
      EstimateOfOctet(c, tail, col);
      EstimateOfOctet(c, tail + rest, col);
      Assoc([c], tail, rest);
    }
  }

  /** The estimate of a line, the break after it and what follows. */
  lemma EstimateAcrossBreak(h: bytes, rest: bytes, col: nat)
    requires Clean(h) && StartsBreak(rest)
    ensures var end := EndColumn(h, col);
            Estimate(h + rest, col) ==
            Estimate(h, col) + BreakExcess(rest, end) + BreakWidth(rest)
            + Estimate(rest[BreakWidth(rest)..], ColumnAfter(rest, end))
  {
    EstimateAlong(h, rest, col);
    EstimateOfBreak(rest, EndColumn(h, col));
  }

  /** Soft line breaks more than there are when the line starts in the first column. */
  function LateStart(line: bytes, col: nat): int {
    |QP.Fill(line, col)| - |QP.Fill(line, 0)|
  }

  /** Starting later costs at most one soft line break more, however long the line is. */
  lemma {:induction false} LateStartBounds(line: bytes, a: nat, b: nat)
    requires a <= b <= QP.ROOM
    ensures |QP.Fill(line, a)| <= |QP.Fill(line, b)| <= |QP.Fill(line, a)| + 1
    decreases |line|
  {
    if line != [] {
      var tok := QP.Token(line[0], |line| == 1);
      var a', b' := QP.Start(a, tok) + |tok|, QP.Start(b, tok) + |tok|;
      if a' <= b' {
        LateStartBounds(line[1..], a', b');
      } else {
        LateStartBounds(line[1..], b', a');
      }
    }
  }

  /** Characters of the tokens of a line, soft line breaks apart. */
  function TokenSize(line: bytes): nat {
    if line == [] then 0 else |QP.Token(line[0], |line| == 1)| + TokenSize(line[1..])
  }

  lemma {:induction false} SizeOfFill(line: bytes, col: nat)
    ensures Size(QP.Fill(line, col)) == TokenSize(line) + 3 * (|QP.Fill(line, col)| - 1)
  {
    if line != [] {
      FillSize(line, col);
      SizeOfFill(line[1..], QP.Start(col, QP.Token(line[0], |line| == 1)) + |QP.Token(line[0], |line| == 1)|);
    }
  }

  /** The column the estimator is in after the first line and its break. */
  function NextColumn(s: bytes, col: nat): nat
    requires HasBreak(s)
  {
    ColumnAfter(BreakOf(s), EndColumn(FirstLine(s), col))
  }

  /**
   * What the estimate leaves out of a text: the cost of blanks at line ends, and the second octet of
   * the CRLF that the encoder makes of a lone CR or a lone LF.
   */
  function Shortfall(s: bytes, col: nat): nat
    decreases |s|
  {
    if HasBreak(s) then
      BlankCost(FirstLine(s), col) + (2 - BreakWidth(BreakOf(s)))
      + Shortfall(NextText(s), NextColumn(s, col))
    else BlankCost(s, col)
  }

  /**
   * What it counts too much: 3 for each CR it meets in the last column, and 3 for each line that
   * would need no soft line break if the CR before it had been taken for a line break.
   */
  function Overcount(s: bytes, col: nat): int
    decreases |s|
  {
    if HasBreak(s) then
      3 * LateStart(FirstLine(s), col) + BreakExcess(BreakOf(s), EndColumn(FirstLine(s), col))
      + Overcount(NextText(s), NextColumn(s, col))
    else 3 * LateStart(s, col)
  }

  /** What one line and its break add to the encoder's output. */
  lemma EncodedSizeStep(h: bytes, ls: seq<bytes>)
    requires ls != []
    ensures Size(QP.FillAll([h] + ls)) == Size(QP.Fill(h, 0)) + 2 + Size(QP.FillAll(ls))
  {
    assert ([h] + ls)[1..] == ls;
    SizeAppend(QP.Fill(h, 0), QP.FillAll(ls));
  }

  /** One line in column `col` against the same line in the first column. */
  lemma EstimateOfLateLine(h: bytes, col: nat)
    requires Clean(h)
    ensures Estimate(h, col) + BlankCost(h, col) == Size(QP.Fill(h, 0)) + 3 * LateStart(h, col)
  {
    EstimateOfLine(h, col);
    SizeOfFill(h, col);
    SizeOfFill(h, 0);
  }

  lemma {:induction false} EstimateFrom(s: bytes, col: nat)
    ensures Estimate(s, col) + Shortfall(s, col) == Size(QP.FillAll(Lines(s))) + Overcount(s, col)
    decreases |s|
  {
    LinesByFirst(s);
    if HasBreak(s) {
      EstimateOfLateLine(FirstLine(s), col);
      EstimateAcrossBreak(FirstLine(s), BreakOf(s), col);
      EstimateFrom(NextText(s), NextColumn(s, col));
      EncodedSizeStep(FirstLine(s), Lines(NextText(s)));
    } else {
      NoBreak(s);
      EstimateOfLateLine(s, col);
      assert QP.FillAll([s]) == QP.Fill(s, 0);
    }
  }

  lemma {:induction false} EndColumnBound(line: bytes, col: nat)
    requires col <= QP.ROOM
    ensures EndColumn(line, col) <= QP.ROOM
  {
    if line != [] {
      var tok := QP.Token(line[0], false);
      EndColumnBound(line[1..], QP.Start(col, tok) + |tok|);
    }
  }

  /** The line breaks that are not CRLF. */
  function LoneBreaks(s: bytes): nat {
    if s == [] then 0
    else if StartsCrlf(s) then LoneBreaks(s[2..])
    else LoneBreaks(s[1..]) + (if StartsBreak(s) then 1 else 0)
  }

  function CarriageReturns(s: bytes): nat {
    if s == [] then 0 else CarriageReturns(s[1..]) + (if s[0] == CR then 1 else 0)
  }

  lemma {:induction false} CountsAfterLine(h: bytes, rest: bytes)
    requires Clean(h) && StartsBreak(rest)
    ensures LoneBreaks(h + rest) == LoneBreaks(rest) && CarriageReturns(h + rest) == CarriageReturns(rest)
  {
    if h == [] {
      assert h + rest == rest;
    } else {
      assert h[0] in h;
      assert (h + rest)[1..] == h[1..] + rest;
      CountsAfterLine(h[1..], rest);
    }
  }

  lemma {:induction false} CountsOfLine(h: bytes)
    requires Clean(h)
    ensures LoneBreaks(h) == 0 && CarriageReturns(h) == 0
  {
    if h != [] {
      assert h[0] in h;
      CountsOfLine(h[1..]);
    }
  }

  lemma CountsOfBreak(s: bytes)
    requires StartsBreak(s)
    ensures LoneBreaks(s) == (2 - BreakWidth(s)) + LoneBreaks(s[BreakWidth(s)..])
    ensures CarriageReturns(s) == (if s[0] == CR then 1 else 0) + CarriageReturns(s[BreakWidth(s)..])
  {
    if StartsCrlf(s) {
      assert s[1..][0] == LF && s[1..][1..] == s[2..];
    }
  }

  /** The breaks and the CRs of a text, taken off with its first line. */
  lemma CountsOfFirst(s: bytes)
    ensures if HasBreak(s) then
              && LoneBreaks(s) == (2 - BreakWidth(BreakOf(s))) + LoneBreaks(NextText(s))
              && CarriageReturns(s) == (if BreakOf(s)[0] == CR then 1 else 0) + CarriageReturns(NextText(s))
            else LoneBreaks(s) == 0
  {
    if HasBreak(s) {
      CountsAfterLine(FirstLine(s), BreakOf(s));
      CountsOfBreak(BreakOf(s));
    } else {
      NoBreak(s);
      CountsOfLine(s);
    }
  }

  lemma LineBounds(h: bytes, col: nat)
    requires col <= QP.ROOM
    ensures 0 <= LateStart(h, col) <= (if col > 0 then 1 else 0) && EndColumn(h, col) <= QP.ROOM
  {
    LateStartBounds(h, 0, col);
    EndColumnBound(h, col);
  }

  lemma {:induction false} OvercountBounds(s: bytes, col: nat)
    requires col <= QP.ROOM
    ensures 0 <= Overcount(s, col) <= (if col > 0 then 3 else 0) + 6 * CarriageReturns(s)
    decreases |s|
  {
    LineBounds(FirstLine(s), col);
    CountsOfFirst(s);
    if HasBreak(s) {
      OvercountBounds(NextText(s), NextColumn(s, col));
    } else {
      NoBreak(s);
    }
  }

  lemma AllTidyCons(h: bytes, ls: seq<bytes>)
    ensures AllTidy([h] + ls) <==> QP.Tidy(h) && AllTidy(ls)
  {
    var all := [h] + ls;
    assert all[0] == h && all[1..] == ls;
    assert forall i :: 0 < i < |all| ==> all[i] == ls[i - 1];
    if AllTidy(all) {
      forall i | 0 <= i < |ls|
        ensures QP.Tidy(ls[i])
      {
        assert QP.Tidy(all[i + 1]);
      }
    }
  }

  lemma {:induction false} ShortfallBounds(s: bytes, col: nat)
    requires col <= QP.ROOM
    ensures LoneBreaks(s) <= Shortfall(s, col) <= LoneBreaks(s) + 5 * |Lines(s)|
    decreases |s|
  {
    LineBounds(FirstLine(s), col);
    CountsOfFirst(s);
    LinesByFirst(s);
    BlankCostBounds(FirstLine(s), col);
    if HasBreak(s) {
      ShortfallBounds(NextText(s), NextColumn(s, col));
    } else {
      NoBreak(s);
    }
  }

  /** Apart from the lone breaks only blanks at line ends are left out. */
  lemma {:induction false} ShortfallOfTidy(s: bytes, col: nat)
    requires col <= QP.ROOM
    ensures Shortfall(s, col) == LoneBreaks(s) <==> AllTidy(Lines(s))
    decreases |s|
  {
    LineBounds(FirstLine(s), col);
    CountsOfFirst(s);
    LinesByFirst(s);
    BlankCostBounds(FirstLine(s), col);
    if HasBreak(s) {
      ShortfallBounds(NextText(s), NextColumn(s, col));
      ShortfallOfTidy(NextText(s), NextColumn(s, col));
      AllTidyCons(FirstLine(s), Lines(NextText(s)));
    } else {
      NoBreak(s);
    }
  }

  /**
   * Any octets, which binary leaves are when they are encoded: the exact difference between the
   * estimate and the encoder's output length.  It is never too large without a CR, and never too small
   * where each break is a CRLF and no line ends in a blank.
   */
  lemma EstimateOnOctets(s: bytes)
    ensures Estimate(s, 0) + Shortfall(s, 0) == |QP.Encode(s)| + Overcount(s, 0)
    ensures LoneBreaks(s) <= Shortfall(s, 0) <= LoneBreaks(s) + 5 * |Lines(s)|
    ensures Shortfall(s, 0) == LoneBreaks(s) <==> AllTidy(Lines(s))
    ensures 0 <= Overcount(s, 0) <= 6 * CarriageReturns(s)
  {
    EstimateFrom(s, 0);
    SizeOfJoin(QP.FillAll(Lines(s)));
    ShortfallBounds(s, 0);
    ShortfallOfTidy(s, 0);
    OvercountBounds(s, 0);
  }

  /** The rewrite adds one octet for each lone break. */
  lemma {:induction false} SizeOfCanonical(s: bytes)
    ensures |Canonical(s)| == |s| + LoneBreaks(s)
  {
    if s != [] {
      JoinCons(s);
      SizeOfCanonical(s[if StartsCrlf(s) then 2 else 1..]);
    }
  }

  lemma {:induction false} NoCarriageReturns(s: bytes)
    requires CR !in s
    ensures CarriageReturns(s) == 0
  {
    if s != [] {
      assert s[0] in s;
      NoCarriageReturns(s[1..]);
    }
  }

  /** Text that the encoder copies is estimated at its own length if it has no CR. */
  lemma EstimateOfPlain(s: bytes)
    requires QP.Plain(s) && CR !in s
    ensures Estimate(s, 0) == |s|
  {
    EstimateOnOctets(s);
    QP.EncodeCopiesIff(s);
    SizeOfCanonical(s);
    NoCarriageReturns(s);
  }

  // ----- canonical text

  /** The lines, the last one apart, that leave the estimator in the last column. */
  function FullLines(ls: seq<bytes>): nat {
    if |ls| <= 1 then 0
    else (if EndColumn(ls[0], 0) >= 75 then 1 else 0) + FullLines(ls[1..])
  }

  function BlankCosts(ls: seq<bytes>): nat {
    if ls == [] then 0 else BlankCost(ls[0], 0) + BlankCosts(ls[1..])
  }

  lemma {:induction false} FullLinesBound(ls: seq<bytes>)
    requires ls != []
    ensures FullLines(ls) <= |ls| - 1
  {
    if |ls| > 1 {
      FullLinesBound(ls[1..]);
    }
  }

  lemma PairedTail(s: bytes)
    requires PairedBreaks(s) && HasBreak(s)
    ensures StartsCrlf(BreakOf(s)) && PairedBreaks(NextText(s))
  {
    var n, next := |FirstLine(s)|, NextText(s);
    assert s[n] == BreakOf(s)[0] && PairedAt(s, n);
    assert n > 0 ==> s[n - 1] == FirstLine(s)[n - 1] && FirstLine(s)[n - 1] in FirstLine(s);
    forall i | 0 <= i < |next|
      ensures PairedAt(next, i)
    {
      assert next[i] == s[i + n + 2] && PairedAt(s, i + n + 2);
      assert i == 0 ==> PairedAt(s, n + 1);
    }
  }

  lemma {:induction false} PairedHasNoLoneBreak(s: bytes)
    requires PairedBreaks(s)
    ensures LoneBreaks(s) == 0
  {
    CanonicalIffPaired(s);
    SizeOfCanonical(s);
  }

  lemma CostsOfLine(h: bytes, ls: seq<bytes>)
    requires ls != []
    ensures BlankCosts([h] + ls) == BlankCost(h, 0) + BlankCosts(ls)
    ensures FullLines([h] + ls) == (if EndColumn(h, 0) >= 75 then 1 else 0) + FullLines(ls)
  {
    assert ([h] + ls)[1..] == ls;
  }

  /** With paired breaks every line starts in the first column. */
  lemma {:induction false} PairedDeviation(s: bytes)
    requires PairedBreaks(s)
    ensures Shortfall(s, 0) == BlankCosts(Lines(s)) && Overcount(s, 0) == 3 * FullLines(Lines(s))
    decreases |s|
  {
    LinesByFirst(s);
    if HasBreak(s) {
      PairedTail(s);
      PairedDeviation(NextText(s));
      CostsOfLine(FirstLine(s), Lines(NextText(s)));
    } else {
      assert [s][1..] == [];
    }
  }

  /**
   * Canonical text, which every text leaf is when it is encoded: the estimate is the encoder's
   * output length, plus 3 for each line that ends in the last column, less the cost of blanks at
   * line ends.  Without such blanks it is never too small, and too large by at most 3 for each CRLF.
   */
  lemma EstimateOnCanonicalText(s: bytes)
    requires PairedBreaks(s)
    ensures Estimate(s, 0) + BlankCosts(Lines(s)) == |QP.Encode(s)| + 3 * FullLines(Lines(s))
    ensures FullLines(Lines(s)) <= |Lines(s)| - 1
    ensures AllTidy(Lines(s)) ==> |QP.Encode(s)| <= Estimate(s, 0) <= |QP.Encode(s)| + 3 * (|Lines(s)| - 1)
  {
    EstimateOnOctets(s);
    PairedHasNoLoneBreak(s);
    PairedDeviation(s);
    FullLinesBound(Lines(s));
  }
}
