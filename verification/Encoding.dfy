/** The choice of a transfer encoding for a leaf: pkg/mailer/encoding.go. */
module Encoding {
  import opened Bytes
  import opened LineEndings
  import opened Acceptance
  import opened TransferDecoding
  import opened SizeEstimate
  import Base64
  import QP = QuotedPrintable
  import Utf8

  datatype Encoded = Encoded(content: bytes, cte: string)

  // ----- the choice

  function Base64RawLength(n: nat): nat {
    4 * ((n + 2) / 3)
  }

  function Base64Estimate(n: nat): nat {
    Base64RawLength(n) + (1 + Base64RawLength(n) / 76)
  }

  function Base64Text(b: bytes): bytes {
    Base64.Wrap(Base64.Encode(b))
  }

  /** The leaf as it is written, and the encoding it names. */
  function Encode(has8Bit: bool, b: bytes): Encoded {
    if Is7Bit(b) then Encoded(b, "7bit")
    else if Is8Bit(b) && has8Bit then Encoded(b, "8bit")
    else if Estimate(b, 0) <= Base64Estimate(|b|) then Encoded(QP.Encode(b), "quoted-printable")
    else Encoded(Base64Text(b), "base64")
  }

  method EncodeBytes(has8BitMimeSupport: bool, b: bytes) returns (content: bytes, cte: string)
    ensures Encoded(content, cte) == Encode(has8BitMimeSupport, b)
    ensures cte == "quoted-printable" ==> forall l :: l in Lines(content) ==> QP.WellFormed(l) && |l| <= 76
    ensures cte == "base64" ==> forall l :: l in Lines(content) ==> Base64.WellFormed(l) && |l| <= 76
  {
    var isAcceptable7Bit, isAcceptable8Bit := IsAcceptable7or8Bit(b);
    if isAcceptable7Bit {
      return b, "7bit";
    }
    if isAcceptable8Bit && has8BitMimeSupport {
      return b, "8bit";
    }
    var estimateQuotedPrintableSize := EstimateQuotedPrintableSize(b);
    var estimateBase64Raw := 4 * ((|b| + 2) / 3);
    var estimateBase64NewLines := 1 + estimateBase64Raw / 76;
    var estimateBase64 := estimateBase64Raw + estimateBase64NewLines;
    if estimateQuotedPrintableSize <= estimateBase64 {
      QP.EncodeIsWellFormed(b);
      return QP.Encode(b), "quoted-printable";
    }
    Base64.EncodeIsWellFormed(b);
    Base64.WrapIsWellFormed(Base64.Encode(b));
    content := Base64.WrapLines(Base64.Encode(b));
    cte := "base64";
  }

  // ----- what the choice guarantees

  lemma LastLine(raw: nat)
    requires raw > 0
    ensures raw / 76 - (raw - 1) / 76 == if raw % 76 == 0 then 1 else 0
  {
  }

  /** The base64 estimate is 1 too large, or 2 where the text fills its last line. */
  lemma Base64EstimateSlack(b: bytes)
    ensures Base64Estimate(|b|) - |Base64Text(b)| ==
            if b != [] && Base64RawLength(|b|) % 76 == 0 then 2 else 1
  {
    Base64.EncodeIsPrintable(b);
    Base64.WrapShape(Base64.Encode(b));
    var raw := Base64RawLength(|b|);
    assert |Base64.Encode(b)| == raw;
    if b != [] {
      assert raw > 0;
      LastLine(raw);
    }
  }

  /**
   * Where the quoted-printable estimate is exact, the output is bounded and nearly the shorter of
   * the two encodings.
   */
  lemma ChoiceIsNearMinimal(has8Bit: bool, b: bytes)
    requires Estimate(b, 0) == |QP.Encode(b)|
    ensures |Encode(has8Bit, b).content| <= Base64RawLength(|b|) + Base64RawLength(|b|) / 76 + 1
    ensures Encode(has8Bit, b).cte == "quoted-printable" ==>
              |Encode(has8Bit, b).content| <= |Base64Text(b)| + 2
    ensures Encode(has8Bit, b).cte == "base64" ==>
              |Encode(has8Bit, b).content| < |QP.Encode(b)|
  {
    Base64EstimateSlack(b);
  }

  /** The same on any octets, with the exact error of the estimate; a tie goes to quoted-printable. */
  lemma ChoiceOnOctets(has8Bit: bool, b: bytes)
    ensures var slack := if b != [] && Base64RawLength(|b|) % 76 == 0 then 2 else 1;
            !Is7Bit(b) && !(Is8Bit(b) && has8Bit) ==>
              Encode(has8Bit, b).cte ==
              if |QP.Encode(b)| + Overcount(b, 0) <= |Base64Text(b)| + slack + Shortfall(b, 0) then "quoted-printable"
              else "base64"
    ensures Encode(has8Bit, b).cte == "quoted-printable" ==>
              |QP.Encode(b)| + Overcount(b, 0) <= |Base64Text(b)| + 2 + Shortfall(b, 0)
    ensures Encode(has8Bit, b).cte == "base64" ==>
              |Base64Text(b)| + Shortfall(b, 0) < |QP.Encode(b)| + Overcount(b, 0)
  {
    Base64EstimateSlack(b);
    EstimateOnOctets(b);
  }

  /** On canonical text full lines and blanks at line ends make the difference. */
  lemma ChoiceOnCanonicalText(has8Bit: bool, b: bytes)
    requires PairedBreaks(b)
    ensures Encode(has8Bit, b).cte == "quoted-printable" ==>
              |QP.Encode(b)| <= |Base64Text(b)| + 2 + BlankCosts(Lines(b))
    ensures Encode(has8Bit, b).cte == "base64" ==>
              |Base64Text(b)| < |QP.Encode(b)| + 3 * FullLines(Lines(b))
  {
    ChoiceOnOctets(has8Bit, b);
    PairedDeviation(b);
  }

  /**
   * Decoding the output by the encoding it names, after the whole message had its line endings
   * rewritten, gives the input exactly for base64 and its canonical form otherwise.
   */
  lemma LeafRoundTrip(has8Bit: bool, b: bytes)
    ensures var e := Encode(has8Bit, b);
            DecodeTransferEncoding(e.cte, Canonical(e.content)) ==
            Some(if e.cte == "base64" then b else Canonical(b))
  {
    NormalizeNames();
    Base64.WrappedRoundTrip(b);
    QP.EncodeShape(b);
    QP.RoundTrip(b);
  }

  /** The longest line the named encoding may have on the wire. */
  function LineLimit(cte: string): nat {
    if cte == "7bit" || cte == "8bit" then 998 else 76
  }

  predicate TransportSafe(s: bytes, width: nat, ascii: bool) {
    Within(Lines(Canonical(s)), width) && (ascii ==> Ascii(Canonical(s)))
  }

  lemma Base64IsSafe(b: bytes)
    ensures TransportSafe(Base64Text(b), 76, true)
  {
    Base64.EncodeIsPrintable(b);
    Base64.WrapShape(Base64.Encode(b));
    LinesOfCanonical(Base64Text(b));
    CanonicalOctets(Base64Text(b));
  }

  /** What goes as base64 never looks the same encoded, not even once its line endings are rewritten. */
  lemma Base64DiffersFromInput(has8Bit: bool, b: bytes)
    requires Encode(has8Bit, b).cte == "base64"
    ensures Canonical(Base64Text(b)) != b
  {
    var wire := Canonical(Base64Text(b));
    Base64IsSafe(b);
    Base64.EncodeIsPrintable(b);
    Base64.WrapShape(Base64.Encode(b));
    CanonicalOctets(Base64Text(b));
    CanonicalIsPaired(Base64Text(b));
    ChunksOfPaired(wire);
    CanonicalIsIdempotent(Base64Text(b));
    assert Is7Bit(wire);
  }

  lemma IdentityIsSafe(b: bytes)
    requires Within(Chunks(b), MAX_LINE)
    ensures TransportSafe(b, 998, Ascii(b))
  {
    LinesWithinChunks(b, MAX_LINE);
    LinesOfCanonical(b);
    CanonicalOctets(b);
  }

  /** A text is ASCII if its lines are. */
  lemma {:induction false} AsciiLines(s: bytes)
    requires forall i :: 0 <= i < |Lines(s)| ==> Ascii(Lines(s)[i])
    ensures Ascii(s)
  {
    if s != [] {
      var t := s[if StartsCrlf(s) then 2 else 1..];
      var ls := Lines(t);
      forall i | 0 <= i < |ls|
        ensures Ascii(ls[i])
      {
        if StartsCrlf(s) || s[0] == CR || s[0] == LF {
          assert Lines(s)[i + 1] == ls[i];
        } else if i == 0 {
          var first := Lines(s)[0];
          assert first == [s[0]] + ls[0];
          assert forall k :: 0 <= k < |ls[0]| ==> ls[0][k] == first[k + 1];
        } else {
          assert Lines(s)[i] == ls[i];
        }
      }
      AsciiLines(t);
      assert s[0] < 128 by {
        if !StartsCrlf(s) && s[0] != CR && s[0] != LF {
          assert Lines(s)[0][0] == s[0];
        }
      }
      assert s == s[..|s| - |t|] + t;
    }
  }

  lemma QuotedPrintableIsSafe(b: bytes)
    ensures TransportSafe(QP.Encode(b), 76, true)
  {
    QP.EncodeShape(b);
    var ls := Lines(QP.Encode(b));
    forall i | 0 <= i < |ls|
      ensures Ascii(ls[i]) && |ls[i]| <= 76
    {
      assert ls[i] in ls;
    }
    AsciiLines(QP.Encode(b));
  }

  /** After the rewrite every line fits, and without 8bit support every octet is ASCII. */
  lemma LeafIsTransportSafe(has8Bit: bool, b: bytes)
    ensures var e := Encode(has8Bit, b); TransportSafe(e.content, LineLimit(e.cte), !has8Bit)
    ensures Encode(has8Bit, b).cte == "8bit" ==> has8Bit
  {
    if Is7Bit(b) || (Is8Bit(b) && has8Bit) {
      IdentityIsSafe(b);
    } else {
      QuotedPrintableIsSafe(b);
      Base64IsSafe(b);
    }
  }

  /**
   * When each encoding is chosen, in terms of octets and lengths: what is printable ASCII, or UTF-8
   * where that may be sent, and has no line of more than 998 octets between two CRLFs goes as it is.
   */
  lemma ChoiceIff(has8Bit: bool, b: bytes)
    ensures var printable := forall i :: 0 <= i < |b| ==> (b[i] >= 0x20 && b[i] != 0x7F) || b[i] in {0x09, 0x0A, 0x0D};
            var fits := printable && forall i :: 0 <= i < |Chunks(b)| ==> |Chunks(b)[i]| <= 998;
            var ascii := forall i :: 0 <= i < |b| ==> b[i] <= 0x7F;
            var e := Encode(has8Bit, b);
            && (e.cte == "7bit" <==> fits && ascii)
            && (e.cte == "8bit" <==> fits && !ascii && Utf8.Valid(b) && has8Bit)
            && (e.cte == "7bit" || e.cte == "8bit" ==> e.content == b)
  {
    assert forall i :: 0 <= i < |b| ==>
                         (BadControl(b[i]) <==> !((b[i] >= 0x20 && b[i] != 0x7F) || b[i] in {0x09, 0x0A, 0x0D}));
  }
}
