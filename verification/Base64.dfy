/**
 * Base64: the alphabet and padding of section 4 of RFC 4648, in lines of at most 76 characters as
 * section 6.8 of RFC 2045 asks.  The wrapping loop is pkg/mailer/encoding.go:117-127.
 */
module Base64 {
  import opened Bytes
  import opened LineEndings

  type sextet = v: int | 0 <= v < 64

  const WIDTH := 76

  function Value(c: int): Option<sextet> {
    if 65 <= c <= 90 then Some(c - 65)
    else if 97 <= c <= 122 then Some(c - 71)
    else if 48 <= c <= 57 then Some(c + 4)
    else if c == 0x2B then Some(62)
    else if c == 0x2F then Some(63)
    else None
  }

  function ToChar(v: sextet): (c: byte)
    ensures Value(c) == Some(v)
    ensures 0x2B <= c <= 0x7A && c != EQUALS
  {
    if v < 26 then 65 + v
    else if v < 52 then 71 + v
    else if v < 62 then v - 4
    else if v == 62 then 0x2B
    else 0x2F
  }

  function EncodeQuantum(a: byte, b: byte, c: byte): (r: bytes)
    ensures |r| == 4
  {
    [ToChar(a / 4), ToChar(a % 4 * 16 + b / 16), ToChar(b % 16 * 4 + c / 64), ToChar(c % 64)]
  }

  function Encode(s: bytes): (r: bytes)
    ensures |r| == 4 * ((|s| + 2) / 3)
  {
    if s == [] then []
    else if |s| == 1 then [ToChar(s[0] / 4), ToChar(s[0] % 4 * 16), EQUALS, EQUALS]
    else if |s| == 2 then [ToChar(s[0] / 4), ToChar(s[0] % 4 * 16 + s[1] / 16), ToChar(s[1] % 16 * 4), EQUALS]
    else EncodeQuantum(s[0], s[1], s[2]) + Encode(s[3..])
  }

  function Octets(v: sextet, w: sextet, x: sextet, y: sextet): (r: bytes)
    ensures |r| == 3
  {
    [v * 4 + w / 16, w % 16 * 16 + x / 4, x % 4 * 64 + y]
  }

  /** Decodes text without line breaks; padding may only end it. */
  function DecodeQuanta(s: bytes): Option<bytes> {
    if s == [] then Some([])
    else if |s| < 4 then None
    else
      var v, w, x, y := Value(s[0]), Value(s[1]), Value(s[2]), Value(s[3]);
      if v.None? || w.None? then None
      else if |s| == 4 && s[2] == EQUALS && s[3] == EQUALS then
        Some([v.value * 4 + w.value / 16])
      else if x.None? then None
      else if |s| == 4 && s[3] == EQUALS then
        Some([v.value * 4 + w.value / 16, w.value % 16 * 16 + x.value / 4])
      else if y.None? then None
      else
        match DecodeQuanta(s[4..])
        case Some(rest) => Some(Octets(v.value, w.value, x.value, y.value) + rest)
        case None => None
  }

  /** The decoder drops CR and LF before anything else. */
  function Unwrap(s: bytes): bytes {
    if s == [] then []
    else if s[0] == CR || s[0] == LF then Unwrap(s[1..])
    else [s[0]] + Unwrap(s[1..])
  }

  function Decode(s: bytes): Option<bytes> {
    DecodeQuanta(Unwrap(s))
  }

  /** `enc` cut into lines of 76 characters, joined by LF. */
  function Wrap(enc: bytes): bytes {
    if |enc| <= WIDTH then enc else enc[..WIDTH] + [LF] + Wrap(enc[WIDTH..])
  }

  method WrapLines(enc: bytes) returns (r: bytes)
    ensures r == Wrap(enc)
  {
    r := [];
    var rest := enc;
    while |rest| > WIDTH
      invariant r + Wrap(rest) == Wrap(enc)
    {
      r := r + rest[..WIDTH] + [LF];
      rest := rest[WIDTH..];
    }
    r := r + rest;
  }

  lemma QuantumInverts(a: byte, b: byte, c: byte)
    ensures Octets(a / 4, a % 4 * 16 + b / 16, b % 16 * 4 + c / 64, c % 64) == [a, b, c]
  {
    assert (a % 4 * 16 + b / 16) / 16 == a % 4;
    assert (a % 4 * 16 + b / 16) % 16 == b / 16;
    assert (b % 16 * 4 + c / 64) / 4 == b % 16;
    assert (b % 16 * 4 + c / 64) % 4 == c / 64;
  }

  lemma DecodeFour(v: sextet, w: sextet, x: sextet, y: sextet, rest: bytes)
    requires DecodeQuanta(rest).Some?
    ensures DecodeQuanta([ToChar(v), ToChar(w), ToChar(x), ToChar(y)] + rest) ==
            Some(Octets(v, w, x, y) + DecodeQuanta(rest).value)
  {
    var s := [ToChar(v), ToChar(w), ToChar(x), ToChar(y)] + rest;
    assert s[0] == ToChar(v) && s[1] == ToChar(w) && s[2] == ToChar(x) && s[3] == ToChar(y);
    assert s[4..] == rest;
  }

  lemma DecodeQuantum(a: byte, b: byte, c: byte, rest: bytes)
    requires DecodeQuanta(rest).Some?
    ensures DecodeQuanta(EncodeQuantum(a, b, c) + rest) == Some([a, b, c] + DecodeQuanta(rest).value)
  {
    QuantumInverts(a, b, c);
    DecodeFour(a / 4, a % 4 * 16 + b / 16, b % 16 * 4 + c / 64, c % 64, rest);
  }

  lemma DecodeTwo(v: sextet, w: sextet)
    ensures DecodeQuanta([ToChar(v), ToChar(w), EQUALS, EQUALS]) == Some([v * 4 + w / 16])
  {
  }

  lemma DecodeThree(v: sextet, w: sextet, x: sextet)
    ensures DecodeQuanta([ToChar(v), ToChar(w), ToChar(x), EQUALS]) ==
            Some([v * 4 + w / 16, w % 16 * 16 + x / 4])
  {
  }

  lemma DecodePadded(a: byte, b: byte)
    ensures DecodeQuanta(Encode([a])) == Some([a])
    ensures DecodeQuanta(Encode([a, b])) == Some([a, b])
  {
    QuantumInverts(a, b, 0);
    DecodeTwo(a / 4, a % 4 * 16);
    DecodeThree(a / 4, a % 4 * 16 + b / 16, b % 16 * 4);
  }

  lemma SplitHead(s: bytes)
    ensures |s| == 1 ==> s == [s[0]]
    ensures |s| == 2 ==> s == [s[0], s[1]]
    ensures |s| >= 3 ==> s == [s[0], s[1], s[2]] + s[3..]
  {
  }

  lemma {:induction false} DecodeInvertsEncode(s: bytes)
    ensures DecodeQuanta(Encode(s)) == Some(s)
  {
    if s == [] {
    } else if |s| < 3 {
      DecodePadded(s[0], s[|s| - 1]);
      SplitHead(s);
    } else {
      DecodeInvertsEncode(s[3..]);
      DecodeQuantum(s[0], s[1], s[2], Encode(s[3..]));
      SplitHead(s);
    }
  }

  /** Printable and free of line breaks. */
  predicate Printable(s: bytes) {
    forall i :: 0 <= i < |s| ==> 0x2B <= s[i] <= 0x7A
  }

  lemma {:induction false} EncodeIsPrintable(s: bytes)
    ensures Printable(Encode(s))
  {
    if |s| >= 3 {
      EncodeIsPrintable(s[3..]);
    }
  }

  lemma {:induction false} UnwrapAppend(a: bytes, b: bytes)
    ensures Unwrap(a + b) == Unwrap(a) + Unwrap(b)
  {
    if a == [] {
      assert a + b == b;
    } else {
      UnwrapAppend(a[1..], b);
      assert (a + b)[1..] == a[1..] + b;
      Assoc([a[0]], Unwrap(a[1..]), Unwrap(b));

    }
  }

  lemma {:induction false} UnwrapPrintable(s: bytes)
    requires Printable(s)
    ensures Unwrap(s) == s
  {
    if s != [] {
      UnwrapPrintable(s[1..]);
    }
  }

  /** Removing the line breaks gives the base64 text back. */
  lemma {:induction false} UnwrapInvertsWrap(enc: bytes)
    requires Printable(enc)
    ensures Unwrap(Wrap(enc)) == enc
  {
    if |enc| <= WIDTH {
      UnwrapPrintable(enc);
    } else {
      UnwrapPrintable(enc[..WIDTH]);
      UnwrapInvertsWrap(enc[WIDTH..]);
      UnwrapAppend(enc[..WIDTH] + [LF], Wrap(enc[WIDTH..]));
      UnwrapAppend(enc[..WIDTH], [LF]);
    }
  }

  lemma {:induction false} UnwrapIgnoresRewrite(s: bytes)
    ensures Unwrap(Canonical(s)) == Unwrap(s)
  {
    if s != [] {
      JoinCons(s);
      var n := if StartsCrlf(s) then 2 else 1;
      UnwrapIgnoresRewrite(s[n..]);
      var head: bytes := if s[0] == CR || s[0] == LF then CRLF else [s[0]];
      UnwrapAppend(head, Canonical(s[n..]));
      UnwrapAppend(s[..n], s[n..]);
      assert s == s[..n] + s[n..];
      assert Canonical(s) == head + Canonical(s[n..]);
    }
  }

  /** Wrapped lines of 76, one LF for each full line that is not the last. */
  lemma {:induction false} WrapShape(enc: bytes)
    requires Printable(enc)
    ensures |Wrap(enc)| == |enc| + (if enc == [] then 0 else (|enc| - 1) / WIDTH)
    ensures forall i :: 0 <= i < |Lines(Wrap(enc))| ==> |Lines(Wrap(enc))[i]| <= WIDTH
    ensures forall i :: 0 <= i < |Wrap(enc)| ==> Wrap(enc)[i] == LF || 0x2B <= Wrap(enc)[i] <= 0x7A
  {
    if |enc| <= WIDTH {
      LinesOfClean(enc);
    } else {
      WrapShape(enc[WIDTH..]);
      LinesOfClean(enc[..WIDTH]);
      LinesAcrossLf(enc[..WIDTH], Wrap(enc[WIDTH..]));
    }
  }

  /** The characters of table 1 of RFC 4648, and the padding. */
  predicate WellFormed(s: bytes) {
    forall i :: 0 <= i < |s| ==>
      || 0x41 <= s[i] <= 0x5A || 0x61 <= s[i] <= 0x7A || 0x30 <= s[i] <= 0x39
      || s[i] == 0x2B || s[i] == 0x2F || s[i] == 0x3D
  }

  lemma {:induction false} EncodeIsWellFormed(s: bytes)
    ensures WellFormed(Encode(s))
  {
    if |s| >= 3 {
      EncodeIsWellFormed(s[3..]);
    }
  }

  lemma {:induction false} WrapIsWellFormed(enc: bytes)
    requires WellFormed(enc)
    ensures forall l :: l in Lines(Wrap(enc)) ==> WellFormed(l) && |l| <= WIDTH
  {
    if |enc| <= WIDTH {
      LinesOfClean(enc);
    } else {
      WrapIsWellFormed(enc[WIDTH..]);
      LinesOfClean(enc[..WIDTH]);
      LinesAcrossLf(enc[..WIDTH], Wrap(enc[WIDTH..]));
    }
  }

  /** The order of that table: upper case, lower case, digits, plus and slash. */
  lemma AlphabetIsStandard(v: sextet)
    ensures ToChar(0) == 'A' as int && ToChar(25) == 'Z' as int
    ensures ToChar(26) == 'a' as int && ToChar(51) == 'z' as int
    ensures ToChar(52) == '0' as int && ToChar(61) == '9' as int
    ensures ToChar(62) == '+' as int && ToChar(63) == '/' as int
    ensures v !in {25, 51, 61, 62, 63} ==> ToChar(v + 1) == ToChar(v) + 1
  {
  }

  /** The value of a character, padding counted as zero. */
  function SextetAt(enc: bytes, i: nat): int
    requires i < |enc|
  {
    Value(enc[i]).UnwrapOr(0)
  }

  function OctetAt(s: bytes, i: nat): byte {
    if i < |s| then s[i] else 0
  }

  /**
   * Four characters are the number that the first three octets make, the first one highest; padding
   * stands for the octets that are missing.
   */
  predicate StandsFor(q: bytes, s: bytes)
    requires |q| == 4
  {
    && SextetAt(q, 0) * 0x40000 + SextetAt(q, 1) * 0x1000 + SextetAt(q, 2) * 0x40 + SextetAt(q, 3) ==
       OctetAt(s, 0) * 0x10000 + OctetAt(s, 1) * 0x100 + OctetAt(s, 2)
    && (q[2] == 0x3D <==> |s| < 2) && (q[3] == 0x3D <==> |s| < 3)
  }

  lemma GroupIsNumber(a: byte, b: byte, c: byte)
    ensures a / 4 * 0x40000 + (a % 4 * 16 + b / 16) * 0x1000 + (b % 16 * 4 + c / 64) * 0x40 + c % 64 ==
            a * 0x10000 + b * 0x100 + c
  {
  }

  lemma FirstGroup(s: bytes)
    requires s != []
    ensures StandsFor(Encode(s)[..4], s)
  {
    GroupIsNumber(s[0], OctetAt(s, 1), OctetAt(s, 2));
  }

  /** The octets after the first three. */
  function Later(s: bytes): (r: bytes)
    ensures s != [] ==> |r| < |s|
  {
    if |s| <= 3 then [] else s[3..]
  }

  /** The text is made of such groups, one for each three octets begun. */
  predicate MadeOfGroups(enc: bytes, s: bytes)
    decreases |s|
  {
    if s == [] then enc == []
    else |enc| >= 4 && StandsFor(enc[..4], s) && MadeOfGroups(enc[4..], Later(s))
  }

  lemma LaterGroups(s: bytes)
    requires s != []
    ensures |Encode(s)| >= 4 && Encode(s)[4..] == Encode(Later(s))
  {
    if |s| > 3 {
      assert (EncodeQuantum(s[0], s[1], s[2]) + Encode(s[3..]))[4..] == Encode(s[3..]);
    } else if |s| == 3 {
      assert s[3..] == [];
    }
  }

  lemma {:induction false} GroupsAreNumbers(s: bytes)
    ensures MadeOfGroups(Encode(s), s)
    decreases |s|
  {
    if s != [] {
      FirstGroup(s);
      LaterGroups(s);
      GroupsAreNumbers(Later(s));
    }
  }

  /** A leaf sent as base64 is read back exactly, also after the message-wide rewrite. */
  lemma WrappedRoundTrip(s: bytes)
    ensures Decode(Canonical(Wrap(Encode(s)))) == Some(s)
  {
    EncodeIsPrintable(s);
    UnwrapIgnoresRewrite(Wrap(Encode(s)));
    UnwrapInvertsWrap(Encode(s));
    DecodeInvertsEncode(s);
  }
}
