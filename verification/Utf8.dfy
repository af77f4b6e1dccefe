/** Well-formed UTF-8 as section 4 of RFC 3629 defines it: what Go's `utf8.Valid` and `range` over a string see. */
module Utf8 {
  import opened Bytes

  /** A decoded code point and the number of octets it takes. */
  datatype Rune = Rune(code: nat, width: nat)

  /** The payload of an octet whose marker is `mark`. */
  function Bits(c: int, mark: int): int {
    c - mark
  }

  predicate Tail(s: bytes, i: nat) {
    i < |s| && 0x80 <= s[i] <= 0xBF
  }

  /** The first code point of `s`, if `s` starts with a well-formed one. */
  function First(s: bytes): (r: Option<Rune>)
    ensures r.Some? ==> 1 <= r.value.width <= |s|
    ensures r.Some? ==> (r.value.code < 128 <==> s[0] < 128)
    ensures r.Some? && r.value.code < 128 ==> r.value == Rune(s[0], 1)
    ensures r.Some? && r.value.code >= 128 ==> forall k :: 0 <= k < r.value.width ==> s[k] >= 128
    ensures s != [] && s[0] < 128 ==> r.Some?
  {
    if s == [] then None
    else if s[0] < 0x80 then Some(Rune(s[0], 1))
    else if 0xC2 <= s[0] <= 0xDF && Tail(s, 1) then
      Some(Rune(Bits(s[0], 0xC0) * 0x40 + Bits(s[1], 0x80), 2))
    else if 0xE0 <= s[0] <= 0xEF && Tail(s, 1) && Tail(s, 2)
            && (s[0] == 0xE0 ==> 0xA0 <= s[1]) && (s[0] == 0xED ==> s[1] <= 0x9F) then
      Some(Rune(Bits(s[0], 0xE0) * 0x1000 + Bits(s[1], 0x80) * 0x40 + Bits(s[2], 0x80), 3))
    else if 0xF0 <= s[0] <= 0xF4 && Tail(s, 1) && Tail(s, 2) && Tail(s, 3)
            && (s[0] == 0xF0 ==> 0x90 <= s[1]) && (s[0] == 0xF4 ==> s[1] <= 0x8F) then
      Some(Rune(Bits(s[0], 0xF0) * 0x40000 + Bits(s[1], 0x80) * 0x1000 + Bits(s[2], 0x80) * 0x40 + Bits(s[3], 0x80), 4))
    else None
  }

  predicate Valid(s: bytes) {
    s == [] || (First(s).Some? && Valid(s[First(s).value.width..]))
  }

  lemma {:induction false} AsciiIsValid(s: bytes)
    requires Ascii(s)
    ensures Valid(s)
  {
    if s != [] {
      AsciiIsValid(s[1..]);
    }
  }

  // ----- the other way round: section 3 of RFC 3629

  /** Code points that may be encoded: no surrogates, and none above 0x10FFFF. */
  predicate Scalar(c: nat) {
    c <= 0x10FFFF && !(0xD800 <= c <= 0xDFFF)
  }

  /** The shortest form of a code point, which is the only one. */
  function EncodeRune(c: nat): (r: bytes)
    requires Scalar(c)
    ensures 1 <= |r| <= 4
  {
    if c < 0x80 then [c]
    else if c < 0x800 then [0xC0 + c / 0x40, 0x80 + c % 0x40]
    else if c < 0x10000 then [0xE0 + c / 0x1000, 0x80 + c / 0x40 % 0x40, 0x80 + c % 0x40]
    else [0xF0 + c / 0x40000, 0x80 + c / 0x1000 % 0x40, 0x80 + c / 0x40 % 0x40, 0x80 + c % 0x40]
  }

  predicate AllScalar(cs: seq<nat>) {
    forall i :: 0 <= i < |cs| ==> Scalar(cs[i])
  }

  function EncodeRunes(cs: seq<nat>): bytes
    requires AllScalar(cs)
  {
    if cs == [] then [] else EncodeRune(cs[0]) + EncodeRunes(cs[1..])
  }

  lemma Digits64(c: nat)
    ensures c == c / 0x40 * 0x40 + c % 0x40
    ensures c / 0x40 == c / 0x1000 * 0x40 + c / 0x40 % 0x40
    ensures c / 0x1000 == c / 0x40000 * 0x40 + c / 0x1000 % 0x40
  {
  }

  lemma FirstOfEncoded(c: nat, rest: bytes)
    requires Scalar(c)
    ensures First(EncodeRune(c) + rest) == Some(Rune(c, |EncodeRune(c)|))
  {
    Digits64(c);
    var s := EncodeRune(c) + rest;
    assert forall i :: 0 <= i < |EncodeRune(c)| ==> s[i] == EncodeRune(c)[i];
  }

  lemma Split64(x: nat, y: nat)
    requires y < 0x40
    ensures (x * 0x40 + y) / 0x40 == x && (x * 0x40 + y) % 0x40 == y
  {
  }

  lemma TwoOctets(x: nat, y: nat)
    requires 2 <= x < 0x20 && y < 0x40
    ensures Scalar(x * 0x40 + y) && EncodeRune(x * 0x40 + y) == [0xC0 + x, 0x80 + y]
  {
    Split64(x, y);
  }

  lemma ThreeOctets(x: nat, y: nat, z: nat)
    requires x < 0x10 && y < 0x40 && z < 0x40 && (x == 0 ==> y >= 0x20) && (x == 0xD ==> y < 0x20)
    ensures var c := x * 0x1000 + y * 0x40 + z; Scalar(c) && EncodeRune(c) == [0xE0 + x, 0x80 + y, 0x80 + z]
  {
    var c := x * 0x1000 + y * 0x40 + z;
    Split64(x * 0x40 + y, z);
    Split64(x, y);
    Digits64(c);
  }

  lemma FourOctets(w: nat, x: nat, y: nat, z: nat)
    requires w <= 4 && x < 0x40 && y < 0x40 && z < 0x40 && (w == 0 ==> x >= 0x10) && (w == 4 ==> x < 0x10)
    ensures var c := w * 0x40000 + x * 0x1000 + y * 0x40 + z;
            Scalar(c) && EncodeRune(c) == [0xF0 + w, 0x80 + x, 0x80 + y, 0x80 + z]
  {
    var c := w * 0x40000 + x * 0x1000 + y * 0x40 + z;
    Split64(w * 0x1000 + x * 0x40 + y, z);
    Split64(w * 0x40 + x, y);
    Split64(w, x);
    Digits64(c);
  }

  lemma Front(s: bytes)
    ensures |s| >= 1 ==> s[..1] == [s[0]]
    ensures |s| >= 2 ==> s[..2] == [s[0], s[1]]
    ensures |s| >= 3 ==> s[..3] == [s[0], s[1], s[2]]
    ensures |s| >= 4 ==> s[..4] == [s[0], s[1], s[2], s[3]]
  {
  }

  lemma FirstIsEncoded(s: bytes)
    requires First(s).Some?
    ensures var r := First(s).value; Scalar(r.code) && EncodeRune(r.code) == s[..r.width]
  {
    var w := First(s).value.width;
    Front(s);
    if w == 2 {
      TwoOctets(s[0] - 0xC0, s[1] - 0x80);
    } else if w == 3 {
      ThreeOctets(s[0] - 0xE0, s[1] - 0x80, s[2] - 0x80);
    } else if w == 4 {
      FourOctets(s[0] - 0xF0, s[1] - 0x80, s[2] - 0x80, s[3] - 0x80);
    }
  }

  lemma EncodeCons(c: nat, cs: seq<nat>)
    requires Scalar(c) && AllScalar(cs)
    ensures AllScalar([c] + cs) && EncodeRunes([c] + cs) == EncodeRune(c) + EncodeRunes(cs)
  {
    assert ([c] + cs)[1..] == cs;
  }

  /** Exactly the encodings of sequences of code points are well-formed. */
  lemma {:induction false} EncodedIsValid(cs: seq<nat>)
    requires AllScalar(cs)
    ensures Valid(EncodeRunes(cs))
  {
    if cs != [] {
      EncodedIsValid(cs[1..]);
      FirstOfEncoded(cs[0], EncodeRunes(cs[1..]));
    }
  }

  lemma PrependEncoded(c: nat, w: nat, s: bytes, cs: seq<nat>)
    requires Scalar(c) && AllScalar(cs) && w <= |s|
    requires EncodeRune(c) == s[..w] && EncodeRunes(cs) == s[w..]
    ensures AllScalar([c] + cs) && EncodeRunes([c] + cs) == s
  {
    EncodeCons(c, cs);
    assert s == s[..w] + s[w..];
  }

  lemma {:induction false} ValidIsEncoded(s: bytes) returns (cs: seq<nat>)
    requires Valid(s)
    ensures AllScalar(cs) && EncodeRunes(cs) == s
  {
    if s == [] {
      cs := [];
    } else {
      var r := First(s).value;
      var rest := ValidIsEncoded(s[r.width..]);
      FirstIsEncoded(s);
      PrependEncoded(r.code, r.width, s, rest);
      cs := [r.code] + rest;
    }
  }
}
