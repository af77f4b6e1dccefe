/**
 * The header fields of a message as lines, and the two of them that decide how its body is read:
 * `Header.Get` of Mime-Version and Content-Transfer-Encoding (pkg/smtpserver/server.go:343, :387)
 * against what pkg/mailer/imf.go:34-53 writes.
 */
module HeaderFields {
  import opened Bytes
  import opened LineEndings
  import opened MailTypes
  import opened PartPrinter
  import opened PartParser
  import opened TransferDecoding
  import opened InternetMessage
  import QP = QuotedPrintable

  // ----- header fields on the wire

  /** A header field: possibly folded, but with no blank line in it. */
  predicate FieldSurvives(f: HeaderField) {
    var field := FieldOctets(f);
    !EndsInCr(field) && forall i :: 0 <= i < |Lines(field)| ==> Lines(field)[i] != []
  }

  predicate FieldsSurvive(fields: seq<HeaderField>) {
    forall i :: 0 <= i < |fields| ==> FieldSurvives(fields[i])
  }

  function FieldLines(fields: seq<HeaderField>): seq<bytes> {
    if fields == [] then []
    else FieldLines(fields[..|fields| - 1]) + Lines(FieldOctets(fields[|fields| - 1]))
  }

  lemma {:induction false} FieldLinesNotBlank(fields: seq<HeaderField>)
    requires FieldsSurvive(fields)
    ensures forall i :: 0 <= i < |FieldLines(fields)| ==> FieldLines(fields)[i] != []
  {
    if fields != [] {
      FieldLinesNotBlank(fields[..|fields| - 1]);
    }
  }

  lemma {:induction false} LinesOfFieldBlock(fields: seq<HeaderField>, rest: bytes)
    requires FieldsSurvive(fields)
    ensures Lines(FieldBlock(fields) + rest) == FieldLines(fields) + Lines(rest)
  {
    if fields == [] {
      assert FieldBlock(fields) + rest == rest;
    } else {
      var init, last := fields[..|fields| - 1], FieldOctets(fields[|fields| - 1]);
      LinesOfFieldBlock(init, last + [LF] + rest);
      LinesAcrossLf(last, rest);
      Assoc(FieldBlock(init), last + [LF], rest);
      Assoc(FieldLines(init), Lines(last), Lines(rest));
    }
  }

  // ----- reading a field

  const COLON: byte := 0x3A

  function LowerOctet(c: byte): byte {
    if 0x41 <= c <= 0x5A then c + 32 else c
  }

  /** A line that starts a field of this name, in any case; `key` is in lower case. */
  predicate NamesField(key: string, line: bytes) {
    var name := Octets(key);
    |line| > |name| && line[|name|] == COLON && forall i :: 0 <= i < |name| ==> LowerOctet(line[i]) == name[i]
  }

  /** A line that goes on with the field of the line before it, section 2.2.3 of RFC 5322. */
  predicate Continues(line: bytes) {
    line != [] && QP.Blank(line[0])
  }

  function TrimLeft(s: bytes): bytes {
    if s != [] && QP.Blank(s[0]) then TrimLeft(s[1..]) else s
  }

  /** The continuation lines at the front, each trimmed and after a blank. */
  function Continued(ls: seq<bytes>): bytes {
    if ls != [] && Continues(ls[0]) then [SPACE] + TrimLeft(QP.TrimRight(ls[0])) + Continued(ls[1..]) else []
  }

  /** A value that starts with what follows the colon and goes on in the lines after it. */
  function ValueFrom(first: bytes, ls: seq<bytes>): bytes {
    TrimLeft(QP.TrimRight(first) + Continued(ls))
  }

  /** The value of the first field of this name, if there is one. */
  function FirstField(key: string, ls: seq<bytes>): Option<bytes> {
    if ls == [] then None
    else if NamesField(key, ls[0]) then Some(ValueFrom(ls[0][|key| + 1..], ls[1..]))
    else FirstField(key, ls[1..])
  }

  /** The names of the two fields, as they are compared. */
  const VERSION := "mime-version"

  const ENCODING := "content-transfer-encoding"

  /** `Header.Get("Mime-Version") != ""` */
  predicate NamesVersion(header: seq<bytes>) {
    FirstField(VERSION, header).UnwrapOr([]) != []
  }

  function Chars(s: bytes): string {
    seq(|s|, i requires 0 <= i < |s| => s[i] as char)
  }

  /** `Header.Get("Content-Transfer-Encoding")` */
  function EncodingOf(header: seq<bytes>): string {
    Chars(FirstField(ENCODING, header).UnwrapOr([]))
  }

  // ----- writing a field

  /** What a reader makes of a value. */
  function WrittenValue(v: bytes): bytes {
    ValueFrom([SPACE] + Lines(v)[0], Lines(v)[1..])
  }

  /** The value of the first of these fields with this name, if there is one. */
  function FirstOf(key: string, fields: seq<HeaderField>): Option<bytes> {
    if fields == [] then None
    else
      var init, last := fields[..|fields| - 1], fields[|fields| - 1];
      if FirstOf(key, init).Some? then FirstOf(key, init)
      else if ToLower(last.key) == key then Some(WrittenValue(last.value))
      else None
  }

  /** The message goes out with a MIME version: the printer's own, or one among the extra headers. */
  predicate SendsVersion(r: Rendering, m: Mail) {
    VersionField(m) != [] || FirstOf(VERSION, ExtraFields(r, m.headers)).UnwrapOr([]) != []
  }

  /** The transfer encoding that goes out first: one among the extra headers, or the printer's own. */
  function SentEncoding(r: Rendering, m: Mail, e: EncodedPart): string {
    Chars(FirstOf(ENCODING, ExtraFields(r, m.headers)).UnwrapOr(WrittenValue(r.word(e.cte))))
  }

  // ----- what is written is what is read

  /** A folded field goes on with lines that start with a blank. */
  predicate Folded(f: HeaderField) {
    var ls := Lines(FieldOctets(f));
    forall i :: 0 < i < |ls| ==> Continues(ls[i])
  }

  predicate AllFolded(fields: seq<HeaderField>) {
    forall i :: 0 <= i < |fields| ==> Folded(fields[i])
  }

  predicate ValidKeys(fields: seq<HeaderField>) {
    forall i :: 0 <= i < |fields| ==> ValidHeaderKey(fields[i].key)
  }

  lemma LinesOfFront(c: byte, s: bytes)
    requires c != CR && c != LF
    ensures Lines([c] + s) == [[c] + Lines(s)[0]] + Lines(s)[1..]
  {
    assert ([c] + s)[1..] == s;
  }

  lemma {:induction false} LinesAfterClean(a: bytes, v: bytes)
    requires Clean(a)
    ensures Lines(a + v)[0] == a + Lines(v)[0] && Lines(a + v)[1..] == Lines(v)[1..]
  {
    if a == [] {
      assert a + v == v && a + Lines(v)[0] == Lines(v)[0];
    } else {
      var tail := a[1..];
      assert a[0] in a;
      LinesAfterClean(tail, v);
      assert [a[0]] + tail == a;
      Assoc([a[0]], tail, v);
      LinesOfFront(a[0], tail + v);
      Assoc([a[0]], tail, Lines(v)[0]);
    }
  }

  lemma {:induction false} ContinuedStops(ls: seq<bytes>, rest: seq<bytes>)
    requires forall i :: 0 <= i < |ls| ==> Continues(ls[i])
    requires rest == [] || !Continues(rest[0])
    ensures Continued(ls + rest) == Continued(ls)
  {
    if ls == [] {
      assert ls + rest == rest;
    } else {
      ContinuedStops(ls[1..], rest);
      assert (ls + rest)[1..] == ls[1..] + rest;
    }
  }

  /** A key as it is compared: not empty, and of visible characters without a colon. */
  predicate LowerCaseKey(key: string) {
    key != "" && ValidHeaderKey(key)
  }

  lemma {:induction false} NoFieldInFolds(key: string, ls: seq<bytes>, rest: seq<bytes>)
    requires LowerCaseKey(key)
    requires forall i :: 0 <= i < |ls| ==> Continues(ls[i])
    ensures FirstField(key, ls + rest) == FirstField(key, rest)
  {
    if ls == [] {
      assert ls + rest == rest;
    } else {
      NoFieldInFolds(key, ls[1..], rest);
      assert (ls + rest)[1..] == ls[1..] + rest;
      assert LowerOctet(ls[0][0]) == ls[0][0] && Octets(key)[0] == Octet(key[0]);
    }
  }

  predicate StartsFields(ls: seq<bytes>) {
    ls == [] || !Continues(ls[0])
  }

  /** The line that a field with this name starts with. */
  lemma NameIsRead(key: string, name: string, line: bytes)
    requires LowerCaseKey(key) && ValidHeaderKey(name)
    requires Octets(name) + Octets(": ") <= line
    ensures NamesField(key, line) <==> ToLower(name) == key
    ensures !Continues(line)
  {
    var lower := Octets(key);
    assert forall i :: 0 <= i < |name| ==>
                         line[i] == Octet(name[i]) && LowerOctet(line[i]) == Octet(LowerChar(name[i]));
    assert line[|name|] == (Octets(name) + Octets(": "))[|name|] == COLON;
    assert forall i :: 0 <= i < |name| ==> line[i] != COLON;
    assert forall i :: 0 <= i < |lower| ==> lower[i] == Octet(key[i]) && lower[i] != LowerOctet(COLON);
    if NamesField(key, line) {
      assert |name| == |lower|;
      forall i | 0 <= i < |name|
        ensures ToLower(name)[i] == key[i]
      {
        assert LowerOctet(line[i]) == lower[i];
      }
      assert ToLower(name) == key;
    }
    if ToLower(name) == key {
      forall i | 0 <= i < |lower|
        ensures LowerOctet(line[i]) == lower[i]
      {
        assert ToLower(name)[i] == key[i];
      }
    }
  }

  lemma KeyIsClean(key: string)
    requires ValidHeaderKey(key)
    ensures Clean(Octets(key) + Octets(": "))
  {
    var start := Octets(key) + Octets(": ");
    forall i | 0 <= i < |start|
      ensures start[i] != CR && start[i] != LF
    {
      if i < |key| {
        assert start[i] == Octet(key[i]) && 0x20 as char < key[i];
      }
    }
  }

  /** The lines of one field and what follows it. */
  lemma NamedLinesAreRead(key: string, name: string, ls: seq<bytes>, rest: seq<bytes>)
    requires LowerCaseKey(key) && ValidHeaderKey(name) && StartsFields(rest)
    requires ls != [] && Octets(name) + Octets(": ") <= ls[0] && forall i :: 0 < i < |ls| ==> Continues(ls[i])
    ensures FirstField(key, ls + rest) ==
            if ToLower(name) == key then Some(ValueFrom(ls[0][|name| + 1..], ls[1..])) else FirstField(key, rest)
    ensures StartsFields(ls + rest)
  {
    NameIsRead(key, name, ls[0]);
    assert (ls + rest)[1..] == ls[1..] + rest;
    if ToLower(name) == key {
      ContinuedStops(ls[1..], rest);
    } else {
      NoFieldInFolds(key, ls[1..], rest);
    }
  }

  lemma AfterColon(name: bytes, line: bytes)
    ensures (name + [COLON, SPACE] + line)[|name| + 1..] == [SPACE] + line
  {
  }

  /** A field starts with its name, a colon, a blank and the first line of its value. */
  lemma FieldStarts(f: HeaderField)
    requires ValidHeaderKey(f.key)
    ensures var ls := Lines(FieldOctets(f));
            && Octets(f.key) + Octets(": ") <= ls[0]
            && ls[0][|f.key| + 1..] == [SPACE] + Lines(f.value)[0]
            && ls[1..] == Lines(f.value)[1..]
  {
    KeyIsClean(f.key);
    LinesAfterClean(Octets(f.key) + Octets(": "), f.value);
    assert Octets(": ") == [COLON, SPACE];
    AfterColon(Octets(f.key), Lines(f.value)[0]);
  }

  /** One field and what follows it. */
  lemma FieldIsRead(key: string, f: HeaderField, rest: seq<bytes>)
    requires LowerCaseKey(key) && ValidHeaderKey(f.key) && Folded(f) && StartsFields(rest)
    ensures FirstField(key, Lines(FieldOctets(f)) + rest) ==
            if ToLower(f.key) == key then Some(WrittenValue(f.value)) else FirstField(key, rest)
    ensures StartsFields(Lines(FieldOctets(f)) + rest)
  {
    FieldStarts(f);
    NamedLinesAreRead(key, f.key, Lines(FieldOctets(f)), rest);
  }

  lemma {:induction false} FieldsAreReadBefore(key: string, fields: seq<HeaderField>, rest: seq<bytes>)
    requires LowerCaseKey(key) && ValidKeys(fields) && AllFolded(fields) && StartsFields(rest)
    ensures FirstField(key, FieldLines(fields) + rest) ==
            if FirstOf(key, fields).Some? then FirstOf(key, fields) else FirstField(key, rest)
    decreases |fields|
  {
    if fields == [] {
      assert FieldLines(fields) + rest == rest;
    } else {
      var init, last := fields[..|fields| - 1], fields[|fields| - 1];
      var ls := Lines(FieldOctets(last));
      FieldIsRead(key, last, rest);
      FieldsAreReadBefore(key, init, ls + rest);
      Assoc(FieldLines(init), ls, rest);
      assert FieldLines(fields) == FieldLines(init) + ls;
    }
  }

  /** The reader gets the value of the first field of a name that was written. */
  lemma FieldsAreRead(key: string, fields: seq<HeaderField>)
    requires LowerCaseKey(key) && ValidKeys(fields) && AllFolded(fields)
    ensures FirstField(key, FieldLines(fields)) == FirstOf(key, fields)
  {
    var none: seq<bytes> := [];
    FieldsAreReadBefore(key, fields, none);
    assert FieldLines(fields) + none == FieldLines(fields);
  }

  // ----- the keys of extra headers

  lemma {:induction false} CapitalizedAt(key: string, upper: bool, i: nat)
    requires i < |key|
    ensures |Capitalized(key, upper)| == |key|
    ensures Capitalized(key, upper)[i] ==
            if (if i == 0 then upper else key[i - 1] == '-') then UpperChar(key[i]) else LowerChar(key[i])
  {
    if i > 0 {
      CapitalizedAt(key[1..], key[0] == '-', i - 1);
    } else if |key| > 1 {
      CapitalizedAt(key[1..], key[0] == '-', 0);
    }
  }

  /** Characters of a valid key, section 2.2 of RFC 5322. */
  predicate KeyChar(c: char) {
    0x20 as char < c < 0x7F as char && c != ':'
  }

  /** The spelling of the character after `before`, for which the start of the key counts as a dash. */
  function Spelled(before: char, c: char): char {
    if before == '-' then UpperChar(c) else LowerChar(c)
  }

  predicate SpelledAt(key: string, i: nat)
    requires i < |key|
  {
    key[i] == Spelled(if i == 0 then '-' else key[i - 1], key[i])
  }

  predicate WellSpelled(key: string) {
    forall i :: 0 <= i < |key| ==> SpelledAt(key, i)
  }

  lemma CapitalizedIsSpelled(key: string)
    ensures |Capitalized(key, true)| == |key| && WellSpelled(Capitalized(key, true))
    ensures forall i :: 0 <= i < |key| ==> LowerChar(Capitalized(key, true)[i]) == LowerChar(key[i])
  {
    var k := Capitalized(key, true);
    if key != "" {
      CapitalizedAt(key, true, 0);
    }
    forall i | 0 <= i < |key|
      ensures SpelledAt(k, i)
      ensures LowerChar(k[i]) == LowerChar(key[i])
    {
      CapitalizedAt(key, true, i);
      if i > 0 {
        CapitalizedAt(key, true, i - 1);
      }
    }
  }

  /** A key on the wire is visible ASCII without a colon. */
  lemma CanonicalKeyIsValid(key: string)
    requires ValidHeaderKey(key)
    ensures |CanonicalKey(key)| == |key| && ValidHeaderKey(CanonicalKey(key))
  {
    if CanonicalKey(key) != key {
      CapitalizedIsSpelled(key);
      var k := CanonicalKey(key);
      forall i | 0 <= i < |key|
        ensures KeyChar(k[i])
      {
        assert KeyChar(key[i]) && LowerChar(k[i]) == LowerChar(key[i]);
      }
    }
  }

  /** Two well-spelled keys that differ in case alone do not differ. */
  lemma SameSpelling(a: string, b: string)
    requires WellSpelled(a) && WellSpelled(b) && ToLower(a) == ToLower(b)
    ensures a == b
  {
    assert |a| == |b|;
    forall i | 0 <= i < |a|
      ensures a[i] == b[i]
    {
      assert SpelledAt(a, i) && SpelledAt(b, i);
      assert ToLower(a)[i] == ToLower(b)[i];
      if i > 0 {
        assert ToLower(a)[i - 1] == ToLower(b)[i - 1];
      }
    }
  }

  lemma LowerIsToken(key: string)
    requires forall i :: 0 <= i < |key| ==> TokenChar(ToLower(key)[i])
    ensures forall i :: 0 <= i < |key| ==> TokenChar(key[i])
  {
    forall i | 0 <= i < |key|
      ensures TokenChar(key[i])
    {
      assert TokenChar(ToLower(key)[i]);
    }
  }

  lemma VersionKeyIsSpelled()
    ensures WellSpelled(VERSION_KEY)
  {
    forall i | 0 <= i < |VERSION_KEY|
      ensures SpelledAt(VERSION_KEY, i)
    {
    }
  }

  /** Mime-Version is written in one spelling only. */
  lemma OneSpelling(key: string)
    ensures CanonicalKey(key) == VERSION_KEY <==> ToLower(CanonicalKey(key)) == "mime-version"
  {
    var k, lower := CanonicalKey(key), "mime-version";
    assert ToLower(VERSION_KEY) == lower;
    if ToLower(k) == lower {
      LowerIsToken(k);
      CapitalizedIsSpelled(key);
      assert WellSpelled(k);
      VersionKeyIsSpelled();
      SameSpelling(k, VERSION_KEY);
    }
  }

  lemma SameInAnyCase(key: string)
    ensures ToLower(CanonicalKey(key)) == ToLower(key)
  {
    CapitalizedIsSpelled(key);
    assert forall i :: 0 <= i < |key| ==> LowerChar(CanonicalKey(key)[i]) == LowerChar(key[i]);
  }

  /** A key in any case is sent in that spelling. */
  lemma AnyCaseIsMimeVersion(key: string)
    ensures CanonicalKey(key) == VERSION_KEY <==> ToLower(key) == "mime-version"
  {
    OneSpelling(key);
    SameInAnyCase(key);
  }

  lemma {:induction false} ExtraKeysAreValid(r: Rendering, headers: seq<Header>)
    requires forall k :: 0 <= k < |headers| ==> ValidHeaderKey(headers[k].key)
    ensures ValidKeys(ExtraFields(r, headers))
  {
    if headers != [] {
      ExtraKeysAreValid(r, headers[..|headers| - 1]);
      CanonicalKeyIsValid(headers[|headers| - 1].key);
    }
  }

  // ----- all fields

  lemma {:induction false} FirstOfAppend(key: string, a: seq<HeaderField>, b: seq<HeaderField>)
    ensures FirstOf(key, a + b) == if FirstOf(key, a).Some? then FirstOf(key, a) else FirstOf(key, b)
  {
    if b == [] {
      assert a + b == a;
    } else {
      FirstOfAppend(key, a, b[..|b| - 1]);
      assert (a + b)[..|a + b| - 1] == a + b[..|b| - 1];
    }
  }

  lemma {:induction false} OtherFields(key: string, fields: seq<HeaderField>)
    requires forall i :: 0 <= i < |fields| ==> ToLower(fields[i].key) != key
    ensures FirstOf(key, fields).None?
  {
    if fields != [] {
      OtherFields(key, fields[..|fields| - 1]);
    }
  }

  lemma FirstOfOne(key: string, f: HeaderField)
    ensures FirstOf(key, [f]) == if ToLower(f.key) == key then Some(WrittenValue(f.value)) else None
  {
    assert [f][..0] == [];
  }

  /** Names of their own: none of them is as long as those of the body. */
  predicate OwnName(f: HeaderField) {
    2 <= |f.key| <= 10 && ValidHeaderKey(f.key)
  }

  lemma EnvelopeNames(r: Rendering, m: Mail)
    ensures forall f :: f in EnvelopeFields(r, m) ==> OwnName(f)
  {
  }

  lemma NamesOfIdentity(r: Rendering, m: Mail)
    ensures forall f :: f in IdentityFields(r, m) ==> OwnName(f)
  {
  }

  /** The fields of the envelope and the identity. */
  lemma FrontNames(r: Rendering, m: Mail)
    ensures forall f :: f in EnvelopeFields(r, m) + IdentityFields(r, m) ==> OwnName(f)
  {
    EnvelopeNames(r, m);
    NamesOfIdentity(r, m);
  }

  lemma ValidKeysAppend(a: seq<HeaderField>, b: seq<HeaderField>)
    requires ValidKeys(a) && ValidKeys(b)
    ensures ValidKeys(a + b)
  {
  }

  lemma FrontNamesAreValid(r: Rendering, m: Mail)
    ensures ValidKeys(EnvelopeFields(r, m) + IdentityFields(r, m))
  {
    var front := EnvelopeFields(r, m) + IdentityFields(r, m);
    FrontNames(r, m);
    forall i | 0 <= i < |front|
      ensures ValidHeaderKey(front[i].key)
    {
      assert front[i] in front;
    }
  }

  lemma BodyKeyIsValid(key: string)
    requires key in {VERSION_KEY, TYPE_KEY, ENCODING_KEY}
    ensures ValidHeaderKey(key)
  {
  }

  lemma BodyNamesAreValid(r: Rendering, m: Mail, e: EncodedPart)
    ensures ValidKeys(VersionField(m)) && ValidKeys(BodyFields(r, m, e))
  {
    BodyKeyIsValid(VERSION_KEY);
    BodyKeyIsValid(TYPE_KEY);
    BodyKeyIsValid(ENCODING_KEY);
  }

  lemma FieldNamesAreValid(r: Rendering, m: Mail, e: EncodedPart)
    requires forall k :: 0 <= k < |m.headers| ==> ValidHeaderKey(m.headers[k].key)
    ensures ValidKeys(Fields(r, m, e))
  {
    var front, extra := EnvelopeFields(r, m) + IdentityFields(r, m), ExtraFields(r, m.headers);
    FrontNamesAreValid(r, m);
    BodyNamesAreValid(r, m, e);
    ExtraKeysAreValid(r, m.headers);
    ValidKeysAppend(front, extra);
    ValidKeysAppend(front + extra, VersionField(m));
    ValidKeysAppend(front + extra + VersionField(m), BodyFields(r, m, e));
  }

  /** The first field of a name as long as these is an extra header, or one of the fields after them. */
  lemma FirstOfFields(key: string, r: Rendering, m: Mail, e: EncodedPart)
    requires |key| > 10
    ensures FirstOf(key, Fields(r, m, e)) ==
            if FirstOf(key, ExtraFields(r, m.headers)).Some? then FirstOf(key, ExtraFields(r, m.headers))
            else FirstOf(key, VersionField(m) + BodyFields(r, m, e))
  {
    var front, extra := EnvelopeFields(r, m) + IdentityFields(r, m), ExtraFields(r, m.headers);
    var version, body := VersionField(m), BodyFields(r, m, e);
    FrontNames(r, m);
    forall i | 0 <= i < |front|
      ensures ToLower(front[i].key) != key
    {
      assert front[i] in front;
    }
    OtherFields(key, front);
    Assoc(front + extra, version, body);
    FirstOfAppend(key, front + extra, version + body);
    FirstOfAppend(key, front, extra);
  }

  lemma {:induction false} NoExtraVersion(r: Rendering, headers: seq<Header>)
    requires !HasMimeVersion(headers)
    ensures FirstOf(VERSION, ExtraFields(r, headers)).None?
  {
    if headers != [] {
      var init, last := headers[..|headers| - 1], headers[|headers| - 1];
      NoExtraVersion(r, init);
      OneSpelling(last.key);
      FirstOfAppend(VERSION, ExtraFields(r, init), ExtraField(r, last));
      if last.value != "" {
        FirstOfOne(VERSION, ExtraField(r, last)[0]);
      }
    }
  }

  /** A value on one line without blanks at its ends is read as it is. */
  lemma PlainValue(v: bytes)
    requires Clean(v) && v != [] && !QP.Blank(v[0]) && !QP.Blank(v[|v| - 1])
    ensures WrittenValue(v) == v
  {
    LinesOfClean(v);
    var first := [SPACE] + v;
    assert first[|first| - 1] == v[|v| - 1];
    assert QP.TrimRight(first) == first;
    assert Lines(v)[1..] == [] && first + Continued(Lines(v)[1..]) == first;
    assert first[1..] == v && TrimLeft(v) == v;
  }

  lemma OwnVersionHasValue()
    ensures WrittenValue(Octets("1.0")) != []
  {
    var v := Octets("1.0");
    assert v[0] == 0x31 && v[2] == 0x30;
    PlainValue(v);
  }

  lemma LowerVersion()
    ensures ToLower(VERSION_KEY) == VERSION
  {
  }

  lemma LowerEncoding()
    ensures ToLower(ENCODING_KEY) == ENCODING
  {
  }

  lemma NamesAreKeys()
    ensures LowerCaseKey(VERSION) && LowerCaseKey(ENCODING)
  {
  }

  lemma TypeIsOther()
    ensures ToLower(TYPE_KEY) != VERSION && |ToLower(TYPE_KEY)| == 12
  {
    assert ToLower(TYPE_KEY)[0] == 'c';
  }

  lemma VersionAfterExtra(r: Rendering, m: Mail, e: EncodedPart)
    ensures FirstOf(VERSION, VersionField(m) + BodyFields(r, m, e)) ==
            if VersionField(m) == [] then None else Some(WrittenValue(Octets("1.0")))
  {
    var version, body := VersionField(m), BodyFields(r, m, e);
    LowerVersion();
    TypeIsOther();
    FirstOfAppend(VERSION, version, body);
    OtherFields(VERSION, body);
    if version != [] {
      FirstOfOne(VERSION, version[0]);
    }
  }

  lemma EncodingAfterExtra(r: Rendering, m: Mail, e: EncodedPart)
    ensures FirstOf(ENCODING, VersionField(m) + BodyFields(r, m, e)) == Some(WrittenValue(r.word(e.cte)))
  {
    var version, body := VersionField(m), BodyFields(r, m, e);
    var last := HeaderField(ENCODING_KEY, r.word(e.cte));
    LowerVersion();
    LowerEncoding();
    TypeIsOther();
    FirstOfAppend(ENCODING, version, body);
    OtherFields(ENCODING, version);
    FirstOfOne(ENCODING, last);
    if m.contentType.raw != "" {
      FirstOfAppend(ENCODING, [body[0]], [last]);
      FirstOfOne(ENCODING, body[0]);
    }
  }

  /**
   * The reader finds a MIME version exactly if the printer sent one, and it takes the transfer
   * encoding that was sent first.
   */
  lemma FieldsDecide(r: Rendering, m: Mail, e: EncodedPart)
    requires AllFolded(Fields(r, m, e))
    requires forall k :: 0 <= k < |m.headers| ==> ValidHeaderKey(m.headers[k].key)
    ensures NamesVersion(FieldLines(Fields(r, m, e))) <==> SendsVersion(r, m)
    ensures EncodingOf(FieldLines(Fields(r, m, e))) == SentEncoding(r, m, e)
  {
    FieldNamesAreValid(r, m, e);
    NamesAreKeys();
    FieldsAreRead(VERSION, Fields(r, m, e));
    FieldsAreRead(ENCODING, Fields(r, m, e));
    FirstOfFields(VERSION, r, m, e);
    FirstOfFields(ENCODING, r, m, e);
    VersionAfterExtra(r, m, e);
    EncodingAfterExtra(r, m, e);
    OwnVersionHasValue();
    if VersionField(m) != [] {
      NoExtraVersion(r, m.headers);
    }
  }

  // ----- ordinary mails

  lemma {:induction false} NoExtraField(key: string, r: Rendering, headers: seq<Header>)
    requires forall k :: 0 <= k < |headers| ==> ToLower(headers[k].key) != key
    ensures FirstOf(key, ExtraFields(r, headers)).None?
  {
    if headers != [] {
      var init, last := headers[..|headers| - 1], headers[|headers| - 1];
      NoExtraField(key, r, init);
      SameInAnyCase(last.key);
      FirstOfAppend(key, ExtraFields(r, init), ExtraField(r, last));
      if last.value != "" {
        FirstOfOne(key, ExtraField(r, last)[0]);
      }
    }
  }

  predicate PlainName(s: string) {
    s != "" && forall i :: 0 <= i < |s| ==> '-' <= s[i] <= 'z'
  }

  lemma NamesArePlain()
    ensures PlainName("7bit") && PlainName("8bit") && PlainName("quoted-printable") && PlainName("base64")
  {
  }

  /** The names of the encodings are read as they are written. */
  lemma NameIsPlain(cte: string)
    requires PlainName(cte)
    ensures Chars(WrittenValue(Octets(cte))) == cte
  {
    PlainValue(Octets(cte));
  }

  predicate AllBlanks(s: bytes) {
    forall i :: 0 <= i < |s| ==> s[i] == 0x20 || s[i] == 0x09
  }

  /** Something, with no blank at its ends. */
  predicate Solid(s: bytes) {
    s != [] && !AllBlanks(s[..1]) && !AllBlanks(s[|s| - 1..])
  }

  lemma {:induction false} TrimsBack(s: bytes, pad: bytes)
    requires AllBlanks(pad) && (s == [] || !AllBlanks(s[|s| - 1..]))
    ensures QP.TrimRight(s + pad) == s
    decreases |pad|
  {
    if pad == [] {
      assert s + pad == s;
      if s != [] {
        var last := s[|s| - 1..];
        assert last == [s[|s| - 1]] && !AllBlanks(last);
      }
    } else {
      assert (s + pad)[..|s + pad| - 1] == s + pad[..|pad| - 1];
      assert (s + pad)[|s + pad| - 1] == pad[|pad| - 1];
      TrimsBack(s, pad[..|pad| - 1]);
    }
  }

  lemma {:induction false} TrimsFront(pad: bytes, s: bytes)
    requires AllBlanks(pad) && s != [] && !AllBlanks(s[..1])
    ensures TrimLeft(pad + s) == s
    decreases |pad|
  {
    if pad == [] {
      assert pad + s == s && s[..1] == [s[0]];
    } else {
      assert (pad + s)[1..] == pad[1..] + s;
      TrimsFront(pad[1..], s);
    }
  }

  lemma SolidAcross(a: bytes, b: bytes)
    requires Solid(a) && Solid(b)
    ensures !AllBlanks((a + [SPACE] + b)[..1])
  {
    assert (a + [SPACE] + b)[..1] == a[..1];
  }

  /** A value that was folded once is read on one line, with one blank for the break and the blanks around it. */
  lemma FoldedValue(a: bytes, before: bytes, after: bytes, b: bytes, end: bytes)
    requires Solid(a) && Solid(b) && Clean(a) && Clean(b) && AllBlanks(before) && AllBlanks(after) && AllBlanks(end)
    ensures ValueFrom([SPACE] + (a + before), [[SPACE] + after + b + end]) == a + [SPACE] + b
  {
    var first, second := [SPACE] + (a + before), [SPACE] + after + b + end;
    var none: seq<bytes> := [];
    Assoc([SPACE], a, before);
    assert ([SPACE] + a)[|[SPACE] + a| - 1..] == a[|a| - 1..];
    TrimsBack([SPACE] + a, before);
    assert ([SPACE] + after + b)[|[SPACE] + after + b| - 1..] == b[|b| - 1..];
    TrimsBack([SPACE] + after + b, end);
    TrimsFront([SPACE] + after, b);
    assert [second][1..] == none && Continued(none) == [];
    assert Continued([second]) == [SPACE] + b + [];
    assert [SPACE] + a + ([SPACE] + b + []) == [SPACE] + (a + [SPACE] + b);
    SolidAcross(a, b);
    TrimsFront([SPACE], a + [SPACE] + b);
  }
}
