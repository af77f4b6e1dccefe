/**
 * The line-ending rewrite of pkg/mailer/imf.go:60-63, which pkg/mailer/part.go:59-61 also applies
 * to every text leaf: three `strings.ReplaceAll` passes.  Its meaning is given by `Lines`, which
 * splits at CRLF, at a lone CR and at a lone LF.
 */
module LineEndings {
  import opened Bytes

  /** `strings.ReplaceAll`: leftmost, non-overlapping occurrences. */
  function ReplaceAll(s: bytes, find: bytes, with: bytes): bytes
    requires find != []
  {
    if s == [] then []
    else if find <= s then with + ReplaceAll(s[|find|..], find, with)
    else [s[0]] + ReplaceAll(s[1..], find, with)
  }

  predicate StartsCrlf(s: bytes) {
    |s| >= 2 && s[0] == CR && s[1] == LF
  }

  predicate EndsInCr(s: bytes) {
    s != [] && s[|s| - 1] == CR
  }

  function Lines(s: bytes): (ls: seq<bytes>)
    ensures ls != []
  {
    if s == [] then [[]]
    else if StartsCrlf(s) then [[]] + Lines(s[2..])
    else if s[0] == CR || s[0] == LF then [[]] + Lines(s[1..])
    else var rest := Lines(s[1..]); [[s[0]] + rest[0]] + rest[1..]
  }

  function Join(ls: seq<bytes>, sep: bytes): bytes {
    if ls == [] then []
    else if |ls| == 1 then ls[0]
    else ls[0] + sep + Join(ls[1..], sep)
  }

  /** The same lines, each break written as CRLF. */
  function Canonical(s: bytes): bytes {
    Join(Lines(s), CRLF)
  }

  predicate Clean(line: bytes) {
    CR !in line && LF !in line
  }

  predicate AllClean(ls: seq<bytes>) {
    forall i :: 0 <= i < |ls| ==> Clean(ls[i])
  }

  predicate PairedAt(s: bytes, i: nat)
    requires i < |s|
  {
    && (s[i] == CR ==> i + 1 < |s| && s[i + 1] == LF)
    && (s[i] == LF ==> 0 < i && s[i - 1] == CR)
  }

  lemma CleanTail(line: bytes)
    requires line != [] && Clean(line)
    ensures line[0] != CR && line[0] != LF && Clean(line[1..]) && line == [line[0]] + line[1..]
  {
    assert line[0] in line;
  }

  /** Every CR is followed by LF and every LF is preceded by CR. */
  predicate PairedBreaks(s: bytes) {
    forall i :: 0 <= i < |s| ==> PairedAt(s, i)
  }

  /** One step of `Canonical` from the front. */
  lemma JoinCons(s: bytes)
    requires s != []
    ensures Canonical(s) ==
            if StartsCrlf(s) then CRLF + Canonical(s[2..])
            else if s[0] == CR || s[0] == LF then CRLF + Canonical(s[1..])
            else [s[0]] + Canonical(s[1..])
  {
    if StartsCrlf(s) {
      assert Lines(s)[1..] == Lines(s[2..]);
    } else if s[0] == CR || s[0] == LF {
      assert Lines(s)[1..] == Lines(s[1..]);
    } else {
      assert Lines(s)[1..] == Lines(s[1..])[1..];
    }
  }

  lemma {:induction false} ThreePasses(s: bytes)
    ensures ReplaceAll(ReplaceAll(ReplaceAll(s, CRLF, [LF]), [CR], [LF]), [LF], CRLF) == Canonical(s)
  {
    if s == [] {
    } else {
      var n := if StartsCrlf(s) then 2 else 1;
      var p1 := ReplaceAll(s[n..], CRLF, [LF]);
      var p2 := ReplaceAll(p1, [CR], [LF]);
      ThreePasses(s[n..]);
      var h1: bytes := if StartsCrlf(s) then [LF] else [s[0]];
      var h2: bytes := if h1 == [CR] then [LF] else h1;
      assert ReplaceAll(s, CRLF, [LF]) == h1 + p1;
      assert (h1 + p1)[1..] == p1;
      assert ReplaceAll(h1 + p1, [CR], [LF]) == h2 + p2;
      assert (h2 + p2)[1..] == p2;
      JoinCons(s);
    }
  }

  lemma {:induction false} LinesAreClean(s: bytes)
    ensures AllClean(Lines(s))
  {
    if s == [] {
    } else {
      LinesAreClean(s[1..]);
      if StartsCrlf(s) {
        LinesAreClean(s[2..]);
      }
    }
  }

  lemma {:induction false} LinesOfClean(line: bytes)
    requires Clean(line)
    ensures Lines(line) == [line]
  {
    if line != [] {
      assert line[0] in line;
      LinesOfClean(line[1..]);
      assert [line[0]] + line[1..] == line;
    }
  }

  lemma LinesAfterLf(b: bytes)
    ensures Lines([LF] + b) == [[]] + Lines(b)
  {
    assert ([LF] + b)[1..] == b;
  }

  /** The lines of a text that starts like `a`, given those of what follows. */
  function AddFront(a: bytes, ls: seq<bytes>): seq<bytes>
    requires a != [] && ls != []
  {
    if StartsCrlf(a) || a[0] == CR || a[0] == LF then [[]] + ls
    else [[a[0]] + ls[0]] + ls[1..]
  }

  /** A text that starts like `a` and goes on with `t`. */
  lemma LinesUnfold(a: bytes, t: bytes, s: bytes, n: nat)
    requires a != [] && n == (if StartsCrlf(a) then 2 else 1) && s == a[..n] + t
    requires StartsCrlf(s) ==> StartsCrlf(a)
    ensures Lines(s) == AddFront(a, Lines(t))
  {
    assert s[n..] == t;
  }

  lemma AddFrontAppends(a: bytes, ls: seq<bytes>, more: seq<bytes>)
    requires a != [] && ls != []
    ensures AddFront(a, ls + more) == AddFront(a, ls) + more
  {
  }

  /**
   * A CRLF between two texts separates their lines, whatever the first ends with and whatever the
   * second starts with.
   */
  lemma {:induction false} LinesAcrossCrlf(a: bytes, b: bytes)
    ensures Lines(a + CRLF + b) == Lines(a) + Lines(b)
  {
    if a == [] {
      assert (a + CRLF + b)[2..] == b;
    } else {
      var n := if StartsCrlf(a) then 2 else 1;
      var t := a[n..];
      assert a == a[..n] + t;
      LinesAcrossCrlf(t, b);
      LinesUnfold(a, t, a, n);
      LinesUnfold(a, t + CRLF + b, a + CRLF + b, n);
      AddFrontAppends(a, Lines(t), Lines(b));
    }
  }

  /** A lone LF separates them too, unless the first text ends in CR. */
  lemma {:induction false} LinesAcrossLf(a: bytes, b: bytes)
    requires !EndsInCr(a)
    ensures Lines(a + [LF] + b) == Lines(a) + Lines(b)
  {
    if a == [] {
      LinesAfterLf(b);
      assert a + [LF] + b == [LF] + b;
    } else {
      var n := if StartsCrlf(a) then 2 else 1;
      var t := a[n..];
      assert a == a[..n] + t && !EndsInCr(t);
      LinesAcrossLf(t, b);
      LinesUnfold(a, t, a, n);
      LinesUnfold(a, t + [LF] + b, a + [LF] + b, n);
      AddFrontAppends(a, Lines(t), Lines(b));
    }
  }

  lemma {:induction false} LinesOfJoin(ls: seq<bytes>, sep: bytes)
    requires ls != [] && AllClean(ls)
    requires sep == CRLF || sep == [LF]
    ensures Lines(Join(ls, sep)) == ls
  {
    LinesOfClean(ls[0]);
    if |ls| > 1 {
      LinesOfJoin(ls[1..], sep);
      if sep == CRLF {
        LinesAcrossCrlf(ls[0], Join(ls[1..], sep));
      } else {
        LinesAcrossLf(ls[0], Join(ls[1..], sep));
      }
    }
  }

  lemma LinesOfCanonical(s: bytes)
    ensures Lines(Canonical(s)) == Lines(s)
  {
    LinesAreClean(s);
    LinesOfJoin(Lines(s), CRLF);
  }

  lemma CanonicalIsIdempotent(s: bytes)
    ensures Canonical(Canonical(s)) == Canonical(s)
  {
    LinesOfCanonical(s);
  }

  lemma PairedFront(head: bytes, c: bytes)
    requires head == CRLF || (|head| == 1 && Clean(head))
    requires PairedBreaks(c)
    ensures PairedBreaks(head + c)
  {
    var r := head + c;
    forall i | 0 <= i < |r|
      ensures PairedAt(r, i)
    {
      if i < |head| {
        assert r[i] == head[i] && head[i] in head;
      } else {
        assert r[i] == c[i - |head|] && PairedAt(c, i - |head|);
      }
    }
  }

  lemma {:induction false} CanonicalIsPaired(s: bytes)
    ensures PairedBreaks(Canonical(s))
  {
    if s != [] {
      JoinCons(s);
      var t := s[if StartsCrlf(s) then 2 else 1..];
      CanonicalIsPaired(t);
      PairedFront(if s[0] == CR || s[0] == LF then CRLF else [s[0]], Canonical(t));
    }
  }

  /** The three passes, in the order of the source. */
  method NormalizeLineEndings(s: bytes) returns (r: bytes)
    ensures r == Canonical(s)
    ensures PairedBreaks(r) && Lines(r) == Lines(s)
  {
    r := ReplaceAll(s, CRLF, [LF]);
    r := ReplaceAll(r, [CR], [LF]);
    r := ReplaceAll(r, [LF], CRLF);
    ThreePasses(s);
    CanonicalIsPaired(s);
    LinesOfCanonical(s);
  }

  lemma {:induction false} PairedIsCanonical(s: bytes)
    requires PairedBreaks(s)
    ensures Canonical(s) == s
  {
    if s != [] {
      JoinCons(s);
      assert PairedAt(s, 0);
      var n := if StartsCrlf(s) then 2 else 1;
      var t := s[n..];
      forall i | 0 <= i < |t|
        ensures PairedAt(t, i)
      {
        assert PairedAt(s, i + n);
      }
      PairedIsCanonical(t);
    }
  }

  /** The rewrite changes nothing exactly on text whose breaks are already paired. */
  lemma {:induction false} CanonicalIffPaired(s: bytes)
    ensures Canonical(s) == s <==> PairedBreaks(s)
  {
    CanonicalIsPaired(s);
    if PairedBreaks(s) {
      PairedIsCanonical(s);
    }
  }

  /**
   * Rewriting a leaf first and the whole message afterwards is the same as rewriting the message
   * once, for a leaf placed between a line that ends in LF and a CRLF (or the end of the message).
   */
  lemma LeafThenMessage(before: bytes, leaf: bytes, after: bytes)
    requires !EndsInCr(before)
    ensures Canonical(before + [LF] + Canonical(leaf)) == Canonical(before + [LF] + leaf)
    ensures Canonical(before + [LF] + (Canonical(leaf) + CRLF + after)) ==
            Canonical(before + [LF] + (leaf + CRLF + after))
  {
    LinesOfCanonical(leaf);
    LinesAcrossLf(before, leaf);
    LinesAcrossLf(before, Canonical(leaf));
    LinesAcrossCrlf(leaf, after);
    LinesAcrossCrlf(Canonical(leaf), after);
    LinesAcrossLf(before, leaf + CRLF + after);
    LinesAcrossLf(before, Canonical(leaf) + CRLF + after);
  }
}
