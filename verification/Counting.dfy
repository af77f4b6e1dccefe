/** Counting the octets of one sort in a text, which no rewrite of line breaks changes. */
module Counting {
  import opened Bytes
  import opened LineEndings

  function Count(sort: byte -> bool, s: bytes): nat {
    if s == [] then 0 else (if sort(s[0]) then 1 else 0) + Count(sort, s[1..])
  }

  function CountIn(sort: byte -> bool, ls: seq<bytes>): nat {
    if ls == [] then 0 else Count(sort, ls[0]) + CountIn(sort, ls[1..])
  }

  /** A sort of octets that are no line breaks. */
  predicate NoBreaks(sort: byte -> bool) {
    !sort(CR) && !sort(LF)
  }

  lemma {:induction false} CountAppend(sort: byte -> bool, a: bytes, b: bytes)
    ensures Count(sort, a + b) == Count(sort, a) + Count(sort, b)
  {
    if a == [] {
      assert a + b == b;
    } else {
      CountAppend(sort, a[1..], b);
      assert (a + b)[1..] == a[1..] + b;
    }
  }

  lemma {:induction false} CountInAppend(sort: byte -> bool, a: seq<bytes>, b: seq<bytes>)
    ensures CountIn(sort, a + b) == CountIn(sort, a) + CountIn(sort, b)
  {
    if a == [] {
      assert a + b == b;
    } else {
      CountInAppend(sort, a[1..], b);
      assert (a + b)[1..] == a[1..] + b;
    }
  }

  lemma {:induction false} CountBound(sort: byte -> bool, s: bytes)
    ensures Count(sort, s) <= |s|
    ensures (forall i :: 0 <= i < |s| ==> sort(s[i])) ==> Count(sort, s) == |s|
  {
    if s != [] {
      CountBound(sort, s[1..]);
    }
  }

  lemma {:induction false} CountNone(sort: byte -> bool, s: bytes)
    requires forall i :: 0 <= i < |s| ==> !sort(s[i])
    ensures Count(sort, s) == 0
  {
    if s != [] {
      CountNone(sort, s[1..]);
    }
  }

  lemma CountBreak(sort: byte -> bool)
    requires NoBreaks(sort)
    ensures Count(sort, CRLF) == 0 && Count(sort, [LF]) == 0
  {
    CountNone(sort, CRLF);
    CountNone(sort, [LF]);
  }

  lemma {:induction false} CountOfJoin(sort: byte -> bool, ls: seq<bytes>, sep: bytes)
    requires NoBreaks(sort) && (sep == CRLF || sep == [LF])
    ensures Count(sort, Join(ls, sep)) == CountIn(sort, ls)
  {
    if |ls| == 1 {
      assert CountIn(sort, ls[1..]) == 0;
    } else if ls != [] {
      CountOfJoin(sort, ls[1..], sep);
      CountAppend(sort, ls[0] + sep, Join(ls[1..], sep));
      CountAppend(sort, ls[0], sep);
      CountBreak(sort);
    }
  }

  lemma {:induction false} CountOfLines(sort: byte -> bool, s: bytes)
    requires NoBreaks(sort)
    ensures CountIn(sort, Lines(s)) == Count(sort, s)
  {
    if s != [] {
      var n := if StartsCrlf(s) then 2 else 1;
      var t := s[n..];
      CountOfLines(sort, t);
      var ls := Lines(t);
      assert s == s[..n] + t;
      if s[0] == CR || s[0] == LF {
        assert Lines(s) == [[]] + ls;
        CountInAppend(sort, [[]], ls);
        if StartsCrlf(s) {
          assert s[1..][1..] == t;
        }
      } else {
        var first := [s[0]] + ls[0];
        assert Lines(s) == [first] + ls[1..];
        assert first[1..] == ls[0];
      }
    }
  }

  lemma CountOfCanonical(sort: byte -> bool, s: bytes)
    requires NoBreaks(sort)
    ensures Count(sort, Canonical(s)) == Count(sort, s)
  {
    CountOfLines(sort, s);
    CountOfJoin(sort, Lines(s), CRLF);
  }

  lemma {:induction false} CountOfReplaced(sort: byte -> bool, s: bytes)
    requires NoBreaks(sort)
    ensures Count(sort, ReplaceAll(s, CRLF, [LF])) == Count(sort, s)
  {
    if s == [] {
    } else if CRLF <= s {
      var rest := ReplaceAll(s[2..], CRLF, [LF]);
      CountOfReplaced(sort, s[2..]);
      assert s[0] == CR && s[1..][0] == LF && s[1..][1..] == s[2..];
      assert ([LF] + rest)[1..] == rest;
    } else {
      var rest := ReplaceAll(s[1..], CRLF, [LF]);
      CountOfReplaced(sort, s[1..]);
      assert ([s[0]] + rest)[1..] == rest;
    }
  }
}
