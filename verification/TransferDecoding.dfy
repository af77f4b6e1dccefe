/** The receiving side of a transfer encoding: pkg/smtpserver/server.go:463-491 and :525-527. */
module TransferDecoding {
  import opened Bytes
  import Base64
  import QuotedPrintable

  predicate IsSpace(c: char) {
    c == ' ' || '\t' <= c <= '\r'
  }

  function LowerChar(c: char): char {
    if 'A' <= c <= 'Z' then c + 32 as char else c
  }

  function ToLower(s: string): (r: string)
    ensures |r| == |s|
  {
    seq(|s|, i requires 0 <= i < |s| => LowerChar(s[i]))
  }

  function TrimSpace(s: string): string {
    if s == "" then s
    else if IsSpace(s[0]) then TrimSpace(s[1..])
    else if IsSpace(s[|s| - 1]) then TrimSpace(s[..|s| - 1])
    else s
  }

  /** Encodings are named in any case and with blanks around them. */
  function NormalizeCte(cte: string): string {
    ToLower(TrimSpace(cte))
  }

  /** `None` where reading the decoder fails. */
  function DecodeTransferEncoding(cte: string, body: bytes): Option<bytes> {
    match NormalizeCte(cte)
    case "quoted-printable" => QuotedPrintable.Decode(body)
    case "base64" => Base64.Decode(body)
    case _ => Some(body)
  }

  predicate LowerCase(s: string) {
    forall i :: 0 <= i < |s| ==> !('A' <= s[i] <= 'Z')
  }

  /** A lower-case name without blanks at its ends stands for itself. */
  lemma NormalizeName(cte: string)
    requires cte != "" && !IsSpace(cte[0]) && !IsSpace(cte[|cte| - 1]) && LowerCase(cte)
    ensures NormalizeCte(cte) == cte
  {
    assert ToLower(cte) == cte;
  }

  lemma NormalizeNames()
    ensures NormalizeCte("7bit") == "7bit"
    ensures NormalizeCte("8bit") == "8bit"
    ensures NormalizeCte("quoted-printable") == "quoted-printable"
    ensures NormalizeCte("base64") == "base64"
  {
    NormalizeName("7bit");
    NormalizeName("8bit");
    NormalizeName("quoted-printable");
    NormalizeName("base64");
  }

  predicate Spaces(s: string) {
    forall i :: 0 <= i < |s| ==> s[i] == ' ' || '\t' <= s[i] <= '\r'
  }

  /** A name, with none of its own at its ends, is found between any spaces. */
  lemma {:induction false} TrimsSpaces(front: string, name: string, back: string)
    requires Spaces(front) && Spaces(back)
    requires name != "" ==> !Spaces([name[0]]) && !Spaces([name[|name| - 1]])
    ensures TrimSpace(front + name + back) == name
    decreases |front| + |back|
  {
    var s := front + name + back;
    if front != [] {
      assert s[0] == front[0] && s[1..] == front[1..] + name + back;
      TrimsSpaces(front[1..], name, back);
    } else if back != [] {
      assert s[|s| - 1] == back[|back| - 1] && s[..|s| - 1] == front + name + back[..|back| - 1];
      TrimsSpaces(front, name, back[..|back| - 1]);
      if name == "" {
        assert s[0] == back[0] && s[1..] == front + name + back[1..];
        TrimsSpaces(front, name, back[1..]);
      } else {
        assert s[0] == name[0] && !Spaces([name[0]]);
      }
    } else {
      assert s == name;
    }
  }

  /** Names of encodings and charsets may be in any case, with spaces around them. */
  lemma NamesInAnyCase(front: string, name: string, back: string)
    requires Spaces(front) && Spaces(back) && name != "" && !Spaces([name[0]]) && !Spaces([name[|name| - 1]])
    ensures NormalizeCte(front + name + back) == ToLower(name)
    ensures forall i :: 0 <= i < |name| ==>
              ToLower(name)[i] == if 'A' <= name[i] <= 'Z' then name[i] - 'A' + 'a' else name[i]
  {
    TrimsSpaces(front, name, back);
  }
}
