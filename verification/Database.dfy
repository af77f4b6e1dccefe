/** Mails as rows of the `mails` table: internal/database/mail.go. */
module Database {
  import opened Bytes
  import opened MailTypes
  import opened PartPrinter
  import opened InternetMessage
  import opened MailConversion

  /** The `partV1` tree of the JSON body column. */
  datatype DbPart = DbPart(
    headers: seq<Header>,
    contentType: ContentType,
    text: bytes,
    data: bytes,
    children: seq<DbPart>)

  // ----- writing the tree

  function BlankNode(headers: seq<Header>, contentType: ContentType): DbPart {
    DbPart(headers, contentType, [], [], [])
  }

  /** `root` after the content of `p` has been written into it. */
  function Stored(p: Part, root: DbPart): DbPart
    requires Complete(p)
    decreases p
  {
    match p
    case Text(text) => root.(text := text)
    case Binary(data) => root.(data := data)
    case Multipart(children) =>
      root.(children := seq(|children|, i requires 0 <= i < |children| =>
        Stored(children[i].part, BlankNode(children[i].headers, children[i].contentType))))
  }

  function StoredChild(c: Child): DbPart
    requires Complete(c.part)
  {
    Stored(c.part, BlankNode(c.headers, c.contentType))
  }

  /** A variable whose address is passed on. */
  class PartCell {
    var value: DbPart

    constructor (value: DbPart)
      ensures this.value == value
    {
      this.value := value;
    }
  }

  /** Writes through the pointer; a part of an unknown kind leaves the target as it was. */
  method BuildMailBodyDbObject(p: Part, root: PartCell) returns (ok: bool)
    modifies root
    ensures ok <==> Complete(p)
    ensures ok ==> root.value == Stored(p, old(root.value))
    ensures !ok ==> root.value == old(root.value)
    decreases p
  {
    match p {
      case Text(text) => root.value := root.value.(text := text);
      case Binary(data) => root.value := root.value.(data := data);
      case Multipart(mailerChildren) =>
        var children: seq<DbPart> := [];
        for i := 0 to |mailerChildren|
          invariant root.value == old(root.value)
          invariant |children| == i
          invariant forall k :: 0 <= k < i ==>
            Complete(mailerChildren[k].part) && children[k] == StoredChild(mailerChildren[k])
        {
          var child := mailerChildren[i];
          var headerList: seq<Header> := [];
          for k := 0 to |child.headers|
            invariant headerList == child.headers[..k]
          {
            headerList := headerList + [Header(child.headers[k].key, child.headers[k].value)];
          }
          assert headerList == child.headers;
          var childPart := new PartCell(BlankNode(headerList, child.contentType));
          ok := BuildMailBodyDbObject(child.part, childPart);
          if !ok {
            return false;
          }
          children := children + [childPart.value];
        }
        root.value := root.value.(children := children);
        assert root.value == Stored(p, old(root.value));
      case Nil => return false;
    }
    ok := true;
  }

  // ----- reading the tree

  /** Children win over text, text over data; a node with none of them gives the nil part. */
  function Reconstructed(node: DbPart): Part {
    if node.children != [] then
      Multipart(seq(|node.children|, i requires 0 <= i < |node.children| =>
        Child(node.children[i].contentType, node.children[i].headers, Reconstructed(node.children[i]))))
    else if node.text != [] then Text(node.text)
    else if node.data != [] then Binary(node.data)
    else Nil
  }

  method ReconstructMailBodyFromDbObject(root: DbPart) returns (p: Part)
    ensures p == Reconstructed(root)
    decreases root
  {
    p := Nil;
    if |root.children| > 0 {
      var childParts: seq<Child> := [];
      for i := 0 to |root.children|
        invariant |childParts| == i
        invariant forall k :: 0 <= k < i ==>
          var c := root.children[k];
          childParts[k] == Child(c.contentType, c.headers, Reconstructed(c))
      {
        var child := root.children[i];
        var part := ReconstructMailBodyFromDbObject(child);
        childParts := childParts + [Child(child.contentType, child.headers, part)];
      }
      p := Multipart(childParts);
    } else if root.text != [] {
      p := Text(root.text);
    } else if root.data != [] {
      p := Binary(root.data);
    }
  }

  // ----- there and back

  /** The tree with every empty text, empty binary and childless multipart turned into the nil part. */
  function Hollow(p: Part): Part {
    match p
    case Nil => Nil
    case Text(text) => if text == [] then Nil else p
    case Binary(data) => if data == [] then Nil else p
    case Multipart(children) =>
      if children == [] then Nil
      else Multipart(seq(|children|, i requires 0 <= i < |children| =>
        Child(children[i].contentType, children[i].headers, Hollow(children[i].part))))
  }

  predicate NoEmptyNode(p: Part): (r: bool)
    ensures r ==> Complete(p)
  {
    match p
    case Nil => false
    case Text(text) => text != []
    case Binary(data) => data != []
    case Multipart(children) =>
      children != [] && forall i :: 0 <= i < |children| ==> NoEmptyNode(children[i].part)
  }

  /** Reading back what was written turns the empty nodes into nil and changes nothing else. */
  lemma {:induction false} StorageRoundTrip(p: Part, headers: seq<Header>, contentType: ContentType)
    requires Complete(p)
    ensures var node := Stored(p, BlankNode(headers, contentType));
            node.headers == headers && node.contentType == contentType && Reconstructed(node) == Hollow(p)
    decreases p
  {
    if p.Multipart? {
      var node := Stored(p, BlankNode(headers, contentType));
      forall i | 0 <= i < |p.children|
        ensures var c := node.children[i];
                Child(c.contentType, c.headers, Reconstructed(c)) ==
                Child(p.children[i].contentType, p.children[i].headers, Hollow(p.children[i].part))
      {
        assert node.children[i] == StoredChild(p.children[i]);
        StorageRoundTrip(p.children[i].part, p.children[i].headers, p.children[i].contentType);
      }
      if p.children != [] {
        assert Reconstructed(node).children == Hollow(p).children;
      }
    }
  }

  /** Nothing is lost exactly for trees without an empty node. */
  lemma {:induction false} HollowIsIdentityIff(p: Part)
    requires Complete(p)
    ensures Hollow(p) == p <==> NoEmptyNode(p)
    decreases p
  {
    if p.Multipart? && p.children != [] {
      var hollow := Hollow(p).children;
      forall i | 0 <= i < |p.children|
        ensures hollow[i] == p.children[i] <==> NoEmptyNode(p.children[i].part)
      {
        HollowIsIdentityIff(p.children[i].part);
      }
      assert Hollow(p) == p <==> forall i :: 0 <= i < |p.children| ==> hollow[i] == p.children[i];
    }
  }

  /** A tree that can be printed at all comes back from storage exactly when it comes back unchanged. */
  lemma {:induction false} HollowIsCompleteIff(p: Part)
    requires Complete(p)
    ensures Complete(Hollow(p)) <==> NoEmptyNode(p)
    decreases p
  {
    if p.Multipart? {
      forall i | 0 <= i < |p.children|
        ensures Complete(Hollow(p.children[i].part)) <==> NoEmptyNode(p.children[i].part)
      {
        HollowIsCompleteIff(p.children[i].part);
      }
      if p.children != [] {
        var hollow := Hollow(p).children;
        assert forall i :: 0 <= i < |p.children| ==> hollow[i].part == Hollow(p.children[i].part);
        assert Complete(Hollow(p)) <==> forall i :: 0 <= i < |p.children| ==> Complete(hollow[i].part);
      }
    }
  }

  // ----- whole mails

  /** The `mail_status` type of sql/migrations/0000-mail.sql. */
  datatype Status = Submitted | Processing | Failed | Sent

  /** The columns that a mail is stored in. */
  datatype MailColumns = MailColumns(
    fromAddress: string,
    replyTo: seq<string>,
    toAddresses: seq<string>,
    ccAddresses: seq<string>,
    bccAddresses: seq<string>,
    extraHeaders: seq<Header>,
    subject: string,
    body: DbPart,
    messageId: string,
    dateHeader: int)

  function AddressStrings(syntax: AddressSyntax, addresses: seq<Address>): seq<string> {
    seq(|addresses|, i requires 0 <= i < |addresses| => syntax.write(addresses[i]))
  }

  function ColumnsOf(syntax: AddressSyntax, m: Mail): MailColumns
    requires Complete(m.body)
  {
    MailColumns(syntax.write(m.from), AddressStrings(syntax, m.replyTo), AddressStrings(syntax, m.to),
                AddressStrings(syntax, m.cc), AddressStrings(syntax, m.bcc), m.headers, m.subject,
                Stored(m.body, BlankNode([], m.contentType)), m.messageId, m.date)
  }

  method ToAddressList(syntax: AddressSyntax, addresses: seq<Address>) returns (r: seq<string>)
    ensures r == AddressStrings(syntax, addresses)
  {
    r := [];
    for i := 0 to |addresses|
      invariant |r| == i && forall k :: 0 <= k < i ==> r[k] == syntax.write(addresses[k])
    {
      r := r + [syntax.write(addresses[i])];
    }
  }

  method MailToDBEntity(syntax: AddressSyntax, m: Mail) returns (r: Option<MailColumns>)
    ensures r == if Complete(m.body) then Some(ColumnsOf(syntax, m)) else None
  {
    var headers: seq<Header> := [];
    for i := 0 to |m.headers|
      invariant headers == m.headers[..i]
    {
      headers := headers + [m.headers[i]];
    }
    assert headers == m.headers;
    var root := new PartCell(BlankNode([], m.contentType));
    var ok := BuildMailBodyDbObject(m.body, root);
    if !ok {
      return None;
    }
    var replyTo := ToAddressList(syntax, m.replyTo);
    var to := ToAddressList(syntax, m.to);
    var cc := ToAddressList(syntax, m.cc);
    var bcc := ToAddressList(syntax, m.bcc);
    r := Some(MailColumns(syntax.write(m.from), replyTo, to, cc, bcc, headers, m.subject, root.value,
                          m.messageId, m.date));
  }

  predicate StoredAddress(syntax: AddressSyntax, s: string) {
    syntax.read(s).Some? && syntax.read(s).value.address != ""
  }

  predicate StoredAddresses(syntax: AddressSyntax, list: seq<string>) {
    forall i :: 0 <= i < |list| ==> StoredAddress(syntax, list[i])
  }

  function ReadAddresses(syntax: AddressSyntax, list: seq<string>): seq<Address>
    requires StoredAddresses(syntax, list)
  {
    seq(|list|, i requires 0 <= i < |list| => assert StoredAddress(syntax, list[i]); syntax.read(list[i]).value)
  }

  predicate Readable(syntax: AddressSyntax, row: MailColumns) {
    && StoredAddress(syntax, row.fromAddress)
    && StoredAddresses(syntax, row.replyTo) && StoredAddresses(syntax, row.toAddresses)
    && StoredAddresses(syntax, row.ccAddresses) && StoredAddresses(syntax, row.bccAddresses)
  }

  function MailOfColumns(syntax: AddressSyntax, row: MailColumns): Mail
    requires Readable(syntax, row)
  {
    Mail(syntax.read(row.fromAddress).value, ReadAddresses(syntax, row.replyTo),
         ReadAddresses(syntax, row.toAddresses), ReadAddresses(syntax, row.ccAddresses),
         ReadAddresses(syntax, row.bccAddresses), row.subject, row.dateHeader, row.messageId,
         row.body.contentType, row.extraHeaders, Reconstructed(row.body))
  }

  method FromAddressList(syntax: AddressSyntax, list: seq<string>) returns (r: Option<seq<Address>>)
    ensures r == if StoredAddresses(syntax, list) then Some(ReadAddresses(syntax, list)) else None
  {
    var out: seq<Address> := [];
    for i := 0 to |list|
      invariant forall k :: 0 <= k < i ==> StoredAddress(syntax, list[k])
      invariant |out| == i && forall k :: 0 <= k < i ==> out[k] == syntax.read(list[k]).value
    {
      var parsed := syntax.read(list[i]);
      if parsed.None? || parsed.value.address == "" {
        return None;
      }
      out := out + [parsed.value];
    }
    assert out == ReadAddresses(syntax, list);
    r := Some(out);
  }

  method DBEntityToMail(syntax: AddressSyntax, row: MailColumns) returns (r: Option<Mail>)
    ensures r == if Readable(syntax, row) then Some(MailOfColumns(syntax, row)) else None
  {
    var from := syntax.read(row.fromAddress);
    var replyTo := FromAddressList(syntax, row.replyTo);
    var to := FromAddressList(syntax, row.toAddresses);
    var cc := FromAddressList(syntax, row.ccAddresses);
    var bcc := FromAddressList(syntax, row.bccAddresses);
    if from.None? || from.value.address == "" || replyTo.None? || to.None? || cc.None? || bcc.None? {
      return None;
    }
    var body := ReconstructMailBodyFromDbObject(row.body);
    r := Some(Mail(from.value, replyTo.value, to.value, cc.value, bcc.value, row.subject, row.dateHeader,
                   row.messageId, row.body.contentType, row.extraHeaders, body));
  }

  /** An address that reads back as it was written. */
  predicate AddressSurvives(syntax: AddressSyntax, a: Address) {
    a.address != "" && syntax.read(syntax.write(a)) == Some(a)
  }

  predicate AddressesSurvive(syntax: AddressSyntax, addresses: seq<Address>) {
    forall i :: 0 <= i < |addresses| ==> AddressSurvives(syntax, addresses[i])
  }

  predicate EnvelopeSurvives(syntax: AddressSyntax, m: Mail) {
    && AddressSurvives(syntax, m.from)
    && AddressesSurvive(syntax, m.replyTo) && AddressesSurvive(syntax, m.to)
    && AddressesSurvive(syntax, m.cc) && AddressesSurvive(syntax, m.bcc)
  }

  lemma AddressListReturns(syntax: AddressSyntax, addresses: seq<Address>)
    requires AddressesSurvive(syntax, addresses)
    ensures StoredAddresses(syntax, AddressStrings(syntax, addresses))
    ensures ReadAddresses(syntax, AddressStrings(syntax, addresses)) == addresses
  {
    var list := AddressStrings(syntax, addresses);
    forall i | 0 <= i < |list|
      ensures syntax.read(list[i]) == Some(addresses[i]) && addresses[i].address != ""
    {
      assert AddressSurvives(syntax, addresses[i]);
    }
  }

  /** A stored mail comes back with every column intact and its body hollowed. */
  lemma RowRoundTrip(syntax: AddressSyntax, m: Mail)
    requires Complete(m.body) && EnvelopeSurvives(syntax, m)
    ensures Readable(syntax, ColumnsOf(syntax, m))
    ensures MailOfColumns(syntax, ColumnsOf(syntax, m)) == m.(body := Hollow(m.body))
    ensures MailOfColumns(syntax, ColumnsOf(syntax, m)) == m <==> NoEmptyNode(m.body)
  {
    AddressListReturns(syntax, m.replyTo);
    AddressListReturns(syntax, m.to);
    AddressListReturns(syntax, m.cc);
    AddressListReturns(syntax, m.bcc);
    StorageRoundTrip(m.body, [], m.contentType);
    HollowIsIdentityIff(m.body);
  }

  /** What kind of part a stored node stands for: children come first, then text, then octets. */
  lemma KindOfNode(node: DbPart)
    ensures Reconstructed(node).Multipart? <==> node.children != []
    ensures Reconstructed(node).Text? <==> node.children == [] && node.text != []
    ensures Reconstructed(node).Binary? <==> node.children == [] && node.text == [] && node.data != []
    ensures Reconstructed(node).Text? ==> Reconstructed(node).text == node.text
    ensures Reconstructed(node).Binary? ==> Reconstructed(node).data == node.data
    ensures Reconstructed(node).Multipart? ==> |Reconstructed(node).children| == |node.children|
  {
  }

  /** A mail that is read from a row has no empty address. */
  lemma ReadAddressesAreThere(syntax: AddressSyntax, row: MailColumns)
    requires Readable(syntax, row)
    ensures var m := MailOfColumns(syntax, row);
            && m.from.address != ""
            && forall a :: a in m.to + m.cc + m.bcc + m.replyTo ==> a.address != ""
  {
    var m := MailOfColumns(syntax, row);
    forall a | a in m.to + m.cc + m.bcc + m.replyTo
      ensures a.address != ""
    {
      assert forall i :: 0 <= i < |row.toAddresses| ==> StoredAddress(syntax, row.toAddresses[i]);
      assert forall i :: 0 <= i < |row.ccAddresses| ==> StoredAddress(syntax, row.ccAddresses[i]);
      assert forall i :: 0 <= i < |row.bccAddresses| ==> StoredAddress(syntax, row.bccAddresses[i]);
      assert forall i :: 0 <= i < |row.replyTo| ==> StoredAddress(syntax, row.replyTo[i]);
    }
  }
}
