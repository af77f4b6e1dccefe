/**
 * What may be relied on once a request was admitted: who may send it, whom it reaches, and which
 * texts its body has (internal/grpcservers/mail.go:197-295, internal/grpcservers/mailer.go:81-136).
 */
module RequestRules {
  import opened Bytes
  import opened LineEndings
  import opened MailTypes
  import opened PartPrinter
  import opened PartParser
  import opened ProtoTypes
  import opened ProtoConversion
  import opened InternetMessage
  import opened MailConversion
  import opened TransferDecoding
  import opened TreeFidelity
  import opened MailSender
  import opened Database
  import opened MailServer
  import Utf8

  // ----- permissions

  /** The roles a request needs: one to send at all, one for its sender, and one for each extra header. */
  function RequiredRoles(req: PbMail, sender: string): set<string> {
    {"mail", "mail-sender:" + sender}
    + set i | 0 <= i < |req.extraHeaders| && req.extraHeaders[i].Some? :: "mail-header:" + req.extraHeaders[i].value.key
  }

  predicate NoNilHeader(req: PbMail) {
    None !in req.extraHeaders
  }

  /** A mail is permitted exactly to those who have all these roles, and if it is not too large. */
  lemma PermittedIff(config: Config, roles: set<string>, req: PbMail, m: Mail)
    requires Encodable(m.body, m.contentType)
    ensures Permitted(config, roles, req, m) <==>
              && RequiredRoles(req, m.from.address) <= roles && NoNilHeader(req)
              && |WireForm(config.env, config.rendering, m)| <= 2_097_152
  {
    var hs := req.extraHeaders;
    if RequiredRoles(req, m.from.address) <= roles && NoNilHeader(req) {
      forall i | 0 <= i < |hs|
        ensures HeaderAllowed(roles, hs[i])
      {
        assert hs[i] in hs;
        assert "mail-header:" + hs[i].value.key in RequiredRoles(req, m.from.address);
      }
    }
    if forall i :: 0 <= i < |hs| ==> HeaderAllowed(roles, hs[i]) {
      assert forall i :: 0 <= i < |hs| ==> hs[i].Some? && "mail-header:" + hs[i].value.key in roles;
    }
  }

  /**
   * Whoever is admitted under authentication has the roles for the sender that the server is given,
   * and the message that it is given is not too large.
   */
  lemma AdmittedIsPermitted(config: Config, r: Request)
    requires Admitted(config, r) && !config.unauthenticated
    ensures r.roles.Some? && Sendable(AcceptedMail(config, r))
    ensures var d := DeliveryOf(config.env, config.rendering, AcceptedMail(config, r));
            && RequiredRoles(r.mail, d.from) <= r.roles.value && NoNilHeader(r.mail)
            && |d.message| <= 2_097_152
  {
    AcceptedIsPrintable(config, r);
    AcceptedIsSendable(config, r);
    PermittedIff(config, RolesOf(r.roles), r.mail, AcceptedMail(config, r));
  }

  // ----- recipients and identifiers

  /** The addresses of a list, one by one. */
  predicate SameAddresses(list: seq<Option<PbAddress>>, addresses: seq<Address>) {
    && |list| == |addresses|
    && forall i :: 0 <= i < |list| ==> list[i] == Some(PbMailAddress(addresses[i].name, addresses[i].address))
  }

  lemma ListIsSame(syntax: AddressSyntax, list: seq<Option<PbAddress>>)
    requires GoodAddresses(syntax, list)
    ensures SameAddresses(list, AddressesOf(syntax, list))
  {
    assert forall i :: 0 <= i < |list| ==> GoodAddress(syntax, list[i]);
  }

  /** An accepted mail has the addresses that were asked for, each in its own list. */
  lemma AcceptedAddresses(config: Config, r: Request)
    requires Accepted(config.syntax, r.mail, SenderOf(config, r.mail), r.now)
    ensures var m := AcceptedMail(config, r);
            && SameAddresses(r.mail.to, m.to) && SameAddresses(r.mail.cc, m.cc)
            && SameAddresses(r.mail.bcc, m.bcc) && SameAddresses(r.mail.replyTo, m.replyTo)
  {
    ListIsSame(config.syntax, r.mail.to);
    ListIsSame(config.syntax, r.mail.cc);
    ListIsSame(config.syntax, r.mail.bcc);
    ListIsSame(config.syntax, r.mail.replyTo);
  }

  /** An admitted request is delivered to all recipients it lists, and there is one. */
  lemma AdmittedReachesSomebody(config: Config, r: Request)
    requires Admitted(config, r)
    ensures |FinalRecipients(AcceptedMail(config, r))| == |r.mail.to| + |r.mail.cc| + |r.mail.bcc| > 0
  {
    AcceptedAddresses(config, r);
  }

  /** The sender is the one the server makes of the address that is asked for, or of none. */
  lemma AcceptedSender(config: Config, r: Request)
    requires Accepted(config.syntax, r.mail, SenderOf(config, r.mail), r.now)
    ensures forall name, address :: r.mail.from == Some(PbMailAddress(name, address)) ==>
              AcceptedMail(config, r).from == config.sender(Address(name, address))
    ensures (r.mail.from.None? || !r.mail.from.value.PbMailAddress?) ==>
              AcceptedMail(config, r).from == config.sender(Address("", ""))
    ensures AcceptedMail(config, r).date == r.now && AcceptedMail(config, r).subject == r.mail.subject
    ensures AcceptedMail(config, r).headers == []
  {
  }

  /** A request from the proxy asks for the sender of the mail it received. */
  lemma ProxySender(config: Config, m: Mail)
    requires Complete(m.body)
    ensures SenderOf(config, PbOfMail(m)) == config.sender(m.from)
  {
  }

  /** Two requests have the same message identifier exactly if they were drawn the same number. */
  lemma MessageIdsDiffer(config: Config, a: Request, b: Request)
    ensures MessageId(config, a) == MessageId(config, b) <==> a.uuid == b.uuid
  {
    var x, y := MessageId(config, a), MessageId(config, b);
    assert x[..|a.uuid|] == a.uuid && y[..|b.uuid|] == b.uuid;
    assert |x| == |a.uuid| + 1 + |config.suffix| && |y| == |b.uuid| + 1 + |config.suffix|;
  }

  // ----- addresses and extra headers

  /** The address reads as itself, with any name or none. */
  ghost predicate ReadsAsItself(syntax: AddressSyntax, address: string) {
    exists name :: syntax.read(address) == Some(Address(name, address))
  }

  /** The addresses that are accepted: plain ones that read as themselves, and still read with their name. */
  lemma GoodAddressIff(syntax: AddressSyntax, a: Option<PbAddress>)
    ensures GoodAddress(syntax, a) <==>
              && a.Some? && a.value.PbMailAddress? && ReadsAsItself(syntax, a.value.address)
              && syntax.read(syntax.write(Address(a.value.name, a.value.address))) != None
  {
    if GoodAddress(syntax, a) {
      var read := syntax.read(a.value.address).value;
      assert syntax.read(a.value.address) == Some(Address(read.name, a.value.address));
    }
  }

  /** What is read is never an empty address, and an address that reads back once written reads back as itself. */
  ghost predicate Consistent(syntax: AddressSyntax) {
    && (forall s :: syntax.read(s).Some? ==> syntax.read(s).value.address != "")
    && forall a: Address :: syntax.read(syntax.write(a)).Some? ==> syntax.read(syntax.write(a)) == Some(a)
  }

  lemma GoodListSurvives(syntax: AddressSyntax, list: seq<Option<PbAddress>>)
    requires Consistent(syntax) && GoodAddresses(syntax, list)
    ensures AddressesSurvive(syntax, AddressesOf(syntax, list))
  {
    var addresses := AddressesOf(syntax, list);
    forall i | 0 <= i < |addresses|
      ensures AddressSurvives(syntax, addresses[i])
    {
      assert GoodAddress(syntax, list[i]);
    }
  }

  /** Then the addresses of an accepted request survive storage. */
  lemma AcceptedSurvives(config: Config, r: Request)
    requires Consistent(config.syntax) && Accepted(config.syntax, r.mail, SenderOf(config, r.mail), r.now)
    ensures EnvelopeSurvives(config.syntax, AcceptedMail(config, r))
  {
    GoodListSurvives(config.syntax, r.mail.replyTo);
    GoodListSurvives(config.syntax, r.mail.to);
    GoodListSurvives(config.syntax, r.mail.cc);
    GoodListSurvives(config.syntax, r.mail.bcc);
  }

  /** No accepted request asks for a reserved header or for one with a bad key, or names a type that does not parse. */
  lemma AcceptedExtras(config: Config, r: Request)
    requires Accepted(config.syntax, r.mail, SenderOf(config, r.mail), r.now)
    ensures forall i :: 0 <= i < |r.mail.extraHeaders| ==>
              && r.mail.extraHeaders[i].Some? && KeyLike(r.mail.extraHeaders[i].value.key)
              && !Reserved(r.mail.extraHeaders[i].value.key)
    ensures r.mail.contentType.Some? ==> r.mail.contentType.value.raw != "" && r.mail.contentType.value.media.Some?
  {
    forall i | 0 <= i < |r.mail.extraHeaders|
      ensures r.mail.extraHeaders[i].Some? && KeyLike(r.mail.extraHeaders[i].value.key)
      ensures !Reserved(r.mail.extraHeaders[i].value.key)
    {
      assert GoodExtraHeader(r.mail.extraHeaders[i]);
      HeaderCharacters(r.mail.extraHeaders[i].value.key);
    }
  }

  // ----- simple mails

  /** The leaves of a tree, from left to right, with their content types. */
  function LeavesOf(contentType: ContentType, p: Part): seq<Child>
    decreases p
  {
    match p
    case Multipart(children) => LeavesBefore(children, |children|)
    case _ => [Child(contentType, [], p)]
  }

  function LeavesBefore(children: seq<Child>, n: nat): seq<Child>
    requires n <= |children|
    decreases children, n
  {
    if n == 0 then [] else LeavesBefore(children, n - 1) + LeavesOf(children[n - 1].contentType, children[n - 1].part)
  }

  lemma {:induction false} LeavesOfLeaves(children: seq<Child>, n: nat)
    requires n <= |children|
    requires forall i :: 0 <= i < n ==> !children[i].part.Multipart? && children[i].headers == []
    ensures LeavesBefore(children, n) == children[..n]
  {
    if n > 0 {
      LeavesOfLeaves(children, n - 1);
      assert children[..n] == children[..n - 1] + [children[n - 1]];
    }
  }

  lemma {:induction false} LeavesOfFirst(first: Child, rest: seq<Child>, n: nat)
    requires n <= |rest|
    requires forall i :: 0 <= i < |rest| ==> !rest[i].part.Multipart? && rest[i].headers == []
    ensures LeavesBefore([first] + rest, n + 1) == LeavesOf(first.contentType, first.part) + rest[..n]
  {
    if n > 0 {
      LeavesOfFirst(first, rest, n - 1);
      assert rest[..n] == rest[..n - 1] + [rest[n - 1]];
      Assoc(LeavesOf(first.contentType, first.part), rest[..n - 1], [rest[n - 1]]);
    }
  }

  function TextLeaf(contentType: ContentType, text: Option<bytes>): seq<Child> {
    if text.None? then [] else [Child(contentType, [], Text(text.value))]
  }

  lemma TextLeaves(plain: Option<bytes>, html: Option<bytes>)
    ensures SimpleText(plain, html).Ok? <==> plain.Some? || html.Some?
    ensures SimpleText(plain, html).Ok? ==>
              && LeavesOf(SimpleText(plain, html).value.contentType, SimpleText(plain, html).value.part) ==
                 TextLeaf(PLAIN_TEXT, plain) + TextLeaf(HTML_TEXT, html)
              && SimpleText(plain, html).value.contentType.raw ==
                 if plain.Some? && html.Some? then "multipart/alternative"
                 else if plain.Some? then "text/plain; charset=utf-8" else "text/html; charset=utf-8"
  {
    if plain.Some? && html.Some? {
      var children := SimpleText(plain, html).value.part.children;
      LeavesOfLeaves(children, 2);
      assert children[..2] == TextLeaf(PLAIN_TEXT, plain) + TextLeaf(HTML_TEXT, html);
    }
  }

  lemma AttachedIff(attachments: seq<Option<PbAttachment>>)
    ensures AllAttached(attachments) <==> None !in attachments
  {
    if None !in attachments {
      assert forall i :: 0 <= i < |attachments| ==> attachments[i] in attachments;
    }
  }

  lemma AttachedLeaves(text: TypedBody, attachments: seq<Option<PbAttachment>>)
    requires AllAttached(attachments)
    ensures var body := WithAttachments(text, attachments).value;
            LeavesOf(body.contentType, body.part) ==
            LeavesOf(text.contentType, text.part) + AttachmentChildren(attachments)
    ensures attachments != [] ==>
              var body := WithAttachments(text, attachments).value;
              && body.contentType.raw == "multipart/mixed"
              && body.part.Multipart? && body.part.children[0] == Child(text.contentType, [], text.part)
  {
    var more := AttachmentChildren(attachments);
    if attachments == [] {
      assert more == [];
    } else {
      LeavesOfFirst(Child(text.contentType, [], text.part), more, |more|);
      assert more[..|more|] == more;
    }
  }

  /** The simple mails that have a body. */
  lemma SimpleMailIff(req: PbMail)
    requires req.body.PbSimpleMail?
    ensures BodyOf(req).Ok? <==>
              && req.contentType.None? && (req.body.plain.Some? || req.body.html.Some?)
              && None !in req.body.attachments
  {
    AttachedIff(req.body.attachments);
  }

  /**
   * A simple mail has its plain text, its HTML and its attachments as leaves, in this order, each
   * under its own content type, and none is lost.
   */
  lemma SimpleMailLeaves(req: PbMail)
    requires req.body.PbSimpleMail? && BodyOf(req).Ok?
    ensures AllAttached(req.body.attachments)
    ensures LeavesOf(BodyOf(req).value.contentType, BodyOf(req).value.part) ==
            TextLeaf(PLAIN_TEXT, req.body.plain) + TextLeaf(HTML_TEXT, req.body.html)
            + AttachmentChildren(req.body.attachments)
  {
    TextLeaves(req.body.plain, req.body.html);
    AttachedLeaves(SimpleText(req.body.plain, req.body.html).value, req.body.attachments);
  }

  /** An attachment keeps its octets, and is of no particular type unless it names one. */
  lemma AttachmentsAreKept(attachments: seq<Option<PbAttachment>>, i: nat)
    requires AllAttached(attachments) && i < |attachments|
    ensures |AttachmentChildren(attachments)| == |attachments|
    ensures var c := AttachmentChildren(attachments)[i];
            && c.part == Binary(attachments[i].value.content) && c.headers == []
            && c.contentType.raw == match attachments[i].value.contentType
                                    case Some(contentType) => contentType.raw
                                    case None => "application/octet-stream"
  {
  }

  // ----- default types

  predicate KindFits(p: Part, contentType: ContentType) {
    match p
    case Text(_) => HasPrefix(MediaOf(contentType).mediaType, "text/") && Utf8Charset(MediaOf(contentType).charset)
    case Binary(_) => !HasPrefix(MediaOf(contentType).mediaType, "text/")
    case _ => true
  }

  /** The content types that are given fit the parts below them. */
  predicate GivenTypesFit(p: Part, contentType: ContentType) {
    && (contentType.raw != "" ==> KindFits(p, contentType))
    && (p.Multipart? ==>
          forall i :: 0 <= i < |p.children| ==> GivenTypesFit(p.children[i].part, p.children[i].contentType))
  }

  lemma DefaultsFit(p: Part, contentType: ContentType)
    requires contentType.raw == "" && !p.Nil?
    ensures KindFits(p, Filled(contentType, p))
    ensures p.Multipart? ==> Filled(contentType, p).raw == "multipart/mixed" && Requires7Or8Bit(Filled(contentType, p))
  {
    NormalizeName("utf-8");
    assert "text/" <= "text/plain" && "application/octet-stream"[0] != "text/"[0];
    assert "multipart/" <= "multipart/mixed";
  }

  /** A valid tree whose missing types were filled in has types that match its parts, if those given do. */
  lemma {:induction false} FilledTypesMatch(p: Part, contentType: ContentType)
    requires ValidPart(FillTypes(p), Filled(contentType, p)) && GivenTypesFit(p, contentType)
    ensures TypesMatchKinds(FillTypes(p), Filled(contentType, p))
    decreases p
  {
    if contentType.raw == "" {
      DefaultsFit(p, contentType);
    }
    if p.Multipart? {
      var filled := FillTypes(p).children;
      forall i | 0 <= i < |p.children|
        ensures TypesMatchKinds(filled[i].part, filled[i].contentType)
      {
        assert ValidChild(filled[i]);
        FilledTypesMatch(p.children[i].part, p.children[i].contentType);
      }
    }
  }
}
