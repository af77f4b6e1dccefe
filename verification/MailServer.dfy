/**
 * The API's two ways to send a mail, at once or through the queue: internal/grpcservers/mail.go, and
 * what the queue's worker makes of a request (internal/dispatcher/queuehandler.go:102-118).
 */
module MailServer {
  import opened Bytes
  import opened LineEndings
  import opened MailTypes
  import opened PartPrinter
  import opened ProtoTypes
  import opened InternetMessage
  import opened MailConversion
  import opened Database
  import opened MailSender
  import opened MailQueue
  import LostMessages
  import ProtoConversion
  import Utf8

  const MAX_MAIL_SIZE_BYTES := 2 * 1024 * 1024

  datatype PermissionError =
    | MayNotMail
    | MayNotSendFrom
    | HeaderIsNil
    | MayNotSetHeader
    | TooLarge

  datatype Code =
    | NoReceiver
    | NoContent
    | Unauthenticated
    | Rejected(error: MailError)
    | PermissionDenied(errors: seq<PermissionError>)
    | TransmissionFailed
    | InsertFailed

  /** What a server is configured with. `None` roles are a request without a token. */
  datatype Config = Config(
    syntax: AddressSyntax,
    env: Env,
    rendering: Rendering,
    sender: Address -> Address,
    suffix: string,
    unauthenticated: bool)

  /** One request with the values that are drawn for it. */
  datatype Request = Request(mail: PbMail, roles: Option<set<string>>, uuid: string, now: int)

  // ----- permissions

  function RolesOf(roles: Option<set<string>>): set<string> {
    roles.UnwrapOr({})
  }

  predicate HeaderAllowed(roles: set<string>, h: Option<Header>) {
    h.Some? && "mail-header:" + h.value.key in roles
  }

  predicate Permitted(config: Config, roles: set<string>, req: PbMail, m: Mail)
    requires Encodable(m.body, m.contentType)
  {
    && "mail" in roles
    && "mail-sender:" + m.from.address in roles
    && (forall i :: 0 <= i < |req.extraHeaders| ==> HeaderAllowed(roles, req.extraHeaders[i]))
    && |WireForm(config.env, config.rendering, m)| <= MAX_MAIL_SIZE_BYTES
  }

  method CheckSendPermission(config: Config, roles: set<string>, req: PbMail, m: Mail)
    returns (errors: seq<PermissionError>)
    requires Printable(m) && ValidMail(m)
    ensures Encodable(m.body, m.contentType)
    ensures errors == [] <==> Permitted(config, roles, req, m)
  {
    ValidMailIsEncodable(m);
    ValidNeverFaults(m);
    errors := [];
    if "mail" !in roles {
      errors := errors + [MayNotMail];
    }
    if "mail-sender:" + m.from.address !in roles {
      errors := errors + [MayNotSendFrom];
    }
    ghost var before := errors;
    for i := 0 to |req.extraHeaders|
      invariant errors == [] <==>
        before == [] && forall k :: 0 <= k < i ==> HeaderAllowed(roles, req.extraHeaders[k])
    {
      match req.extraHeaders[i] {
        case None =>
          errors := errors + [HeaderIsNil];
        case Some(h) =>
          if "mail-header:" + h.key !in roles {
            errors := errors + [MayNotSetHeader];
          }
      }
    }
    var message := GetInternetMessageFormat(config.env.(has8Bit := false), config.rendering, m);
    if |message.text| > MAX_MAIL_SIZE_BYTES {
      errors := errors + [TooLarge];
    }
  }

  // ----- requests

  function SenderOf(config: Config, req: PbMail): Address {
    match req.from
    case Some(PbMailAddress(name, address)) => config.sender(Address(name, address))
    case _ => config.sender(Address("", ""))
  }

  function MessageId(config: Config, r: Request): string {
    r.uuid + "@" + config.suffix
  }

  predicate HasReceiver(req: PbMail) {
    req.to != [] || req.cc != [] || req.bcc != []
  }

  /** The mail a request leads to, if it is accepted. */
  function AcceptedMail(config: Config, r: Request): Mail
    requires Accepted(config.syntax, r.mail, SenderOf(config, r.mail), r.now)
  {
    MailOf(config.syntax, r.mail, SenderOf(config, r.mail), r.now, BodyOf(r.mail).value)
      .(messageId := MessageId(config, r))
  }

  lemma AcceptedIsPrintable(config: Config, r: Request)
    requires Accepted(config.syntax, r.mail, SenderOf(config, r.mail), r.now)
    ensures Printable(AcceptedMail(config, r)) && ValidMail(AcceptedMail(config, r))
    ensures Encodable(AcceptedMail(config, r).body, AcceptedMail(config, r).contentType)
  {
    BodyIsComplete(r.mail);
    ValidMailIsEncodable(AcceptedMail(config, r));
  }

  /** What is asked of a request before it is converted. */
  predicate Presentable(config: Config, r: Request) {
    && HasReceiver(r.mail)
    && r.mail.subject != "" && !r.mail.body.PbBodyUnset?
    && (r.roles.Some? || config.unauthenticated)
  }

  predicate Admitted(config: Config, r: Request) {
    && Presentable(config, r)
    && Accepted(config.syntax, r.mail, SenderOf(config, r.mail), r.now)
    && (AcceptedIsPrintable(config, r);
        Permitted(config, RolesOf(r.roles), r.mail, AcceptedMail(config, r)) || config.unauthenticated)
  }

  method CheckRequest(config: Config, r: Request) returns (refusal: Option<Code>)
    ensures refusal.None? <==> Presentable(config, r)
    ensures refusal ==
            if |r.mail.to| + |r.mail.cc| + |r.mail.bcc| == 0 then Some(NoReceiver)
            else if r.mail.subject == "" || r.mail.body == PbBodyUnset then Some(NoContent)
            else if r.roles == None && config.unauthenticated == false then Some(Unauthenticated)
            else None
  {
    if |r.mail.to| == 0 && |r.mail.cc| == 0 && |r.mail.bcc| == 0 {
      return Some(NoReceiver);
    }
    if r.mail.subject == "" || r.mail.body.PbBodyUnset? {
      return Some(NoContent);
    }
    if r.roles.None? && !config.unauthenticated {
      return Some(Unauthenticated);
    }
    refusal := None;
  }

  method PreprocessIncomingMailRequest(config: Config, r: Request) returns (m: Result<Mail, Code>)
    ensures m.Ok? <==> Admitted(config, r)
    ensures m.Ok? ==> m.value == AcceptedMail(config, r)
    ensures m.Err? ==>
              match m.error
              case PermissionDenied(errors) =>
                errors != [] && Accepted(config.syntax, r.mail, SenderOf(config, r.mail), r.now)
              case Rejected(_) =>
                Presentable(config, r) && !Accepted(config.syntax, r.mail, SenderOf(config, r.mail), r.now)
              case _ => !Presentable(config, r)
  {
    var refusal := CheckRequest(config, r);
    if refusal.Some? {
      return Err(refusal.value);
    }
    var sender := SenderOf(config, r.mail);
    var converted := PbMailToValidatedMail(config.syntax, r.mail, sender, r.now);
    if converted.Err? {
      return Err(Rejected(converted.error));
    }
    var validatedMail := converted.value.(messageId := MessageId(config, r));
    AcceptedIsPrintable(config, r);
    assert validatedMail == AcceptedMail(config, r);
    var errors := CheckSendPermission(config, RolesOf(r.roles), r.mail, validatedMail);
    if errors != [] && !config.unauthenticated {
      return Err(PermissionDenied(errors));
    }
    m := Ok(validatedMail);
  }

  lemma AcceptedIsSendable(config: Config, r: Request)
    requires Accepted(config.syntax, r.mail, SenderOf(config, r.mail), r.now)
    ensures Sendable(AcceptedMail(config, r)) && !Breaks(AcceptedMail(config, r))
  {
    AcceptedIsPrintable(config, r);
    SendableNeverBreaks(AcceptedMail(config, r));
    assert '@' in MessageId(config, r);
  }

  /** The columns a request is stored in. */
  function AcceptedColumns(config: Config, r: Request): MailColumns
    requires Accepted(config.syntax, r.mail, SenderOf(config, r.mail), r.now)
  {
    AcceptedIsPrintable(config, r);
    ColumnsOf(config.syntax, AcceptedMail(config, r))
  }

  /** The server with its two effects: mails handed to the mail sender, and rows of the table. */
  class Server {
    const config: Config
    const sender: Sender
    const table: MailTable

    constructor (config: Config, sender: Sender, table: MailTable)
      ensures this.config == config && this.sender == sender && this.table == table
    {
      this.config, this.sender, this.table := config, sender, table;
    }

    /** Transmits first; a failing insert afterwards is not reported. */
    method SendMail(r: Request, accepts: bool, inserts: bool) returns (response: Result<string, Code>)
      requires table.Valid()
      modifies sender`sent, table
      ensures table.Valid()
      ensures response.Ok? <==> Admitted(config, r) && accepts
      ensures response.Ok? ==>
                && response.value == MessageId(config, r)
                && sender.sent == old(sender.sent) + [AcceptedMail(config, r)]
                && table.rows == (if !inserts then old(table.rows)
                                  else old(table.rows)[old(table.nextId) :=
                                         QueueRow(AcceptedColumns(config, r), Sent, None)])
      ensures table.nextId == old(table.nextId) + (if response.Ok? && inserts then 1 else 0)
      ensures response.Err? ==> sender.sent == old(sender.sent) && table.rows == old(table.rows)
    {
      var m := PreprocessIncomingMailRequest(config, r);
      if m.Err? {
        return Err(m.error);
      }
      AcceptedIsPrintable(config, r);
      AcceptedIsSendable(config, r);
      var entity := MailToDBEntity(config.syntax, m.value);
      var sending, _ := sender.TransmitMail(m.value, accepts);
      if sending != Delivered {
        return Err(TransmissionFailed);
      }
      if inserts {
        var _ := table.CreateMail(entity.value, Sent);
      }
      response := Ok(m.value.messageId);
    }

    /** Stores the mail; nothing is transmitted yet. */
    method QueueMail(r: Request, inserts: bool) returns (response: Result<string, Code>)
      requires table.Valid()
      modifies table
      ensures table.Valid()
      ensures response.Ok? <==> Admitted(config, r) && inserts
      ensures response.Ok? ==>
                && response.value == MessageId(config, r)
                && table.nextId == old(table.nextId) + 1
                && table.rows == old(table.rows)[old(table.nextId) :=
                                   QueueRow(AcceptedColumns(config, r), Submitted, None)]
      ensures response.Err? ==> table.rows == old(table.rows) && table.nextId == old(table.nextId)
    {
      var m := PreprocessIncomingMailRequest(config, r);
      if m.Err? {
        return Err(m.error);
      }
      AcceptedIsPrintable(config, r);
      var entity := MailToDBEntity(config.syntax, m.value);
      if !inserts {
        return Err(InsertFailed);
      }
      var _ := table.CreateMail(entity.value, Submitted);
      response := Ok(m.value.messageId);
    }
  }

  // ----- the queued way is the direct way

  /**
   * The mail rebuilt from a row is the one that `SendMail` would transmit if and only if no node of
   * its body is empty.  Otherwise it differs in the body alone, and that body has a nil part.
   */
  lemma QueuedIsDirect(syntax: AddressSyntax, m: Mail)
    requires Complete(m.body) && EnvelopeSurvives(syntax, m)
    ensures RowMail(syntax, ColumnsOf(syntax, m)) == Some(m.(body := Hollow(m.body)))
    ensures RowMail(syntax, ColumnsOf(syntax, m)) == Some(m) <==> NoEmptyNode(m.body)
    ensures Complete(Hollow(m.body)) <==> NoEmptyNode(m.body)
  {
    RowRoundTrip(syntax, m);
    HollowIsCompleteIff(m.body);
  }

  /** In a valid tree every part is reached, so an empty node is met when the hollow tree is printed. */
  lemma {:induction false} HollowFaultsIff(p: Part, contentType: ContentType)
    requires ValidPart(p, contentType)
    ensures Faults(Hollow(p)) <==> !NoEmptyNode(p)
    decreases p
  {
    if p.Multipart? && p.children != [] {
      var hollow := Hollow(p).children;
      forall i | 0 <= i < |p.children|
        ensures Parses(hollow[i].contentType) && (Faults(hollow[i].part) <==> !NoEmptyNode(p.children[i].part))
      {
        assert ValidChild(p.children[i]);
        HollowFaultsIff(p.children[i].part, p.children[i].contentType);
      }
    }
  }

  /**
   * What becomes of an accepted request in the queue: if no node of its body is empty, the worker
   * delivers the octets that the direct way would deliver; otherwise the worker breaks down over it.
   */
  lemma QueuedRequest(config: Config, r: Request)
    requires Accepted(config.syntax, r.mail, SenderOf(config, r.mail), r.now)
    requires EnvelopeSurvives(config.syntax, AcceptedMail(config, r))
    ensures var columns, m := AcceptedColumns(config, r), AcceptedMail(config, r);
            && RowMail(config.syntax, columns).Some?
            && (Deliverable(config.syntax, columns) <==> NoEmptyNode(m.body))
            && (RowBreaks(config.syntax, columns) <==> !NoEmptyNode(m.body))
    ensures Deliverable(config.syntax, AcceptedColumns(config, r)) ==>
              && Sendable(AcceptedMail(config, r))
              && DeliveryOf(config.env, config.rendering, RowMail(config.syntax, AcceptedColumns(config, r)).value) ==
                 DeliveryOf(config.env, config.rendering, AcceptedMail(config, r))
  {
    var m := AcceptedMail(config, r);
    AcceptedIsPrintable(config, r);
    AcceptedIsSendable(config, r);
    QueuedIsDirect(config.syntax, m);
    HollowFaultsIff(m.body, m.contentType);
    if !NoEmptyNode(m.body) && ValidPart(Hollow(m.body), m.contentType) {
      ValidIsComplete(Hollow(m.body), m.contentType);
    }
  }

  /** A plain text request with an empty text. */
  function EmptyText(): PbMail {
    PbMail("s", Some(PbMailAddress("", "a@x")), [Some(PbMailAddress("", "b@x"))], [], [], [], [], None, PbPlainText([]))
  }

  lemma EmptyTextIsValid(m: Mail)
    requires m.body == Text([]) && m.contentType == PLAIN_TEXT && m.subject == EmptyText().subject && m.headers == []
    ensures ValidMail(m)
  {
    assert PLAIN_TEXT.raw[0] == 't' && "message/"[0] == 'm' && "multipart/"[0] == 'm';
  }

  lemma EmptyTextIsAdmitted(config: Config, r: Request)
    requires config.syntax == AddressSyntax((a: Address) => a.address, s => Some(Address("", s)))
    requires config.unauthenticated && r == Request(EmptyText(), None, "1", 0)
    ensures Admitted(config, r) && AcceptedMail(config, r).body == Text([])
  {
    var body := BodyOf(r.mail).value;
    assert body == TypedBody(PLAIN_TEXT, Text([]));
    EmptyTextIsValid(MailOf(config.syntax, r.mail, SenderOf(config, r.mail), r.now, body));
  }

  /**
   * Such a request is admitted, and queued it breaks down the worker.  The server runs unauthenticated
   * here, so that no permission is asked for.
   */
  lemma EmptyTextBreaksTheWorker(env: Env, rendering: Rendering) returns (config: Config, r: Request)
    ensures r.mail == EmptyText() && Admitted(config, r)
    ensures RowBreaks(config.syntax, AcceptedColumns(config, r))
  {
    var syntax := AddressSyntax((a: Address) => a.address, s => Some(Address("", s)));
    config := Config(syntax, env, rendering, (a: Address) => a, "h", true);
    r := Request(EmptyText(), None, "1", 0);
    EmptyTextIsAdmitted(config, r);
    QueuedRequest(config, r);
  }

  /** A multipart request with a text that looks like its boundary, and permission aside an ordinary one. */
  function BoundaryInRequest(): PbMail {
    PbMail("s", Some(PbMailAddress("", "a@x")), [Some(PbMailAddress("", "b@x"))], [], [], [], [],
           Some(LostMessages.BoundedType()),
           PbMultipartBody(Some(PbBody([PbPart(Some(PLAIN_TEXT), [], PbContentText([DASH, DASH, 0x78]))]))))
  }

  lemma BoundaryInTextIsValid(m: Mail)
    requires m.body == LostMessages.BoundaryInText() && m.contentType == LostMessages.BoundedType()
    requires m.subject == "s" && m.headers == []
    ensures ValidMail(m)
  {
    Utf8.AsciiIsValid([DASH, DASH, 0x78]);
    assert PLAIN_TEXT.raw[0] == 't' && "message/"[0] == 'm' && "multipart/"[0] == 'm';
    assert "multipart/" <= "multipart/mixed";
  }

  lemma BoundaryInRequestConverts()
    ensures BodyOf(BoundaryInRequest()) == Ok(TypedBody(LostMessages.BoundedType(), LostMessages.BoundaryInText()))
  {
    var content := PbNested(BoundaryInRequest().body.multipart);
    var part := content.nested.value.parts[0];
    assert ProtoConversion.ConvertiblePart(part) && ProtoConversion.Convertible(content);
    assert ProtoConversion.ChildOf(part) == Child(PLAIN_TEXT, [], Text([DASH, DASH, 0x78]));
    assert ProtoConversion.PartOfContent(content).children == [ProtoConversion.ChildOf(part)];
  }

  /** Such a request is admitted by a server that runs unauthenticated, and its body cannot be read back. */
  lemma BoundaryInRequestIsAdmitted(env: Env, rendering: Rendering) returns (config: Config, r: Request)
    ensures r.mail == BoundaryInRequest() && Admitted(config, r)
    ensures AcceptedMail(config, r).body == LostMessages.BoundaryInText()
    ensures AcceptedMail(config, r).contentType == LostMessages.BoundedType()
  {
    var syntax := AddressSyntax((a: Address) => a.address, s => Some(Address("", s)));
    config := Config(syntax, env, rendering, (a: Address) => a, "h", true);
    r := Request(BoundaryInRequest(), None, "1", 0);
    BoundaryInRequestConverts();
    BoundaryInTextIsValid(MailOf(syntax, r.mail, SenderOf(config, r.mail), r.now, BodyOf(r.mail).value));
  }

  lemma {:induction false} FillingKeepsNodes(p: Part)
    ensures NoEmptyNode(ProtoConversion.FillTypes(p)) <==> NoEmptyNode(p)
    decreases p
  {
    if p.Multipart? {
      var filled := ProtoConversion.FillTypes(p).children;
      forall i | 0 <= i < |p.children|
        ensures NoEmptyNode(filled[i].part) <==> NoEmptyNode(p.children[i].part)
      {
        FillingKeepsNodes(p.children[i].part);
      }
    }
  }

  /**
   * The whole way from the SMTP proxy through the queue: the mail the worker transmits is the one the
   * proxy received, with its empty content types filled, a new sender, date and message id, and
   * without extra headers.  Its recipient lists are the ones received, in length and order.
   */
  lemma ProxyToWorker(config: Config, received: Mail, from: Address, now: int, id: string) returns (q: Mail)
    requires NoEmptyNode(received.body)
    requires Accepted(config.syntax, PbOfMail(received), from, now)
    requires EnvelopeSurvives(config.syntax, Rebuilt(received, from, now))
    ensures var m := MailOf(config.syntax, PbOfMail(received), from, now, BodyOf(PbOfMail(received)).value)
                       .(messageId := id);
            Complete(m.body) && RowMail(config.syntax, ColumnsOf(config.syntax, m)) == Some(q)
    ensures q == Rebuilt(received, from, now).(messageId := id)
    ensures q.to == received.to && q.cc == received.cc && q.bcc == received.bcc
    ensures q.replyTo == received.replyTo && q.subject == received.subject && q.from == from && q.date == now
  {
    ProxyMailReturns(config.syntax, received, from, now);
    FillKeepsComplete(received.body);
    FillingKeepsNodes(received.body);
    q := Rebuilt(received, from, now).(messageId := id);
    QueuedIsDirect(config.syntax, q);
  }
}
