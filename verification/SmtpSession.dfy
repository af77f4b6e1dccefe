/** The SMTP session: pkg/smtpserver/server.go:98-367. */
module SmtpSession {
  import opened Bytes
  import opened LineEndings
  import opened MailTypes
  import opened PartPrinter
  import opened PartParser
  import opened InternetMessage

  type Context = int

  /** An address header as the mail library reads it. */
  datatype Field = Absent | Malformed | Present(addresses: seq<Address>)

  /** `getAddressList`: a list with an empty address in it is malformed. */
  function GetAddressList(f: Field): Field {
    if f.Present? && exists i :: 0 <= i < |f.addresses| && f.addresses[i].address == "" then Malformed else f
  }

  function ListOf(f: Field): seq<Address> {
    match GetAddressList(f)
    case Present(addresses) => addresses
    case _ => []
  }

  /** A message as `mail.ReadMessage` splits it, with its header fields parsed. */
  datatype Incoming = Incoming(
    from: Field,
    replyTo: Field,
    to: Field,
    cc: Field,
    subject: string,
    messageId: string,
    header: EntityHeader,
    isMime: bool,
    date: Option<int>,
    body: seq<bytes>)

  datatype Command =
    | Auth(user: string, password: string)
    | AuthPlain(user: string, password: string)
    | UnknownAuth
    | MailFrom(from: string)
    | RcptTo(to: string)
    | Data(message: Option<Incoming>)
    | Reset

  /**
   * `handleAuth` yields the context of a login, `handleMessage` tells whether a message was taken;
   * `fold` is `strings.ToLower`.  A backend built without a login handler has none, and calling it is
   * a run-time fault.
   */
  datatype Backend = Backend(
    requireAuth: bool,
    handleAuth: Option<(Context, string, string) -> Option<Context>>,
    handleMessage: (Context, Mail) -> bool,
    rootContext: Context,
    fold: string -> string,
    codec: Codec)

  datatype State = State(from: string, recipients: seq<string>, context: Context, isAuthenticated: bool)

  datatype Reply =
    | Success
    | AuthRequired
    | AuthFailed
    | AuthNotRequired
    | UnknownMechanism
    | Unreadable
    | BadFrom
    | FromMismatch
    | BadReplyTo
    | ToNotInEnvelope
    | BadCc
    | CcNotInEnvelope
    | BadMessageId
    | BadDate
    | BadBody(error: ParseError)
    | Invalid
    | HandlerFailed
    | Fault

  /** A call of the message handler. */
  datatype Handled = Handled(context: Context, mail: Mail)

  datatype Outcome = Outcome(reply: Reply, handled: Option<Handled>)

  /** The context of a login, if there is a handler and it accepts. */
  function Login(b: Backend, context: Context, user: string, password: string): Option<Context> {
    match b.handleAuth
    case Some(handleAuth) => handleAuth(context, user, password)
    case None => None
  }

  function LoginReply(b: Backend, context: Context, user: string, password: string): Reply {
    if b.handleAuth.None? then Reply.Fault
    else if Login(b, context, user, password).Some? then Success
    else AuthFailed
  }

  function Initial(b: Backend): State {
    State("", [], b.rootContext, false)
  }

  // ----- recipients

  /** Some header address is, letter for letter, an envelope recipient. */
  predicate InEnvelope(addresses: seq<Address>, recipients: seq<string>) {
    exists i :: 0 <= i < |addresses| && addresses[i].address in recipients
  }

  /** Header addresses as they are compared. */
  function Seen(fold: string -> string, addresses: seq<Address>): set<string> {
    set i | 0 <= i < |addresses| :: fold(addresses[i].address)
  }

  lemma SeenAppend(fold: string -> string, addresses: seq<Address>, a: Address)
    ensures Seen(fold, addresses + [a]) == Seen(fold, addresses) + {fold(a.address)}
  {
    var all := addresses + [a];
    assert all[|addresses|] == a;
    assert forall i :: 0 <= i < |addresses| ==> all[i] == addresses[i];
  }

  /** The envelope recipients that no header names, in order. */
  function BccOf(fold: string -> string, seen: set<string>, recipients: seq<string>): seq<Address> {
    if recipients == [] then []
    else
      var last := recipients[|recipients| - 1];
      BccOf(fold, seen, recipients[..|recipients| - 1])
      + (if fold(last) in seen then [] else [Address("", last)])
  }

  method CollectBcc(fold: string -> string, to: seq<Address>, cc: seq<Address>, recipients: seq<string>)
    returns (bcc: seq<Address>)
    ensures bcc == BccOf(fold, Seen(fold, to + cc), recipients)
  {
    var seen: set<string> := {};
    for i := 0 to |to|
      invariant seen == Seen(fold, to[..i])
    {
      SeenAppend(fold, to[..i], to[i]);
      assert to[..i + 1] == to[..i] + [to[i]];
      seen := seen + {fold(to[i].address)};
    }
    assert to[..|to|] == to && to + cc[..0] == to;
    for i := 0 to |cc|
      invariant seen == Seen(fold, to + cc[..i])
    {
      SeenAppend(fold, to + cc[..i], cc[i]);
      assert to + cc[..i + 1] == to + cc[..i] + [cc[i]];
      seen := seen + {fold(cc[i].address)};
    }
    assert cc[..|cc|] == cc;
    bcc := [];
    for i := 0 to |recipients|
      invariant bcc == BccOf(fold, seen, recipients[..i])
    {
      assert recipients[..i + 1][..i] == recipients[..i];
      if fold(recipients[i]) !in seen {
        bcc := bcc + [Address("", recipients[i])];
      }
    }
    assert recipients[..|recipients|] == recipients;
  }

  // ----- one command

  /** A message identifier without its angle brackets, or why there is none. */
  datatype Trimmed = Id(id: string) | NoId(reply: Reply)

  /** Only an identifier that lacks both brackets is refused; cutting them off one character is a run-time fault. */
  function TrimId(messageId: string): Trimmed {
    if messageId == "" then Id("")
    else if messageId[0] != '<' && messageId[|messageId| - 1] != '>' then NoId(BadMessageId)
    else if |messageId| == 1 then NoId(Reply.Fault)
    else Id(messageId[1..|messageId| - 1])
  }

  function ReceivedBody(b: Backend, msg: Incoming): Result<Part, ParseError> {
    ParseBody(b.codec, msg.isMime, msg.header, msg.body)
  }

  function ReceivedMail(b: Backend, s: State, msg: Incoming, from: Address, id: string, body: Part): Mail {
    var to, cc := ListOf(msg.to), ListOf(msg.cc);
    Mail(from, ListOf(msg.replyTo), to, cc, BccOf(b.fold, Seen(b.fold, to + cc), s.recipients),
         msg.subject, msg.date.UnwrapOr(0), id, msg.header.contentType, [], body)
  }

  /** The checks of the address headers.  The one on To looks at the error of Reply-To, as the source does. */
  function CheckHeaders(s: State, msg: Incoming): Reply {
    var from, replyTo, cc := GetAddressList(msg.from), GetAddressList(msg.replyTo), GetAddressList(msg.cc);
    if !from.Present? || |from.addresses| != 1 then BadFrom
    else if from.addresses[0].address != s.from then FromMismatch
    else if replyTo.Malformed? then BadReplyTo
    else if replyTo.Present? && !InEnvelope(ListOf(msg.to), s.recipients) then ToNotInEnvelope
    else if cc.Malformed? then BadCc
    else if cc.Present? && !InEnvelope(cc.addresses, s.recipients) then CcNotInEnvelope
    else if TrimId(msg.messageId).NoId? then TrimId(msg.messageId).reply
    else if msg.date.None? then BadDate
    else Success
  }

  /** To is looked at exactly where there is a Reply-To header; Cc always is. */
  lemma AcceptedHeaders(s: State, msg: Incoming)
    requires CheckHeaders(s, msg) == Success
    ensures ListOf(msg.from) == [msg.from.addresses[0]] && msg.from.addresses[0].address == s.from != ""
    ensures GetAddressList(msg.replyTo).Present? ==> InEnvelope(ListOf(msg.to), s.recipients)
    ensures GetAddressList(msg.replyTo).Absent? ==>
              forall to :: CheckHeaders(s, msg.(to := to)) == Success
    ensures GetAddressList(msg.cc).Present? ==> InEnvelope(ListOf(msg.cc), s.recipients)
  {
    var from := GetAddressList(msg.from);
    assert msg.from.addresses[0].address != "";
  }

  lemma {:induction false} ParsedIsComplete(codec: Codec, header: EntityHeader, body: seq<bytes>)
    ensures ParsePart(codec, header, body).Ok? ==> Complete(ParsePart(codec, header, body).value)
    decreases |body|, 2
  {
    var media := MediaOf(header.contentType);
    if HasPrefix(media.mediaType, "multipart/") && media.boundary.Some? {
      PreambleIsComplete(codec, media.boundary.value, body);
    }
  }

  lemma {:induction false} PreambleIsComplete(codec: Codec, b: bytes, ls: seq<bytes>)
    ensures ParsePreamble(codec, b, ls).Ok? ==>
              forall i :: 0 <= i < |ParsePreamble(codec, b, ls).value| ==>
                Complete(ParsePreamble(codec, b, ls).value[i].part)
    decreases |ls|, 1
  {
    if ls != [] {
      if IsDelimiter(ls[0], b) {
        ChildrenAreComplete(codec, b, ls[1..]);
      } else if !IsClose(ls[0], b) {
        PreambleIsComplete(codec, b, ls[1..]);
      }
    }
  }

  lemma {:induction false} ChildrenAreComplete(codec: Codec, b: bytes, ls: seq<bytes>)
    ensures ParseChildren(codec, b, ls).Ok? ==>
              forall i :: 0 <= i < |ParseChildren(codec, b, ls).value| ==>
                Complete(ParseChildren(codec, b, ls).value[i].part)
    decreases |ls|, 1
  {
    var section := NextSection(codec, b, ls);
    if section.Ok? {
      ParsedIsComplete(codec, section.value.header, section.value.body);
      ChildrenAreComplete(codec, b, section.value.rest);
    }
  }

  lemma ReceivedBodyIsComplete(b: Backend, msg: Incoming)
    ensures ReceivedBody(b, msg).Ok? ==> Complete(ReceivedBody(b, msg).value)
  {
    ParsedIsComplete(b.codec, msg.header, msg.body);
  }

  /** `Data`: the message that is handed on, or why there is none. */
  function ReceiveData(b: Backend, s: State, message: Option<Incoming>): Outcome {
    if b.requireAuth && !s.isAuthenticated then Outcome(AuthRequired, None)
    else if message.None? then Outcome(Unreadable, None)
    else
      var msg := message.value;
      var reply := CheckHeaders(s, msg);
      if reply != Success then Outcome(reply, None)
      else
        match ReceivedBody(b, msg)
        case Err(error) => Outcome(BadBody(error), None)
        case Ok(body) =>
          var m := ReceivedMail(b, s, msg, msg.from.addresses[0], TrimId(msg.messageId).id, body);
          ReceivedBodyIsComplete(b, msg);
          if !ValidMail(m) then Outcome(Invalid, None)
          else Outcome(if b.handleMessage(s.context, m) then Success else HandlerFailed, Some(Handled(s.context, m)))
  }

  /** The session after a command.  `Data` leaves it as it is. */
  function NextState(b: Backend, s: State, c: Command): State {
    match c
    case Auth(user, password) =>
      (match Login(b, s.context, user, password)
       case Some(context) => s.(context := context, isAuthenticated := true)
       case None => s)
    case AuthPlain(user, password) =>
      if !b.requireAuth then s
      else
        (match Login(b, s.context, user, password)
         case Some(context) => s.(context := context, isAuthenticated := true)
         case None => s)
    case UnknownAuth => s
    case MailFrom(from) => if b.requireAuth && !s.isAuthenticated then s else s.(from := from)
    case RcptTo(to) =>
      if b.requireAuth && !s.isAuthenticated then s else s.(recipients := s.recipients + [to])
    case Data(_) => s
    case Reset => Initial(b)
  }

  /** The answer to a command, and the message it makes the session hand on. */
  function OutcomeOf(b: Backend, s: State, c: Command): Outcome {
    match c
    case Auth(user, password) =>
      Outcome(LoginReply(b, s.context, user, password), None)
    case AuthPlain(user, password) =>
      Outcome(if !b.requireAuth then AuthNotRequired else LoginReply(b, s.context, user, password), None)
    case UnknownAuth => Outcome(UnknownMechanism, None)
    case MailFrom(_) => Outcome(if b.requireAuth && !s.isAuthenticated then AuthRequired else Success, None)
    case RcptTo(_) => Outcome(if b.requireAuth && !s.isAuthenticated then AuthRequired else Success, None)
    case Data(message) => ReceiveData(b, s, message)
    case Reset => Outcome(Success, None)
  }

  /** What a handled message takes from the session. */
  predicate Follows(b: Backend, s: State, h: Handled) {
    && h.context == s.context
    && h.mail.from.address == s.from != ""
    && h.mail.bcc == BccOf(b.fold, Seen(b.fold, h.mail.to + h.mail.cc), s.recipients)
  }

  /** A message is handed on only after a login, if one is required, and follows the session. */
  lemma HandledFollows(b: Backend, s: State, c: Command)
    requires OutcomeOf(b, s, c).handled.Some?
    ensures Follows(b, s, OutcomeOf(b, s, c).handled.value)
    ensures b.requireAuth ==> s.isAuthenticated
  {
    AcceptedHeaders(s, c.message.value);
  }

  // ----- what a handled message takes from the one that was sent

  /** A header that parses, with no empty address in it. */
  predicate Good(f: Field) {
    f.Present? && forall i :: 0 <= i < |f.addresses| ==> f.addresses[i].address != ""
  }

  /** The addresses of a header; none where it is absent or malformed. */
  predicate Carries(f: Field, addresses: seq<Address>) {
    addresses == if Good(f) then f.addresses else []
  }

  lemma ListIsCarried(f: Field)
    ensures Carries(f, ListOf(f)) && (GetAddressList(f).Present? <==> Good(f))
    ensures GetAddressList(f).Absent? <==> f.Absent?
  {
  }

  /** An identifier without the characters at its two ends, one of which is its bracket. */
  predicate Trims(messageId: string, id: string) {
    if messageId == "" then id == ""
    else
      && |messageId| == |id| + 2 && messageId[1..|messageId| - 1] == id
      && (messageId[0] == '<' || messageId[|messageId| - 1] == '>')
  }

  /** The first bracket that is missing is let through, and one character alone is a run-time fault. */
  lemma TrimIdIff(messageId: string, id: string)
    ensures TrimId(messageId) == Id(id) <==> Trims(messageId, id)
    ensures TrimId(messageId) == NoId(Reply.Fault) <==> messageId == "<" || messageId == ">"
    ensures TrimId(messageId) == NoId(BadMessageId) <==>
              messageId != "" && messageId[0] != '<' && messageId[|messageId| - 1] != '>'
  {
  }

  /** One of the addresses, letter for letter, is a recipient. */
  predicate Meets(addresses: seq<Address>, recipients: seq<string>) {
    exists a :: a in addresses && a.address in recipients
  }

  lemma InEnvelopeIff(addresses: seq<Address>, recipients: seq<string>)
    ensures InEnvelope(addresses, recipients) <==> Meets(addresses, recipients)
  {
    if i :| 0 <= i < |addresses| && addresses[i].address in recipients {
      assert addresses[i] in addresses;
    }
  }

  /** Exactly the messages whose address headers, identifier and date are accepted. */
  lemma AcceptedIff(s: State, msg: Incoming)
    ensures CheckHeaders(s, msg) == Success <==>
              && (exists a: Address :: msg.from == Present([a]) && a.address == s.from != "")
              && (msg.replyTo.Absent? || (Good(msg.replyTo) && Good(msg.to) && Meets(msg.to.addresses, s.recipients)))
              && (msg.cc.Absent? || (Good(msg.cc) && Meets(msg.cc.addresses, s.recipients)))
              && (exists id :: Trims(msg.messageId, id)) && msg.date.Some?
  {
    ListIsCarried(msg.replyTo);
    ListIsCarried(msg.to);
    ListIsCarried(msg.cc);
    InEnvelopeIff(ListOf(msg.to), s.recipients);
    InEnvelopeIff(ListOf(msg.cc), s.recipients);
    if CheckHeaders(s, msg) == Success {
      AcceptedHeaders(s, msg);
      TrimIdIff(msg.messageId, TrimId(msg.messageId).id);
      assert msg.from == Present([msg.from.addresses[0]]);
    }
    if id :| Trims(msg.messageId, id) {
      TrimIdIff(msg.messageId, id);
    }
  }

  /** The mail has the parts of the message, and nothing else. */
  predicate TakenFrom(codec: Codec, msg: Incoming, m: Mail) {
    && msg.from == Present([m.from])
    && Carries(msg.replyTo, m.replyTo) && Carries(msg.to, m.to) && Carries(msg.cc, m.cc)
    && m.subject == msg.subject && m.contentType == msg.header.contentType
    && Trims(msg.messageId, m.messageId) && msg.date == Some(m.date) && m.headers == []
    && (if msg.isMime then ParsePart(codec, msg.header, msg.body) == Ok(m.body)
        else m.body == Binary(Join(msg.body, CRLF)))
  }

  /** Bcc is made of the envelope and the To and Cc headers of the message. */
  lemma HandledIsTaken(b: Backend, s: State, msg: Incoming)
    requires ReceiveData(b, s, Some(msg)).handled.Some?
    ensures var m := ReceiveData(b, s, Some(msg)).handled.value.mail;
            && TakenFrom(b.codec, msg, m)
            && m.bcc == BccOf(b.fold, Seen(b.fold, m.to + m.cc), s.recipients)
            && m.from.address == s.from != ""
  {
    AcceptedHeaders(s, msg);
    ListIsCarried(msg.replyTo);
    ListIsCarried(msg.to);
    ListIsCarried(msg.cc);
    TrimIdIff(msg.messageId, TrimId(msg.messageId).id);
  }

  // ----- what a reply says

  /** What is acknowledged is done, and what is refused changes nothing. */
  lemma ReplyTells(b: Backend, s: State, c: Command)
    ensures OutcomeOf(b, s, c).reply != Success ==> NextState(b, s, c) == s
    ensures c.MailFrom? && OutcomeOf(b, s, c).reply == Success ==> NextState(b, s, c) == s.(from := c.from)
    ensures c.RcptTo? && OutcomeOf(b, s, c).reply == Success ==>
              NextState(b, s, c) == s.(recipients := s.recipients + [c.to])
    ensures (c.MailFrom? || c.RcptTo?) ==>
              (OutcomeOf(b, s, c).reply == Success <==> !b.requireAuth || s.isAuthenticated)
    ensures (c.Auth? || c.AuthPlain?) && OutcomeOf(b, s, c).reply == Success ==>
              && b.handleAuth.Some? && b.handleAuth.value(s.context, c.user, c.password).Some?
              && NextState(b, s, c) ==
                 State(s.from, s.recipients, b.handleAuth.value(s.context, c.user, c.password).value, true)
    ensures c.Reset? ==>
              OutcomeOf(b, s, c).reply == Success && NextState(b, s, c) == State("", [], b.rootContext, false)
    ensures c.Data? ==> NextState(b, s, c) == s
    ensures c.Data? ==>
              (OutcomeOf(b, s, c).reply == Success <==>
                 && OutcomeOf(b, s, c).handled.Some?
                 && var h := OutcomeOf(b, s, c).handled.value; b.handleMessage(h.context, h.mail))
  {
  }

  // ----- the session object

  class Session {
    const backend: Backend
    var from: string
    var recipients: seq<string>
    var context: Context
    var isAuthenticated: bool
    /** The calls of the message handler so far. */
    var handled: seq<Handled>

    function Now(): State
      reads this
    {
      State(from, recipients, context, isAuthenticated)
    }

    constructor (backend: Backend)
      ensures this.backend == backend && Now() == Initial(backend) && handled == []
    {
      this.backend := backend;
      from, recipients, context, isAuthenticated := "", [], backend.rootContext, false;
      handled := [];
    }

    method DoReset()
      modifies this`from, this`recipients, this`context, this`isAuthenticated
      ensures Now() == NextState(backend, old(Now()), Reset)
    {
      from := "";
      recipients := [];
      context := backend.rootContext;
      isAuthenticated := false;
    }

    method DoAuth(user: string, password: string) returns (reply: Reply)
      modifies this`context, this`isAuthenticated
      ensures Now() == NextState(backend, old(Now()), Auth(user, password))
      ensures reply == OutcomeOf(backend, old(Now()), Auth(user, password)).reply
    {
      if backend.handleAuth.None? {
        return Reply.Fault;
      }
      var authed := backend.handleAuth.value(context, user, password);
      if authed.None? {
        return AuthFailed;
      }
      context := authed.value;
      isAuthenticated := true;
      reply := Success;
    }

    /** The older entry, which refuses a login that is not asked for. */
    method DoAuthPlain(user: string, password: string) returns (reply: Reply)
      modifies this`context, this`isAuthenticated
      ensures Now() == NextState(backend, old(Now()), AuthPlain(user, password))
      ensures reply == OutcomeOf(backend, old(Now()), AuthPlain(user, password)).reply
    {
      if !backend.requireAuth {
        return AuthNotRequired;
      }
      if backend.handleAuth.None? {
        return Reply.Fault;
      }
      var authed := backend.handleAuth.value(context, user, password);
      if authed.None? {
        return AuthFailed;
      }
      context := authed.value;
      isAuthenticated := true;
      reply := Success;
    }

    method DoMail(sender: string) returns (reply: Reply)
      modifies this`from
      ensures Now() == NextState(backend, old(Now()), MailFrom(sender))
      ensures reply == OutcomeOf(backend, old(Now()), MailFrom(sender)).reply
    {
      if backend.requireAuth && !isAuthenticated {
        return AuthRequired;
      }
      from := sender;
      reply := Success;
    }

    method DoRcpt(to: string) returns (reply: Reply)
      modifies this`recipients
      ensures Now() == NextState(backend, old(Now()), RcptTo(to))
      ensures reply == OutcomeOf(backend, old(Now()), RcptTo(to)).reply
    {
      if backend.requireAuth && !isAuthenticated {
        return AuthRequired;
      }
      recipients := recipients + [to];
      reply := Success;
    }

    /** The nested search of the To and Cc checks. */
    method Search(addresses: seq<Address>) returns (found: bool)
      ensures found <==> InEnvelope(addresses, recipients)
    {
      for i := 0 to |addresses|
        invariant forall k :: 0 <= k < i ==> addresses[k].address !in recipients
      {
        for j := 0 to |recipients|
          invariant addresses[i].address !in recipients[..j]
        {
          if addresses[i].address == recipients[j] {
            return true;
          }
        }
        assert recipients[..|recipients|] == recipients;
      }
      found := false;
    }

    method CheckAddressHeaders(msg: Incoming) returns (reply: Reply)
      ensures reply == CheckHeaders(Now(), msg)
    {
      var sender, replyTo, cc := GetAddressList(msg.from), GetAddressList(msg.replyTo), GetAddressList(msg.cc);
      if !sender.Present? || |sender.addresses| != 1 {
        return BadFrom;
      }
      if sender.addresses[0].address != from {
        return FromMismatch;
      }
      if replyTo.Malformed? {
        return BadReplyTo;
      }
      if !replyTo.Absent? {
        var found := Search(ListOf(msg.to));
        if !found {
          return ToNotInEnvelope;
        }
      }
      if cc.Malformed? {
        return BadCc;
      }
      if !cc.Absent? {
        var found := Search(cc.addresses);
        if !found {
          return CcNotInEnvelope;
        }
      }
      var trimmed := TrimId(msg.messageId);
      if trimmed.NoId? {
        return trimmed.reply;
      }
      reply := if msg.date.None? then BadDate else Success;
    }

    /** The body is parsed where the message has a MIME version, and taken as it is elsewhere. */
    method ReadBody(msg: Incoming) returns (r: Result<Part, ParseError>)
      ensures r == ReceivedBody(backend, msg)
      ensures r.Ok? ==> Complete(r.value) && !Faults(r.value)
    {
      if msg.isMime {
        r := ReadPart(backend.codec, msg.header, msg.body);
      } else {
        r := Ok(Binary(Join(msg.body, CRLF)));
      }
      ReceivedBodyIsComplete(backend, msg);
      if r.Ok? {
        CompleteNeverFaults(r.value);
      }
    }

    /** A message whose address headers were accepted. */
    method ReadMail(msg: Incoming) returns (r: Result<Mail, ParseError>)
      requires CheckHeaders(Now(), msg) == Success
      ensures match ReceivedBody(backend, msg)
              case Err(error) => r == Err(error)
              case Ok(body) =>
                && r == Ok(ReceivedMail(backend, Now(), msg, msg.from.addresses[0], TrimId(msg.messageId).id, body))
                && !Faults(body)
    {
      var to, cc := ListOf(msg.to), ListOf(msg.cc);
      var bcc := CollectBcc(backend.fold, to, cc, recipients);
      var body := ReadBody(msg);
      if body.Err? {
        return Err(body.error);
      }
      r := Ok(Mail(msg.from.addresses[0], ListOf(msg.replyTo), to, cc, bcc, msg.subject, msg.date.UnwrapOr(0),
                   TrimId(msg.messageId).id, msg.header.contentType, [], body.value));
    }

    /** A mail without problems goes to the handler. */
    method HandOn(m: Mail) returns (reply: Reply)
      requires !Faults(m.body)
      modifies this`handled
      ensures if ValidMail(m) then
                && reply == (if backend.handleMessage(context, m) then Success else HandlerFailed)
                && handled == old(handled) + [Handled(context, m)]
              else reply == Invalid && handled == old(handled)
    {
      var problems := ValidateMail(m);
      if problems.value != [] {
        return Invalid;
      }
      handled := handled + [Handled(context, m)];
      reply := if backend.handleMessage(context, m) then Success else HandlerFailed;
    }

    method DoData(message: Option<Incoming>) returns (reply: Reply)
      modifies this`handled
      ensures var o := OutcomeOf(backend, old(Now()), Data(message));
              && reply == o.reply
              && handled == old(handled) + (if o.handled.Some? then [o.handled.value] else [])
    {
      if backend.requireAuth && !isAuthenticated {
        return AuthRequired;
      }
      if message.None? {
        return Unreadable;
      }
      var msg := message.value;
      reply := CheckAddressHeaders(msg);
      if reply != Success {
        return;
      }
      var m := ReadMail(msg);
      if m.Err? {
        return BadBody(m.error);
      }
      reply := HandOn(m.value);
    }
  }
}
