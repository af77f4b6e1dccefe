/** What holds of an SMTP session on every command sequence, and what becomes of its recipients. */
module SessionRuns {
  import opened Bytes
  import opened MailTypes
  import opened PartPrinter
  import opened InternetMessage
  import opened SmtpSession
  import MailConversion
  import opened MailSender
  import MailQueue
  import MailServer
  import Database

  // ----- command sequences

  /** The state after a sequence of commands. */
  function After(b: Backend, cs: seq<Command>): State {
    if cs == [] then Initial(b) else NextState(b, After(b, cs[..|cs| - 1]), cs[|cs| - 1])
  }

  /** The handler call that command `i` of a sequence leads to, if any. */
  function HandledAt(b: Backend, cs: seq<Command>, i: nat): Option<Handled>
    requires i < |cs|
  {
    OutcomeOf(b, After(b, cs[..i]), cs[i]).handled
  }

  /** The context a login at `i` yields. */
  function LoginAt(b: Backend, cs: seq<Command>, i: nat): Option<Context>
    requires i < |cs|
  {
    match cs[i]
    case Auth(user, password) => Login(b, After(b, cs[..i]).context, user, password)
    case AuthPlain(user, password) =>
      if b.requireAuth then Login(b, After(b, cs[..i]).context, user, password) else None
    case _ => None
  }

  /** The argument of the last MAIL, as far as there is one. */
  function LastMail(cs: seq<Command>): string {
    if cs == [] then ""
    else
      match cs[|cs| - 1]
      case MailFrom(from) => from
      case _ => LastMail(cs[..|cs| - 1])
  }

  /** The arguments of all RCPTs, in order. */
  function AllRcpts(cs: seq<Command>): seq<string> {
    if cs == [] then []
    else
      AllRcpts(cs[..|cs| - 1]) + match cs[|cs| - 1]
                                 case RcptTo(to) => [to]
                                 case _ => []
  }

  predicate NoReset(cs: seq<Command>, from: nat, to: nat)
    requires to <= |cs|
  {
    forall i :: from <= i < to ==> cs[i] != Reset
  }

  predicate NoLogin(b: Backend, cs: seq<Command>, from: nat, to: nat)
    requires to <= |cs|
  {
    forall i :: from <= i < to ==> LoginAt(b, cs, i).None?
  }

  /** `r` is just after the last Reset before `n`, or the start. */
  predicate AfterReset(cs: seq<Command>, r: nat, n: nat)
    requires n <= |cs|
  {
    r <= n && (r == 0 || cs[r - 1] == Reset) && NoReset(cs, r, n)
  }

  /** `first` and `last` are the first and the last successful login since the last Reset before `n`. */
  predicate Logins(b: Backend, cs: seq<Command>, r: nat, first: nat, last: nat, n: nat)
    requires n <= |cs|
  {
    && AfterReset(cs, r, n)
    && r <= first <= last < n
    && LoginAt(b, cs, first).Some? && NoLogin(b, cs, r, first)
    && LoginAt(b, cs, last).Some? && NoLogin(b, cs, last + 1, n)
  }

  predicate Witnessed(b: Backend, cs: seq<Command>, r: nat, first: nat, last: nat, n: nat)
    requires n <= |cs|
  {
    var s := After(b, cs[..n]);
    && Logins(b, cs, r, first, last, n)
    && LoginAt(b, cs, last) == Some(s.context)
    && s.from == LastMail(cs[first..n])
    && s.recipients == AllRcpts(cs[first..n])
  }

  /**
   * What the state after `n` commands says about the commands: nothing was accepted since the last
   * Reset, or there was a login since, and sender, recipients and context are those given after it.
   */
  ghost predicate Explained(b: Backend, cs: seq<Command>, n: nat)
    requires n <= |cs|
  {
    var s := After(b, cs[..n]);
    if s.isAuthenticated then
      exists r: nat, first: nat, last: nat :: Witnessed(b, cs, r, first, last, n)
    else
      s == Initial(b) && exists r: nat :: AfterReset(cs, r, n) && NoLogin(b, cs, r, n)
  }

  lemma AfterStep(b: Backend, cs: seq<Command>, n: nat)
    requires 0 < n <= |cs|
    ensures After(b, cs[..n]) == NextState(b, After(b, cs[..n - 1]), cs[n - 1])
  {
    assert cs[..n][..n - 1] == cs[..n - 1];
  }

  lemma HistoryStep(cs: seq<Command>, first: nat, n: nat)
    requires first < n <= |cs|
    ensures LastMail(cs[first..n]) ==
            match cs[n - 1] case MailFrom(from) => from case _ => LastMail(cs[first..n - 1])
    ensures AllRcpts(cs[first..n]) ==
            AllRcpts(cs[first..n - 1]) + match cs[n - 1] case RcptTo(to) => [to] case _ => []
  {
    var t := cs[first..n];
    assert t[..|t| - 1] == cs[first..n - 1] && t[|t| - 1] == cs[n - 1];
  }

  lemma LoginsStep(b: Backend, cs: seq<Command>, r: nat, first: nat, last: nat, n: nat) returns (latest: nat)
    requires 0 < n <= |cs| && cs[n - 1] != Reset && Logins(b, cs, r, first, last, n - 1)
    ensures latest == (if LoginAt(b, cs, n - 1).Some? then n - 1 else last)
    ensures Logins(b, cs, r, first, latest, n)
  {
    latest := if LoginAt(b, cs, n - 1).Some? then n - 1 else last;
  }

  lemma StepWithLogin(b: Backend, cs: seq<Command>, r: nat, first: nat, last: nat, n: nat)
    requires b.requireAuth && 0 < n <= |cs| && cs[n - 1] != Reset
    requires After(b, cs[..n - 1]).isAuthenticated && Witnessed(b, cs, r, first, last, n - 1)
    ensures Explained(b, cs, n)
  {
    AfterStep(b, cs, n);
    HistoryStep(cs, first, n);
    var latest := LoginsStep(b, cs, r, first, last, n);
    assert Witnessed(b, cs, r, first, latest, n);
  }

  lemma StepWithoutLogin(b: Backend, cs: seq<Command>, r: nat, n: nat)
    requires b.requireAuth && 0 < n <= |cs| && cs[n - 1] != Reset
    requires After(b, cs[..n - 1]) == Initial(b) && AfterReset(cs, r, n - 1) && NoLogin(b, cs, r, n - 1)
    ensures Explained(b, cs, n)
  {
    AfterStep(b, cs, n);
    assert NoReset(cs, r, n);
    if LoginAt(b, cs, n - 1).Some? {
      HistoryStep(cs, n - 1, n);
      assert cs[n - 1..n - 1] == [];
      assert NoLogin(b, cs, n, n);
      assert Witnessed(b, cs, r, n - 1, n - 1, n);
    } else {
      assert NoLogin(b, cs, r, n);
    }
  }

  /** Every reachable state is explained by the commands that led to it. */
  lemma {:induction false} EveryStateIsExplained(b: Backend, cs: seq<Command>, n: nat)
    requires b.requireAuth && n <= |cs|
    ensures Explained(b, cs, n)
  {
    if n == 0 {
      assert AfterReset(cs, 0, 0) && NoLogin(b, cs, 0, 0);
    } else {
      EveryStateIsExplained(b, cs, n - 1);
      AfterStep(b, cs, n);
      var s := After(b, cs[..n - 1]);
      if cs[n - 1] == Reset {
        assert AfterReset(cs, n, n) && NoLogin(b, cs, n, n);
      } else if s.isAuthenticated {
        var r: nat, first: nat, last: nat :| Witnessed(b, cs, r, first, last, n - 1);
        StepWithLogin(b, cs, r, first, last, n);
      } else {
        var r: nat :| AfterReset(cs, r, n - 1) && NoLogin(b, cs, r, n - 1);
        StepWithoutLogin(b, cs, r, n);
      }
    }
  }

  /**
   * With authentication required, every handled message follows a successful login with no Reset in
   * between and runs in the context of the latest one; its From address is the argument of the last
   * MAIL, and its envelope is made of exactly the RCPTs, since the first login after the last Reset.
   * Before that login no MAIL or RCPT was accepted.
   */
  lemma HandledMessagesAreAuthorized(b: Backend, cs: seq<Command>, n: nat)
    returns (r: nat, first: nat, last: nat)
    requires b.requireAuth && n < |cs| && HandledAt(b, cs, n).Some?
    ensures Logins(b, cs, r, first, last, n)
    ensures var h := HandledAt(b, cs, n).value;
            && LoginAt(b, cs, last) == Some(h.context)
            && h.mail.from.address == LastMail(cs[first..n]) != ""
            && cs[n].Data? && cs[n].message.Some? && TakenFrom(b.codec, cs[n].message.value, h.mail)
            && h.mail.bcc == BccOf(b.fold, Seen(b.fold, h.mail.to + h.mail.cc), AllRcpts(cs[first..n]))
  {
    HandledFollows(b, After(b, cs[..n]), cs[n]);
    HandledIsTaken(b, After(b, cs[..n]), cs[n].message.value);
    EveryStateIsExplained(b, cs, n);
    r, first, last :| Witnessed(b, cs, r, first, last, n);
  }

  // ----- recipients

  /** Some address of the list is the recipient, ignoring case. */
  predicate Names(fold: string -> string, addresses: seq<Address>, rcpt: string) {
    exists i :: 0 <= i < |addresses| && fold(addresses[i].address) == fold(rcpt)
  }

  lemma {:induction false} BccNames(fold: string -> string, seen: set<string>, recipients: seq<string>, k: nat)
    requires k < |recipients| && fold(recipients[k]) !in seen
    ensures Names(fold, BccOf(fold, seen, recipients), recipients[k])
  {
    var init := BccOf(fold, seen, recipients[..|recipients| - 1]);
    var all := BccOf(fold, seen, recipients);
    if k == |recipients| - 1 {
      assert all[|init|] == Address("", recipients[k]);
    } else {
      BccNames(fold, seen, recipients[..|recipients| - 1], k);
      var i :| 0 <= i < |init| && fold(init[i].address) == fold(recipients[k]);
      assert all[i] == init[i];
    }
  }

  lemma NamesAppend(fold: string -> string, a: seq<Address>, c: seq<Address>, rcpt: string)
    requires Names(fold, a, rcpt) || Names(fold, c, rcpt)
    ensures Names(fold, a + c, rcpt)
  {
    var all := a + c;
    if i :| 0 <= i < |a| && fold(a[i].address) == fold(rcpt) {
      assert all[i] == a[i];
    } else {
      var j :| 0 <= j < |c| && fold(c[j].address) == fold(rcpt);
      assert all[|a| + j] == c[j];
    }
  }

  /** Every envelope recipient is named by a header or by the Bcc list computed from the envelope. */
  lemma RecipientsAreConserved(fold: string -> string, header: seq<Address>, recipients: seq<string>, k: nat)
    requires k < |recipients|
    ensures Names(fold, header + BccOf(fold, Seen(fold, header), recipients), recipients[k])
  {
    var bcc := BccOf(fold, Seen(fold, header), recipients);
    if fold(recipients[k]) in Seen(fold, header) {
      assert Names(fold, header, recipients[k]);
    } else {
      BccNames(fold, Seen(fold, header), recipients, k);
    }
    NamesAppend(fold, header, bcc, recipients[k]);
  }

  function Count(addresses: seq<Address>, rcpt: string): nat {
    if addresses == [] then 0
    else Count(addresses[..|addresses| - 1], rcpt) + (if addresses[|addresses| - 1].address == rcpt then 1 else 0)
  }

  lemma CountAppend(addresses: seq<Address>, a: Address, rcpt: string)
    ensures Count(addresses + [a], rcpt) == Count(addresses, rcpt) + (if a.address == rcpt then 1 else 0)
  {
    assert (addresses + [a])[..|addresses|] == addresses;
  }

  /** The entries of Bcc are bare addresses. */
  lemma {:induction false} BccHasNoNames(fold: string -> string, seen: set<string>, recipients: seq<string>)
    ensures forall a :: a in BccOf(fold, seen, recipients) ==> a.name == "" && a.address in recipients
  {
    if recipients != [] {
      var init, last := recipients[..|recipients| - 1], recipients[|recipients| - 1];
      BccHasNoNames(fold, seen, init);
      assert forall r :: r in init ==> r in recipients;
      assert last in recipients;
    }
  }

  lemma MultisetOfLast(s: seq<string>, x: string)
    requires s != []
    ensures multiset(s)[x] == multiset(s[..|s| - 1])[x] + (if s[|s| - 1] == x then 1 else 0)
  {
    assert s == s[..|s| - 1] + [s[|s| - 1]];
  }

  /** Bcc repeats a recipient as often as the envelope does, unless a header names it. */
  lemma {:induction false} BccCounts(fold: string -> string, seen: set<string>, recipients: seq<string>, rcpt: string)
    ensures Count(BccOf(fold, seen, recipients), rcpt) ==
            if fold(rcpt) in seen then 0 else multiset(recipients)[rcpt]
  {
    if recipients != [] {
      var init, last := recipients[..|recipients| - 1], recipients[|recipients| - 1];
      BccCounts(fold, seen, init, rcpt);
      MultisetOfLast(recipients, rcpt);
      if fold(last) in seen {
        assert BccOf(fold, seen, recipients) == BccOf(fold, seen, init);
      } else {
        CountAppend(BccOf(fold, seen, init), Address("", last), rcpt);
      }
    }
  }

  /** Bcc keeps the order of the envelope: it is computed piece by piece. */
  lemma {:induction false} BccInOrder(fold: string -> string, seen: set<string>, a: seq<string>, c: seq<string>)
    ensures BccOf(fold, seen, a + c) == BccOf(fold, seen, a) + BccOf(fold, seen, c)
  {
    if c == [] {
      assert a + c == a;
    } else {
      var init, last := c[..|c| - 1], c[|c| - 1];
      BccInOrder(fold, seen, a, init);
      assert (a + c)[..|a + c| - 1] == a + init && (a + c)[|a + c| - 1] == last;
    }
  }

  predicate Reached(fold: string -> string, m: Mail, rcpt: string) {
    exists i :: 0 <= i < |FinalRecipients(m)| && fold(FinalRecipients(m)[i]) == fold(rcpt)
  }

  lemma NamedIsReached(fold: string -> string, m: Mail, rcpt: string)
    requires Names(fold, m.to + m.cc + m.bcc, rcpt)
    ensures Reached(fold, m, rcpt)
  {
    var all := m.to + m.cc + m.bcc;
    var i :| 0 <= i < |all| && fold(all[i].address) == fold(rcpt);
    assert FinalRecipients(m)[i] == all[i].address;
  }

  lemma EveryRcptIsReached(fold: string -> string, m: Mail, recipients: seq<string>)
    requires m.bcc == BccOf(fold, Seen(fold, m.to + m.cc), recipients)
    ensures forall rcpt :: rcpt in recipients ==> Reached(fold, m, rcpt)
  {
    forall rcpt | rcpt in recipients
      ensures Reached(fold, m, rcpt)
    {
      var k :| 0 <= k < |recipients| && recipients[k] == rcpt;
      RecipientsAreConserved(fold, m.to + m.cc, recipients, k);
      NamedIsReached(fold, m, rcpt);
    }
  }

  /** The address is an envelope recipient, ignoring case. */
  predicate Among(fold: string -> string, address: string, recipients: seq<string>) {
    exists k :: 0 <= k < |recipients| && fold(address) == fold(recipients[k])
  }

  predicate AllAmong(fold: string -> string, addresses: seq<Address>, recipients: seq<string>) {
    forall i :: 0 <= i < |addresses| ==> Among(fold, addresses[i].address, recipients)
  }

  lemma AllAmongAppend(fold: string -> string, a: seq<Address>, c: seq<Address>, recipients: seq<string>)
    ensures AllAmong(fold, a + c, recipients) <==>
              AllAmong(fold, a, recipients) && AllAmong(fold, c, recipients)
  {
    assert forall i :: 0 <= i < |a| ==> (a + c)[i] == a[i];
    assert forall i :: 0 <= i < |c| ==> (a + c)[|a| + i] == c[i];
  }

  lemma {:induction false} BccIsAmong(fold: string -> string, seen: set<string>, recipients: seq<string>)
    ensures AllAmong(fold, BccOf(fold, seen, recipients), recipients)
  {
    if recipients != [] {
      var init, last := recipients[..|recipients| - 1], recipients[|recipients| - 1];
      var bcc, more := BccOf(fold, seen, init), if fold(last) in seen then [] else [Address("", last)];
      BccIsAmong(fold, seen, init);
      forall i | 0 <= i < |bcc|
        ensures Among(fold, bcc[i].address, recipients)
      {
        assert Among(fold, bcc[i].address, init);
        var k :| 0 <= k < |init| && fold(bcc[i].address) == fold(init[k]);
        assert recipients[k] == init[k];
      }
      assert AllAmong(fold, more, recipients);
      AllAmongAppend(fold, bcc, more, recipients);
    }
  }

  /** Nobody else is reached: every final address is one of the recipients, ignoring case. */
  predicate ReachesOnly(fold: string -> string, m: Mail, recipients: seq<string>) {
    forall i :: 0 <= i < |FinalRecipients(m)| ==> Among(fold, FinalRecipients(m)[i], recipients)
  }

  lemma ReachesOnlyIff(fold: string -> string, m: Mail, recipients: seq<string>)
    requires m.bcc == BccOf(fold, Seen(fold, m.to + m.cc), recipients)
    ensures ReachesOnly(fold, m, recipients) <==> AllAmong(fold, m.to + m.cc, recipients)
  {
    var all := m.to + m.cc + m.bcc;
    BccIsAmong(fold, Seen(fold, m.to + m.cc), recipients);
    AllAmongAppend(fold, m.to + m.cc, m.bcc, recipients);
    assert forall i :: 0 <= i < |all| ==> FinalRecipients(m)[i] == all[i].address;
    if ReachesOnly(fold, m, recipients) {
      forall i | 0 <= i < |all|
        ensures Among(fold, all[i].address, recipients)
      {
        assert FinalRecipients(m)[i] == all[i].address;
      }
    }
  }

  /**
   * From the SMTP envelope to the final transmission: every RCPT since the login is among the
   * addresses the queue's worker transmits to, and nobody else is, ignoring case, if and only if every
   * To and Cc address of the message was a RCPT itself.
   */
  lemma RcptReachesTransmission(b: Backend, cs: seq<Command>, n: nat, config: MailServer.Config,
                                from: Address, now: int, id: string)
    returns (r: nat, first: nat, last: nat, q: Mail)
    requires b.requireAuth && n < |cs| && HandledAt(b, cs, n).Some?
    requires var received := HandledAt(b, cs, n).value.mail;
             && Database.NoEmptyNode(received.body)
             && MailConversion.Accepted(config.syntax, MailConversion.PbOfMail(received), from, now)
             && Database.EnvelopeSurvives(config.syntax, MailConversion.Rebuilt(received, from, now))
    ensures Logins(b, cs, r, first, last, n) && cs[n].Data? && cs[n].message.Some?
    ensures q == MailConversion.Rebuilt(HandledAt(b, cs, n).value.mail, from, now).(messageId := id)
    ensures Complete(q.body) && MailQueue.RowMail(config.syntax, Database.ColumnsOf(config.syntax, q)) == Some(q)
    ensures var msg := cs[n].message.value; Carries(msg.to, q.to) && Carries(msg.cc, q.cc) && q.subject == msg.subject
    ensures forall rcpt :: rcpt in AllRcpts(cs[first..n]) ==> Reached(b.fold, q, rcpt)
    ensures ReachesOnly(b.fold, q, AllRcpts(cs[first..n])) <==>
              AllAmong(b.fold, q.to + q.cc, AllRcpts(cs[first..n]))
  {
    var received := HandledAt(b, cs, n).value.mail;
    r, first, last := HandledMessagesAreAuthorized(b, cs, n);
    q := MailServer.ProxyToWorker(config, received, from, now, id);
    MailConversion.ProxyMailReturns(config.syntax, received, from, now);
    EveryRcptIsReached(b.fold, q, AllRcpts(cs[first..n]));
    ReachesOnlyIff(b.fold, q, AllRcpts(cs[first..n]));
  }

  // ----- two messages

  /** The letter h from a, without a Reply-To header. */
  function LetterTo(to: string): Incoming {
    Incoming(Present([Address("", "a@x")]), Absent, Present([Address("", to)]), Absent,
             "subject", "", EntityHeader(NO_TYPE, ""), false, Some(0), [[0x68]])
  }

  /** The envelope names b only. */
  function LetterCommands(user: string, password: string, to: string): seq<Command> {
    [Auth(user, password), MailFrom("a@x"), RcptTo("b@x"), Data(Some(LetterTo(to)))]
  }

  lemma LetterState(b: Backend, user: string, password: string, to: string)
    requires Login(b, b.rootContext, user, password).Some?
    ensures After(b, LetterCommands(user, password, to)[..3]) ==
            State("a@x", ["b@x"], Login(b, b.rootContext, user, password).value, true)
  {
    var cs := LetterCommands(user, password, to);
    AfterStep(b, cs, 1);
    AfterStep(b, cs, 2);
    AfterStep(b, cs, 3);
    assert cs[..0] == [];
    assert Initial(b).recipients + ["b@x"] == ["b@x"];
  }

  lemma OneRcpt(a: Command, b: Command, c: Command)
    requires !a.RcptTo? && !b.RcptTo? && c.RcptTo?
    ensures AllRcpts([a, b, c]) == [c.to]
  {
    var one, two, three := [a], [a, b], [a, b, c];
    assert one[..0] == [] && two[..1] == one && three[..2] == two;
    assert AllRcpts(one) == [] + [];
    assert AllRcpts(two) == AllRcpts(one) + [];
    assert AllRcpts(three) == AllRcpts(two) + [c.to];
  }

  lemma LetterRcpts(user: string, password: string, to: string)
    ensures AllRcpts(LetterCommands(user, password, to)[..3]) == ["b@x"]
  {
    var cs := LetterCommands(user, password, to);
    assert cs[..3] == [cs[0], cs[1], cs[2]];
    OneRcpt(cs[0], cs[1], cs[2]);
  }

  /** The mail that is handed on. */
  function Letter(b: Backend, to: string): Mail {
    Mail(Address("", "a@x"), [], [Address("", to)], [], BccOf(b.fold, Seen(b.fold, [Address("", to)]), ["b@x"]),
         "subject", 0, "", NO_TYPE, [], Binary([0x68]))
  }

  lemma LetterPasses(s: State, to: string)
    requires s.from == "a@x" && to != ""
    ensures CheckHeaders(s, LetterTo(to)) == Success
  {
  }

  lemma LetterIsReceived(b: Backend, s: State, to: string)
    requires s.from == "a@x" && s.recipients == ["b@x"] && s.isAuthenticated && to != ""
    ensures ReceiveData(b, s, Some(LetterTo(to))).handled == Some(Handled(s.context, Letter(b, to)))
  {
    var msg := LetterTo(to);
    LetterPasses(s, to);
    assert ListOf(msg.to) + ListOf(msg.cc) == [Address("", to)];
    assert ReceivedBody(b, msg) == Ok(Binary([0x68]));
    assert ValidMail(Letter(b, to));
  }

  lemma DataIsReceived(b: Backend, cs: seq<Command>, n: nat, s: State, message: Option<Incoming>)
    requires n < |cs| && After(b, cs[..n]) == s && cs[n] == Data(message)
    ensures HandledAt(b, cs, n) == ReceiveData(b, s, message).handled
  {
  }

  lemma LetterIsHandled(b: Backend, user: string, password: string, to: string)
    requires Login(b, b.rootContext, user, password).Some? && to != ""
    ensures HandledAt(b, LetterCommands(user, password, to), 3) ==
            Some(Handled(Login(b, b.rootContext, user, password).value, Letter(b, to)))
  {
    var cs := LetterCommands(user, password, to);
    var s := State("a@x", ["b@x"], Login(b, b.rootContext, user, password).value, true);
    LetterState(b, user, password, to);
    DataIsReceived(b, cs, 3, s, Some(LetterTo(to)));
    LetterIsReceived(b, s, to);
  }

  lemma StrangerIsReached(fold: string -> string, m: Mail)
    requires m.to == [Address("", "c@x")] && fold("b@x") != fold("c@x")
    ensures !ReachesOnly(fold, m, ["b@x"])
  {
    assert FinalRecipients(m)[0] == "c@x";
  }

  /**
   * The To header need not name an envelope recipient: the check that should see to it runs only
   * where there is a Reply-To header.  After any login these commands make the session hand on a
   * message to an address that was never a RCPT.
   */
  lemma UnmatchedToIsHandled(b: Backend, user: string, password: string)
    requires Login(b, b.rootContext, user, password).Some?
    requires b.fold("b@x") != b.fold("c@x")
    ensures var cs := LetterCommands(user, password, "c@x");
            && HandledAt(b, cs, 3).Some?
            && AllRcpts(cs[..3]) == ["b@x"]
            && !ReachesOnly(b.fold, HandledAt(b, cs, 3).value.mail, AllRcpts(cs[..3]))
  {
    LetterIsHandled(b, user, password, "c@x");
    LetterRcpts(user, password, "c@x");
    StrangerIsReached(b.fold, Letter(b, "c@x"));
  }

  lemma LetterHasNoBcc(fold: string -> string)
    ensures BccOf(fold, Seen(fold, [Address("", "b@x")]), ["b@x"]) == []
  {
    var none: seq<Address> := [];
    SeenAppend(fold, none, Address("", "b@x"));
    assert none + [Address("", "b@x")] == [Address("", "b@x")];
    var rcpts := ["b@x"];
    assert rcpts[..0] == [] && fold(rcpts[0]) in Seen(fold, [Address("", "b@x")]);
  }

  lemma LetterIsRebuilt(m: Mail, from: Address)
    requires m.subject == "subject" && m.contentType == NO_TYPE && m.body == Binary([0x68])
    ensures ValidMail(MailConversion.Rebuilt(m, from, 0))
  {
  }

  lemma LetterIsAccepted(syntax: MailConversion.AddressSyntax, m: Mail, from: Address)
    requires m.to == [Address("", "b@x")] && m.replyTo == m.cc == m.bcc == [] && m.headers == []
    requires m.subject == "subject" && m.contentType == NO_TYPE && m.body == Binary([0x68])
    requires forall a: Address :: MailConversion.ReadableAddress(syntax, a)
    ensures MailConversion.Accepted(syntax, MailConversion.PbOfMail(m), from, 0)
  {
    MailConversion.ProxyMailReturns(syntax, m, from, 0);
    MailConversion.EnvelopeReturns(syntax, m, from);
    LetterIsRebuilt(m, from);
  }

  /** A message to its one recipient goes all the way to the worker, as `RcptReachesTransmission` asks for. */
  lemma LetterReachesWorker(b: Backend, user: string, password: string, config: MailServer.Config)
    requires b.requireAuth && Login(b, b.rootContext, user, password).Some?
    requires config.syntax == MailConversion.AddressSyntax((a: Address) => a.address, s => Some(Address("", s)))
    ensures var cs := LetterCommands(user, password, "b@x");
            && HandledAt(b, cs, 3).Some?
            && var received := HandledAt(b, cs, 3).value.mail;
               && Database.NoEmptyNode(received.body)
               && MailConversion.Accepted(config.syntax, MailConversion.PbOfMail(received), Address("", "a@x"), 0)
               && Database.EnvelopeSurvives(config.syntax, MailConversion.Rebuilt(received, Address("", "a@x"), 0))
  {
    var m, from := Letter(b, "b@x"), Address("", "a@x");
    LetterIsHandled(b, user, password, "b@x");
    LetterHasNoBcc(b.fold);
    LetterIsAccepted(config.syntax, m, from);
  }
}
