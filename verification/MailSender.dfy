/** Handing a mail to the SMTP server: `SMTPMailSender.TransmitMail`, pkg/mailer/smtp.go:98-150. */
module MailSender {
  import opened Bytes
  import opened LineEndings
  import opened MailTypes
  import opened PartPrinter
  import opened InternetMessage

  /** What reaches the SMTP server: the envelope and the message. */
  datatype Delivery = Delivery(from: string, recipients: seq<string>, message: bytes)

  /** The addresses a mail is transmitted to. */
  function FinalRecipients(m: Mail): seq<string> {
    var all := m.to + m.cc + m.bcc;
    seq(|all|, i requires 0 <= i < |all| => all[i].address)
  }

  method CollectRecipients(m: Mail) returns (recipientsAddresses: seq<string>)
    ensures recipientsAddresses == FinalRecipients(m)
  {
    var recipients := m.to + m.cc + m.bcc;
    recipientsAddresses := [];
    for i := 0 to |recipients|
      invariant |recipientsAddresses| == i
      invariant forall k :: 0 <= k < i ==> recipientsAddresses[k] == recipients[k].address
    {
      recipientsAddresses := recipientsAddresses + [recipients[i].address];
    }
  }

  /** The message as it goes out: without 8bit support. */
  function WireForm(env: Env, r: Rendering, m: Mail): bytes
    requires Encodable(m.body, m.contentType)
  {
    Canonical(MessageText(r, m, EncodePart(env.(has8Bit := false), [], m.body, m.contentType)))
  }

  /** A mail that the sender hands over as soon as the server takes it. */
  predicate Sendable(m: Mail) {
    m.messageId != "" && ValidMail(m) && Printable(m)
  }

  /** A mail at which the sender, and with it the program, breaks down. */
  predicate Breaks(m: Mail) {
    m.messageId != "" && PrintingFaults(m)
  }

  function DeliveryOf(env: Env, r: Rendering, m: Mail): Delivery
    requires Sendable(m)
  {
    ValidMailIsEncodable(m);
    Delivery(m.from.address, FinalRecipients(m), WireForm(env, r, m))
  }

  datatype Sending = Delivered | NotDelivered | Broken

  /** What becomes of a mail, depending on whether the server takes it. */
  function SendingOf(m: Mail, accepts: bool): Sending {
    if Breaks(m) then Broken
    else if Sendable(m) && accepts then Delivered
    else NotDelivered
  }

  lemma SendableNeverBreaks(m: Mail)
    requires Sendable(m)
    ensures !Breaks(m)
  {
    ValidNeverFaults(m);
  }

  class Sender {
    const env: Env
    const rendering: Rendering
    /** The mails the server has taken so far. */
    var sent: seq<Mail>

    constructor (env: Env, rendering: Rendering)
      ensures this.env == env && this.rendering == rendering && sent == []
    {
      this.env, this.rendering := env, rendering;
      sent := [];
    }

    /** `delivery` is what the server was given, also where it refused it. */
    method TransmitMail(m: Mail, accepts: bool) returns (sending: Sending, delivery: Option<Delivery>)
      modifies this`sent
      ensures sending == SendingOf(m, accepts)
      ensures sent == if sending == Delivered then old(sent) + [m] else old(sent)
      ensures delivery == if Sendable(m) then Some(DeliveryOf(env, rendering, m)) else None
      ensures delivery.Some? ==> m.messageId != "" && delivery.value.from == m.from.address
      ensures sending == Delivered ==> delivery.Some? && accepts
    {
      delivery := None;
      if m.messageId == "" {
        return NotDelivered, None;
      }
      var printed := GetInternetMessageFormat(env.(has8Bit := false), rendering, m);
      if printed.Fault? {
        return Broken, None;
      }
      if printed.Refused? {
        return NotDelivered, None;
      }
      var recipientsAddresses := CollectRecipients(m);
      delivery := Some(Delivery(m.from.address, recipientsAddresses, printed.text));
      if !accepts {
        return NotDelivered, delivery;
      }
      sent := sent + [m];
      sending := Delivered;
    }
  }
}
