/** From `QueueMail` to the SMTP server, on every run of the queue. */
module QueuedDelivery {
  import opened Bytes
  import opened MailTypes
  import opened PartPrinter
  import opened InternetMessage
  import opened MailConversion
  import opened Database
  import opened MailSender
  import opened MailQueue
  import opened MailServer
  import opened QueueRuns

  /** Every queued row of the run was inserted by `QueueMail`: the one of event `i` for request `requests(i)`. */
  predicate FedBy(config: Config, requests: nat -> Request, es: seq<Event>) {
    forall i: nat :: i < |es| && es[i].Create? && es[i].status == Submitted ==>
      var r := requests(i);
      && Accepted(config.syntax, r.mail, SenderOf(config, r.mail), r.now)
      && EnvelopeSurvives(config.syntax, AcceptedMail(config, r))
      && es[i].columns == AcceptedColumns(config, r)
  }

  /**
   * On every run, whatever the worker tries to transmit is the row of an earlier request; it is
   * delivered only if the body of that request has no empty node, and then the server is given the
   * octets and the recipients that the direct way would have given it.
   */
  lemma WorkerDeliversRequests(p: Protocol, config: Config, requests: nat -> Request, qs: seq<Queue>, es: seq<Event>,
                               j: nat)
    returns (i: nat)
    requires Run(p, qs, es) && p.syntax == config.syntax && FedBy(config, requests, es)
    requires j < |es| && es[j].Transmit?
    ensures i < j && es[i] == Create(es[j].columns, Submitted)
    ensures var r := requests(i);
            && Accepted(config.syntax, r.mail, SenderOf(config, r.mail), r.now)
            && (es[j].ok ==>
                  && NoEmptyNode(AcceptedMail(config, r).body)
                  && Deliverable(p.syntax, es[j].columns) && Sendable(AcceptedMail(config, r))
                  && RowMail(p.syntax, es[j].columns) == Some(AcceptedMail(config, r))
                  && DeliveryOf(config.env, config.rendering, RowMail(p.syntax, es[j].columns).value) ==
                     DeliveryOf(config.env, config.rendering, AcceptedMail(config, r)))
  {
    i := TransmittedWasQueued(p, qs, es, j);
    assert Next(p, qs[j], es[j], qs[j + 1]);
    var r := requests(i);
    QueuedRequest(config, r);
    AcceptedIsPrintable(config, r);
    QueuedIsDirect(config.syntax, AcceptedMail(config, r));
  }
}
