/**
 * The `mails` table as its queries change it (sql/queries/mail.sql) and the loop that drains it
 * (internal/dispatcher/queuehandler.go).
 */
module MailQueue {
  import opened Bytes
  import opened MailTypes
  import opened PartPrinter
  import opened InternetMessage
  import opened MailConversion
  import opened Database
  import opened MailSender

  datatype QueueRow = QueueRow(columns: MailColumns, status: Status, processedAt: Option<int>)

  type Rows = map<nat, QueueRow>

  /**
   * How a row's age is compared with an interval: `processed_at - NOW() > interval` as the queries
   * have it, or `NOW() - processed_at > interval` as README.md describes it.
   */
  datatype Reading = AsWritten | AsDocumented

  /** A missing time satisfies neither comparison. */
  predicate Older(reading: Reading, processedAt: Option<int>, now: int, interval: nat) {
    processedAt.Some? &&
    match reading
    case AsWritten => processedAt.value - now > interval
    case AsDocumented => now - processedAt.value > interval
  }

  datatype Settings = Settings(reading: Reading, retryInterval: nat, keepInterval: nat)

  /** As deployed: microseconds, one hour between retries, 120 days of sent mails. */
  const DEPLOYED := Settings(AsWritten, 3_600_000_000, 120 * 86_400_000_000)

  // ----- the queries

  predicate Eligible(cfg: Settings, row: QueueRow, now: int) {
    || row.status == Submitted
    || ((row.status == Failed || row.status == Processing)
        && Older(cfg.reading, row.processedAt, now, cfg.retryInterval))
  }

  function EligibleIds(cfg: Settings, rows: Rows, now: int): set<nat> {
    set id | id in rows && Eligible(cfg, rows[id], now)
  }

  function Popped(rows: Rows, id: nat, now: int): Rows
    requires id in rows
  {
    rows[id := rows[id].(status := Processing, processedAt := Some(now))]
  }

  /** An update of no row is no error. */
  function WithStatus(rows: Rows, id: nat, status: Status): Rows {
    if id in rows then rows[id := rows[id].(status := status)] else rows
  }

  predicate Deletable(cfg: Settings, row: QueueRow, now: int) {
    row.status == Sent && Older(cfg.reading, row.processedAt, now, cfg.keepInterval)
  }

  function Remaining(cfg: Settings, rows: Rows, now: int): Rows {
    map id | id in rows && !Deletable(cfg, rows[id], now) :: rows[id]
  }

  class MailTable {
    const cfg: Settings
    var rows: Rows
    var nextId: nat

    ghost predicate Valid()
      reads this
    {
      forall id :: id in rows ==> id < nextId
    }

    constructor (cfg: Settings)
      ensures Valid() && this.cfg == cfg && rows == map[] && nextId == 0
    {
      this.cfg := cfg;
      rows, nextId := map[], 0;
    }

    method CreateMail(columns: MailColumns, status: Status) returns (id: nat)
      requires Valid()
      modifies this
      ensures Valid()
      ensures id == old(nextId) && id !in old(rows) && nextId == id + 1
      ensures rows == old(rows)[id := QueueRow(columns, status, None)]
    {
      id := nextId;
      rows := rows[id := QueueRow(columns, status, None)];
      nextId := nextId + 1;
    }

    /** `LIMIT 1` without an order: any eligible row may be the one. */
    method PopMailForProcessing(now: int) returns (popped: Option<nat>)
      requires Valid()
      modifies this`rows
      ensures Valid()
      ensures popped.None? <==> EligibleIds(cfg, old(rows), now) == {}
      ensures popped.None? ==> rows == old(rows)
      ensures popped.Some? ==>
                && popped.value in EligibleIds(cfg, old(rows), now)
                && rows == Popped(old(rows), popped.value, now)
      ensures popped.Some? ==>
                && rows == old(rows)[popped.value := rows[popped.value]]
                && rows[popped.value] == QueueRow(old(rows)[popped.value].columns, Processing, Some(now))
    {
      var candidates := EligibleIds(cfg, rows, now);
      if candidates == {} {
        return None;
      }
      var id :| id in candidates;
      rows := Popped(rows, id, now);
      popped := Some(id);
    }

    method SetMailStatus(id: nat, status: Status)
      requires Valid()
      modifies this`rows
      ensures Valid() && rows == WithStatus(old(rows), id, status)
      ensures rows.Keys == old(rows).Keys
      ensures id in rows ==> rows[id] == QueueRow(old(rows)[id].columns, status, old(rows)[id].processedAt)
      ensures forall other :: other in rows && other != id ==> rows[other] == old(rows)[other]
    {
      if id in rows {
        rows := rows[id := rows[id].(status := status)];
      }
    }

    method DeleteOldMails(now: int)
      requires Valid()
      modifies this`rows
      ensures Valid() && rows == Remaining(cfg, old(rows), now)
      ensures forall id :: id in rows ==> id in old(rows) && rows[id] == old(rows)[id]
      ensures forall id :: id in old(rows) ==>
                var row := old(rows)[id];
                (id !in rows <==>
                   && row.status == Sent && row.processedAt.Some?
                   && (if cfg.reading == AsWritten then row.processedAt.value > now + cfg.keepInterval
                       else row.processedAt.value < now - cfg.keepInterval))
    {
      rows := Remaining(cfg, rows, now);
    }
  }

  /** Submitted rows are due at once, sent ones never, and others as their age says under either reading. */
  lemma DueIff(cfg: Settings, row: QueueRow, now: int)
    ensures Eligible(cfg, row, now) <==>
              match row.status
              case Submitted => true
              case Sent => false
              case _ =>
                && row.processedAt.Some?
                && (if cfg.reading == AsWritten then row.processedAt.value > now + cfg.retryInterval
                    else row.processedAt.value < now - cfg.retryInterval)
  {
  }

  // ----- one row

  /** The mail that a row stands for. */
  function RowMail(syntax: AddressSyntax, columns: MailColumns): Option<Mail> {
    if Readable(syntax, columns) then Some(MailOfColumns(syntax, columns)) else None
  }

  /** A row whose mail goes out as soon as the server takes it. */
  predicate Deliverable(syntax: AddressSyntax, columns: MailColumns) {
    RowMail(syntax, columns).Some? && Sendable(RowMail(syntax, columns).value)
  }

  /** A row at which the worker breaks down. */
  predicate RowBreaks(syntax: AddressSyntax, columns: MailColumns) {
    RowMail(syntax, columns).Some? && Breaks(RowMail(syntax, columns).value)
  }

  /** How a turn of the worker ends; `Aborted` ends the program with it. */
  datatype Verdict = Empty | Handled | TransmitError | Aborted

  function VerdictOf(syntax: AddressSyntax, columns: MailColumns, accepts: bool): Verdict {
    match RowMail(syntax, columns)
    case None => TransmitError
    case Some(m) =>
      match SendingOf(m, accepts)
      case Delivered => Handled
      case NotDelivered => TransmitError
      case Broken => Aborted
  }

  lemma VerdictSaysRow(syntax: AddressSyntax, columns: MailColumns, accepts: bool)
    ensures VerdictOf(syntax, columns, accepts) == Handled <==> Deliverable(syntax, columns) && accepts
    ensures VerdictOf(syntax, columns, accepts) == Aborted <==> RowBreaks(syntax, columns)
  {
    if Deliverable(syntax, columns) {
      SendableNeverBreaks(RowMail(syntax, columns).value);
    }
  }

  // ----- one turn

  /** What the world decides in one turn: whether the server takes the mail and whether the status is written. */
  datatype Turn = Turn(now: int, accepts: bool, writes: bool)

  /** The status the deferred write stores. */
  function FinalStatus(verdict: Verdict): Status {
    if verdict == Handled then Sent else Failed
  }

  function AfterTurn(rows: Rows, id: nat, turn: Turn, verdict: Verdict): Rows
    requires id in rows
  {
    var popped := Popped(rows, id, turn.now);
    if turn.writes then WithStatus(popped, id, FinalStatus(verdict)) else popped
  }

  /** A turn stamps its row and leaves all else; only a mail that was handled is marked as sent. */
  lemma TurnMarks(rows: Rows, id: nat, turn: Turn, verdict: Verdict)
    requires id in rows
    ensures AfterTurn(rows, id, turn, verdict) ==
            rows[id := QueueRow(rows[id].columns,
                                if !turn.writes then Processing else if verdict == Handled then Sent else Failed,
                                Some(turn.now))]
  {
  }

  /**
   * The measure of a pass: within one interval of a turn, the eligible rows are those from before
   * the turn without the popped one.
   */
  lemma TurnTakesOneEligibleRow(cfg: Settings, rows: Rows, id: nat, turn: Turn, verdict: Verdict, now: int)
    requires id in EligibleIds(cfg, rows, turn.now)
    requires turn.now <= now <= turn.now + cfg.retryInterval
    ensures EligibleIds(cfg, AfterTurn(rows, id, turn, verdict), now) == EligibleIds(cfg, rows, now) - {id}
    ensures |EligibleIds(cfg, AfterTurn(rows, id, turn, verdict), turn.now)| ==
            |EligibleIds(cfg, rows, turn.now)| - 1
  {
    var after := AfterTurn(rows, id, turn, verdict);
    assert EligibleIds(cfg, after, turn.now) == EligibleIds(cfg, rows, turn.now) - {id};
  }

  // ----- a pass

  /** What the world decides in the turns of a pass. */
  type World = nat -> Turn

  /** A row popped in one turn of a pass is not due again in a later one. */
  ghost predicate NotDueAgain(cfg: Settings, world: World) {
    forall n: nat, k: nat :: n <= k ==> !Older(cfg.reading, Some(world(n).now), world(k).now, cfg.retryInterval)
  }

  ghost predicate Monotone(world: World) {
    forall n: nat, k: nat :: n <= k ==> world(n).now <= world(k).now
  }

  ghost predicate PassWithin(world: World, start: int, interval: nat) {
    forall n: nat :: start <= world(n).now <= start + interval
  }

  /** The row is eligible in some turn from `n` on. */
  ghost predicate ComesUp(cfg: Settings, row: QueueRow, world: World, n: nat) {
    exists k: nat :: n <= k && Eligible(cfg, row, world(k).now)
  }

  /** The rows that may still be popped in a pass. */
  ghost function Pending(cfg: Settings, rows: Rows, world: World, n: nat): set<nat> {
    set id | id in rows && ComesUp(cfg, rows[id], world, n)
  }

  /** As the query is written, a clock that never goes back is enough, however long the pass takes. */
  lemma MonotoneIsNotDueAgain(cfg: Settings, world: World)
    requires cfg.reading == AsWritten && Monotone(world)
    ensures NotDueAgain(cfg, world)
  {
  }

  /** Under either reading a pass of one interval is short enough, and only rows due at its ends come up. */
  lemma ShortPass(cfg: Settings, rows: Rows, world: World, start: int)
    requires PassWithin(world, start, cfg.retryInterval)
    ensures NotDueAgain(cfg, world)
    ensures Pending(cfg, rows, world, 0) <=
            EligibleIds(cfg, rows, start) + EligibleIds(cfg, rows, start + cfg.retryInterval)
  {
  }

  lemma {:induction false} SmallerSet(a: set<nat>, b: set<nat>)
    requires a <= b
    ensures |a| <= |b|
  {
    assert b == a + (b - a);
  }

  /** Every turn takes one row out of the pending ones, whatever became of its status write. */
  lemma TurnShrinksPending(cfg: Settings, rows: Rows, world: World, n: nat, id: nat, verdict: Verdict)
    requires NotDueAgain(cfg, world) && id in EligibleIds(cfg, rows, world(n).now)
    ensures id in Pending(cfg, rows, world, n)
    ensures Pending(cfg, AfterTurn(rows, id, world(n), verdict), world, n + 1) <= Pending(cfg, rows, world, n) - {id}
    ensures |Pending(cfg, AfterTurn(rows, id, world(n), verdict), world, n + 1)| < |Pending(cfg, rows, world, n)|
  {
    var after := AfterTurn(rows, id, world(n), verdict);
    var before, rest := Pending(cfg, rows, world, n), Pending(cfg, after, world, n + 1);
    assert ComesUp(cfg, rows[id], world, n);
    forall other | other in rest
      ensures other in before - {id}
    {
      var k: nat :| n + 1 <= k && Eligible(cfg, after[other], world(k).now);
      assert other != id;
    }
    SmallerSet(rest, before - {id});
  }

  predicate Distinct(ids: seq<nat>) {
    forall i, k :: 0 <= i < k < |ids| ==> ids[i] != ids[k]
  }

  function Elements(ids: seq<nat>): set<nat> {
    set id | id in ids
  }

  predicate AllDeliverable(syntax: AddressSyntax, rows: Rows, ids: seq<nat>) {
    forall k :: 0 <= k < |ids| ==> ids[k] in rows && Deliverable(syntax, rows[ids[k]].columns)
  }

  /** What goes out for these rows, in order. */
  function RowMails(syntax: AddressSyntax, rows: Rows, ids: seq<nat>): seq<Mail>
    requires AllDeliverable(syntax, rows, ids)
  {
    seq(|ids|, k requires 0 <= k < |ids| => RowMail(syntax, rows[ids[k]].columns).value)
  }

  /** The rows with the same columns, and unchanged where they were not popped. */
  predicate OnlyPopped(rows: Rows, rows': Rows, popped: seq<nat>) {
    && rows'.Keys == rows.Keys
    && forall id :: id in rows ==>
         rows'[id].columns == rows[id].columns && (id !in popped ==> rows'[id] == rows[id])
  }

  function SubmittedIds(rows: Rows): set<nat> {
    set id | id in rows && rows[id].status == Submitted
  }

  /** No row was processed after `now`. */
  predicate PastTimes(rows: Rows, now: int) {
    forall id :: id in rows && rows[id].processedAt.Some? ==> rows[id].processedAt.value <= now
  }

  lemma SubmittedIsEligible(cfg: Settings, rows: Rows, now: int)
    ensures SubmittedIds(rows) <= EligibleIds(cfg, rows, now)
  {
  }

  /**
   * As the query is written, rows whose processing times are in the past come up in a pass exactly if
   * they are submitted at its start.
   */
  lemma PendingAsWritten(cfg: Settings, rows: Rows, world: World)
    requires cfg.reading == AsWritten && Monotone(world) && PastTimes(rows, world(0).now)
    ensures Pending(cfg, rows, world, 0) == SubmittedIds(rows) == EligibleIds(cfg, rows, world(0).now)
  {
    forall id | id in Pending(cfg, rows, world, 0)
      ensures id in SubmittedIds(rows)
    {
      var k: nat :| Eligible(cfg, rows[id], world(k).now);
      assert world(0).now <= world(k).now;
    }
    forall id | id in SubmittedIds(rows)
      ensures id in Pending(cfg, rows, world, 0)
    {
      assert Eligible(cfg, rows[id], world(0).now);
    }
  }

  predicate AnyBreaks(syntax: AddressSyntax, rows: Rows, ids: seq<nat>)
    requires Elements(ids) <= rows.Keys
  {
    exists k :: 0 <= k < |ids| && (assert ids[k] in Elements(ids); RowBreaks(syntax, rows[ids[k]].columns))
  }

  lemma NoneBreaks(syntax: AddressSyntax, rows: Rows, ids: seq<nat>)
    requires AllDeliverable(syntax, rows, ids)
    ensures Elements(ids) <= rows.Keys && !AnyBreaks(syntax, rows, ids)
  {
    forall k | 0 <= k < |ids|
      ensures !RowBreaks(syntax, rows[ids[k]].columns)
    {
      VerdictSaysRow(syntax, rows[ids[k]].columns, true);
    }
  }

  lemma OnlyLastBreaks(syntax: AddressSyntax, rows: Rows, ids: seq<nat>, id: nat, accepts: bool)
    requires AllDeliverable(syntax, rows, ids) && id in rows
    ensures Elements(ids + [id]) <= rows.Keys
    ensures AnyBreaks(syntax, rows, ids + [id]) <==> VerdictOf(syntax, rows[id].columns, accepts) == Aborted
  {
    NoneBreaks(syntax, rows, ids);
    VerdictSaysRow(syntax, rows[id].columns, accepts);
    var all := ids + [id];
    assert all[|ids|] == id;
    forall k | 0 <= k < |ids|
      ensures !RowBreaks(syntax, rows[all[k]].columns)
    {
      assert all[k] == ids[k] && ids[k] in Elements(ids);
    }
  }

  /** What a pass has popped so far, of `all` rows that could come up at its start and `rest` that still can. */
  predicate Taken(before: Rows, rows: Rows, popped: seq<nat>, all: set<nat>, rest: set<nat>) {
    && Distinct(popped) && Elements(popped) <= before.Keys && OnlyPopped(before, rows, popped)
    && Elements(popped) <= all && rest <= all && Elements(popped) !! rest
    && |popped| + |rest| <= |all|
  }

  /** A pass over `before` that has popped some rows and is at `rows` now. */
  ghost predicate PassSoFar(cfg: Settings, before: Rows, rows: Rows, world: World, popped: seq<nat>) {
    Taken(before, rows, popped, Pending(cfg, before, world, 0), Pending(cfg, rows, world, |popped|))
  }

  lemma OnlyPoppedStep(before: Rows, rows: Rows, popped: seq<nat>, id: nat, turn: Turn, verdict: Verdict)
    requires OnlyPopped(before, rows, popped) && id in rows
    ensures OnlyPopped(before, AfterTurn(rows, id, turn, verdict), popped + [id])
  {
  }

  lemma DistinctStep(ids: seq<nat>, id: nat)
    requires Distinct(ids) && id !in ids
    ensures Distinct(ids + [id]) && Elements(ids + [id]) == Elements(ids) + {id}
  {
  }

  lemma TakenStep(before: Rows, rows: Rows, popped: seq<nat>, id: nat, turn: Turn, verdict: Verdict,
                  all: set<nat>, rest: set<nat>, rest': set<nat>)
    requires Taken(before, rows, popped, all, rest)
    requires id in rest && id in rows && rest' <= rest - {id} && |rest'| < |rest|
    ensures Taken(before, AfterTurn(rows, id, turn, verdict), popped + [id], all, rest')
    ensures rows[id].columns == before[id].columns
  {
    OnlyPoppedStep(before, rows, popped, id, turn, verdict);
    assert id !in Elements(popped);
    DistinctStep(popped, id);
  }

  /** One more row is taken: none twice, and only rows that could come up. */
  lemma PassStep(cfg: Settings, before: Rows, rows: Rows, world: World, popped: seq<nat>, id: nat, verdict: Verdict)
    requires NotDueAgain(cfg, world) && PassSoFar(cfg, before, rows, world, popped)
    requires id in EligibleIds(cfg, rows, world(|popped|).now)
    ensures PassSoFar(cfg, before, AfterTurn(rows, id, world(|popped|), verdict), world, popped + [id])
    ensures |Pending(cfg, AfterTurn(rows, id, world(|popped|), verdict), world, |popped| + 1)| <
            |Pending(cfg, rows, world, |popped|)|
    ensures rows[id].columns == before[id].columns
  {
    var n := |popped|;
    TurnShrinksPending(cfg, rows, world, n, id, verdict);
    TakenStep(before, rows, popped, id, world(n), verdict, Pending(cfg, before, world, 0), Pending(cfg, rows, world, n),
              Pending(cfg, AfterTurn(rows, id, world(n), verdict), world, n + 1));
  }

  /** At the end nothing is eligible, so what could have been popped was. */
  lemma PassEnds(cfg: Settings, before: Rows, rows: Rows, popped: seq<nat>, now: int)
    requires OnlyPopped(before, rows, popped) && EligibleIds(cfg, rows, now) == {}
    ensures EligibleIds(cfg, before, now) <= Elements(popped)
  {
    forall id | id in EligibleIds(cfg, before, now)
      ensures id in popped
    {
      assert id !in popped ==> id in EligibleIds(cfg, rows, now);
    }
  }

  lemma DeliverOneMore(syntax: AddressSyntax, rows: Rows, ids: seq<nat>, id: nat, sent: seq<Mail>)
    requires AllDeliverable(syntax, rows, ids)
    requires id in rows && Deliverable(syntax, rows[id].columns)
    ensures AllDeliverable(syntax, rows, ids + [id])
    ensures sent + RowMails(syntax, rows, ids + [id]) ==
            sent + RowMails(syntax, rows, ids) + [RowMail(syntax, rows[id].columns).value]
  {
    var mails, m := RowMails(syntax, rows, ids), RowMail(syntax, rows[id].columns).value;
    assert RowMails(syntax, rows, ids + [id]) == mails + [m];
    Assoc(sent, mails, [m]);
  }

  class QueueHandler {
    const table: MailTable
    const syntax: AddressSyntax
    const sender: Sender

    constructor (table: MailTable, syntax: AddressSyntax, sender: Sender)
      ensures this.table == table && this.syntax == syntax && this.sender == sender
    {
      this.table, this.syntax, this.sender := table, syntax, sender;
    }

    /**
     * One turn.  A failing status write is not reported to the loop, and the deferred write also
     * happens when the sender breaks down.
     */
    method PopAndHandleMail(turn: Turn) returns (verdict: Verdict, ghost id: Option<nat>)
      requires table.Valid()
      modifies table`rows, sender`sent
      ensures table.Valid()
      ensures verdict == Empty <==> EligibleIds(table.cfg, old(table.rows), turn.now) == {}
      ensures id.None? <==> verdict == Empty
      ensures verdict == Empty ==> table.rows == old(table.rows)
      ensures id.Some? ==>
                && id.value in EligibleIds(table.cfg, old(table.rows), turn.now)
                && verdict == VerdictOf(syntax, old(table.rows)[id.value].columns, turn.accepts)
                && table.rows == AfterTurn(old(table.rows), id.value, turn, verdict)
      ensures verdict == Handled ==>
                && Deliverable(syntax, old(table.rows)[id.value].columns)
                && sender.sent == old(sender.sent) +
                     [RowMail(syntax, old(table.rows)[id.value].columns).value]
      ensures verdict != Handled ==> sender.sent == old(sender.sent)
    {
      var popped := table.PopMailForProcessing(turn.now);
      id := popped;
      if popped.None? {
        return Empty, None;
      }
      var columns := table.rows[popped.value].columns;
      var status := Failed;
      verdict := TransmitError;
      var queuedMail := DBEntityToMail(syntax, columns);
      if queuedMail.Some? {
        var sending, _ := sender.TransmitMail(queuedMail.value, turn.accepts);
        if sending == Delivered {
          status := Sent;
          verdict := Handled;
        } else if sending == Broken {
          verdict := Aborted;
        }
      }
      VerdictSaysRow(syntax, columns, turn.accepts);
      if turn.writes {
        table.SetMailStatus(popped.value, status);
      }
    }

    /** A turn as part of a pass that started at `before` and has handled `handled`. */
    method NextTurn(world: World, turns: nat, ghost before: Rows, ghost handled: seq<nat>, ghost sent: seq<Mail>)
      returns (verdict: Verdict, ghost popped: seq<nat>)
      requires table.Valid() && NotDueAgain(table.cfg, world) && turns == |handled|
      requires PassSoFar(table.cfg, before, table.rows, world, handled) && AllDeliverable(syntax, before, handled)
      requires sender.sent == sent + RowMails(syntax, before, handled)
      modifies table`rows, sender`sent
      ensures table.Valid()
      ensures verdict == Empty ==>
                && popped == handled && table.rows == old(table.rows)
                && EligibleIds(table.cfg, table.rows, world(turns).now) == {}
                && EligibleIds(table.cfg, before, world(turns).now) <= Elements(popped)
                && !AnyBreaks(syntax, before, popped)
      ensures verdict != Empty ==>
                && |popped| == turns + 1 && popped[..turns] == handled && popped[turns] in before
                && PassSoFar(table.cfg, before, table.rows, world, popped)
                && verdict == VerdictOf(syntax, before[popped[turns]].columns, world(turns).accepts)
                && (verdict == Aborted <==> AnyBreaks(syntax, before, popped))
      ensures verdict == Handled ==>
                && AllDeliverable(syntax, before, popped)
                && sender.sent == sent + RowMails(syntax, before, popped)
                && |Pending(table.cfg, table.rows, world, turns + 1)| <
                   |Pending(table.cfg, old(table.rows), world, turns)|
      ensures verdict != Handled ==> sender.sent == old(sender.sent)
    {
      ghost var rows := table.rows;
      ghost var id;
      var turn := world(turns);
      verdict, id := PopAndHandleMail(turn);
      if verdict == Empty {
        popped := handled;
        NoneBreaks(syntax, before, popped);
        PassEnds(table.cfg, before, rows, popped, turn.now);
        return;
      }
      PassStep(table.cfg, before, rows, world, handled, id.value, verdict);
      popped := handled + [id.value];
      OnlyLastBreaks(syntax, before, handled, id.value, turn.accepts);
      if verdict == Handled {
        DeliverOneMore(syntax, before, handled, id.value, sent);
      }
    }

    /**
     * The inner loop: turns until the queue is empty, a mail fails or the program breaks down.  As
     * long as no row comes due twice in it, the loop ends after at most as many turns as there are
     * rows to try, even if every status write is lost.  It breaks down exactly if it pops a row that
     * cannot be printed; every row before that went out once.
     */
    method Drain(world: World) returns (verdict: Verdict, ghost popped: seq<nat>)
      requires table.Valid() && NotDueAgain(table.cfg, world)
      modifies table`rows, sender`sent
      ensures table.Valid()
      ensures verdict != Handled
      ensures Distinct(popped) && Elements(popped) <= Pending(table.cfg, old(table.rows), world, 0)
      ensures |popped| <= |Pending(table.cfg, old(table.rows), world, 0)|
      ensures OnlyPopped(old(table.rows), table.rows, popped)
      ensures Elements(popped) <= old(table.rows).Keys
      ensures verdict == Aborted <==> AnyBreaks(syntax, old(table.rows), popped)
      ensures verdict == Empty ==>
                && EligibleIds(table.cfg, table.rows, world(|popped|).now) == {}
                && EligibleIds(table.cfg, old(table.rows), world(|popped|).now) <= Elements(popped)
      ensures verdict != Empty ==>
                && popped != [] && popped[|popped| - 1] in old(table.rows)
                && verdict == VerdictOf(syntax, old(table.rows)[popped[|popped| - 1]].columns,
                                        world(|popped| - 1).accepts)
      ensures var handled := if verdict == Empty then popped else popped[..|popped| - 1];
              && AllDeliverable(syntax, old(table.rows), handled)
              && sender.sent == old(sender.sent) + RowMails(syntax, old(table.rows), handled)
    {
      ghost var before, sent := table.rows, sender.sent;
      popped := [];
      var turns := 0;
      while true
        invariant turns == |popped| && table.Valid()
        invariant PassSoFar(table.cfg, before, table.rows, world, popped)
        invariant AllDeliverable(syntax, before, popped)
        invariant sender.sent == sent + RowMails(syntax, before, popped)
        decreases |Pending(table.cfg, table.rows, world, turns)|
      {
        ghost var handled := popped;
        verdict, popped := NextTurn(world, turns, before, handled, sent);
        if verdict != Handled {
          return;
        }
        turns := turns + 1;
      }
    }

    /**
     * A pass as deployed, with a clock that never goes back and processing times in the past: if it
     * empties the queue, it has sent exactly the mails of the rows that were submitted at its start,
     * each of them once, and the program does not break down on any of them.
     */
    method DrainAsDeployed(world: World) returns (verdict: Verdict, ghost popped: seq<nat>)
      requires table.Valid() && table.cfg == DEPLOYED && Monotone(world) && PastTimes(table.rows, world(0).now)
      modifies table`rows, sender`sent
      ensures table.Valid() && verdict != Handled
      ensures Distinct(popped) && Elements(popped) <= SubmittedIds(old(table.rows))
      ensures verdict == Empty ==>
                && Elements(popped) == SubmittedIds(old(table.rows))
                && AllDeliverable(syntax, old(table.rows), popped)
                && sender.sent == old(sender.sent) + RowMails(syntax, old(table.rows), popped)
                && SubmittedIds(table.rows) == {}
      ensures verdict == Aborted <==> AnyBreaks(syntax, old(table.rows), popped)
      ensures OnlyPopped(old(table.rows), table.rows, popped)
    {
      ghost var before := table.rows;
      MonotoneIsNotDueAgain(table.cfg, world);
      verdict, popped := Drain(world);
      PendingAsWritten(table.cfg, before, world);
      if verdict == Empty {
        SubmittedIsEligible(table.cfg, before, world(|popped|).now);
        SubmittedIsEligible(table.cfg, table.rows, world(|popped|).now);
      }
    }
  }
}
