/**
 * The mail queue as a protocol: a table, a clock and one worker that pops a row, transmits it and
 * writes its status back, any of which may be cut short by a crash.  What holds on every run.
 */
module QueueRuns {
  import opened Bytes
  import opened MailTypes
  import opened Database
  import opened MailQueue
  import opened MailConversion

  /** The deployment: what makes a row due, and how addresses are read. */
  datatype Protocol = Protocol(settings: Settings, syntax: AddressSyntax)

  /** The worker between two of its steps.  It holds the columns that the pop returned. */
  datatype Worker = Idle | Holding(id: nat, columns: MailColumns) | Transmitted(id: nat, sent: bool)

  datatype Queue = Queue(rows: Rows, nextId: nat, now: int, worker: Worker)

  datatype Event =
    | Create(columns: MailColumns, status: Status)
    | Pop(id: nat)
    | Transmit(columns: MailColumns, ok: bool)
    | WriteStatus(ok: bool)
    | Crash
    | Delete
    | Tick(elapsed: nat)

  predicate Init(q: Queue) {
    q.rows == map[] && q.nextId == 0 && q.worker == Idle
  }

  /** The status the worker means to write. */
  function WorkerStatus(w: Worker): Status
    requires w.Transmitted?
  {
    if w.sent then Sent else Failed
  }

  predicate Next(p: Protocol, q: Queue, e: Event, q': Queue) {
    match e
    case Create(columns, status) =>
      && (status == Submitted || status == Sent)
      && q' == q.(rows := q.rows[q.nextId := QueueRow(columns, status, None)], nextId := q.nextId + 1)
    case Pop(id) =>
      && q.worker == Idle && id in EligibleIds(p.settings, q.rows, q.now)
      && q' == q.(rows := Popped(q.rows, id, q.now), worker := Holding(id, q.rows[id].columns))
    case Transmit(columns, ok) =>
      && q.worker.Holding? && columns == q.worker.columns
      && (ok ==> Deliverable(p.syntax, columns))
      && q' == q.(worker := Transmitted(q.worker.id, ok))
    case WriteStatus(ok) =>
      && q.worker.Transmitted?
      && q' == q.(rows := if ok then WithStatus(q.rows, q.worker.id, WorkerStatus(q.worker)) else q.rows,
                  worker := Idle)
    case Crash => q' == q.(worker := Idle)
    case Delete => q' == q.(rows := Remaining(p.settings, q.rows, q.now))
    case Tick(elapsed) => q' == q.(now := q.now + elapsed)
  }

  /** A run: `qs[i]` is the queue before event `i`. */
  predicate Run(p: Protocol, qs: seq<Queue>, es: seq<Event>) {
    && |qs| == |es| + 1 && Init(qs[0])
    && forall i :: 0 <= i < |es| ==> Next(p, qs[i], es[i], qs[i + 1])
  }

  /**
   * One turn of the handler is three steps of the protocol; where the sender breaks down, the program
   * ends after them.
   */
  lemma TurnIsThreeSteps(p: Protocol, q: Queue, id: nat, turn: Turn) returns (q1: Queue, q2: Queue, q3: Queue)
    requires q.worker == Idle && q.now == turn.now && id in EligibleIds(p.settings, q.rows, turn.now)
    ensures var columns := q.rows[id].columns;
            var verdict := VerdictOf(p.syntax, columns, turn.accepts);
            && Next(p, q, Pop(id), q1)
            && Next(p, q1, Transmit(columns, verdict == Handled), q2)
            && Next(p, q2, WriteStatus(turn.writes), q3)
            && q3 == q.(rows := AfterTurn(q.rows, id, turn, verdict))
            && (verdict == Aborted ==> Next(p, q3, Crash, q3))
  {
    var columns := q.rows[id].columns;
    var verdict := VerdictOf(p.syntax, columns, turn.accepts);
    VerdictSaysRow(p.syntax, columns, turn.accepts);
    q1 := q.(rows := Popped(q.rows, id, q.now), worker := Holding(id, columns));
    q2 := q1.(worker := Transmitted(id, verdict == Handled));
    q3 := q.(rows := AfterTurn(q.rows, id, turn, verdict));
  }

  // ----- invariants

  /** The row a worker is busy with. */
  predicate WorkerHasRow(q: Queue) {
    q.worker.Idle?
    || (&& q.worker.id in q.rows && q.rows[q.worker.id].status == Processing
        && (q.worker.Holding? ==> q.worker.columns == q.rows[q.worker.id].columns))
  }

  predicate RowConsistent(q: Queue, id: nat)
    requires id in q.rows
  {
    var row := q.rows[id];
    && id < q.nextId
    && (row.processedAt.Some? ==> row.status != Submitted && row.processedAt.value <= q.now)
    && (row.status == Processing || row.status == Failed ==> row.processedAt.Some?)
  }

  predicate Consistent(q: Queue) {
    WorkerHasRow(q) && forall id :: id in q.rows ==> RowConsistent(q, id)
  }

  lemma StepKeepsConsistent(p: Protocol, q: Queue, e: Event, q': Queue)
    requires Consistent(q) && Next(p, q, e, q')
    ensures Consistent(q')
  {
    forall id | id in q'.rows
      ensures RowConsistent(q', id)
    {
      if id in q.rows {
        assert RowConsistent(q, id);
      }
    }
    if q'.worker != Idle && q.worker != Idle {
      assert RowConsistent(q, q.worker.id);
    }
  }

  /** On every run each processing or failed row has a processing time, which is never in the future. */
  lemma {:induction false} RunsAreConsistent(p: Protocol, qs: seq<Queue>, es: seq<Event>, i: nat)
    requires Run(p, qs, es) && i < |qs|
    ensures Consistent(qs[i])
  {
    if i > 0 {
      RunsAreConsistent(p, qs, es, i - 1);
      assert Next(p, qs[i - 1], es[i - 1], qs[i]);
      StepKeepsConsistent(p, qs[i - 1], es[i - 1], qs[i]);
    }
  }

  // ----- at most one transmission per lost write

  predicate TransmitsAt(qs: seq<Queue>, es: seq<Event>, id: nat, i: nat)
    requires i < |es| < |qs|
  {
    es[i].Transmit? && es[i].ok && qs[i].worker.Holding? && qs[i].worker.id == id
  }

  /** Successful transmissions of a row before step `n`. */
  function Transmissions(qs: seq<Queue>, es: seq<Event>, id: nat, n: nat): nat
    requires n <= |es| < |qs|
  {
    if n == 0 then 0
    else Transmissions(qs, es, id, n - 1) + (if TransmitsAt(qs, es, id, n - 1) then 1 else 0)
  }

  predicate LosesAt(qs: seq<Queue>, es: seq<Event>, id: nat, i: nat)
    requires i < |es| < |qs|
  {
    (es[i] == WriteStatus(false) || es[i] == Crash) && qs[i].worker == Transmitted(id, true)
  }

  /** Status writes lost for a row after a successful transmission: a failed write or a crash. */
  function LostWrites(qs: seq<Queue>, es: seq<Event>, id: nat, n: nat): nat
    requires n <= |es| < |qs|
  {
    if n == 0 then 0
    else LostWrites(qs, es, id, n - 1) + (if LosesAt(qs, es, id, n - 1) then 1 else 0)
  }

  /** The row is settled: sent, deleted after that, or transmitted with its write still to come. */
  predicate Settled(q: Queue, id: nat) {
    || q.worker == Transmitted(id, true)
    || (id in q.rows && q.rows[id].status == Sent)
    || (id !in q.rows && id < q.nextId)
  }

  /** One step: a transmission settles an unsettled row, and only a lost write unsettles it. */
  lemma SettledStep(p: Protocol, qs: seq<Queue>, es: seq<Event>, id: nat, n: nat)
    requires 0 < n <= |es| < |qs| && Next(p, qs[n - 1], es[n - 1], qs[n]) && Consistent(qs[n - 1])
    ensures TransmitsAt(qs, es, id, n - 1) ==> !Settled(qs[n - 1], id) && Settled(qs[n], id)
    ensures Settled(qs[n - 1], id) && !Settled(qs[n], id) ==> LosesAt(qs, es, id, n - 1)
  {
    var q := qs[n - 1];
    if id in q.rows {
      assert RowConsistent(q, id);
    }
    if q.worker != Idle {
      assert RowConsistent(q, q.worker.id);
    }
  }

  lemma {:induction false} TransmissionsAccountedFor(p: Protocol, qs: seq<Queue>, es: seq<Event>, id: nat, n: nat)
    requires Run(p, qs, es) && n <= |es|
    ensures Transmissions(qs, es, id, n) <= LostWrites(qs, es, id, n) + (if Settled(qs[n], id) then 1 else 0)
  {
    if n > 0 {
      TransmissionsAccountedFor(p, qs, es, id, n - 1);
      RunsAreConsistent(p, qs, es, n - 1);
      assert Next(p, qs[n - 1], es[n - 1], qs[n]);
      SettledStep(p, qs, es, id, n);
    }
  }

  /**
   * On every run of the single worker, under either reading of the interval, a row is transmitted
   * successfully at most once more than its status writes were lost.
   */
  lemma TransmissionsBounded(p: Protocol, qs: seq<Queue>, es: seq<Event>, id: nat)
    requires Run(p, qs, es)
    ensures Transmissions(qs, es, id, |es|) <= 1 + LostWrites(qs, es, id, |es|)
  {
    TransmissionsAccountedFor(p, qs, es, id, |es|);
  }

  // ----- sent rows

  predicate SentOrGone(q: Queue, id: nat) {
    id < q.nextId && (id in q.rows ==> q.rows[id].status == Sent)
  }

  lemma {:induction false} SentStays(p: Protocol, qs: seq<Queue>, es: seq<Event>, id: nat, i: nat, j: nat)
    requires Run(p, qs, es) && i <= j < |qs| && SentOrGone(qs[i], id)
    ensures SentOrGone(qs[j], id)
    decreases j - i
  {
    if i < j {
      SentStays(p, qs, es, id, i, j - 1);
      RunsAreConsistent(p, qs, es, j - 1);
      assert Next(p, qs[j - 1], es[j - 1], qs[j]);
    }
  }

  /** A row once marked sent is never popped again, nor transmitted again. */
  lemma SentIsFinal(p: Protocol, qs: seq<Queue>, es: seq<Event>, id: nat, i: nat, j: nat)
    requires Run(p, qs, es) && i <= j < |es|
    requires id in qs[i].rows && qs[i].rows[id].status == Sent
    ensures es[j] != Pop(id) && !TransmitsAt(qs, es, id, j)
  {
    RunsAreConsistent(p, qs, es, i);
    assert RowConsistent(qs[i], id);
    SentStays(p, qs, es, id, i, j);
    RunsAreConsistent(p, qs, es, j);
    assert Next(p, qs[j], es[j], qs[j + 1]);
  }

  // ----- nothing is lost

  /** The row was inserted as sent, by `SendMail` after its transmission. */
  predicate InsertedAsSent(qs: seq<Queue>, es: seq<Event>, id: nat, k: nat)
    requires k < |es| < |qs|
  {
    es[k].Create? && es[k].status == Sent && qs[k].nextId == id
  }

  predicate WentOutAt(qs: seq<Queue>, es: seq<Event>, id: nat, k: nat)
    requires k < |es| < |qs|
  {
    TransmitsAt(qs, es, id, k) || InsertedAsSent(qs, es, id, k)
  }

  predicate HoldsSuccess(q: Queue, id: nat) {
    q.worker == Transmitted(id, true) || (id in q.rows && q.rows[id].status == Sent)
  }

  /** Nothing marks a row as sent but a transmission: of the worker before it, or of `SendMail`. */
  lemma {:induction false} SentWentOut(p: Protocol, qs: seq<Queue>, es: seq<Event>, id: nat, i: nat) returns (k: nat)
    requires Run(p, qs, es) && i < |qs| && HoldsSuccess(qs[i], id)
    ensures k < i && WentOutAt(qs, es, id, k)
  {
    assert Next(p, qs[i - 1], es[i - 1], qs[i]);
    if HoldsSuccess(qs[i - 1], id) {
      k := SentWentOut(p, qs, es, id, i - 1);
    } else {
      k := i - 1;
    }
  }

  lemma {:induction false} IdsGrow(p: Protocol, qs: seq<Queue>, es: seq<Event>, i: nat, j: nat)
    requires Run(p, qs, es) && i <= j < |qs|
    ensures qs[i].nextId <= qs[j].nextId
    decreases j - i
  {
    if i < j {
      IdsGrow(p, qs, es, i, j - 1);
      assert Next(p, qs[j - 1], es[j - 1], qs[j]);
    }
  }

  /** No row is inserted twice. */
  lemma IdsAreFresh(p: Protocol, qs: seq<Queue>, es: seq<Event>, i: nat, k: nat)
    requires Run(p, qs, es) && i < |es| && k < |es| && es[i].Create? && es[k].Create?
    requires qs[i].nextId == qs[k].nextId
    ensures i == k
  {
    var a, c := if i <= k then i else k, if i <= k then k else i;
    if a < c {
      assert Next(p, qs[a], es[a], qs[a + 1]);
      IdsGrow(p, qs, es, a + 1, c);
    }
  }

  /** The worker is busy with rows that exist, so a row goes out after it was inserted. */
  lemma TransmittedAfterInsert(p: Protocol, qs: seq<Queue>, es: seq<Event>, i: nat, k: nat)
    requires Run(p, qs, es) && i < |es| && k < |es| && es[i].Create? && TransmitsAt(qs, es, qs[i].nextId, k)
    ensures i < k
  {
    RunsAreConsistent(p, qs, es, k);
    assert RowConsistent(qs[k], qs[i].nextId);
    if k <= i {
      IdsGrow(p, qs, es, k, i);
    }
  }

  /**
   * A queued mail is not lost: from its creation on, its row is in the table with the content it was
   * created with, unless it was transmitted successfully in between.
   */
  lemma {:induction false} QueuedMailIsNotLost(p: Protocol, qs: seq<Queue>, es: seq<Event>, i: nat, j: nat)
    requires Run(p, qs, es) && i < |es| && es[i].Create? && es[i].status == Submitted && i < j < |qs|
    ensures var id := qs[i].nextId;
            || (id in qs[j].rows && qs[j].rows[id].columns == es[i].columns)
            || exists k :: i < k < j && TransmitsAt(qs, es, id, k)
    decreases j
  {
    var id := qs[i].nextId;
    if j == i + 1 {
      assert Next(p, qs[i], es[i], qs[j]);
    } else {
      QueuedMailIsNotLost(p, qs, es, i, j - 1);
      assert Next(p, qs[j - 1], es[j - 1], qs[j]);
      RunsAreConsistent(p, qs, es, j - 1);
      assert id in qs[j - 1].rows ==> RowConsistent(qs[j - 1], id);
      if id in qs[j - 1].rows && qs[j - 1].rows[id].columns == es[i].columns && id !in qs[j].rows {
        assert HoldsSuccess(qs[j - 1], id);
        var k := SentWentOut(p, qs, es, id, j - 1);
        if InsertedAsSent(qs, es, id, k) {
          IdsAreFresh(p, qs, es, i, k);
        }
        TransmittedAfterInsert(p, qs, es, i, k);
      }
    }
  }

  /**
   * A row that `SendMail` inserts as sent has no processing time, so neither reading of the interval
   * ever deletes it, although README.md:299 has sent messages kept for a fixed period only.
   */
  lemma {:induction false} DirectRowsAreNeverDeleted(p: Protocol, qs: seq<Queue>, es: seq<Event>, i: nat, j: nat)
    requires Run(p, qs, es) && i < |es| && es[i].Create? && es[i].status == Sent && i < j < |qs|
    ensures var id := qs[i].nextId;
            id in qs[j].rows && qs[j].rows[id] == QueueRow(es[i].columns, Sent, None)
    decreases j
  {
    assert Next(p, qs[j - 1], es[j - 1], qs[j]);
    if i + 1 < j {
      DirectRowsAreNeverDeleted(p, qs, es, i, j - 1);
      RunsAreConsistent(p, qs, es, j - 1);
      assert RowConsistent(qs[j - 1], qs[i].nextId);
    }
  }

  /** A row has the columns it was created with. */
  lemma {:induction false} RowsKeepColumns(p: Protocol, qs: seq<Queue>, es: seq<Event>, id: nat, i: nat)
    returns (k: nat)
    requires Run(p, qs, es) && i < |qs| && id in qs[i].rows
    ensures k < i && es[k].Create? && qs[k].nextId == id && es[k].columns == qs[i].rows[id].columns
  {
    assert Next(p, qs[i - 1], es[i - 1], qs[i]);
    if id in qs[i - 1].rows && !(es[i - 1].Create? && qs[i - 1].nextId == id) {
      k := RowsKeepColumns(p, qs, es, id, i - 1);
    } else {
      k := i - 1;
    }
  }

  /** What the worker transmits are the columns that some queued row was created with. */
  lemma TransmittedWasQueued(p: Protocol, qs: seq<Queue>, es: seq<Event>, j: nat) returns (i: nat)
    requires Run(p, qs, es) && j < |es| && es[j].Transmit?
    ensures i < j && es[i] == Create(es[j].columns, Submitted)
    ensures qs[j].worker == Holding(qs[i].nextId, es[j].columns)
  {
    assert Next(p, qs[j], es[j], qs[j + 1]);
    RunsAreConsistent(p, qs, es, j);
    i := RowsKeepColumns(p, qs, es, qs[j].worker.id, j);
    assert Next(p, qs[i], es[i], qs[i + 1]);
    if es[i].status == Sent {
      DirectRowsAreNeverDeleted(p, qs, es, i, j);
    }
  }

  // ----- the retry interval

  /** From its first pop on, a row is no longer submitted and its processing time only grows. */
  predicate PoppedSince(q: Queue, id: nat, t: int) {
    && id < q.nextId
    && (id in q.rows ==>
          q.rows[id].status != Submitted && q.rows[id].processedAt.Some? && q.rows[id].processedAt.value >= t)
  }

  lemma {:induction false} PopLeavesTrace(p: Protocol, qs: seq<Queue>, es: seq<Event>, id: nat, i: nat, j: nat)
    requires Run(p, qs, es) && i < j < |qs| && es[i] == Pop(id)
    ensures PoppedSince(qs[j], id, qs[i].now) && qs[i].now <= qs[j].now
    decreases j - i
  {
    RunsAreConsistent(p, qs, es, j - 1);
    assert Next(p, qs[j - 1], es[j - 1], qs[j]);
    if i + 1 < j {
      PopLeavesTrace(p, qs, es, id, i, j - 1);
    } else {
      assert RowConsistent(qs[i], id);
    }
    if qs[j - 1].worker != Idle {
      assert RowConsistent(qs[j - 1], qs[j - 1].worker.id);
    }
  }

  /** As README.md describes the interval, two pops of a row are more than an interval apart. */
  lemma PopsAreApart(p: Protocol, qs: seq<Queue>, es: seq<Event>, id: nat, i: nat, j: nat)
    requires Run(p, qs, es) && p.settings.reading == AsDocumented
    requires i < j < |es| && es[i] == Pop(id) && es[j] == Pop(id)
    ensures qs[j].now - qs[i].now > p.settings.retryInterval
  {
    PopLeavesTrace(p, qs, es, id, i, j);
    assert Next(p, qs[j], es[j], qs[j + 1]);
  }

  /** As the query is written, a row is popped at most once: a failed or interrupted mail is never retried. */
  lemma NoRetryAsWritten(p: Protocol, qs: seq<Queue>, es: seq<Event>, id: nat, i: nat, j: nat)
    requires Run(p, qs, es) && p.settings.reading == AsWritten
    requires i < j < |es| && es[i] == Pop(id)
    ensures es[j] != Pop(id)
  {
    RunsAreConsistent(p, qs, es, j);
    PopLeavesTrace(p, qs, es, id, i, j);
    assert Next(p, qs[j], es[j], qs[j + 1]);
    if id in qs[j].rows {
      assert RowConsistent(qs[j], id);
    }
  }

  /** As the query is written nothing is ever deleted either. */
  lemma NothingDeletedAsWritten(p: Protocol, qs: seq<Queue>, es: seq<Event>, i: nat)
    requires Run(p, qs, es) && p.settings.reading == AsWritten && i < |es| && es[i] == Delete
    ensures qs[i + 1].rows == qs[i].rows
  {
    RunsAreConsistent(p, qs, es, i);
    assert Next(p, qs[i], es[i], qs[i + 1]);
    forall id | id in qs[i].rows
      ensures !Deletable(p.settings, qs[i].rows[id], qs[i].now)
    {
      assert RowConsistent(qs[i], id);
    }
  }

  function Pops(es: seq<Event>, id: nat, i: nat, j: nat): nat
    requires i <= j <= |es|
  {
    if i == j then 0 else Pops(es, id, i, j - 1) + (if es[j - 1] == Pop(id) then 1 else 0)
  }

  /** The last pop of a row before `j`. */
  lemma {:induction false} LastPop(es: seq<Event>, id: nat, i: nat, j: nat) returns (k: nat)
    requires i < j <= |es| && es[i] == Pop(id)
    ensures i <= k < j && es[k] == Pop(id) && Pops(es, id, i, j) == Pops(es, id, i, k + 1)
  {
    if es[j - 1] == Pop(id) {
      k := j - 1;
    } else {
      k := LastPop(es, id, i, j - 1);
    }
  }

  /** The pops of a row from one at `i` to one at `j` fit into the time between them. */
  lemma {:induction false} PopsFitTheTime(p: Protocol, qs: seq<Queue>, es: seq<Event>, id: nat, i: nat, j: nat)
    requires Run(p, qs, es) && p.settings.reading == AsDocumented
    requires i <= j < |es| && es[i] == Pop(id) && es[j] == Pop(id)
    ensures (Pops(es, id, i, j + 1) - 1) * (p.settings.retryInterval + 1) <= qs[j].now - qs[i].now
    decreases j
  {
    if i == j {
      assert Pops(es, id, i, i) == 0;
      assert Pops(es, id, i, i + 1) == 1;
    } else {
      var k := LastPop(es, id, i, j);
      PopsFitTheTime(p, qs, es, id, i, k);
      PopsAreApart(p, qs, es, id, k, j);
      var n := Pops(es, id, i, k + 1);
      assert Pops(es, id, i, j + 1) == n + 1;
      assert (n + 1 - 1) * (p.settings.retryInterval + 1) ==
             (n - 1) * (p.settings.retryInterval + 1) + (p.settings.retryInterval + 1);
    }
  }

  lemma Scaled(m: int, n: int, d: nat)
    requires m <= n
    ensures m * d <= n * d
  {
    assert n * d - m * d == (n - m) * d;
  }

  lemma Quotient(n: int, t: int, d: nat)
    requires d > 0 && n >= 0 && n * (d + 1) <= t
    ensures n <= t / d
  {
    var q := t / d;
    assert t < (q + 1) * d;
    assert n * (d + 1) == n * d + n;
    if n > q {
      Scaled(q + 1, n, d);
    }
  }

  /** So a row popped first at t0 and last at t1 is popped at most 1 + (t1 - t0) / interval times. */
  lemma PopsBounded(p: Protocol, qs: seq<Queue>, es: seq<Event>, id: nat, i: nat, j: nat)
    requires Run(p, qs, es) && p.settings.reading == AsDocumented && p.settings.retryInterval > 0
    requires i <= j < |es| && es[i] == Pop(id) && es[j] == Pop(id)
    ensures Pops(es, id, i, j + 1) <= 1 + (qs[j].now - qs[i].now) / p.settings.retryInterval
  {
    PopsFitTheTime(p, qs, es, id, i, j);
    var n := Pops(es, id, i, j + 1) - 1;
    assert Pops(es, id, i, j + 1) == Pops(es, id, i, j) + 1;
    var t := qs[j].now - qs[i].now;
    Quotient(n, t, p.settings.retryInterval);
  }

  // ----- the other steps

  /** A crash costs what the worker was about to do, and no row. */
  lemma CrashForgets(p: Protocol, q: Queue, q': Queue)
    requires Next(p, q, Crash, q')
    ensures q'.worker == Idle && q'.rows == q.rows && q'.nextId == q.nextId && q'.now == q.now
  {
  }

  /** A cleanup removes the sent rows whose age is above the interval, under either reading, and no others. */
  lemma DeleteRemoves(p: Protocol, q: Queue, q': Queue, id: nat)
    requires Next(p, q, Delete, q') && id in q.rows
    ensures id !in q'.rows <==>
              && q.rows[id].status == Sent && q.rows[id].processedAt.Some?
              && (if p.settings.reading == AsWritten then q.rows[id].processedAt.value > q.now + p.settings.keepInterval
                  else q.rows[id].processedAt.value < q.now - p.settings.keepInterval)
    ensures id in q'.rows ==> q'.rows[id] == q.rows[id]
  {
  }

  /** With the deployed intervals as README.md describes them: an hour between two pops, 120 days until a row goes. */
  lemma DocumentedIntervals(p: Protocol, qs: seq<Queue>, es: seq<Event>, id: nat, i: nat, j: nat)
    requires Run(p, qs, es) && p.settings == DEPLOYED.(reading := AsDocumented)
    requires i < j < |es| && es[i] == Pop(id)
    ensures es[j] == Pop(id) ==> qs[j].now - qs[i].now > 60 * 60 * 1_000_000
    ensures es[j] == Delete && id in qs[j].rows && id !in qs[j + 1].rows ==>
              qs[j].now - qs[j].rows[id].processedAt.value > 120 * 24 * 60 * 60 * 1_000_000
  {
    if es[j] == Pop(id) {
      PopsAreApart(p, qs, es, id, i, j);
    }
    assert Next(p, qs[j], es[j], qs[j + 1]);
  }

  // ----- the bound is met

  /** A mail is transmitted, the worker crashes, and after the interval the same mail is transmitted again. */
  function CrashEvents(p: Protocol, columns: MailColumns): seq<Event> {
    [Create(columns, Submitted), Pop(0), Transmit(columns, true), Crash,
     Tick(p.settings.retryInterval + 1), Pop(0), Transmit(columns, true)]
  }

  function CrashQueues(p: Protocol, columns: MailColumns): seq<Queue> {
    var d := p.settings.retryInterval + 1;
    var row := QueueRow(columns, Submitted, None);
    var created, popped := map[0 := row], map[0 := row.(status := Processing, processedAt := Some(0))];
    var again := map[0 := row.(status := Processing, processedAt := Some(d))];
    [Queue(map[], 0, 0, Idle), Queue(created, 1, 0, Idle), Queue(popped, 1, 0, Holding(0, columns)),
     Queue(popped, 1, 0, Transmitted(0, true)), Queue(popped, 1, 0, Idle), Queue(popped, 1, d, Idle),
     Queue(again, 1, d, Holding(0, columns)), Queue(again, 1, d, Transmitted(0, true))]
  }

  lemma CrashStarts(p: Protocol, columns: MailColumns)
    requires Deliverable(p.syntax, columns)
    ensures var qs, es := CrashQueues(p, columns), CrashEvents(p, columns);
            Next(p, qs[0], es[0], qs[1]) && Next(p, qs[1], es[1], qs[2]) && Next(p, qs[2], es[2], qs[3])
  {
    var qs := CrashQueues(p, columns);
    assert 0 in EligibleIds(p.settings, qs[1].rows, qs[1].now);
  }

  lemma CrashGoesOn(p: Protocol, columns: MailColumns)
    requires p.settings.reading == AsDocumented && Deliverable(p.syntax, columns)
    ensures var qs, es := CrashQueues(p, columns), CrashEvents(p, columns);
            && Next(p, qs[3], es[3], qs[4]) && Next(p, qs[4], es[4], qs[5])
            && Next(p, qs[5], es[5], qs[6]) && Next(p, qs[6], es[6], qs[7])
  {
    var qs := CrashQueues(p, columns);
    assert 0 in EligibleIds(p.settings, qs[5].rows, qs[5].now);
  }

  lemma CrashCounts(p: Protocol, columns: MailColumns)
    ensures var qs, es := CrashQueues(p, columns), CrashEvents(p, columns);
            LostWrites(qs, es, 0, 7) == 1 && Transmissions(qs, es, 0, 7) == 2
  {
    var qs, es := CrashQueues(p, columns), CrashEvents(p, columns);
    assert Transmissions(qs, es, 0, 1) == 0 && LostWrites(qs, es, 0, 1) == 0;
    assert Transmissions(qs, es, 0, 2) == 0 && LostWrites(qs, es, 0, 2) == 0;
    assert Transmissions(qs, es, 0, 3) == 1 && LostWrites(qs, es, 0, 3) == 0;
    assert Transmissions(qs, es, 0, 4) == 1 && LostWrites(qs, es, 0, 4) == 1;
    assert Transmissions(qs, es, 0, 5) == 1 && LostWrites(qs, es, 0, 5) == 1;
    assert Transmissions(qs, es, 0, 6) == 1 && LostWrites(qs, es, 0, 6) == 1;
  }

  /** As documented the bound is met: one lost write, and two successful transmissions of one mail. */
  lemma BoundIsMet(p: Protocol, columns: MailColumns) returns (qs: seq<Queue>, es: seq<Event>)
    requires p.settings.reading == AsDocumented && Deliverable(p.syntax, columns)
    ensures Run(p, qs, es) && LostWrites(qs, es, 0, |es|) == 1 && Transmissions(qs, es, 0, |es|) == 2
  {
    qs, es := CrashQueues(p, columns), CrashEvents(p, columns);
    CrashStarts(p, columns);
    CrashGoesOn(p, columns);
    CrashCounts(p, columns);
  }
}
