/** The engine and the Kafka consumer wrapper as the imperative objects they are. The methods
    here are one goroutine's view, from entry to exit; `Machine` has the interleavings. */
module Engine {
  import opened Options
  import opened Outcomes
  import opened Backoff
  import M = Machine

  // ----- the consumer side -----

  /** What a consumer-group session knows of one partition. */
  class Session {
    var part: M.Partition

    constructor (next: nat)
      ensures part == M.Partition(next, next, next)
    {
      part := M.Partition(next, next, next);
    }

    /** The mark moves to just past the offset, unless it is there or beyond. */
    method MarkMessage(offset: nat)
      modifies this
      ensures part.next == old(part.next) && part.flushed == old(part.flushed)
      ensures part.marked == if old(part.marked) <= offset then offset + 1 else old(part.marked)
    {
      if part.marked < offset + 1 {
        part := part.(marked := offset + 1);
      }
    }

    /** Flushes the mark. */
    method Commit()
      modifies this
      ensures part.next == old(part.next) && part.marked == old(part.marked) && part.flushed == part.marked
    {
      part := part.(flushed := part.marked);
    }
  }

  /** A record as delivered by the claim loop; session is null when it carries no session data. */
  class Record {
    const offset: nat
    const size: nat
    const session: Session?
    var committed: bool

    constructor (offset: nat, size: nat, session: Session?)
      ensures this.offset == offset && this.size == size && this.session == session && !committed
    {
      this.offset, this.size, this.session := offset, size, session;
      committed := false;
    }
  }

  class Consumer {
    const commitOnAck: bool

    /** Marks the record's offset through its session, once per record. Fails, changing nothing,
        without a record or without session data. */
    method Commit(record: Record?) returns (ok: bool)
      modifies record
      modifies if record == null then null else record.session
      ensures ok <==> record != null && record.session != null
      ensures record != null ==> record.committed == (old(record.committed) || ok)
      ensures ok && old(record.committed) ==> record.session.part == old(record.session.part)
      ensures ok && !old(record.committed) ==>
                && record.session.part.next == old(record.session.part.next)
                && record.session.part.marked == (if old(record.session.part.marked) <= record.offset
                                                  then record.offset + 1 else old(record.session.part.marked))
                && record.session.part.flushed == (if commitOnAck
                                                   then record.session.part.marked
                                                   else old(record.session.part.flushed))
    {
      if record == null || record.session == null {
        return false;
      }
      if record.committed {
        return true;
      }
      record.committed := true;
      record.session.MarkMessage(record.offset);
      if commitOnAck {
        record.session.Commit();
      }
      return true;
    }
  }

  /** What one commit makes of a partition: the mark at least just past the offset and never back, and
      flushed with it just in case of commit-on-success. */
  predicate Marks(commitOnAck: bool, before: M.Partition, after: M.Partition, offset: nat) {
    && after.next == before.next
    && after.marked == (if before.marked <= offset then offset + 1 else before.marked)
    && after.flushed == (if commitOnAck then after.marked else before.flushed)
  }

  /** It is what the interleaved system does at a commit. */
  lemma MarksAsInMachine(commitOnAck: bool, before: M.Partition, after: M.Partition, offset: nat)
    ensures Marks(commitOnAck, before, after, offset) <==> after == M.Mark(commitOnAck, before, offset)
  {
  }

  // ----- what the engine publishes -----

  datatype Event =
    | Status(act: Action, at: int)
    | DlqRecord(kind: FailureType, attempts: nat, firstFailedAt: int, lastAttemptAt: int)
    | CommitCall

  function Erase(e: Event): Action {
    match e
    case Status(act, _) => act
    case DlqRecord(kind, attempts, _, _) => Dlq(kind, attempts)
    case CommitCall => Commit
  }

  function Actions(log: seq<Event>): (r: seq<Action>)
    ensures |r| == |log|
    ensures forall i :: 0 <= i < |log| ==> r[i] == Erase(log[i])
  {
    seq(|log|, i requires 0 <= i < |log| => Erase(log[i]))
  }

  function PartOf(record: Record): M.Partition
    reads record, record.session
  {
    if record.session == null then M.Partition(0, 0, 0) else record.session.part
  }

  // ----- the clock -----

  /** What the n-th reading of the clock by a delivery shows: never zero, never going back. */
  ghost predicate IsClock(tick: nat -> int) {
    (forall i :: tick(i) > 0) && (forall i, j :: i <= j ==> tick(i) <= tick(j))
  }

  /** Of a delivery whose first reading is number r: one reading for `queued`; then, attempt by
      attempt, one for the `attempt` event, one on either side of the send, and one more after it,
      which is the time of the failure, or of the `sent` event. */
  function QueuedAt(tick: nat -> int, r: nat): int { tick(r) }

  function AnnouncedAt(tick: nat -> int, r: nat, k: nat): int
    requires k >= 1
  {
    tick(r + 4 * k - 3)
  }

  function SendReturnedAt(tick: nat -> int, r: nat, k: nat): int
    requires k >= 1
  {
    tick(r + 4 * k - 1)
  }

  function OverAt(tick: nat -> int, r: nat, k: nat): int
    requires k >= 1
  {
    tick(r + 4 * k)
  }

  /** `queued` and the first k `attempt` events. */
  function Announcements(tick: nat -> int, r: nat, k: nat): seq<Event> {
    if k == 0 then [Status(Queued, QueuedAt(tick, r))]
    else Announcements(tick, r, k - 1) + [Status(Attempt(k), AnnouncedAt(tick, r, k))]
  }

  /** How an outcome is reported. A DLQ record carries the time of the first attempt's failure and
      that of the last one's. */
  function Reports(tick: nat -> int, r: nat, o: Outcome): seq<Event>
    requires o.k >= 1
  {
    match o
    case SentAt(k) => [Status(Sent(k), OverAt(tick, r, k)), CommitCall]
    case DeadAt(k, kind) =>
      [Status(Failed(k), OverAt(tick, r, k)), DlqRecord(kind, k, OverAt(tick, r, 1), OverAt(tick, r, k)), CommitCall]
    case _ => []
  }

  function RunEvents(tick: nat -> int, r: nat, o: Outcome): seq<Event>
    requires o.k >= 1
  {
    Announcements(tick, r, o.k) + Reports(tick, r, o)
  }

  lemma AnnouncesNext(before: seq<Event>, tick: nat -> int, r: nat, k: nat)
    requires k >= 1
    ensures before + Announcements(tick, r, k - 1) + [Status(Attempt(k), tick(r + 4 * k - 3))]
         == before + Announcements(tick, r, k)
  {
  }

  lemma Assembled(before: seq<Event>, tick: nat -> int, r: nat, o: Outcome)
    requires o.k >= 1
    ensures before + Announcements(tick, r, o.k) + Reports(tick, r, o) == before + RunEvents(tick, r, o)
  {
  }

  lemma {:induction false} AnnouncementsErased(tick: nat -> int, r: nat, k: nat)
    ensures Actions(Announcements(tick, r, k)) == Tries(k)
  {
    if k > 0 {
      AnnouncementsErased(tick, r, k - 1);
    }
  }

  /** Without their times the events are the actions of the pure loop. */
  lemma EventsAreRunTrace(tick: nat -> int, r: nat, o: Outcome)
    requires o.k >= 1
    ensures Actions(RunEvents(tick, r, o)) == RunTrace(o)
  {
    AnnouncementsErased(tick, r, o.k);
    assert Actions(RunEvents(tick, r, o)) == Actions(Announcements(tick, r, o.k)) + Actions(Reports(tick, r, o));
  }

  lemma {:induction false} AnnouncementsAt(tick: nat -> int, r: nat, k: nat, j: nat)
    requires j <= k
    ensures |Announcements(tick, r, k)| == k + 1
    ensures Announcements(tick, r, k)[j]
         == if j == 0 then Status(Queued, QueuedAt(tick, r)) else Status(Attempt(j), AnnouncedAt(tick, r, j))
  {
    if k > 0 {
      AnnouncementsAt(tick, r, k - 1, if j < k then j else 0);
    }
  }

  /** Timestamps of the status events never go back. */
  ghost predicate TimesAscend(events: seq<Event>) {
    forall i, j :: 0 <= i < j < |events| && events[i].Status? && events[j].Status? ==> events[i].at <= events[j].at
  }

  /** The status timestamps of a delivery never go back, over its whole run. */
  lemma StatusTimesAscend(tick: nat -> int, r: nat, o: Outcome)
    requires IsClock(tick) && o.k >= 1
    ensures TimesAscend(RunEvents(tick, r, o))
  {
    var events := RunEvents(tick, r, o);
    AnnouncementsAt(tick, r, o.k, 0);
    forall i: nat, j: nat | i < j < |events| && events[i].Status? && events[j].Status?
      ensures events[i].at <= events[j].at
    {
      if i <= o.k {
        AnnouncementsAt(tick, r, o.k, i);
      }
      if j <= o.k {
        AnnouncementsAt(tick, r, o.k, j);
      }
    }
  }

  /** The times in a DLQ record: FirstFailedAt lies between the first attempt's event and the second
      one's, if there is one; it is the time of that failure, read after the send returned;
      LastAttemptAt is the timestamp of the `failed` event before the record, and not earlier. */
  lemma DlqTimes(tick: nat -> int, r: nat, k: nat, kind: FailureType)
    requires IsClock(tick) && k >= 1
    ensures var events := RunEvents(tick, r, DeadAt(k, kind));
            && |events| == k + 4 && events[1].Status? && events[k + 1].Status? && events[k + 2].DlqRecord?
            && events[1].act == Attempt(1) && events[k + 1].act == Failed(k)
            && events[1].at <= SendReturnedAt(tick, r, 1) <= events[k + 2].firstFailedAt
            && (k > 1 ==> events[2].Status? && events[2].act == Attempt(2)
                            && events[k + 2].firstFailedAt <= events[2].at)
            && events[k + 2].firstFailedAt <= events[k + 2].lastAttemptAt == events[k + 1].at
            && (k == 1 ==> events[k + 2].firstFailedAt == events[k + 1].at)
  {
    AnnouncementsAt(tick, r, k, 1);
    if k > 1 {
      AnnouncementsAt(tick, r, k, 2);
    }
  }

  // ----- the loop's history, as a value -----

  datatype Settings = Settings(maxAttempts: nat, baseBackoff: int, maxBackoff: int) {
    predicate Valid() {
      maxAttempts >= 1 && IsInt64(baseBackoff) && IsInt64(maxBackoff)
    }
  }

  /** The waits an outcome implies: all elapsed up to the last. */
  function WaitsOf(o: Outcome): nat -> WaitEnd {
    (k: nat) => if k == o.k && o.CutAt? then Cancelled else if k == o.k && o.PanickedAt? then Panicked else Elapsed
  }

  predicate Closes(o: Outcome) {
    o.SentAt? || o.DeadAt?
  }

  /** Every earlier attempt was retryable and its backoff ran its course. */
  ghost predicate Passed(cfg: Settings, answers: nat -> SendResult, cancelAt: nat -> bool,
      delays: seq<int>, attempt: nat)
    requires cfg.Valid()
  {
    && 1 <= attempt <= cfg.maxAttempts
    && |delays| >= attempt - 1
    && (forall j :: 1 <= j < attempt ==> !Settles(cfg.maxAttempts, answers(j), j))
    && (forall j :: 1 <= j < attempt ==> !(cancelAt(j) && delays[j - 1] > 0))
    && DrawnDelays(cfg.baseBackoff, cfg.maxBackoff, delays)
  }

  /** A finished delivery: its outcome is what the pure loop decides on the same answers, its delays
      are legal draws, and it was stopped only by a cancellation in a positive backoff or by the
      jitter. */
  ghost predicate Explains(cfg: Settings, answers: nat -> SendResult, cancelAt: nat -> bool,
      delays: seq<int>, o: Outcome)
    requires cfg.Valid()
  {
    && Passed(cfg, answers, cancelAt, delays, o.k)
    && o == Run(cfg.maxAttempts, answers, WaitsOf(o), 1)
    && |delays| == (if o.CutAt? then o.k else o.k - 1)
    && (o.CutAt? ==> cancelAt(o.k) && delays[o.k - 1] > 0)
    && (o.PanickedAt? ==> o.k < cfg.maxAttempts && BackoffOf(cfg.baseBackoff, cfg.maxBackoff, o.k, Panic))
  }

  lemma RunOf(cfg: Settings, answers: nat -> SendResult, cancelAt: nat -> bool, delays: seq<int>, o: Outcome)
    requires cfg.Valid() && Passed(cfg, answers, cancelAt, delays, o.k)
    ensures Run(cfg.maxAttempts, answers, WaitsOf(o), 1) == Run(cfg.maxAttempts, answers, WaitsOf(o), o.k)
  {
    RunSkips(cfg.maxAttempts, answers, WaitsOf(o), 1, o.k);
  }

  lemma StartsOut(cfg: Settings, answers: nat -> SendResult, cancelAt: nat -> bool, tick: nat -> int, r: nat)
    requires cfg.Valid()
    ensures Passed(cfg, answers, cancelAt, [], 1) && Announcements(tick, r, 0) == [Status(Queued, tick(r))]
  {
  }

  lemma PassedWithin(cfg: Settings, answers: nat -> SendResult, cancelAt: nat -> bool, delays: seq<int>, k: nat)
    requires cfg.Valid() && Passed(cfg, answers, cancelAt, delays, k)
    ensures 1 <= k <= cfg.maxAttempts
  {
  }

  /** A settling answer ends the delivery in its verdict. */
  lemma EndsDecided(cfg: Settings, answers: nat -> SendResult, cancelAt: nat -> bool, delays: seq<int>, k: nat)
    requires cfg.Valid() && Passed(cfg, answers, cancelAt, delays, k) && |delays| == k - 1
    requires Settles(cfg.maxAttempts, answers(k), k)
    ensures Explains(cfg, answers, cancelAt, delays, Verdict(answers(k), k))
  {
    RunOf(cfg, answers, cancelAt, delays, Verdict(answers(k), k));
  }

  /** Stopped while backing off, by cancellation or by the jitter. */
  lemma EndsStopped(cfg: Settings, answers: nat -> SendResult, cancelAt: nat -> bool,
      delays: seq<int>, k: nat, draw: Draw)
    requires cfg.Valid() && Passed(cfg, answers, cancelAt, delays, k) && |delays| == k - 1
    requires !Settles(cfg.maxAttempts, answers(k), k)
    requires BackoffOf(cfg.baseBackoff, cfg.maxBackoff, k, draw)
    requires draw.Delay? ==> cancelAt(k) && draw.d > 0
    ensures if draw.Panic? then Explains(cfg, answers, cancelAt, delays, PanickedAt(k))
            else Explains(cfg, answers, cancelAt, delays + [draw.d], CutAt(k))
  {
    hide BackoffOf, JitterOf;
    RunOf(cfg, answers, cancelAt, delays, if draw.Panic? then PanickedAt(k) else CutAt(k));
    if draw.Delay? {
      DrawnAppend(cfg, delays, draw.d);
    }
  }

  lemma DrawnAppend(cfg: Settings, delays: seq<int>, d: int)
    requires cfg.Valid() && DrawnDelays(cfg.baseBackoff, cfg.maxBackoff, delays)
    requires BackoffOf(cfg.baseBackoff, cfg.maxBackoff, |delays| + 1, Delay(d))
    ensures DrawnDelays(cfg.baseBackoff, cfg.maxBackoff, delays + [d])
  {
    hide BackoffOf;
    forall j | 0 <= j < |delays| + 1
      ensures BackoffOf(cfg.baseBackoff, cfg.maxBackoff, j + 1, Delay((delays + [d])[j]))
    {
      assert j < |delays| ==> BackoffOf(cfg.baseBackoff, cfg.maxBackoff, j + 1, Delay(delays[j]));
    }
  }

  /** Backed off to the end: the loop goes round again. */
  lemma GoesRound(cfg: Settings, answers: nat -> SendResult, cancelAt: nat -> bool, delays: seq<int>, k: nat, d: int)
    requires cfg.Valid() && Passed(cfg, answers, cancelAt, delays, k) && |delays| == k - 1
    requires !Settles(cfg.maxAttempts, answers(k), k)
    requires BackoffOf(cfg.baseBackoff, cfg.maxBackoff, k, Delay(d)) && !(cancelAt(k) && d > 0)
    ensures Passed(cfg, answers, cancelAt, delays + [d], k + 1)
  {
    hide BackoffOf;
    DrawnAppend(cfg, delays, d);
    forall j | 1 <= j < k + 1
      ensures !(cancelAt(j) && (delays + [d])[j - 1] > 0)
    {
      assert j < k ==> (delays + [d])[j - 1] == delays[j - 1];
    }
  }

  /** With no cancellation, and a backoff that cannot panic within the attempt budget, the outcome is
      the pure loop's with every wait elapsed. */
  lemma UncancelledOutcome(cfg: Settings, answers: nat -> SendResult, cancelAt: nat -> bool, waits: nat -> WaitEnd,
                           delays: seq<int>, o: Outcome)
    requires cfg.Valid() && Explains(cfg, answers, cancelAt, delays, o)
    requires PanicFree(cfg.baseBackoff, cfg.maxBackoff, cfg.maxAttempts)
    requires forall k :: !cancelAt(k) && waits(k) == Elapsed
    ensures o == Run(cfg.maxAttempts, answers, waits, 1)
  {
    hide BackoffOf, PanicFree, DrawnDelays;
    NeverPanicsWithinIff(cfg.baseBackoff, cfg.maxBackoff, cfg.maxAttempts);
    assert !o.PanickedAt?;
    RunSkips(cfg.maxAttempts, answers, waits, 1, o.k);
    RunOf(cfg, answers, cancelAt, delays, o);
    if !Settles(cfg.maxAttempts, answers(o.k), o.k) {
      RunIsAtLeast(cfg.maxAttempts, answers, WaitsOf(o), o.k + 1);
    }
  }

  /** The waits of a delivery made of k attempts: k - 1 ran to the end. A positive cap alone bounds
      their total; with a positive base in range at the last wait the documented bounds hold. */
  lemma DeliveryWait(cfg: Settings, answers: nat -> SendResult, cancelAt: nat -> bool, delays: seq<int>, o: Outcome)
    requires cfg.Valid() && Explains(cfg, answers, cancelAt, delays, o)
    ensures o.k - 1 <= |delays| <= o.k
    ensures cfg.maxBackoff > 0 ==> Sum(delays[..o.k - 1]) <= (o.k - 1) * cfg.maxBackoff
    ensures cfg.baseBackoff > 0 && (o.k > 1 ==> InRange(cfg.baseBackoff, o.k - 1)) ==>
              && Sum(delays[..o.k - 1]) <= DesignTotal(Float64(cfg.baseBackoff), cfg.maxBackoff, o.k - 1)
              && Sum(delays[..o.k - 1]) <= Float64(cfg.baseBackoff) * (Pow2(o.k - 1) - 1)
              && (cfg.baseBackoff < FLOAT_EXACT ==> Float64(cfg.baseBackoff) == cfg.baseBackoff)
  {
    hide Run, WaitsOf, Settles, BackoffOf, Sum, DesignTotal, InRange, Float64;
    var waited := delays[..o.k - 1];
    assert DrawnDelays(cfg.baseBackoff, cfg.maxBackoff, waited);
    if cfg.maxBackoff > 0 {
      CappedWait(cfg.baseBackoff, cfg.maxBackoff, waited);
    }
    if cfg.baseBackoff > 0 && (o.k > 1 ==> InRange(cfg.baseBackoff, o.k - 1)) {
      TotalWait(cfg.baseBackoff, cfg.maxBackoff, waited);
    }
  }

  class Engine {
    const cfg: Settings
    const msgMaxBytes: int
    const concurrency: nat
    const consumer: Consumer
    const tick: nat -> int
    var free: int
    var readings: nat
    var log: seq<Event>

    ghost predicate Valid()
      reads this
    {
      cfg.Valid() && 0 <= free <= concurrency && IsClock(tick)
    }

    constructor (cfg: Settings, msgMaxBytes: int, concurrency: nat, consumer: Consumer, tick: nat -> int)
      requires cfg.Valid() && concurrency >= 1 && IsClock(tick)
      ensures Valid() && free == concurrency && log == []
      ensures this.cfg == cfg && this.msgMaxBytes == msgMaxBytes && this.tick == tick
      ensures this.concurrency == concurrency && this.consumer == consumer
    {
      this.cfg, this.msgMaxBytes, this.concurrency, this.consumer, this.tick :=
          cfg, msgMaxBytes, concurrency, consumer, tick;
      free, readings, log := concurrency, 0, [];
    }

    /** The next reading of the clock. */
    method Now() returns (t: int)
      modifies `readings
      ensures t == tick(old(readings)) && readings == old(readings) + 1
    {
      t := tick(readings);
      readings := readings + 1;
    }

    /** A zero timestamp is replaced by the current time. The publisher's error is only logged. */
    method PublishStatus(act: Action, timestamp: int)
      modifies `readings, `log
      ensures readings == old(readings) + if timestamp == 0 then 1 else 0
      ensures log == old(log) + [Status(act, if timestamp == 0 then tick(old(readings)) else timestamp)]
    {
      var at := timestamp;
      if at == 0 {
        at := Now();
      }
      log := log + [Status(act, at)];
    }

    /** Zero times are replaced by the current time, and by the time of the first failure. */
    method PublishDlq(kind: FailureType, attempts: nat, firstFailedAt: int, lastAttemptAt: int)
      modifies `readings, `log
      ensures readings == old(readings) + if firstFailedAt == 0 then 1 else 0
      ensures var first := if firstFailedAt == 0 then tick(old(readings)) else firstFailedAt;
              log == old(log) + [DlqRecord(kind, attempts, first, if lastAttemptAt == 0 then first else lastAttemptAt)]
    {
      var first, last := firstFailedAt, lastAttemptAt;
      if first == 0 {
        first := Now();
      }
      if last == 0 {
        last := first;
      }
      log := log + [DlqRecord(kind, attempts, first, last)];
    }

    /** The committer's error is only logged. */
    method CommitRecord(record: Record)
      modifies `log, record, record.session
      ensures log == old(log) + [CommitCall]
      ensures Settled(record, true, old(record.committed), old(PartOf(record)))
    {
      log := log + [CommitCall];
      var _ := consumer.Commit(record);
    }

    /** The record and its partition after a handling that did, or did not, call commit. */
    predicate Settled(record: Record, commits: bool, wasCommitted: bool, before: M.Partition)
      reads record, record.session
    {
      && record.committed == (wasCommitted || (commits && record.session != null))
      && (record.session != null ==>
            if commits && !wasCommitted then Marks(consumer.commitOnAck, before, record.session.part, record.offset)
            else record.session.part == before)
    }

    lemma Untouched(record: Record)
      ensures Settled(record, false, record.committed, PartOf(record))
    {
    }

    /** One of the two validation exits: status, DLQ and commit, all at the same reading. */
    method RejectRecord(record: Record)
      requires Valid()
      modifies `readings, `log, record, record.session
      ensures log == old(log) + Rejection(tick(old(readings)))
      ensures Settled(record, true, old(record.committed), old(PartOf(record)))
    {
      var now := Now();
      PublishStatus(Failed(0), now);
      PublishDlq(Validation, 0, now, now);
      CommitRecord(record);
    }

    function Rejection(now: int): (events: seq<Event>)
      ensures Actions(events) == REJECT_TRACE
    {
      [Status(Failed(0), now), DlqRecord(Validation, 0, now, now), CommitCall]
    }

    /** The terminal events of a failed delivery. */
    method FailRecord(record: Record, kind: FailureType, attempt: nat, firstFailedAt: int, now: int)
      requires firstFailedAt != 0 && now != 0
      modifies `readings, `log, record, record.session
      ensures readings == old(readings)
      ensures log == old(log) + [Status(Failed(attempt), now), DlqRecord(kind, attempt, firstFailedAt, now), CommitCall]
      ensures Settled(record, true, old(record.committed), old(PartOf(record)))
    {
      PublishStatus(Failed(attempt), now);
      PublishDlq(kind, attempt, firstFailedAt, now);
      CommitRecord(record);
    }

    /** One goroutine, from entry to its deferred release. `answers(k)` is what the adapter returns
        to attempt k; `cancelAt(k)` is whether cancellation beats the timer of a positive backoff
        after attempt k; `junk(k)` is what an out-of-range float conversion yields there. */
    method ProcessRecord(record: Record, ctxDone: bool, answers: nat -> SendResult,
        cancelAt: nat -> bool, junk: nat -> int)
      returns (outcome: Option<Outcome>, delays: seq<int>)
      requires Valid() && free < concurrency
      requires forall k :: IsInt64(junk(k))
      modifies this, record, record.session
      ensures Valid() && free == old(free) + 1
      ensures ctxDone <==> outcome.None?
      ensures ctxDone ==> log == old(log)
      ensures !ctxDone ==> Explains(cfg, answers, cancelAt, delays, outcome.value)
                           && log == old(log) + RunEvents(tick, old(readings), outcome.value)
      ensures Settled(record, outcome.Some? && Closes(outcome.value), old(record.committed), old(PartOf(record)))
    {
      delays, outcome := [], None;
      if ctxDone {
        free := free + 1;
        return;
      }
      var o: Outcome;
      o, delays := RetryLoop(record, answers, cancelAt, junk);
      free := free + 1;
      outcome := Some(o);
    }

    method RetryLoop(record: Record, answers: nat -> SendResult, cancelAt: nat -> bool, junk: nat -> int)
      returns (outcome: Outcome, delays: seq<int>)
      requires Valid()
      requires forall k :: IsInt64(junk(k))
      modifies `readings, `log, record, record.session
      ensures Explains(cfg, answers, cancelAt, delays, outcome)
      ensures log == old(log) + RunEvents(tick, old(readings), outcome)
      ensures Settled(record, Closes(outcome), old(record.committed), old(PartOf(record)))
    {
      hide Passed, Explains, Settled, PartOf, IsInt64, Announcements, Reports, RunEvents, IsClock;
      delays := [];
      ghost var r := readings;
      PublishStatus(Queued, 0);
      StartsOut(cfg, answers, cancelAt, tick, r);
      var attempt := 1;
      var firstFailedAt := 0;
      while true
        invariant Passed(cfg, answers, cancelAt, delays, attempt) && |delays| == attempt - 1
        invariant readings == r + 4 * attempt - 3
        invariant log == old(log) + Announcements(tick, r, attempt - 1)
        invariant firstFailedAt == if attempt == 1 then 0 else OverAt(tick, r, 1)
        invariant record.committed == old(record.committed) && PartOf(record) == old(PartOf(record))
        decreases cfg.maxAttempts - attempt
      {
        PassedWithin(cfg, answers, cancelAt, delays, attempt);
        var result := TryOnce(attempt, answers);
        AnnouncesNext(old(log), tick, r, attempt);
        var done: Option<Outcome>;
        done, delays, firstFailedAt := Conclude(record, attempt, result, firstFailedAt, delays,
            answers, cancelAt, junk, r);
        if done.Some? {
          Assembled(old(log), tick, r, done.value);
          return done.value, delays;
        }
        attempt := attempt + 1;
      }
    }

    /** Announces the attempt and sends, with a clock reading on either side of the send. */
    method TryOnce(attempt: nat, answers: nat -> SendResult) returns (result: SendResult)
      modifies `readings, `log
      ensures readings == old(readings) + 3
      ensures log == old(log) + [Status(Attempt(attempt), tick(old(readings)))]
      ensures result == answers(attempt)
    {
      PublishStatus(Attempt(attempt), 0);
      var _ := Now();
      result := answers(attempt);
      var _ := Now();
    }

    /** The rest of the loop body, after the send: report and stop, or back off. No outcome means that
        the loop goes round again. */
    method Conclude(record: Record, attempt: nat, result: SendResult, firstFailedAt: int, waited: seq<int>,
                    answers: nat -> SendResult, cancelAt: nat -> bool, junk: nat -> int, ghost r: nat)
      returns (outcome: Option<Outcome>, delays: seq<int>, firstFailure: int)
      requires Valid() && (forall k :: IsInt64(junk(k)))
      requires Passed(cfg, answers, cancelAt, waited, attempt) && |waited| == attempt - 1
      requires result == answers(attempt) && readings == r + 4 * attempt
      requires firstFailedAt == if attempt == 1 then 0 else OverAt(tick, r, 1)
      modifies `readings, `log, record, record.session
      ensures outcome.Some? ==>
                && Explains(cfg, answers, cancelAt, delays, outcome.value) && outcome.value.k == attempt
                && log == old(log) + Reports(tick, r, outcome.value)
                && Settled(record, Closes(outcome.value), old(record.committed), old(PartOf(record)))
      ensures outcome.None? ==>
                && Passed(cfg, answers, cancelAt, delays, attempt + 1) && |delays| == attempt
                && log == old(log) && readings == old(readings) + 1 && firstFailure == OverAt(tick, r, 1)
                && record.committed == old(record.committed) && PartOf(record) == old(PartOf(record))
    {
      hide Passed, Explains, Settled, PartOf;
      delays, firstFailure := waited, firstFailedAt;
      if result.Accepted? {
        EndsDecided(cfg, answers, cancelAt, waited, attempt);
        PublishStatus(Sent(attempt), 0);
        CommitRecord(record);
        return Some(SentAt(attempt)), delays, firstFailure;
      }
      if result.ctx {
        EndsDecided(cfg, answers, cancelAt, waited, attempt);
        Untouched(record);
        return Some(DeferredAt(attempt)), delays, firstFailure;
      }
      var now := Now();
      if firstFailure == 0 {
        firstFailure := now;
      }
      outcome, delays := AfterError(record, attempt, result, firstFailure, now, waited, answers, cancelAt, junk, r);
    }

    /** After an error that is no context error: dead-letter the record, or back off. */
    method AfterError(record: Record, attempt: nat, result: SendResult, firstFailedAt: int, now: int, waited: seq<int>,
                      answers: nat -> SendResult, cancelAt: nat -> bool, junk: nat -> int, ghost r: nat)
      returns (outcome: Option<Outcome>, delays: seq<int>)
      requires Valid() && (forall k :: IsInt64(junk(k)))
      requires Passed(cfg, answers, cancelAt, waited, attempt) && |waited| == attempt - 1 && attempt >= 1
      requires result == answers(attempt) && result.Error? && !result.ctx
      requires firstFailedAt == OverAt(tick, r, 1) && now == OverAt(tick, r, attempt)
      modifies `readings, `log, record, record.session
      ensures readings == old(readings)
      ensures outcome.Some? ==>
                && Explains(cfg, answers, cancelAt, delays, outcome.value) && outcome.value.k == attempt
                && log == old(log) + Reports(tick, r, outcome.value)
                && Settled(record, Closes(outcome.value), old(record.committed), old(PartOf(record)))
      ensures outcome.None? ==>
                && Passed(cfg, answers, cancelAt, delays, attempt + 1) && |delays| == attempt && log == old(log)
                && record.committed == old(record.committed) && PartOf(record) == old(PartOf(record))
    {
      hide Passed, Explains, Settled, PartOf, BackoffOf;
      delays := waited;
      PassedWithin(cfg, answers, cancelAt, waited, attempt);
      if result.permanent {
        EndsDecided(cfg, answers, cancelAt, waited, attempt);
        FailRecord(record, Permanent, attempt, firstFailedAt, now);
        return Some(DeadAt(attempt, Permanent)), delays;
      }
      if attempt >= cfg.maxAttempts {
        EndsDecided(cfg, answers, cancelAt, waited, attempt);
        var kind := if result.transient then Transient else Unknown;
        FailRecord(record, kind, attempt, firstFailedAt, now);
        return Some(DeadAt(attempt, kind)), delays;
      }
      var backoff := ComputeBackoff(cfg.baseBackoff, cfg.maxBackoff, attempt, junk(attempt));
      if backoff.Panic? {
        EndsStopped(cfg, answers, cancelAt, waited, attempt, backoff);
        Untouched(record);
        return Some(PanickedAt(attempt)), delays;
      }
      delays := delays + [backoff.d];
      if backoff.d > 0 && cancelAt(attempt) {
        EndsStopped(cfg, answers, cancelAt, waited, attempt, backoff);
        Untouched(record);
        return Some(CutAt(attempt)), delays;
      }
      GoesRound(cfg, answers, cancelAt, waited, attempt, backoff.d);
      return None, delays;
    }

    /** A record as the claim loop hands it over: a nil record is ignored; an oversized or invalid
        one is dead-lettered and committed on the spot; otherwise a permit is taken, unless the
        acquisition fails, and the record is processed. With no permit free the acquisition blocks
        until one is given back or it fails: it only returns as one of the two cases below. */
    method HandleRecord(record: Record?, valid: bool, acquireFails: bool, ctxDone: bool,
                        answers: nat -> SendResult, cancelAt: nat -> bool, junk: nat -> int)
      returns (outcome: Option<Outcome>, delays: seq<int>)
      requires Valid() && (free > 0 || acquireFails)
      requires forall k :: IsInt64(junk(k))
      modifies this, record
      modifies if record == null then null else record.session
      ensures Valid() && free == old(free)
      ensures record == null ==> log == old(log)
      ensures record != null && (!valid || (msgMaxBytes > 0 && record.size > msgMaxBytes)) ==>
                && log == old(log) + [Status(Failed(0), tick(old(readings))),
                                      DlqRecord(Validation, 0, tick(old(readings)), tick(old(readings))), CommitCall]
                && Settled(record, true, old(record.committed), old(PartOf(record)))
      ensures record != null && valid && (msgMaxBytes <= 0 || record.size <= msgMaxBytes)
              && (acquireFails || ctxDone) ==>
                && log == old(log)
                && Settled(record, false, old(record.committed), old(PartOf(record)))
      ensures record != null && valid && (msgMaxBytes <= 0 || record.size <= msgMaxBytes)
              && !acquireFails && !ctxDone ==>
                && outcome.Some?
                && Explains(cfg, answers, cancelAt, delays, outcome.value)
                && log == old(log) + RunEvents(tick, old(readings), outcome.value)
                && Settled(record, Closes(outcome.value), old(record.committed), old(PartOf(record)))
    {
      hide Explains, RunEvents;
      outcome, delays := None, [];
      if record == null {
        return;
      }
      if msgMaxBytes > 0 && record.size > msgMaxBytes {
        RejectRecord(record);
        return;
      }
      if !valid {
        RejectRecord(record);
        return;
      }
      if acquireFails {
        return;
      }
      free := free - 1;
      outcome, delays := ProcessRecord(record, ctxDone, answers, cancelAt, junk);
    }
  }
}
