/** The worker as a transition system: any number of deliveries interleaved action by action,
    sharing one semaphore, one published log and the partitions' offsets. A run is a list of
    step labels; every environment choice (verdicts, adapter answers, cancellation, crashes,
    scheduling) is in the labels. */
module Machine {
  import opened Options
  import opened Outcomes

  /** The engine's settings, and what the environment is able to do.
      `mayReject`: some record can be oversized or invalid.
      `validatorChecksCtx`: the validator also fails once its context is done.
      `mayCtxErr`: the adapter can return an error that matches a context error. */
  datatype Config = Config(maxAttempts: nat, concurrency: nat, partitions: nat, commitOnAck: bool,
                           mayReject: bool, validatorChecksCtx: bool, mayCtxErr: bool)
  {
    predicate Valid() {
      maxAttempts >= 1 && concurrency >= 1 && partitions >= 1
    }
  }

  datatype Final = Rejected | Delivered | Dead(kind: FailureType)

  datatype End = Finished(final: Final) | Refused | CancelledEarly | CancelledWaiting(delay: int) | CtxFailed

  /** Where a delivery is. The states from `Spawned` to `Releasing` belong to the goroutine that
      holds a permit; those before, and the rejection path, run inside the claim loop. */
  datatype Pc =
    | Received
    | RejectDlq
    | RejectCommit
    | Acquiring
    | Spawned
    | Announcing
    | Sending
    | Waiting(delay: int)
    | ReportSent
    | ReportFailed(kind: FailureType)
    | ReportDlq(kind: FailureType)
    | Committing(final: Final)
    | Releasing(end: End)
    | Ended(end: End)

  /** One delivery of a record. `results`, `acquires` and `releases` record its history; `alive`
      is false once the process it ran in has crashed. */
  datatype Delivery = Delivery(part: nat, offset: nat, session: nat, alive: bool, pc: Pc,
                               results: seq<SendResult>, acquires: nat, releases: nat)

  datatype Partition = Partition(next: nat, marked: nat, flushed: nat)

  datatype Entry = Entry(id: nat, part: nat, offset: nat, act: Action)

  datatype State = State(ds: seq<Delivery>, parts: seq<Partition>, free: int,
                         session: nat, cancelled: bool, log: seq<Entry>)

  datatype Input =
    | Admit | Reject | Granted | Denied | Go | Return(r: SendResult, delay: int) | Elapse | Cancel

  /** `sticks`: whether a mark made through an already closed session still counts. */
  datatype Step =
    | Deliver(p: nat)
    | Act(i: nat, inp: Input, sticks: bool)
    | CancelSession
    | Rebalance
    | Crash
    | Flush(p: nat)

  datatype Effect = Effect(d: Delivery, emit: Option<Action>)

  predicate HoldsPermit(pc: Pc) {
    !pc.Received? && !pc.RejectDlq? && !pc.RejectCommit? && !pc.Acquiring? && !pc.Ended?
  }

  predicate InHandler(pc: Pc) {
    pc.Received? || pc.RejectDlq? || pc.RejectCommit? || pc.Acquiring?
  }

  /** Where `processRecord` goes with the k-th answer. */
  function AfterSend(max: nat, k: nat, r: SendResult, delay: int): Pc {
    if r.Accepted? then ReportSent
    else if r.ctx then Releasing(CtxFailed)
    else if r.permanent then ReportFailed(Permanent)
    else if k >= max then ReportFailed(if r.transient then Transient else Unknown)
    else Waiting(delay)
  }

  /** One move of a delivery by itself. */
  function Advance(max: nat, d: Delivery, inp: Input): Option<Effect> {
    var k := |d.results|;
    match (d.pc, inp)
    case (Received, Reject) => Some(Effect(d.(pc := RejectDlq), Some(Failed(0))))
    case (Received, Admit) => Some(Effect(d.(pc := Acquiring), None))
    case (RejectDlq, Go) => Some(Effect(d.(pc := RejectCommit), Some(Dlq(Validation, 0))))
    case (RejectCommit, Go) => Some(Effect(d.(pc := Ended(Finished(Rejected))), Some(Commit)))
    case (Acquiring, Granted) => Some(Effect(d.(pc := Spawned, acquires := d.acquires + 1), None))
    case (Acquiring, Denied) => Some(Effect(d.(pc := Ended(Refused)), None))
    case (Spawned, Go) => Some(Effect(d.(pc := Announcing), Some(Queued)))
    case (Spawned, Cancel) => Some(Effect(d.(pc := Releasing(CancelledEarly)), None))
    case (Announcing, Go) => Some(Effect(d.(pc := Sending), Some(Attempt(k + 1))))
    case (Sending, Return(r, delay)) =>
      Some(Effect(d.(pc := AfterSend(max, k + 1, r, delay), results := d.results + [r]), None))
    case (Waiting(_), Elapse) => Some(Effect(d.(pc := Announcing), None))
    case (Waiting(delay), Cancel) =>
      if delay > 0 then Some(Effect(d.(pc := Releasing(CancelledWaiting(delay))), None)) else None
    case (ReportSent, Go) => Some(Effect(d.(pc := Committing(Delivered)), Some(Sent(k))))
    case (ReportFailed(kind), Go) => Some(Effect(d.(pc := ReportDlq(kind)), Some(Failed(k))))
    case (ReportDlq(kind), Go) => Some(Effect(d.(pc := Committing(Dead(kind))), Some(Dlq(kind, k))))
    case (Committing(f), Go) => Some(Effect(d.(pc := Releasing(Finished(f))), Some(Commit)))
    case (Releasing(e), Go) => Some(Effect(d.(pc := Ended(e), releases := d.releases + 1), None))
    case _ => None
  }

  predicate CtxDone(s: State, d: Delivery) {
    d.session != s.session || s.cancelled
  }

  /** When the environment and the shared state allow the move. */
  predicate Enabled(cfg: Config, s: State, d: Delivery, inp: Input) {
    match inp
    case Reject => cfg.mayReject || (cfg.validatorChecksCtx && CtxDone(s, d))
    case Granted => s.free > 0
    case Denied => CtxDone(s, d)
    case Cancel => CtxDone(s, d)
    case Return(r, _) => r.Error? && r.ctx ==> cfg.mayCtxErr
    case Go => d.pc.Spawned? ==> !CtxDone(s, d)
    case _ => true
  }

  function Max(a: nat, b: nat): nat { if a < b then b else a }

  /** `MarkMessage` then, with commit-on-success, `Commit`: offsets only move forward, to one past
      the marked record. */
  function Mark(commitOnAck: bool, q: Partition, offset: nat): Partition {
    var m := Max(q.marked, offset + 1);
    Partition(q.next, m, if commitOnAck then m else q.flushed)
  }

  /** The group resumes every partition from the flushed offset. */
  function Resume(parts: seq<Partition>): (r: seq<Partition>)
    ensures |r| == |parts|
    ensures forall p :: 0 <= p < |parts| ==> r[p] == Partition(parts[p].flushed, parts[p].flushed, parts[p].flushed)
  {
    seq(|parts|, p requires 0 <= p < |parts| => Partition(parts[p].flushed, parts[p].flushed, parts[p].flushed))
  }

  function Kill(ds: seq<Delivery>): (r: seq<Delivery>)
    ensures |r| == |ds|
    ensures forall i :: 0 <= i < |ds| ==> r[i] == ds[i].(alive := false)
  {
    seq(|ds|, i requires 0 <= i < |ds| => ds[i].(alive := false))
  }

  /** The claim loop of partition p is inside `HandleRecord`. */
  predicate Handling(ds: seq<Delivery>, p: nat) {
    exists i :: 0 <= i < |ds| && ds[i].alive && InHandler(ds[i].pc) && ds[i].part == p
  }

  predicate NoneHandling(ds: seq<Delivery>) {
    forall i :: 0 <= i < |ds| && ds[i].alive ==> !InHandler(ds[i].pc)
  }

  function PermitDelta(before: Pc, after: Pc): int {
    (if HoldsPermit(before) then 1 else 0) - (if HoldsPermit(after) then 1 else 0)
  }

  function Apply(cfg: Config, s: State, step: Step): Option<State> {
    match step
    case Deliver(p) =>
      if p < |s.parts| && !Handling(s.ds, p) then
        var q := s.parts[p];
        Some(s.(ds := s.ds + [Delivery(p, q.next, s.session, true, Received, [], 0, 0)],
                parts := s.parts[p := q.(next := q.next + 1)]))
      else None
    case Act(i, inp, sticks) =>
      if i < |s.ds| && s.ds[i].alive && Enabled(cfg, s, s.ds[i], inp) then
        Move(cfg, s, i, Advance(cfg.maxAttempts, s.ds[i], inp), sticks)
      else None
    case CancelSession => Some(s.(cancelled := true))
    case Rebalance =>
      if s.cancelled && NoneHandling(s.ds) then
        Some(s.(session := s.session + 1, cancelled := false, parts := Resume(s.parts)))
      else None
    case Crash =>
      Some(s.(ds := Kill(s.ds), free := cfg.concurrency, session := s.session + 1,
              cancelled := false, parts := Resume(s.parts)))
    case Flush(p) =>
      if p < |s.parts| then Some(s.(parts := s.parts[p := s.parts[p].(flushed := s.parts[p].marked)])) else None
  }

  /** The shared-state side of a delivery's move. */
  function Move(cfg: Config, s: State, i: nat, e: Option<Effect>, sticks: bool): Option<State>
    requires i < |s.ds|
  {
    if e.None? then None else
    var d := s.ds[i];
    var marks := e.value.emit == Some(Commit) && (d.session == s.session || sticks) && d.part < |s.parts|;
    Some(s.(
      ds := s.ds[i := e.value.d],
      free := s.free + PermitDelta(d.pc, e.value.d.pc),
      log := if e.value.emit.Some? then s.log + [Entry(i, d.part, d.offset, e.value.emit.value)] else s.log,
      parts := if marks then s.parts[d.part := Mark(cfg.commitOnAck, s.parts[d.part], d.offset)] else s.parts))
  }

  function Init(cfg: Config): State {
    State([], seq(cfg.partitions, _ => Partition(0, 0, 0)), cfg.concurrency, 0, false, [])
  }

  /** The state a run ends in, if every step of it can be taken. */
  function Exec(cfg: Config, run: seq<Step>): Option<State> {
    if run == [] then Some(Init(cfg))
    else match Exec(cfg, run[..|run| - 1])
      case None => None
      case Some(s) => Apply(cfg, s, run[|run| - 1])
  }

  ghost predicate Reachable(cfg: Config, s: State) {
    exists run :: Exec(cfg, run) == Some(s)
  }

  // ----- what a delivery has done so far -----

  /** The actions of delivery `id` in the shared log, in order. */
  function Proj(log: seq<Entry>, id: nat): seq<Action> {
    if log == [] then []
    else
      var last := log[|log| - 1];
      Proj(log[..|log| - 1], id) + if last.id == id then [last.act] else []
  }

  function EndTrace(k: nat, e: End): seq<Action> {
    match e
    case Finished(Rejected) => REJECT_TRACE
    case Finished(Delivered) => Tries(k) + [Sent(k), Commit]
    case Finished(Dead(kind)) => Tries(k) + [Failed(k), Dlq(kind, k), Commit]
    case Refused => []
    case CancelledEarly => []
    case _ => Tries(k)
  }

  /** What a delivery must have done, from its own state alone. */
  function TraceOf(d: Delivery): seq<Action> {
    var k := |d.results|;
    match d.pc
    case Received => []
    case RejectDlq => [Failed(0)]
    case RejectCommit => [Failed(0), Dlq(Validation, 0)]
    case Acquiring => []
    case Spawned => []
    case Announcing => Tries(k)
    case Sending => Tries(k + 1)
    case Waiting(_) => Tries(k)
    case ReportSent => Tries(k)
    case ReportFailed(_) => Tries(k)
    case ReportDlq(_) => Tries(k) + [Failed(k)]
    case Committing(Delivered) => Tries(k) + [Sent(k)]
    case Committing(Dead(kind)) => Tries(k) + [Failed(k), Dlq(kind, k)]
    case Committing(Rejected) => []
    case Releasing(e) => EndTrace(k, e)
    case Ended(e) => EndTrace(k, e)
  }

  /** The results a delivery has seen agree with where it is. */
  predicate ResultsOk(max: nat, d: Delivery) {
    var k := |d.results|;
    && k <= max
    && (forall j :: 0 <= j < k - 1 ==> Retryable(d.results[j]))
    && match d.pc
       case Announcing => k < max && (k > 0 ==> Retryable(d.results[k - 1]))
       case Sending => k < max && (k > 0 ==> Retryable(d.results[k - 1]))
       case Waiting(_) => 0 < k < max && Retryable(d.results[k - 1])
       case ReportSent => k > 0 && d.results[k - 1].Accepted?
       case ReportFailed(kind) => FailedWith(max, d.results, kind)
       case ReportDlq(kind) => FailedWith(max, d.results, kind)
       case Committing(f) => FinalOk(max, d.results, f) && !f.Rejected?
       case Releasing(e) => EndOk(max, d.results, e) && !e.Refused? && e != Finished(Rejected)
       case Ended(e) => EndOk(max, d.results, e)
       case _ => k == 0
  }

  predicate FailedWith(max: nat, rs: seq<SendResult>, kind: FailureType) {
    var k := |rs|;
    k > 0 && Settles(max, rs[k - 1], k) && Verdict(rs[k - 1], k) == DeadAt(k, kind)
  }

  predicate FinalOk(max: nat, rs: seq<SendResult>, f: Final) {
    match f
    case Rejected => rs == []
    case Delivered => |rs| > 0 && rs[|rs| - 1].Accepted?
    case Dead(kind) => FailedWith(max, rs, kind)
  }

  predicate EndOk(max: nat, rs: seq<SendResult>, e: End) {
    match e
    case Finished(f) => FinalOk(max, rs, f)
    case Refused => rs == []
    case CancelledEarly => rs == []
    case CancelledWaiting(delay) => 0 < |rs| < max && Retryable(rs[|rs| - 1]) && delay > 0
    case CtxFailed => |rs| > 0 && rs[|rs| - 1].Error? && rs[|rs| - 1].ctx
  }

  /** A permit is taken at most once and given back at most once, and is out exactly between. */
  predicate PermitsOk(d: Delivery) {
    && d.releases <= d.acquires <= 1
    && d.acquires - d.releases == (if HoldsPermit(d.pc) then 1 else 0)
    && (d.acquires == 0 <==> InHandler(d.pc) || (d.pc.Ended? && (d.pc.end.Refused? || d.pc.end == Finished(Rejected))))
  }

  /** A delivery that gave up because of its context did so with the context done. */
  predicate GaveUpOk(cfg: Config, s: State, d: Delivery) {
    (d.pc.Releasing? || d.pc.Ended?) ==>
      && (d.pc.end.Refused? || d.pc.end.CancelledEarly? || d.pc.end.CancelledWaiting? ==> CtxDone(s, d))
      && (d.pc.end.CtxFailed? ==> cfg.mayCtxErr)
  }

  predicate DeliveryOk(cfg: Config, s: State, d: Delivery) {
    && d.part < |s.parts|
    && d.session <= s.session
    && ResultsOk(cfg.maxAttempts, d)
    && PermitsOk(d)
    && GaveUpOk(cfg, s, d)
    && (d.session == s.session ==> d.alive && d.offset < s.parts[d.part].next)
    && (d.alive && InHandler(d.pc) ==> d.session == s.session && d.offset + 1 == s.parts[d.part].next)
  }

  function Holders(ds: seq<Delivery>): set<nat> {
    set i: nat | i < |ds| && ds[i].alive && HoldsPermit(ds[i].pc)
  }

  ghost predicate Inv(cfg: Config, s: State) {
    && |s.parts| == cfg.partitions
    && (forall p :: 0 <= p < |s.parts| ==> s.parts[p].flushed <= s.parts[p].marked)
    && s.free + |Holders(s.ds)| == cfg.concurrency
    && s.free >= 0
    && (forall i :: 0 <= i < |s.ds| ==> DeliveryOk(cfg, s, s.ds[i]))
    && LogOk(s)
  }

  ghost predicate LogOk(s: State) {
    && (forall j :: 0 <= j < |s.log| ==> EntryOk(s, s.log[j]))
    && (forall i :: 0 <= i < |s.ds| ==> Proj(s.log, i) == TraceOf(s.ds[i]))
  }

  predicate EntryOk(s: State, e: Entry) {
    e.id < |s.ds| && e.part == s.ds[e.id].part && e.offset == s.ds[e.id].offset
  }

  // ----- the invariant is kept by every step -----

  /** A move changes the trace by exactly what it emits. */
  lemma AdvanceEmits(max: nat, d: Delivery, inp: Input)
    requires max >= 1 && ResultsOk(max, d) && Advance(max, d, inp).Some?
    ensures var e := Advance(max, d, inp).value;
            TraceOf(e.d) == TraceOf(d) + (if e.emit.Some? then [e.emit.value] else [])
  {
  }

  /** A move keeps the results consistent with the place. */
  lemma AdvanceResults(max: nat, d: Delivery, inp: Input)
    requires max >= 1 && ResultsOk(max, d) && Advance(max, d, inp).Some?
    ensures ResultsOk(max, Advance(max, d, inp).value.d)
  {
  }

  lemma AdvancePermits(cfg: Config, s: State, d: Delivery, inp: Input)
    requires cfg.Valid() && PermitsOk(d) && GaveUpOk(cfg, s, d) && ResultsOk(cfg.maxAttempts, d)
    requires Enabled(cfg, s, d, inp) && Advance(cfg.maxAttempts, d, inp).Some?
    ensures var e := Advance(cfg.maxAttempts, d, inp).value;
            && PermitsOk(e.d) && GaveUpOk(cfg, s, e.d)
            && e.d == d.(pc := e.d.pc, results := e.d.results, acquires := e.d.acquires, releases := e.d.releases)
            && (InHandler(e.d.pc) ==> InHandler(d.pc))
            && (!HoldsPermit(d.pc) && HoldsPermit(e.d.pc) ==> s.free > 0)
  {
  }

  lemma AdvanceKeeps(cfg: Config, s: State, d: Delivery, inp: Input)
    requires cfg.Valid()
    requires DeliveryOk(cfg, s, d) && d.alive && Enabled(cfg, s, d, inp)
    requires Advance(cfg.maxAttempts, d, inp).Some?
    ensures var e := Advance(cfg.maxAttempts, d, inp).value;
            && DeliveryOk(cfg, s, e.d)
            && e.d.alive && e.d.part == d.part && e.d.offset == d.offset && e.d.session == d.session
            && TraceOf(e.d) == TraceOf(d) + (if e.emit.Some? then [e.emit.value] else [])
            && (!HoldsPermit(d.pc) && HoldsPermit(e.d.pc) ==> s.free > 0)
  {
    hide Advance, Enabled, ResultsOk, PermitsOk, GaveUpOk, TraceOf, InHandler, HoldsPermit;
    AdvanceResults(cfg.maxAttempts, d, inp);
    AdvanceEmits(cfg.maxAttempts, d, inp);
    AdvancePermits(cfg, s, d, inp);
  }

  /** Changes to the shared state that keep a delivery consistent. */
  lemma DeliveryFrame(cfg: Config, s: State, s': State, d: Delivery)
    requires DeliveryOk(cfg, s, d)
    requires |s'.parts| == |s.parts|
    requires s'.session == s.session && (s.cancelled ==> s'.cancelled)
    requires s.parts[d.part].next == s'.parts[d.part].next
    ensures DeliveryOk(cfg, s', d)
  {
  }

  lemma ProjAppend(log: seq<Entry>, e: Entry, id: nat)
    ensures Proj(log + [e], id) == Proj(log, id) + if e.id == id then [e.act] else []
  {
    assert (log + [e])[..|log|] == log;
  }

  lemma {:induction false} ProjOfNone(log: seq<Entry>, id: nat)
    requires forall j :: 0 <= j < |log| ==> log[j].id != id
    ensures Proj(log, id) == []
  {
    if log != [] {
      ProjOfNone(log[..|log| - 1], id);
    }
  }

  lemma HoldersUpdate(ds: seq<Delivery>, i: nat, d: Delivery)
    requires i < |ds| && ds[i].alive && d.alive
    ensures |Holders(ds[i := d])| == |Holders(ds)| - PermitDelta(ds[i].pc, d.pc)
  {
    hide HoldsPermit;
    var before, after := Holders(ds), Holders(ds[i := d]);
    if HoldsPermit(ds[i].pc) && !HoldsPermit(d.pc) {
      assert after == before - {i} && i in before;
    } else if !HoldsPermit(ds[i].pc) && HoldsPermit(d.pc) {
      assert after == before + {i} && i !in before;
    } else {
      assert after == before;
    }
  }

  /** The log grows by what the moving delivery emitted, and by nothing else. */
  lemma LogMove(s: State, s': State, i: nat, d: Delivery, emit: Option<Action>)
    requires LogOk(s) && i < |s.ds|
    requires s'.ds == s.ds[i := d] && d.part == s.ds[i].part && d.offset == s.ds[i].offset
    requires TraceOf(d) == TraceOf(s.ds[i]) + (if emit.Some? then [emit.value] else [])
    requires s'.log == if emit.Some? then s.log + [Entry(i, d.part, d.offset, emit.value)] else s.log
    ensures LogOk(s')
  {
    hide TraceOf;
    forall j | 0 <= j < |s'.ds|
      ensures Proj(s'.log, j) == TraceOf(s'.ds[j])
    {
      assert Proj(s.log, j) == TraceOf(s.ds[j]);
      if emit.Some? {
        ProjAppend(s.log, Entry(i, d.part, d.offset, emit.value), j);
      }
    }
    forall j | 0 <= j < |s'.log|
      ensures EntryOk(s', s'.log[j])
    {
      if j < |s.log| {
        assert EntryOk(s, s.log[j]);
      }
    }
  }

  lemma InvMove(cfg: Config, s: State, i: nat, inp: Input, sticks: bool)
    requires cfg.Valid() && Inv(cfg, s)
    requires i < |s.ds| && s.ds[i].alive && Enabled(cfg, s, s.ds[i], inp)
    requires Advance(cfg.maxAttempts, s.ds[i], inp).Some?
    ensures Inv(cfg, Move(cfg, s, i, Advance(cfg.maxAttempts, s.ds[i], inp), sticks).value)
  {
    hide Advance, Enabled, TraceOf, DeliveryOk, LogOk, Holders, HoldsPermit;
    var d := s.ds[i];
    var e := Advance(cfg.maxAttempts, d, inp).value;
    var s' := Move(cfg, s, i, Some(e), sticks).value;
    AdvanceKeeps(cfg, s, d, inp);
    HoldersUpdate(s.ds, i, e.d);
    LogMove(s, s', i, e.d, e.emit);
    MoveKeepsOthers(cfg, s, s', i, e.d);
  }

  lemma MoveKeepsOthers(cfg: Config, s: State, s': State, i: nat, d: Delivery)
    requires i < |s.ds|
    requires forall j :: 0 <= j < |s.ds| ==> DeliveryOk(cfg, s, s.ds[j])
    requires DeliveryOk(cfg, s, d)
    requires s'.ds == s.ds[i := d] && |s'.parts| == |s.parts|
    requires s'.session == s.session && s'.cancelled == s.cancelled
    requires forall p :: 0 <= p < |s.parts| ==> s'.parts[p].next == s.parts[p].next
    ensures forall j :: 0 <= j < |s'.ds| ==> DeliveryOk(cfg, s', s'.ds[j])
  {
    forall j | 0 <= j < |s'.ds|
      ensures DeliveryOk(cfg, s', s'.ds[j])
    {
      DeliveryFrame(cfg, s, s', if j == i then d else s.ds[j]);
    }
  }

  lemma InvDeliver(cfg: Config, s: State, p: nat)
    requires cfg.Valid() && Inv(cfg, s)
    requires Apply(cfg, s, Deliver(p)).Some?
    ensures Inv(cfg, Apply(cfg, s, Deliver(p)).value)
  {
    hide Advance, Enabled, Kill, Resume;
    var s' := Apply(cfg, s, Deliver(p)).value;
    assert Holders(s'.ds) == Holders(s.ds);
    LogDeliver(s, s');
    forall j | 0 <= j < |s.ds|
      ensures DeliveryOk(cfg, s', s.ds[j])
    {
      DeliverKeepsOthers(cfg, s, p, j);
    }
  }

  lemma DeliverKeepsOthers(cfg: Config, s: State, p: nat, j: nat)
    requires p < |s.parts| && !Handling(s.ds, p)
    requires j < |s.ds| && DeliveryOk(cfg, s, s.ds[j])
    ensures DeliveryOk(cfg, Apply(cfg, s, Deliver(p)).value, s.ds[j])
  {
  }

  lemma LogDeliver(s: State, s': State)
    requires LogOk(s)
    requires |s'.ds| == |s.ds| + 1 && s'.ds[..|s.ds|] == s.ds && s'.log == s.log
    requires TraceOf(s'.ds[|s.ds|]) == []
    ensures LogOk(s')
  {
    forall j | 0 <= j < |s'.log|
      ensures EntryOk(s', s'.log[j]) && s'.log[j].id != |s.ds|
    {
      assert EntryOk(s, s.log[j]);
    }
    ProjOfNone(s.log, |s.ds|);
  }

  /** Rebalances and crashes open a new session and resume from the flushed offsets. */
  lemma InvNewSession(cfg: Config, s: State, step: Step)
    requires cfg.Valid() && Inv(cfg, s)
    requires step.Rebalance? || step.Crash?
    requires Apply(cfg, s, step).Some?
    ensures Inv(cfg, Apply(cfg, s, step).value)
  {
    hide DeliveryOk, TraceOf;
    var s' := Apply(cfg, s, step).value;
    if step.Crash? {
      assert Holders(s'.ds) == {};
    }
    forall j | 0 <= j < |s'.log|
      ensures EntryOk(s', s'.log[j])
    {
      assert EntryOk(s, s.log[j]);
    }
    forall j | 0 <= j < |s'.ds|
      ensures DeliveryOk(cfg, s', s'.ds[j])
      ensures TraceOf(s'.ds[j]) == TraceOf(s.ds[j])
    {
      NewSessionKeeps(cfg, s, s', s.ds[j], s'.ds[j]);
    }
  }

  lemma NewSessionKeeps(cfg: Config, s: State, s': State, d: Delivery, d': Delivery)
    requires DeliveryOk(cfg, s, d)
    requires d' == d || d' == d.(alive := false)
    requires s'.session > s.session && |s'.parts| == |s.parts|
    requires d'.alive ==> !InHandler(d.pc)
    ensures DeliveryOk(cfg, s', d') && TraceOf(d') == TraceOf(d)
  {
  }

  lemma InvStep(cfg: Config, s: State, step: Step)
    requires cfg.Valid() && Inv(cfg, s)
    requires Apply(cfg, s, step).Some?
    ensures Inv(cfg, Apply(cfg, s, step).value)
  {
    match step
    case Deliver(p) => InvDeliver(cfg, s, p);
    case Act(i, inp, sticks) => InvMove(cfg, s, i, inp, sticks);
    case Rebalance => InvNewSession(cfg, s, step);
    case Crash => InvNewSession(cfg, s, step);
    case CancelSession =>
      var s' := Apply(cfg, s, step).value;
      forall j | 0 <= j < |s'.ds| ensures DeliveryOk(cfg, s', s'.ds[j]) {
        DeliveryFrame(cfg, s, s', s.ds[j]);
      }
      assert forall j :: 0 <= j < |s.log| ==> EntryOk(s, s.log[j]) ==> EntryOk(s', s'.log[j]);
    case Flush(p) =>
      var s' := Apply(cfg, s, step).value;
      forall j | 0 <= j < |s'.ds| ensures DeliveryOk(cfg, s', s'.ds[j]) {
        DeliveryFrame(cfg, s, s', s.ds[j]);
      }
      assert forall j :: 0 <= j < |s.log| ==> EntryOk(s, s.log[j]) ==> EntryOk(s', s'.log[j]);
  }

  lemma {:induction false} InvRun(cfg: Config, run: seq<Step>)
    requires cfg.Valid()
    ensures Exec(cfg, run).Some? ==> Inv(cfg, Exec(cfg, run).value)
  {
    if run == [] {
      assert Holders([]) == {};
    } else if Exec(cfg, run).Some? {
      InvRun(cfg, run[..|run| - 1]);
      InvStep(cfg, Exec(cfg, run[..|run| - 1]).value, run[|run| - 1]);
    }
  }

  lemma InvReachable(cfg: Config, s: State)
    requires cfg.Valid() && Reachable(cfg, s)
    ensures Inv(cfg, s)
  {
    var run :| Exec(cfg, run) == Some(s);
    InvRun(cfg, run);
  }

  lemma ReachInit(cfg: Config)
    ensures Reachable(cfg, Init(cfg))
  {
    assert Exec(cfg, []) == Some(Init(cfg));
  }

  lemma ReachStep(cfg: Config, s: State, step: Step)
    requires Reachable(cfg, s) && Apply(cfg, s, step).Some?
    ensures Reachable(cfg, Apply(cfg, s, step).value)
  {
    var run :| Exec(cfg, run) == Some(s);
    assert (run + [step])[..|run|] == run;
    assert Exec(cfg, run + [step]) == Apply(cfg, s, step);
  }
}
