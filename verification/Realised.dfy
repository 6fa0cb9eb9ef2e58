/** What the interleaved system is able to do, beside what it never does: from any state in which the
    claim loop and a permit are free, a new delivery can go through every run of the retry loop; all
    permits can be out at once; and after a crash the first record above the flushed offset can be
    brought to any outcome. */
module Realised {
  import opened Options
  import opened Outcomes
  import opened Machine
  import opened Lifecycle
  import opened Offsets

  /** s0 with one more delivery, d, and otherwise the same deliveries. */
  ghost predicate With(cfg: Config, s0: State, s: State, d: Delivery) {
    && Reachable(cfg, s)
    && s.ds == s0.ds + [d]
    && s.session == s0.session && |s.parts| == |s0.parts|
  }

  lemma TakeMove(cfg: Config, s0: State, s: State, d: Delivery, inp: Input) returns (s': State)
    requires With(cfg, s0, s, d) && d.alive && Enabled(cfg, s, d, inp) && d.part < |s.parts| && d.session == s.session
    requires Advance(cfg.maxAttempts, d, inp).Some?
    ensures With(cfg, s0, s', Advance(cfg.maxAttempts, d, inp).value.d)
    ensures s'.cancelled == s.cancelled
    ensures s'.free == s.free + PermitDelta(d.pc, Advance(cfg.maxAttempts, d, inp).value.d.pc)
    ensures s'.parts == if Advance(cfg.maxAttempts, d, inp).value.emit == Some(Commit)
                        then s.parts[d.part := Mark(cfg.commitOnAck, s.parts[d.part], d.offset)] else s.parts
  {
    hide Advance, Enabled, Reachable, PermitDelta, Mark;
    var n := |s0.ds|;
    assert s.ds[n] == d;
    s' := TakeAct(cfg, s, n, inp);
    assert s.ds[n := s'.ds[n]] == s0.ds + [s'.ds[n]];
  }

  /** A delivery of the next record of partition p, in a place of its own choosing. */
  function Fresh(s0: State, p: nat, pc: Pc, results: seq<SendResult>): Delivery
    requires p < |s0.parts|
  {
    Delivery(p, s0.parts[p].next, s0.session, true, pc, results,
                 if InHandler(pc) then 0 else 1, if pc.Ended? then 1 else 0)
  }

  /** The claim loop, a permit and the context are free. */
  ghost predicate Idle(cfg: Config, s: State, p: nat) {
    Reachable(cfg, s) && p < |s.parts| && !Handling(s.ds, p) && s.free > 0 && !s.cancelled
  }

  lemma TakeNext(cfg: Config, s: State, p: nat) returns (s': State)
    requires Reachable(cfg, s) && p < |s.parts| && !Handling(s.ds, p)
    ensures With(cfg, s, s', Fresh(s, p, Received, []))
    ensures s'.cancelled == s.cancelled && s'.free == s.free && s'.log == s.log
    ensures s'.parts == s.parts[p := s.parts[p].(next := s.parts[p].next + 1)]
  {
    s' := Apply(cfg, s, Deliver(p)).value;
    ReachStep(cfg, s, Deliver(p));
  }

  /** The next record gets its permit. */
  lemma Spawns(cfg: Config, s0: State, p: nat) returns (s: State)
    requires cfg.Valid() && Idle(cfg, s0, p)
    ensures With(cfg, s0, s, Fresh(s0, p, Spawned, []))
    ensures !s.cancelled && s.free == s0.free - 1 && s.parts[p].marked == s0.parts[p].marked
    ensures s.parts[p].next == s0.parts[p].next + 1
  {
    hide Reachable, Handling;
    s := TakeNext(cfg, s0, p);
    s := TakeMove(cfg, s0, s, Fresh(s0, p, Received, []), Admit);
    s := TakeMove(cfg, s0, s, Fresh(s0, p, Acquiring, []), Granted);
  }

  /** The first k of the answers. */
  function Firsts(answers: nat -> SendResult, k: nat): (r: seq<SendResult>)
    ensures |r| == k && forall j :: 0 <= j < k ==> r[j] == answers(j + 1)
  {
    seq(k, j requires j >= 0 => answers(j + 1))
  }

  lemma FirstsNext(answers: nat -> SendResult, k: nat)
    ensures Firsts(answers, k) + [answers(k + 1)] == Firsts(answers, k + 1)
  {
  }

  /** From one send, an error to be tried again and its wait lead to the next. */
  lemma SendsAgain(cfg: Config, s0: State, p: nat, s1: State, results: seq<SendResult>, r: SendResult)
    returns (s: State)
    requires cfg.Valid() && Idle(cfg, s0, p) && With(cfg, s0, s1, Fresh(s0, p, Sending, results))
    requires TryAgain(r) && |results| + 1 < cfg.maxAttempts
    ensures With(cfg, s0, s, Fresh(s0, p, Sending, results + [r]))
    ensures s.cancelled == s1.cancelled && s.parts[p].marked == s1.parts[p].marked
  {
    hide Reachable, Handling;
    s := TakeMove(cfg, s0, s1, Fresh(s0, p, Sending, results), Return(r, 1));
    s := TakeMove(cfg, s0, s, Fresh(s0, p, Waiting(1), results + [r]), Elapse);
    s := TakeMove(cfg, s0, s, Fresh(s0, p, Announcing, results + [r]), Go);
  }

  lemma SendsFirst(cfg: Config, s0: State, p: nat) returns (s: State)
    requires cfg.Valid() && Idle(cfg, s0, p)
    ensures With(cfg, s0, s, Fresh(s0, p, Sending, []))
    ensures !s.cancelled && s.parts[p].marked == s0.parts[p].marked
  {
    hide Reachable, Handling;
    s := Spawns(cfg, s0, p);
    s := TakeMove(cfg, s0, s, Fresh(s0, p, Spawned, []), Go);
    s := TakeMove(cfg, s0, s, Fresh(s0, p, Announcing, []), Go);
  }

  /** Any k - 1 answers that do not settle the run lead to the k-th send. */
  lemma {:induction false} Sends(cfg: Config, s0: State, p: nat, answers: nat -> SendResult,
      waits: nat -> WaitEnd, k: nat)
    returns (s: State)
    requires cfg.Valid() && Idle(cfg, s0, p)
    requires GetsTo(cfg.maxAttempts, answers, waits, k)
    ensures With(cfg, s0, s, Fresh(s0, p, Sending, Firsts(answers, k - 1)))
    ensures !s.cancelled && s.parts[p].marked == s0.parts[p].marked
  {
    hide Idle, With, Fresh, TryAgain;
    if k == 1 {
      s := SendsFirst(cfg, s0, p);
      assert Firsts(answers, 0) == [];
    } else {
      s := Sends(cfg, s0, p, answers, waits, k - 1);
      FirstsNext(answers, k - 2);
      assert TryAgain(answers(k - 1));
      s := SendsAgain(cfg, s0, p, s, Firsts(answers, k - 2), answers(k - 1));
    }
  }

  /** The k-th answer is in. */
  lemma Answers(cfg: Config, s0: State, p: nat, answers: nat -> SendResult, waits: nat -> WaitEnd, k: nat)
    returns (s: State)
    requires cfg.Valid() && Idle(cfg, s0, p) && GetsTo(cfg.maxAttempts, answers, waits, k)
    requires answers(k).Error? && answers(k).ctx ==> cfg.mayCtxErr
    ensures With(cfg, s0, s, Fresh(s0, p, AfterSend(cfg.maxAttempts, k, answers(k), 1), Firsts(answers, k)))
    ensures !s.cancelled && s.parts[p].marked == s0.parts[p].marked
  {
    hide Reachable, Handling;
    s := Sends(cfg, s0, p, answers, waits, k);
    FirstsNext(answers, k - 1);
    s := TakeMove(cfg, s0, s, Fresh(s0, p, Sending, Firsts(answers, k - 1)), Return(answers(k), 1));
  }

  /** From its last answer a delivery comes to its end, and its mark, if it closes. */
  lemma Ends(cfg: Config, s0: State, p: nat, s1: State, pc: Pc, results: seq<SendResult>) returns (s: State, e: End)
    requires cfg.Valid() && Idle(cfg, s0, p) && With(cfg, s0, s1, Fresh(s0, p, pc, results))
    requires pc.ReportSent? || pc.ReportFailed? || pc == Releasing(CtxFailed) || pc == Waiting(1)
    ensures With(cfg, s0, s, Fresh(s0, p, Ended(e), results))
    ensures e == match pc
                 case ReportSent => Finished(Delivered)
                 case ReportFailed(kind) => Finished(Dead(kind))
                 case Waiting(_) => CancelledWaiting(1)
                 case _ => CtxFailed
    ensures s.parts[p].marked == if e.Finished? then Max(s1.parts[p].marked, s0.parts[p].next + 1)
                                  else s1.parts[p].marked
  {
    hide Reachable, Handling;
    s := s1;
    if pc.ReportSent? {
      e := Finished(Delivered);
      s := TakeMove(cfg, s0, s, Fresh(s0, p, ReportSent, results), Go);
    } else if pc.ReportFailed? {
      e := Finished(Dead(pc.kind));
      s := TakeMove(cfg, s0, s, Fresh(s0, p, pc, results), Go);
      s := TakeMove(cfg, s0, s, Fresh(s0, p, ReportDlq(pc.kind), results), Go);
    } else if pc.Waiting? {
      e := CancelledWaiting(1);
      s := TakeCancel(cfg, s);
      s := TakeMove(cfg, s0, s, Fresh(s0, p, Waiting(1), results), Cancel);
    } else {
      e := CtxFailed;
    }
    s := Finishes(cfg, s0, p, s, e, results);
  }

  /** The commit, if there is one, and the permit. */
  lemma Finishes(cfg: Config, s0: State, p: nat, s1: State, e: End, results: seq<SendResult>) returns (s: State)
    requires cfg.Valid() && Idle(cfg, s0, p) && (e.Finished? ==> e.final != Rejected)
    requires With(cfg, s0, s1, Fresh(s0, p, if e.Finished? then Committing(e.final) else Releasing(e), results))
    ensures With(cfg, s0, s, Fresh(s0, p, Ended(e), results))
    ensures s.parts[p].marked == if e.Finished? then Max(s1.parts[p].marked, s0.parts[p].next + 1)
                                  else s1.parts[p].marked
  {
    hide Reachable, Handling;
    s := s1;
    if e.Finished? {
      s := TakeMove(cfg, s0, s, Fresh(s0, p, Committing(e.final), results), Go);
    }
    s := TakeMove(cfg, s0, s, Fresh(s0, p, Releasing(e), results), Go);
  }

  /** Every run of the retry loop is carried out by some interleaving, from every state with the claim
      loop and a permit free, with the other deliveries left as they are: whatever the adapter answers
      and however the waits end, the next record of the partition is delivered, goes through exactly
      what the sequential loop does, and its offset is marked exactly when the loop closes it. */
  lemma Realised(cfg: Config, s0: State, p: nat, answers: nat -> SendResult, waits: nat -> WaitEnd) returns (s: State)
    requires cfg.Valid() && Reachable(cfg, s0) && p < |s0.parts| && !Handling(s0.ds, p) && s0.free > 0 && !s0.cancelled
    requires forall k :: answers(k).Error? && answers(k).ctx ==> cfg.mayCtxErr
    requires forall k :: waits(k) != Panicked
    ensures Reachable(cfg, s) && |s.ds| == |s0.ds| + 1 && s.ds[..|s0.ds|] == s0.ds && |s.parts| == |s0.parts|
    ensures s.ds[|s0.ds|].pc.Ended? && s.ds[|s0.ds|].part == p && s.ds[|s0.ds|].offset == s0.parts[p].next
    ensures var o := Run(cfg.maxAttempts, answers, waits, 1);
            && Proj(s.log, |s0.ds|) == RunTrace(o)
            && (o.SentAt? || o.DeadAt? ==>
                  s.parts[p].marked > s0.parts[p].next && s.parts[p].marked >= s0.parts[p].marked)
            && (!o.SentAt? && !o.DeadAt? ==> s.parts[p].marked == s0.parts[p].marked)
  {
    hide Reachable, Handling, Run, RunTrace;
    var o := Run(cfg.maxAttempts, answers, waits, 1);
    var k := RunsTo(cfg.maxAttempts, answers, waits);
    s := Answers(cfg, s0, p, answers, waits, k);
    var results := Firsts(answers, k);
    var pc := AfterSend(cfg.maxAttempts, k, answers(k), 1);
    var e: End;
    s, e := Ends(cfg, s0, p, s, pc, results);
    var n := |s0.ds|;
    assert s.ds[n] == Fresh(s0, p, Ended(e), results);
    assert Agrees(s.ds[n], answers, waits);
    InterleavingRefinesRun(cfg, s, n, answers, waits);
  }

  /** The attempt that ends the run is one the loop gets to; below the budget, with an error to be tried
      again, its wait is cancelled. */
  lemma RunsTo(max: nat, answers: nat -> SendResult, waits: nat -> WaitEnd) returns (k: nat)
    requires max >= 1 && forall k :: waits(k) != Panicked
    ensures GetsTo(max, answers, waits, k)
    ensures TryAgain(answers(k)) && k < max ==> waits(k) == Cancelled
    ensures var o := Run(max, answers, waits, 1);
            o.k == k && (o.SentAt? || o.DeadAt?
                        <==> answers(k).Accepted? || (!answers(k).ctx && (answers(k).permanent || k == max)))
  {
    k := RunEnd(max, answers, waits, 1);
    RunSkips(max, answers, waits, 1, k);
    forall j | 1 <= j < k ensures TryAgain(answers(j)) && waits(j) == Elapsed {
      assert !Settles(max, answers(j), j);
    }
    assert waits(k) != Panicked;
  }

  // ----- deliveries that never start -----

  /** With the context cancelled, a delivery can be refused its permit. */
  lemma CanBeRefused(cfg: Config, s0: State, p: nat) returns (s: State)
    requires cfg.Valid() && Idle(cfg, s0, p)
    ensures With(cfg, s0, s, Fresh(s0, p, Ended(Refused), []).(acquires := 0, releases := 0))
    ensures Proj(s.log, |s0.ds|) == []
  {
    hide Reachable, Handling;
    s := TakeNext(cfg, s0, p);
    s := TakeMove(cfg, s0, s, Fresh(s0, p, Received, []), Admit);
    s := TakeCancel(cfg, s);
    s := TakeMove(cfg, s0, s, Fresh(s0, p, Acquiring, []), Denied);
    ProjIs(cfg, s, |s0.ds|);
  }

  /** And one that has its permit can give it back without doing anything. */
  lemma CanStopEarly(cfg: Config, s0: State, p: nat) returns (s: State)
    requires cfg.Valid() && Idle(cfg, s0, p)
    ensures With(cfg, s0, s, Fresh(s0, p, Ended(CancelledEarly), []))
    ensures Proj(s.log, |s0.ds|) == []
  {
    hide Reachable, Handling;
    s := Spawns(cfg, s0, p);
    s := TakeCancel(cfg, s);
    s := TakeMove(cfg, s0, s, Fresh(s0, p, Spawned, []), Cancel);
    s := TakeMove(cfg, s0, s, Fresh(s0, p, Releasing(CancelledEarly), []), Go);
    ProjIs(cfg, s, |s0.ds|);
  }

  lemma ProjIs(cfg: Config, s: State, i: nat)
    requires cfg.Valid() && Reachable(cfg, s) && i < |s.ds|
    ensures Proj(s.log, i) == TraceOf(s.ds[i])
  {
    InvReachable(cfg, s);
  }

  // ----- all permits at once -----

  /** Any number of deliveries up to the concurrency can hold a permit at the same time. */
  lemma {:induction false} FullHouse(cfg: Config, m: nat) returns (s: State)
    requires cfg.Valid() && m <= cfg.concurrency
    ensures Reachable(cfg, s) && |s.parts| == cfg.partitions && !s.cancelled && s.session == 0
    ensures |s.ds| == m && s.free == cfg.concurrency - m
    ensures forall i :: 0 <= i < m ==> s.ds[i].alive && s.ds[i].pc.Spawned?
  {
    hide Reachable;
    if m == 0 {
      ReachInit(cfg);
      s := Init(cfg);
    } else {
      var s0 := FullHouse(cfg, m - 1);
      s := Spawns(cfg, s0, 0);
    }
  }

  // ----- after a crash -----

  /** A crash or a rebalance opens a session in which nothing is cancelled, and every partition resumes
      at its flushed offset; the log stays. After a crash every permit is free and no claim loop busy. */
  lemma Restarts(cfg: Config, s: State, step: Step)
    requires (step.Crash? || step.Rebalance?) && Apply(cfg, s, step).Some?
    ensures var s' := Apply(cfg, s, step).value;
            && s'.session == s.session + 1 && !s'.cancelled && s'.log == s.log && |s'.parts| == |s.parts|
            && (forall p :: 0 <= p < |s.parts| ==>
                  s'.parts[p].next == s'.parts[p].marked == s'.parts[p].flushed == s.parts[p].flushed)
            && (forall p :: !Handling(s'.ds, p))
            && (step.Crash? ==> s'.free == cfg.concurrency && forall d :: d in s'.ds ==> !d.alive)
            && (step.Rebalance? ==> s'.free == s.free && s'.ds == s.ds)
  {
  }

  /** From every reachable state, a crash later, the first record above a partition's flushed offset can
      be delivered again and go through any run of the loop. */
  lemma Recovers(cfg: Config, s0: State, p: nat, answers: nat -> SendResult, waits: nat -> WaitEnd) returns (s: State)
    requires cfg.Valid() && Reachable(cfg, s0) && p < |s0.parts|
    requires forall k :: answers(k).Error? && answers(k).ctx ==> cfg.mayCtxErr
    requires forall k :: waits(k) != Panicked
    ensures Reachable(cfg, s) && |s.ds| == |s0.ds| + 1 && s.ds[|s0.ds|].part == p
    ensures s.ds[|s0.ds|].offset == s0.parts[p].flushed && s.ds[|s0.ds|].pc.Ended?
    ensures Proj(s.log, |s0.ds|) == RunTrace(Run(cfg.maxAttempts, answers, waits, 1))
  {
    hide Reachable, Handling, Run, RunTrace;
    var s1 := Apply(cfg, s0, Crash).value;
    ReachStep(cfg, s0, Crash);
    Restarts(cfg, s0, Crash);
    s := Realised(cfg, s1, p, answers, waits);
  }

  // ----- what a commit marks and flushes -----

  /** The commit of a delivery of the current session moves its partition's mark to just past its
      offset, never back; the commit of an older session's delivery does so or changes nothing. */
  lemma CommitMarks(cfg: Config, s: State, i: nat, sticks: bool)
    requires cfg.Valid() && Reachable(cfg, s) && i < |s.ds| && s.ds[i].alive
    requires s.ds[i].pc.RejectCommit? || s.ds[i].pc.Committing?
    ensures Apply(cfg, s, Act(i, Go, sticks)).Some? && s.ds[i].part < |s.parts|
    ensures var d, s' := s.ds[i], Apply(cfg, s, Act(i, Go, sticks)).value;
            && s'.log == s.log + [Entry(i, d.part, d.offset, Commit)]
            && |s'.parts| == |s.parts| && (forall p :: 0 <= p < |s.parts| && p != d.part ==> s'.parts[p] == s.parts[p])
            && (d.session != s.session && !sticks ==> s'.parts == s.parts)
            && (d.session == s.session || sticks ==>
                  && s'.parts[d.part].next == s.parts[d.part].next
                  && s'.parts[d.part].marked >= d.offset + 1 && s'.parts[d.part].marked >= s.parts[d.part].marked
                  && s'.parts[d.part].marked in {d.offset + 1, s.parts[d.part].marked})
  {
    InvReachable(cfg, s);
    SessionFacts(cfg, s, i);
  }

  /** With commit-on-success nothing is ever marked and not flushed. */
  lemma {:induction false} AllFlushed(cfg: Config, run: seq<Step>)
    requires cfg.commitOnAck
    ensures Exec(cfg, run).Some? ==>
              forall p :: 0 <= p < |Exec(cfg, run).value.parts| ==>
                Exec(cfg, run).value.parts[p].flushed == Exec(cfg, run).value.parts[p].marked
  {
    if run != [] && Exec(cfg, run).Some? {
      AllFlushed(cfg, run[..|run| - 1]);
      FlushedStep(cfg, Exec(cfg, run[..|run| - 1]).value, run[|run| - 1]);
    }
  }

  lemma FlushedStep(cfg: Config, s: State, step: Step)
    requires cfg.commitOnAck && Apply(cfg, s, step).Some?
    requires forall p :: 0 <= p < |s.parts| ==> s.parts[p].flushed == s.parts[p].marked
    ensures forall p :: 0 <= p < |Apply(cfg, s, step).value.parts| ==>
              Apply(cfg, s, step).value.parts[p].flushed == Apply(cfg, s, step).value.parts[p].marked
  {
    hide Advance, Enabled, Handling;
  }

  /** With commit-on-success flushed equals marked in every partition of every reachable state, so that a
      crash delivers no record below a mark again. Without it, no delivery's move flushes anything. */
  lemma FlushesOnCommitOnly(cfg: Config, s: State, p: nat)
    requires Reachable(cfg, s) && p < |s.parts|
    ensures cfg.commitOnAck ==> s.parts[p].flushed == s.parts[p].marked
    ensures cfg.commitOnAck ==> Apply(cfg, s, Crash).value.parts[p].next == s.parts[p].marked
    ensures !cfg.commitOnAck ==>
              forall i, inp, sticks :: MovesTo(cfg, s, Act(i, inp, sticks)) ==>
                |Apply(cfg, s, Act(i, inp, sticks)).value.parts| == |s.parts|
                && Apply(cfg, s, Act(i, inp, sticks)).value.parts[p].flushed == s.parts[p].flushed
  {
    hide Advance, Enabled, Handling;
    var run :| Exec(cfg, run) == Some(s);
    if cfg.commitOnAck {
      AllFlushed(cfg, run);
    }
  }

  predicate MovesTo(cfg: Config, s: State, step: Step) {
    Apply(cfg, s, step).Some?
  }

  /** The auto-commit flushes the partition's mark, and nothing else. */
  lemma FlushStep(cfg: Config, s: State, p: nat)
    requires p < |s.parts|
    ensures Apply(cfg, s, Flush(p)).Some?
    ensures var s' := Apply(cfg, s, Flush(p)).value;
            && s'.ds == s.ds && s'.log == s.log && s'.free == s.free
            && s'.session == s.session && s'.cancelled == s.cancelled
            && s'.parts == s.parts[p := Partition(s.parts[p].next, s.parts[p].marked, s.parts[p].marked)]
  {
  }
}
