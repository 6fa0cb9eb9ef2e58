/** Which records a crash or rebalance may skip: the committed offsets of the transition system
    against the records that really reached an outcome. */
module Offsets {
  import opened Options
  import opened Outcomes
  import opened Machine
  import opened Lifecycle

  /** The record at offset o of partition p has been reported `sent` or `failed`. */
  ghost predicate Handled(log: seq<Entry>, p: nat, o: nat) {
    exists j: nat :: j < |log| && log[j].part == p && log[j].offset == o && Terminal(log[j].act)
  }

  ghost predicate Committed(log: seq<Entry>, p: nat, o: nat) {
    exists j: nat :: j < |log| && log[j].part == p && log[j].offset == o && log[j].act == Commit
  }

  /** Nothing below the watermark is unhandled, so nothing unhandled is ever skipped. */
  ghost predicate WatermarkSafe(s: State) {
    forall p: nat, o: nat :: p < |s.parts| && o < s.parts[p].marked ==> Handled(s.log, p, o)
  }

  lemma HandledGrows(log: seq<Entry>, e: Entry, p: nat, o: nat)
    requires Handled(log, p, o)
    ensures Handled(log + [e], p, o)
  {
    var j: nat :| j < |log| && log[j].part == p && log[j].offset == o && Terminal(log[j].act);
    assert (log + [e])[j] == log[j];
  }

  // ----- the watermark of any run -----

  /** Both watermarks of a partition rest just past a committed record. */
  ghost predicate MarkCommitted(s: State, p: nat)
    requires p < |s.parts|
  {
    && s.parts[p].flushed <= s.parts[p].marked
    && (s.parts[p].marked > 0 ==> Committed(s.log, p, s.parts[p].marked - 1))
    && (s.parts[p].flushed > 0 ==> Committed(s.log, p, s.parts[p].flushed - 1))
  }

  ghost predicate MarksCommitted(s: State) {
    forall p: nat :: p < |s.parts| ==> MarkCommitted(s, p)
  }

  lemma CommittedGrows(log: seq<Entry>, e: Entry, p: nat, o: nat)
    requires Committed(log, p, o)
    ensures Committed(log + [e], p, o)
  {
    var j: nat :| j < |log| && log[j].part == p && log[j].offset == o && log[j].act == Commit;
    assert (log + [e])[j] == log[j];
  }

  lemma MarksGrow(s: State, e: Entry, p: nat)
    requires p < |s.parts| && MarkCommitted(s, p)
    ensures s.parts[p].marked > 0 ==> Committed(s.log + [e], p, s.parts[p].marked - 1)
    ensures s.parts[p].flushed > 0 ==> Committed(s.log + [e], p, s.parts[p].flushed - 1)
  {
    if s.parts[p].marked > 0 {
      CommittedGrows(s.log, e, p, s.parts[p].marked - 1);
    }
    if s.parts[p].flushed > 0 {
      CommittedGrows(s.log, e, p, s.parts[p].flushed - 1);
    }
  }

  /** A move leaves a partition alone, or marks it for the commit it makes. */
  lemma MoveMarks(cfg: Config, s: State, i: nat, e: Option<Effect>, sticks: bool, p: nat)
    requires i < |s.ds| && e.Some? && p < |s.parts|
    ensures var s' := Move(cfg, s, i, e, sticks).value;
            && |s'.parts| == |s.parts|
            && s'.log == (if e.value.emit.Some?
                          then s.log + [Entry(i, s.ds[i].part, s.ds[i].offset, e.value.emit.value)] else s.log)
            && (s'.parts[p] == s.parts[p]
                || (e.value.emit == Some(Commit) && p == s.ds[i].part
                    && s'.parts[p] == Mark(cfg.commitOnAck, s.parts[p], s.ds[i].offset)))
  {
    hide PermitDelta, Mark;
  }

  lemma MarksMove(cfg: Config, s: State, i: nat, e: Option<Effect>, sticks: bool)
    requires MarksCommitted(s) && i < |s.ds| && e.Some?
    ensures MarksCommitted(Move(cfg, s, i, e, sticks).value)
  {
    hide Committed, Move;
    MovePartsSame(cfg, s, i, e, sticks);
    var d, s' := s.ds[i], Move(cfg, s, i, e, sticks).value;
    forall p: nat | p < |s'.parts|
      ensures MarkCommitted(s', p)
    {
      assert MarkCommitted(s, p);
      MoveMarks(cfg, s, i, e, sticks, p);
      if e.value.emit.Some? {
        var entry := Entry(i, d.part, d.offset, e.value.emit.value);
        MarksGrow(s, entry, p);
        if entry.act == Commit {
          JustCommitted(s.log, entry);
        }
      }
    }
  }

  lemma MovePartsSame(cfg: Config, s: State, i: nat, e: Option<Effect>, sticks: bool)
    requires i < |s.ds| && e.Some?
    ensures Move(cfg, s, i, e, sticks).Some?
    ensures |Move(cfg, s, i, e, sticks).value.parts| == |s.parts|
  {
    hide PermitDelta, Mark;
  }

  lemma JustCommitted(log: seq<Entry>, e: Entry)
    requires e.act == Commit
    ensures Committed(log + [e], e.part, e.offset)
  {
    assert (log + [e])[|log|] == e;
  }

  lemma MarksStep(cfg: Config, s: State, step: Step)
    requires MarksCommitted(s) && Apply(cfg, s, step).Some?
    ensures MarksCommitted(Apply(cfg, s, step).value)
  {
    if step.Act? {
      hide Advance, Enabled, Move;
      MarksMove(cfg, s, step.i, Advance(cfg.maxAttempts, s.ds[step.i], step.inp), step.sticks);
    } else {
      var s' := Apply(cfg, s, step).value;
      forall p: nat | p < |s'.parts| ensures MarkCommitted(s', p) {
        assert MarkCommitted(s, p);
      }
    }
  }

  lemma {:induction false} MarksRun(cfg: Config, run: seq<Step>)
    ensures Exec(cfg, run).Some? ==> MarksCommitted(Exec(cfg, run).value)
  {
    if run != [] && Exec(cfg, run).Some? {
      MarksRun(cfg, run[..|run| - 1]);
      MarksStep(cfg, Exec(cfg, run[..|run| - 1]).value, run[|run| - 1]);
    }
  }

  lemma CommittedIsHandled(cfg: Config, s: State, p: nat, o: nat)
    requires cfg.Valid() && Reachable(cfg, s) && Committed(s.log, p, o)
    ensures Handled(s.log, p, o)
  {
    var c: nat :| c < |s.log| && s.log[c].part == p && s.log[c].offset == o && s.log[c].act == Commit;
    var a, _ := CommitFollowsReport(cfg, s, c);
    assert Terminal(s.log[a].act);
  }

  /** Whatever happens, the record just below a watermark, marked or flushed, has reached its
      outcome. */
  lemma WatermarkRestsOnHandled(cfg: Config, s: State, p: nat)
    requires cfg.Valid() && Reachable(cfg, s) && p < |s.parts|
    ensures s.parts[p].flushed <= s.parts[p].marked
    ensures s.parts[p].marked > 0 ==> Handled(s.log, p, s.parts[p].marked - 1)
    ensures s.parts[p].flushed > 0 ==> Handled(s.log, p, s.parts[p].flushed - 1)
  {
    var run :| Exec(cfg, run) == Some(s);
    MarksRun(cfg, run);
    assert MarkCommitted(s, p);
    if s.parts[p].marked > 0 {
      CommittedIsHandled(cfg, s, p, s.parts[p].marked - 1);
    }
    if s.parts[p].flushed > 0 {
      CommittedIsHandled(cfg, s, p, s.parts[p].flushed - 1);
    }
  }

  lemma CommitHandlesNothing(log: seq<Entry>, e: Entry, p: nat, o: nat)
    requires e.act == Commit
    ensures Handled(log + [e], p, o) <==> Handled(log, p, o)
  {
    if Handled(log, p, o) {
      HandledGrows(log, e, p, o);
    }
  }

  /** A commit that counts keeps a safe state safe exactly when every offset it jumps over has
      already been handled. */
  lemma CommitKeepsSafe(cfg: Config, s: State, i: nat)
    requires cfg.Valid() && Reachable(cfg, s) && WatermarkSafe(s)
    requires i < |s.ds| && s.ds[i].alive && (s.ds[i].pc.RejectCommit? || s.ds[i].pc.Committing?)
    ensures Apply(cfg, s, Act(i, Go, true)).Some? && s.ds[i].part < |s.parts|
    ensures WatermarkSafe(Apply(cfg, s, Act(i, Go, true)).value)
       <==> forall o: nat :: s.parts[s.ds[i].part].marked <= o < s.ds[i].offset ==> Handled(s.log, s.ds[i].part, o)
  {
    hide Inv, Reachable, Handled;
    InvReachable(cfg, s);
    var d := s.ds[i];
    SessionFacts(cfg, s, i);
    var s' := Apply(cfg, s, Act(i, Go, true)).value;
    var e := Entry(i, d.part, d.offset, Commit);
    assert s'.log == s.log + [e];
    ReachStep(cfg, s, Act(i, Go, true));
    assert s'.log[|s.log|] == e;
    assert Committed(s'.log, d.part, d.offset);
    CommittedIsHandled(cfg, s', d.part, d.offset);
    forall p: nat, o: nat
      ensures Handled(s'.log, p, o) <==> Handled(s.log, p, o)
    {
      CommitHandlesNothing(s.log, e, p, o);
    }
    assert s'.parts[d.part].marked == Max(s.parts[d.part].marked, d.offset + 1);
    assert forall p: nat :: p < |s.parts| && p != d.part ==> s'.parts[p] == s.parts[p];
  }

  // ----- the configurations in which every run is safe -----

  /** One permit, no rejections, and no context errors from the adapter. */
  predicate Serial(cfg: Config) {
    cfg.concurrency == 1 && !cfg.mayReject && !cfg.validatorChecksCtx && !cfg.mayCtxErr
  }

  predicate Running(pc: Pc) {
    HoldsPermit(pc) && !pc.Spawned? && !pc.Releasing?
  }

  /** A delivery of the current session is still working on the record. */
  ghost predicate Pending(s: State, p: nat, o: nat) {
    exists i: nat :: i < |s.ds| && s.ds[i].session == s.session && s.ds[i].part == p && s.ds[i].offset == o
                     && !s.ds[i].pc.Ended?
  }

  predicate NeverRejected(d: Delivery) {
    && !d.pc.RejectDlq? && !d.pc.RejectCommit? && d.pc != Committing(Rejected)
    && (d.pc.Releasing? || d.pc.Ended? ==> d.pc.end != Finished(Rejected))
  }

  /** Everything below a running delivery is handled. */
  ghost predicate RunsAboveHandled(s: State, d: Delivery) {
    d.alive && Running(d.pc) ==> forall o: nat :: o < d.offset ==> Handled(s.log, d.part, o)
  }

  ghost predicate SerialInv(cfg: Config, s: State) {
    && WatermarkSafe(s)
    && (forall i :: 0 <= i < |s.ds| ==> NeverRejected(s.ds[i]) && RunsAboveHandled(s, s.ds[i]))
    && (!s.cancelled ==>
          forall p: nat, o: nat :: p < |s.parts| && o < s.parts[p].next ==> Handled(s.log, p, o) || Pending(s, p, o))
  }

  /** With a single permit, whatever the current session delivered below a delivery that is about
      to start has been handled: nobody else holds the permit, and the claim loop is past it. */
  lemma StartsAboveHandled(cfg: Config, s: State, i: nat, o: nat)
    requires cfg.Valid() && Serial(cfg) && Inv(cfg, s) && SerialInv(cfg, s)
    requires i < |s.ds| && s.ds[i].alive && s.ds[i].pc.Spawned? && !CtxDone(s, s.ds[i])
    requires o < s.ds[i].offset
    ensures Handled(s.log, s.ds[i].part, o)
  {
    SessionFacts(cfg, s, i);
    if !Handled(s.log, s.ds[i].part, o) {
      var i': nat :| i' < |s.ds| && s.ds[i'].session == s.session && s.ds[i'].part == s.ds[i].part
                     && s.ds[i'].offset == o && !s.ds[i'].pc.Ended?;
      SessionFacts(cfg, s, i');
      AtLeastTwo(Holders(s.ds), i, i');
      assert false;
    }
  }

  /** How a delivery of the current session lies in its partition. */
  lemma SessionFacts(cfg: Config, s: State, i: nat)
    requires Inv(cfg, s) && i < |s.ds|
    ensures var d := s.ds[i];
            && d.part < |s.parts| && d.session <= s.session
            && (d.session == s.session ==> d.alive && d.offset < s.parts[d.part].next)
            && (d.alive && InHandler(d.pc) ==> d.offset + 1 == s.parts[d.part].next)
  {
    assert DeliveryOk(cfg, s, s.ds[i]);
  }

  lemma AtLeastTwo(S: set<nat>, a: nat, b: nat)
    requires a in S && b in S && a != b
    ensures |S| >= 2
  {
    assert S == {a} + (S - {a});
    assert b in S - {a};
  }

  /** The offset of a delivery that ends in an uncancelled current session is handled. */
  lemma FinishedIsHandled(cfg: Config, s: State, i: nat)
    requires cfg.Valid() && Inv(cfg, s) && !cfg.mayCtxErr
    requires i < |s.ds|
    requires (s.ds[i].pc.Ended? && !CtxDone(s, s.ds[i])) || s.ds[i].pc.Committing?
    ensures Handled(s.log, s.ds[i].part, s.ds[i].offset)
  {
    var d := s.ds[i];
    assert DeliveryOk(cfg, s, d);
    var t := Proj(s.log, i);
    assert t == TraceOf(d);
    var n := TerminalIn(cfg.maxAttempts, d);
    var j := ProjIndex(s.log, i, n);
    assert EntryOk(s, s.log[j]);
  }

  lemma TerminalIn(max: nat, d: Delivery) returns (n: nat)
    requires ResultsOk(max, d)
    requires (d.pc.Ended? && d.pc.end.Finished?) || d.pc.Committing?
    ensures n < |TraceOf(d)| && Terminal(TraceOf(d)[n])
  {
    n := if d.pc.Ended? && d.pc.end.final.Rejected? then 0 else |Tries(|d.results|)|;
  }

  /** A move leaves what is handled handled. */
  lemma MoveKeepsHandled(cfg: Config, s: State, i: nat, inp: Input, sticks: bool, p: nat, o: nat)
    requires Apply(cfg, s, Act(i, inp, sticks)).Some?
    requires Handled(s.log, p, o)
    ensures Handled(Apply(cfg, s, Act(i, inp, sticks)).value.log, p, o)
  {
    var s' := Apply(cfg, s, Act(i, inp, sticks)).value;
    if |s'.log| > |s.log| {
      HandledGrows(s.log, s'.log[|s.log|], p, o);
    }
  }

  /** In a serial configuration a delivery is never rejected, and starts running only from its
      context check. */
  lemma AdvanceSerially(cfg: Config, s: State, d: Delivery, inp: Input)
    requires Serial(cfg) && NeverRejected(d)
    requires Enabled(cfg, s, d, inp) && Advance(cfg.maxAttempts, d, inp).Some?
    ensures var d' := Advance(cfg.maxAttempts, d, inp).value.d;
            && NeverRejected(d')
            && (Running(d'.pc) ==> Running(d.pc) || (d.pc.Spawned? && !CtxDone(s, d)))
            && d'.alive == d.alive && d'.offset == d.offset && d'.part == d.part
  {
  }

  lemma SerialMoveDeliveries(cfg: Config, s: State, i: nat, inp: Input, sticks: bool, j: nat)
    requires cfg.Valid() && Serial(cfg) && Inv(cfg, s) && SerialInv(cfg, s)
    requires Apply(cfg, s, Act(i, inp, sticks)).Some? && j < |s.ds|
    ensures var s' := Apply(cfg, s, Act(i, inp, sticks)).value;
            NeverRejected(s'.ds[j]) && RunsAboveHandled(s', s'.ds[j])
  {
    hide Inv, WatermarkSafe, Pending, Handled, Advance, Enabled, NeverRejected, Running;
    var s' := Apply(cfg, s, Act(i, inp, sticks)).value;
    assert NeverRejected(s.ds[i]) && NeverRejected(s.ds[j]) && RunsAboveHandled(s, s.ds[j]);
    AdvanceSerially(cfg, s, s.ds[i], inp);
    if s'.ds[j].alive && Running(s'.ds[j].pc) {
      forall o: nat | o < s'.ds[j].offset
        ensures Handled(s'.log, s'.ds[j].part, o)
      {
        if !Running(s.ds[j].pc) {
          StartsAboveHandled(cfg, s, i, o);
        }
        MoveKeepsHandled(cfg, s, i, inp, sticks, s.ds[j].part, o);
      }
    }
  }

  lemma RunningAbove(s: State, i: nat, o: nat)
    requires i < |s.ds| && s.ds[i].alive && s.ds[i].pc.Committing? && RunsAboveHandled(s, s.ds[i])
    requires o < s.ds[i].offset
    ensures Handled(s.log, s.ds[i].part, o)
  {
  }

  lemma AdvanceCommits(cfg: Config, d: Delivery, inp: Input)
    requires NeverRejected(d) && Advance(cfg.maxAttempts, d, inp).Some?
    requires Advance(cfg.maxAttempts, d, inp).value.emit == Some(Commit)
    ensures d.pc.Committing?
  {
  }

  lemma SerialMoveSafe(cfg: Config, s: State, i: nat, inp: Input, sticks: bool)
    requires cfg.Valid() && Serial(cfg) && Inv(cfg, s) && SerialInv(cfg, s)
    requires Apply(cfg, s, Act(i, inp, sticks)).Some?
    ensures WatermarkSafe(Apply(cfg, s, Act(i, inp, sticks)).value)
  {
    hide Inv, Handled, Pending, Advance, NeverRejected, RunsAboveHandled;
    var s' := Apply(cfg, s, Act(i, inp, sticks)).value;
    assert NeverRejected(s.ds[i]) && RunsAboveHandled(s, s.ds[i]);
    forall p: nat, o: nat | p < |s'.parts| && o < s'.parts[p].marked
      ensures Handled(s'.log, p, o)
    {
      if o >= s.parts[p].marked {
        AdvanceCommits(cfg, s.ds[i], inp);
        assert s.ds[i].pc.Committing? && p == s.ds[i].part && o <= s.ds[i].offset;
        FinishedIsHandled(cfg, s, i);
        if o < s.ds[i].offset {
          RunningAbove(s, i, o);
        }
      }
      MoveKeepsHandled(cfg, s, i, inp, sticks, p, o);
    }
  }

  lemma SerialMove(cfg: Config, s: State, i: nat, inp: Input, sticks: bool)
    requires cfg.Valid() && Serial(cfg) && Inv(cfg, s) && SerialInv(cfg, s)
    requires Apply(cfg, s, Act(i, inp, sticks)).Some?
    ensures SerialInv(cfg, Apply(cfg, s, Act(i, inp, sticks)).value)
  {
    var s' := Apply(cfg, s, Act(i, inp, sticks)).value;
    InvMove(cfg, s, i, inp, sticks);
    SerialMoveSafe(cfg, s, i, inp, sticks);
    forall j: nat | j < |s'.ds|
      ensures NeverRejected(s'.ds[j]) && RunsAboveHandled(s', s'.ds[j])
    {
      SerialMoveDeliveries(cfg, s, i, inp, sticks, j);
    }
    MoveShape(cfg, s, i, inp, sticks);
    forall p: nat, o: nat | !s'.cancelled && p < |s'.parts| && o < s'.parts[p].next
      ensures Handled(s'.log, p, o) || Pending(s', p, o)
    {
      if Handled(s.log, p, o) {
        MoveKeepsHandled(cfg, s, i, inp, sticks, p, o);
      }
      PendingMove(cfg, s, s', i, p, o);
    }
  }

  /** What a move cannot change. */
  lemma MoveShape(cfg: Config, s: State, i: nat, inp: Input, sticks: bool)
    requires Apply(cfg, s, Act(i, inp, sticks)).Some?
    ensures var s' := Apply(cfg, s, Act(i, inp, sticks)).value;
            && |s'.ds| == |s.ds| && (forall j :: 0 <= j < |s.ds| && j != i ==> s'.ds[j] == s.ds[j])
            && s'.ds[i].part == s.ds[i].part && s'.ds[i].offset == s.ds[i].offset
            && s'.ds[i].session == s.ds[i].session
            && s'.session == s.session && s'.cancelled == s.cancelled && |s'.parts| == |s.parts|
            && forall p :: 0 <= p < |s.parts| ==> s'.parts[p].next == s.parts[p].next
  {
  }

  /** A record still being worked on either stays so or has just been handled. */
  lemma PendingMove(cfg: Config, s: State, s': State, i: nat, p: nat, o: nat)
    requires cfg.Valid() && !cfg.mayCtxErr && Inv(cfg, s')
    requires i < |s.ds| && |s'.ds| == |s.ds| && (forall j :: 0 <= j < |s.ds| && j != i ==> s'.ds[j] == s.ds[j])
    requires s'.ds[i].part == s.ds[i].part && s'.ds[i].offset == s.ds[i].offset && s'.ds[i].session == s.ds[i].session
    requires s'.session == s.session && !s'.cancelled
    requires Handled(s.log, p, o) ==> Handled(s'.log, p, o)
    requires Handled(s.log, p, o) || Pending(s, p, o)
    ensures Handled(s'.log, p, o) || Pending(s', p, o)
  {
    if !Handled(s'.log, p, o) {
      var j: nat :| j < |s.ds| && s.ds[j].session == s.session && s.ds[j].part == p && s.ds[j].offset == o
                    && !s.ds[j].pc.Ended?;
      if s'.ds[j].pc.Ended? {
        FinishedIsHandled(cfg, s', j);
      }
    }
  }

  lemma SerialStep(cfg: Config, s: State, step: Step)
    requires cfg.Valid() && Serial(cfg) && Inv(cfg, s) && SerialInv(cfg, s)
    requires Apply(cfg, s, step).Some?
    ensures SerialInv(cfg, Apply(cfg, s, step).value)
  {
    var s' := Apply(cfg, s, step).value;
    if step.Act? {
      SerialMove(cfg, s, step.i, step.inp, step.sticks);
    } else {
      assert s'.log == s.log;
      forall j | 0 <= j < |s'.ds|
        ensures NeverRejected(s'.ds[j]) && RunsAboveHandled(s', s'.ds[j])
      {
        assert j < |s.ds| ==> NeverRejected(s.ds[j]) && RunsAboveHandled(s, s.ds[j]);
      }
      forall p: nat, o: nat | !s'.cancelled && p < |s'.parts| && o < s'.parts[p].next
        ensures Handled(s'.log, p, o) || Pending(s', p, o)
      {
        if step.Deliver? && o == s.parts[p].next {
          assert s'.ds[|s.ds|].offset == o;
        } else if (step.Deliver? || step.Flush?) && !Handled(s.log, p, o) {
          var j: nat :| j < |s.ds| && s.ds[j].session == s.session && s.ds[j].part == p && s.ds[j].offset == o
                        && !s.ds[j].pc.Ended?;
          assert s'.ds[j] == s.ds[j];
        }
      }
    }
  }

  lemma {:induction false} SerialRun(cfg: Config, run: seq<Step>)
    requires cfg.Valid() && Serial(cfg)
    ensures Exec(cfg, run).Some? ==> SerialInv(cfg, Exec(cfg, run).value)
  {
    if run != [] && Exec(cfg, run).Some? {
      SerialRun(cfg, run[..|run| - 1]);
      InvRun(cfg, run[..|run| - 1]);
      SerialStep(cfg, Exec(cfg, run[..|run| - 1]).value, run[|run| - 1]);
    }
  }

  // ----- and the runs that lose a record in every other configuration -----

  lemma TakeAct(cfg: Config, s: State, i: nat, inp: Input) returns (s': State)
    requires Reachable(cfg, s) && i < |s.ds| && s.ds[i].alive && Enabled(cfg, s, s.ds[i], inp)
    requires Advance(cfg.maxAttempts, s.ds[i], inp).Some?
    ensures Reachable(cfg, s')
    ensures Move(cfg, s, i, Advance(cfg.maxAttempts, s.ds[i], inp), true) == Some(s')
  {
    s' := Apply(cfg, s, Act(i, inp, true)).value;
    ReachStep(cfg, s, Act(i, inp, true));
  }

  /** Partition 0 hands its next record to the claim loop. */
  lemma TakeDeliver(cfg: Config, s: State) returns (s': State)
    requires Reachable(cfg, s) && |s.parts| > 0 && !Handling(s.ds, 0)
    ensures Reachable(cfg, s')
    ensures s' == s.(ds := s.ds + [Delivery(0, s.parts[0].next, s.session, true, Received, [], 0, 0)],
                     parts := s.parts[0 := s.parts[0].(next := s.parts[0].next + 1)])
  {
    s' := Apply(cfg, s, Deliver(0)).value;
    ReachStep(cfg, s, Deliver(0));
  }

  lemma TakeCancel(cfg: Config, s: State) returns (s': State)
    requires Reachable(cfg, s)
    ensures Reachable(cfg, s') && s' == s.(cancelled := true)
  {
    s' := Apply(cfg, s, CancelSession).value;
    ReachStep(cfg, s, CancelSession);
  }

  /** The first record of partition 0 holds a permit and has not been reported. */
  lemma FirstSpawned(cfg: Config) returns (s: State)
    requires cfg.Valid()
    ensures Reachable(cfg, s) && |s.parts| == cfg.partitions && s.parts[0] == Partition(1, 0, 0)
    ensures s.ds == [Delivery(0, 0, 0, true, Spawned, [], 1, 0)] && s.log == []
    ensures s.free == cfg.concurrency - 1 && s.session == 0 && !s.cancelled
  {
    hide Apply, Reachable;
    ReachInit(cfg);
    s := TakeDeliver(cfg, Init(cfg));
    s := TakeAct(cfg, s, 0, Admit);
    s := TakeAct(cfg, s, 0, Granted);
  }

  /** States in which record 1 can overtake the unreported record 0. */
  ghost predicate Behind(cfg: Config, s: State) {
    && Reachable(cfg, s) && |s.parts| == cfg.partitions && |s.parts| > 0
    && s.parts[0].next == 1 && s.parts[0].marked == 0
    && |s.ds| == 1 && !(s.ds[0].alive && InHandler(s.ds[0].pc)) && s.session == 0
    && forall j :: 0 <= j < |s.log| ==> !Terminal(s.log[j].act)
  }

  /** Record 1 is admitted past record 0. */
  lemma SecondSpawned(cfg: Config, s0: State) returns (s: State)
    requires cfg.Valid() && Behind(cfg, s0) && s0.free > 0 && !s0.cancelled
    ensures Reachable(cfg, s) && s.session == 0 && !s.cancelled && s.log == s0.log
    ensures |s.parts| == cfg.partitions && s.parts[0].marked == 0
    ensures |s.ds| == 2 && s.ds[1] == Delivery(0, 1, 0, true, Spawned, [], 1, 0)
  {
    hide Apply, Reachable;
    s := TakeDeliver(cfg, s0);
    s := TakeAct(cfg, s, 1, Admit);
    s := TakeAct(cfg, s, 1, Granted);
  }

  lemma SecondSending(cfg: Config, s0: State) returns (s: State)
    requires cfg.Valid() && Behind(cfg, s0) && s0.free > 0 && !s0.cancelled
    ensures Reachable(cfg, s) && s.session == 0 && |s.parts| == cfg.partitions && s.parts[0].marked == 0
    ensures s.log == s0.log + [Entry(1, 0, 1, Queued), Entry(1, 0, 1, Attempt(1))]
    ensures |s.ds| == 2 && s.ds[1] == Delivery(0, 1, 0, true, Sending, [], 1, 0)
  {
    hide Apply, Reachable, Handling;
    s := SecondSpawned(cfg, s0);
    s := TakeAct(cfg, s, 1, Go);
    s := TakeAct(cfg, s, 1, Go);
  }

  lemma SecondReporting(cfg: Config, s0: State) returns (s: State)
    requires cfg.Valid() && Behind(cfg, s0) && s0.free > 0 && !s0.cancelled
    ensures Reachable(cfg, s) && s.session == 0 && |s.parts| == cfg.partitions && s.parts[0].marked == 0
    ensures s.log == s0.log + [Entry(1, 0, 1, Queued), Entry(1, 0, 1, Attempt(1))]
    ensures |s.ds| == 2 && s.ds[1] == Delivery(0, 1, 0, true, ReportSent, [Accepted], 1, 0)
  {
    hide Apply, Reachable, Handling;
    s := SecondSending(cfg, s0);
    s := TakeAct(cfg, s, 1, Return(Accepted, 0));
  }

  /** Record 1 is sent and committed; record 0 is now below the watermark with no outcome. */
  lemma OvertakeBySending(cfg: Config, s0: State) returns (s: State)
    requires cfg.Valid() && Behind(cfg, s0) && s0.free > 0 && !s0.cancelled
    ensures Reachable(cfg, s) && !WatermarkSafe(s)
  {
    hide Apply, Reachable;
    s := SecondReporting(cfg, s0);
    s := TakeAct(cfg, s, 1, Go);
    assert s.log == s0.log + [Entry(1, 0, 1, Queued), Entry(1, 0, 1, Attempt(1)), Entry(1, 0, 1, Sent(1))];
    s := TakeAct(cfg, s, 1, Go);
    assert s.log == s0.log + [Entry(1, 0, 1, Queued), Entry(1, 0, 1, Attempt(1)),
                            Entry(1, 0, 1, Sent(1)), Entry(1, 0, 1, Commit)];
    assert s.parts[0].marked == 2;
    assert !Handled(s.log, 0, 0);
  }

  /** Record 1 is rejected and committed from the claim loop, past record 0. */
  lemma OvertakeByRejecting(cfg: Config, s0: State) returns (s: State)
    requires cfg.Valid() && Behind(cfg, s0)
    requires cfg.mayReject || (cfg.validatorChecksCtx && s0.cancelled)
    ensures Reachable(cfg, s) && !WatermarkSafe(s)
  {
    hide Apply, Reachable;
    s := TakeDeliver(cfg, s0);
    s := TakeAct(cfg, s, 1, Reject);
    s := TakeAct(cfg, s, 1, Go);
    s := TakeAct(cfg, s, 1, Go);
    assert s.parts[0].marked == 2;
    assert !Handled(s.log, 0, 0);
  }

  lemma FirstSending(cfg: Config) returns (s: State)
    requires cfg.Valid()
    ensures Reachable(cfg, s) && |s.parts| == cfg.partitions && s.parts[0] == Partition(1, 0, 0)
    ensures s.ds == [Delivery(0, 0, 0, true, Sending, [], 1, 0)]
    ensures s.log == [Entry(0, 0, 0, Queued), Entry(0, 0, 0, Attempt(1))]
    ensures s.free == cfg.concurrency - 1 && s.session == 0 && !s.cancelled
  {
    hide Apply, Reachable, Handling;
    s := FirstSpawned(cfg);
    s := TakeAct(cfg, s, 0, Go);
    s := TakeAct(cfg, s, 0, Go);
  }

  /** Record 0 gives its permit back unreported after a context error from the adapter. */
  lemma FirstDeferred(cfg: Config) returns (s: State)
    requires cfg.Valid() && cfg.mayCtxErr
    ensures Behind(cfg, s) && s.free > 0 && !s.cancelled
  {
    hide Apply, Reachable, Handling;
    s := FirstSending(cfg);
    s := TakeAct(cfg, s, 0, Return(Error(true, false, false), 0));
    s := TakeAct(cfg, s, 0, Go);
  }

  /** Each way of not being serial has a run that commits past an unhandled record. */
  lemma UnsafeRun(cfg: Config) returns (s: State)
    requires cfg.Valid() && !Serial(cfg)
    ensures Reachable(cfg, s) && !WatermarkSafe(s)
  {
    s := FirstSpawned(cfg);
    if cfg.mayReject {
      s := OvertakeByRejecting(cfg, s);
    } else if cfg.concurrency > 1 {
      s := OvertakeBySending(cfg, s);
    } else if cfg.validatorChecksCtx {
      s := TakeCancel(cfg, s);
      s := OvertakeByRejecting(cfg, s);
    } else {
      s := FirstDeferred(cfg);
      s := OvertakeBySending(cfg, s);
    }
  }

  /** Every run keeps every offset below the watermark handled if and only if the worker has one
      permit, no record is ever rejected, the validator ignores the context, and the adapter
      never lets a context error through. */
  lemma SafeIffSerial(cfg: Config)
    requires cfg.Valid()
    ensures (forall s :: Reachable(cfg, s) ==> WatermarkSafe(s)) <==> Serial(cfg)
  {
    if Serial(cfg) {
      forall s | Reachable(cfg, s)
        ensures WatermarkSafe(s)
      {
        var run :| Exec(cfg, run) == Some(s);
        SerialRun(cfg, run);
      }
    } else {
      var s := UnsafeRun(cfg);
    }
  }

  /** In a serial configuration a crash or rebalance redelivers every record of the partition
      that has no outcome yet. */
  lemma RedeliversUnhandled(cfg: Config, s: State, step: Step, p: nat, o: nat)
    requires cfg.Valid() && Serial(cfg) && Reachable(cfg, s)
    requires step.Crash? || step.Rebalance?
    requires Apply(cfg, s, step).Some? && p < |s.parts| && !Handled(s.log, p, o)
    ensures Apply(cfg, s, step).value.parts[p].next <= o
  {
    SafeIffSerial(cfg);
    WatermarkRestsOnHandled(cfg, s, p);
    assert WatermarkSafe(s);
  }
}
