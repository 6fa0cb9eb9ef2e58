/** If deliveries finish in offset order, nothing below a watermark is unhandled: the claim loop hands
    offsets out without gaps, and a session resumes where the one before it had flushed. */
module FinishOrder {
  import opened Options
  import opened Outcomes
  import opened Machine
  import opened Lifecycle
  import opened Offsets

  /** i is an earlier delivery of the same claim as d: same session, same partition, lower offset. */
  predicate EarlierInClaim(i: Delivery, d: Delivery) {
    i.session == d.session && i.part == d.part && i.offset < d.offset
  }

  /** Deliveries finish in offset order: whenever one commits, the earlier ones of its claim have
      committed before. */
  ghost predicate FinishInOrder(s: State) {
    forall c: nat, i: nat :: c < |s.log| && s.log[c].act == Commit && s.log[c].id < |s.ds| && i < |s.ds|
                             && EarlierInClaim(s.ds[i], s.ds[s.log[c].id])
      ==> Committed(s.log[..c], s.ds[i].part, s.ds[i].offset)
  }

  /** Offset o of partition p was handed out in this session. */
  ghost predicate HandedOut(s: State, session: nat, p: nat, o: nat) {
    exists i: nat :: i < |s.ds| && s.ds[i].session == session && s.ds[i].part == p && s.ds[i].offset == o
  }

  ghost predicate Covered(s: State, session: nat, p: nat, o: nat) {
    Handled(s.log, p, o) || HandedOut(s, session, p, o)
  }

  /** Below a delivery, and below the next offset of a partition, every offset was handed out in the
      same session or is handled. */
  ghost predicate NoGaps(s: State) {
    && (forall i: nat, o: nat :: i < |s.ds| && o < s.ds[i].offset ==> Covered(s, s.ds[i].session, s.ds[i].part, o))
    && (forall p: nat, o: nat :: p < |s.parts| && o < s.parts[p].next ==> Covered(s, s.session, p, o))
  }

  /** What later states keep of earlier ones. */
  ghost predicate Extends(s: State, s': State) {
    && |s.ds| <= |s'.ds| && s.log <= s'.log
    && forall i :: 0 <= i < |s.ds| ==>
         s'.ds[i].session == s.ds[i].session && s'.ds[i].part == s.ds[i].part && s'.ds[i].offset == s.ds[i].offset
  }

  lemma StepExtends(cfg: Config, s: State, step: Step)
    requires Apply(cfg, s, step).Some?
    ensures Extends(s, Apply(cfg, s, step).value)
  {
    hide Handling, Enabled;
  }

  /** The hypothesis passes back to the states before. */
  lemma OrderBefore(s: State, s': State)
    requires Extends(s, s') && FinishInOrder(s')
    ensures FinishInOrder(s)
  {
    hide Committed;
    forall c: nat, i: nat | c < |s.log| && s.log[c].act == Commit && s.log[c].id < |s.ds| && i < |s.ds|
                            && EarlierInClaim(s.ds[i], s.ds[s.log[c].id])
      ensures Committed(s.log[..c], s.ds[i].part, s.ds[i].offset)
    {
      assert s'.log[c] == s.log[c] && s'.log[..c] == s.log[..c];
      assert EarlierInClaim(s'.ds[i], s'.ds[s'.log[c].id]);
    }
  }

  lemma CoveredGrows(s: State, s': State, session: nat, p: nat, o: nat)
    requires Extends(s, s') && Covered(s, session, p, o)
    ensures Covered(s', session, p, o)
  {
    if Handled(s.log, p, o) {
      var j: nat :| j < |s.log| && s.log[j].part == p && s.log[j].offset == o && Terminal(s.log[j].act);
      assert s'.log[j] == s.log[j];
    } else {
      var i: nat :| i < |s.ds| && s.ds[i].session == session && s.ds[i].part == p && s.ds[i].offset == o;
      assert s'.ds[i].session == session;
    }
  }

  lemma HandledInPrefix(log: seq<Entry>, c: nat, p: nat, o: nat)
    requires c <= |log| && Handled(log[..c], p, o)
    ensures Handled(log, p, o)
  {
    var j: nat :| j < c && log[..c][j].part == p && log[..c][j].offset == o && Terminal(log[..c][j].act);
    assert log[j] == log[..c][j];
  }

  /** Where a step leaves the next offsets: moved on by a delivery, or back to the flushed ones. */
  lemma NextAfter(cfg: Config, s: State, step: Step, p: nat)
    requires Apply(cfg, s, step).Some? && p < |s.parts|
    ensures |Apply(cfg, s, step).value.parts| == |s.parts|
    ensures NextIs(s, Apply(cfg, s, step).value, step, p)
    ensures step.Deliver? ==> step.p < |s.parts| && NewDelivery(s, Apply(cfg, s, step).value, step.p)
  {
  }

  predicate NextIs(s: State, s': State, step: Step, p: nat)
    requires p < |s.parts| && |s'.parts| == |s.parts|
  {
    if step.Crash? || step.Rebalance? then s'.parts[p].next == s.parts[p].flushed
    else
      && s'.session == s.session
      && s'.parts[p].next == s.parts[p].next + if step == Deliver(p) then 1 else 0
  }

  predicate NewDelivery(s: State, s': State, p: nat)
    requires p < |s.parts|
  {
    var n := |s.ds|;
    |s'.ds| == n + 1 && s'.ds[n].session == s.session && s'.ds[n].part == p && s'.ds[n].offset == s.parts[p].next
  }

  lemma GapsStep(cfg: Config, s: State, step: Step)
    requires Inv(cfg, s) && NoGaps(s) && WatermarkSafe(s) && Apply(cfg, s, step).Some?
    ensures NoGaps(Apply(cfg, s, step).value)
  {
    hide Inv, Apply, Covered, Handled;
    var s' := Apply(cfg, s, step).value;
    StepExtends(cfg, s, step);
    FlushedBelowMarked(cfg, s);
    forall i: nat, o: nat | i < |s'.ds| && o < s'.ds[i].offset
      ensures Covered(s', s'.ds[i].session, s'.ds[i].part, o)
    {
      PartsOf(cfg, s, step);
      if i < |s.ds| {
        CoveredGrows(s, s', s.ds[i].session, s.ds[i].part, o);
      } else {
        NextAfter(cfg, s, step, step.p);
        CoveredGrows(s, s', s.session, step.p, o);
      }
    }
    forall p: nat, o: nat | p < |s'.parts| && o < s'.parts[p].next
      ensures Covered(s', s'.session, p, o)
    {
      PartsOf(cfg, s, step);
      NextAfter(cfg, s, step, p);
      if step.Crash? || step.Rebalance? {
        HandledIsCovered(s, s'.session, p, o);
        CoveredGrows(s, s', s'.session, p, o);
      } else if o < s.parts[p].next {
        CoveredGrows(s, s', s.session, p, o);
      } else {
        JustHandedOut(s', |s.ds|);
      }
    }
  }

  lemma HandledIsCovered(s: State, session: nat, p: nat, o: nat)
    requires Handled(s.log, p, o)
    ensures Covered(s, session, p, o)
  {
  }

  lemma JustHandedOut(s: State, i: nat)
    requires i < |s.ds|
    ensures Covered(s, s.ds[i].session, s.ds[i].part, s.ds[i].offset)
  {
  }

  lemma FlushedBelowMarked(cfg: Config, s: State)
    requires Inv(cfg, s)
    ensures forall p :: 0 <= p < |s.parts| ==> s.parts[p].flushed <= s.parts[p].marked
  {
  }

  lemma PartsOf(cfg: Config, s: State, step: Step)
    requires Apply(cfg, s, step).Some?
    ensures |Apply(cfg, s, step).value.parts| == |s.parts|
    ensures |Apply(cfg, s, step).value.ds| > |s.ds| ==> step.Deliver? && step.p < |s.parts|
  {
  }

  /** Where a step leaves the marks: as they were, back at the flushed offset, or just past the offset
      that the step commits. */
  lemma MarkAfter(cfg: Config, s: State, step: Step, p: nat)
    requires Apply(cfg, s, step).Some? && p < |s.parts| && s.parts[p].flushed <= s.parts[p].marked
    ensures var s' := Apply(cfg, s, step).value;
            && |s'.parts| == |s.parts|
            && (s'.parts[p].marked > s.parts[p].marked ==>
                  && |s'.log| == |s.log| + 1 && s'.log[|s.log|].id < |s.ds|
                  && s'.log[|s.log|].act == Commit && s'.log[|s.log|].part == p
                  && s'.log[|s.log|].offset + 1 == s'.parts[p].marked)
  {
  }

  lemma SafeStep(cfg: Config, s: State, step: Step)
    requires cfg.Valid() && Reachable(cfg, s) && NoGaps(s) && WatermarkSafe(s) && Apply(cfg, s, step).Some?
    requires FinishInOrder(Apply(cfg, s, step).value)
    ensures WatermarkSafe(Apply(cfg, s, step).value)
  {
    hide Inv, Apply, Reachable, Covered, Handled, Committed;
    var s' := Apply(cfg, s, step).value;
    InvReachable(cfg, s);
    FlushedBelowMarked(cfg, s);
    StepExtends(cfg, s, step);
    ReachStep(cfg, s, step);
    PartsOf(cfg, s, step);
    forall p: nat, o: nat | p < |s'.parts| && o < s'.parts[p].marked
      ensures Handled(s'.log, p, o)
    {
      MarkAfter(cfg, s, step, p);
      if o < s.parts[p].marked {
        assert s'.log[..|s.log|] == s.log;
        HandledInPrefix(s'.log, |s.log|, p, o);
      } else {
        CommittedBelow(cfg, s, s', o);
      }
    }
  }

  /** A commit at the end of the log, under the hypothesis: its offset is handled, and so is every
      lower one. */
  lemma CommittedBelow(cfg: Config, s: State, s': State, o: nat)
    requires cfg.Valid() && Reachable(cfg, s) && Reachable(cfg, s') && NoGaps(s) && Extends(s, s') && FinishInOrder(s')
    requires |s'.log| == |s.log| + 1 && s'.log[|s.log|].act == Commit && s'.log[|s.log|].id < |s.ds|
    requires o <= s'.log[|s.log|].offset
    ensures Handled(s'.log, s'.log[|s.log|].part, o)
  {
    hide Inv, Reachable, Handled, Committed;
    var c := |s.log|;
    var e := s'.log[c];
    InvReachable(cfg, s');
    EntryOf(cfg, s', c);
    assert s'.log[..c] == s.log && s'.log == s.log + [e];
    if o == e.offset {
      JustCommitted(s.log, e);
      CommittedIsHandled(cfg, s', e.part, o);
    } else {
      assert Covered(s, s.ds[e.id].session, e.part, o);
      if HandedOut(s, s.ds[e.id].session, e.part, o) {
        var i: nat :| i < |s.ds| && s.ds[i].session == s.ds[e.id].session
            && s.ds[i].part == e.part && s.ds[i].offset == o;
        assert EarlierInClaim(s'.ds[i], s'.ds[e.id]);
        CommittedIsHandled(cfg, s, e.part, o);
      }
      assert Handled(s.log, e.part, o);
      HandledInPrefix(s'.log, c, e.part, o);
    }
  }

  lemma EntryOf(cfg: Config, s: State, c: nat)
    requires Inv(cfg, s) && c < |s.log|
    ensures EntryOk(s, s.log[c])
  {
  }

  lemma {:induction false} InOrderRun(cfg: Config, run: seq<Step>)
    requires cfg.Valid() && Exec(cfg, run).Some? && FinishInOrder(Exec(cfg, run).value)
    ensures NoGaps(Exec(cfg, run).value) && WatermarkSafe(Exec(cfg, run).value)
  {
    hide Apply, NoGaps, WatermarkSafe, FinishInOrder, Extends, Inv;
    if run == [] {
      StartsSafe(cfg);
    } else {
      var front, step := run[..|run| - 1], run[|run| - 1];
      var s := Exec(cfg, front).value;
      StepExtends(cfg, s, step);
      OrderBefore(s, Apply(cfg, s, step).value);
      InOrderRun(cfg, front);
      assert Reachable(cfg, s);
      InvReachable(cfg, s);
      GapsStep(cfg, s, step);
      SafeStep(cfg, s, step);
    }
  }

  lemma StartsSafe(cfg: Config)
    ensures NoGaps(Init(cfg)) && WatermarkSafe(Init(cfg))
  {
  }

  /** If deliveries finish in offset order, every offset below the watermark has an outcome. */
  lemma InOrderIsSafe(cfg: Config, s: State)
    requires cfg.Valid() && Reachable(cfg, s) && FinishInOrder(s)
    ensures WatermarkSafe(s)
  {
    var run :| Exec(cfg, run) == Some(s);
    InOrderRun(cfg, run);
  }
}
