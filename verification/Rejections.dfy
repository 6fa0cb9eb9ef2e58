/** When a record can be dead-lettered as a validation failure: the configurations in which it never
    happens, and the run that rejects a good record once the context is done. */
module Rejections {
  import opened Options
  import opened Outcomes
  import opened Machine
  import opened Lifecycle
  import opened Offsets

  predicate IsRejection(a: Action) {
    a.Dlq? && a.kind == Validation
  }

  /** No validation record has been written to the dead-letter queue. */
  ghost predicate NoRejections(s: State) {
    forall j :: 0 <= j < |s.log| ==> !IsRejection(s.log[j].act)
  }

  /** Every record is well formed and the validator ignores the context. */
  predicate NeverRejects(cfg: Config) {
    !cfg.mayReject && !cfg.validatorChecksCtx
  }

  lemma RejectionStep(cfg: Config, s: State, step: Step)
    requires NeverRejects(cfg) && Apply(cfg, s, step).Some?
    requires forall d :: d in s.ds ==> NeverRejected(d)
    ensures forall d :: d in Apply(cfg, s, step).value.ds ==> NeverRejected(d)
  {
    var s' := Apply(cfg, s, step).value;
    forall i | 0 <= i < |s'.ds| ensures NeverRejected(s'.ds[i]) {
      if i < |s.ds| {
        assert s.ds[i] in s.ds;
      }
    }
  }

  lemma {:induction false} RejectionRun(cfg: Config, run: seq<Step>)
    requires NeverRejects(cfg)
    ensures Exec(cfg, run).Some? ==> forall d :: d in Exec(cfg, run).value.ds ==> NeverRejected(d)
  {
    hide Apply, NeverRejected;
    if run != [] && Exec(cfg, run).Some? {
      RejectionRun(cfg, run[..|run| - 1]);
      RejectionStep(cfg, Exec(cfg, run[..|run| - 1]).value, run[|run| - 1]);
    }
  }

  /** A delivery that was not rejected has written no validation record. */
  lemma TraceRejectsNothing(max: nat, d: Delivery, n: nat)
    requires ResultsOk(max, d) && NeverRejected(d) && n < |TraceOf(d)|
    ensures !IsRejection(TraceOf(d)[n])
  {
    var k := |d.results|;
    if n <= k {
      TriesAt(k, n);
    } else {
      TriesAt(k + 1, if n <= k + 1 then n else 0);
      TriesAt(k, 0);
    }
  }

  lemma LogRejectsNothing(cfg: Config, s: State)
    requires Inv(cfg, s) && forall d :: d in s.ds ==> NeverRejected(d)
    ensures NoRejections(s)
  {
    hide NeverRejected, ResultsOk, TraceOf, IsRejection;
    forall j: nat | j < |s.log| ensures !IsRejection(s.log[j].act) {
      assert EntryOk(s, s.log[j]);
      var i := s.log[j].id;
      assert DeliveryOk(cfg, s, s.ds[i]) && s.ds[i] in s.ds && Proj(s.log, i) == TraceOf(s.ds[i]);
      ProjPrefix(s.log, i, j);
      TraceRejectsNothing(cfg.maxAttempts, s.ds[i], |Proj(s.log[..j], i)|);
    }
  }

  /** The first record is delivered, fails validation, is dead-lettered and committed: because some
      records do, or, with only good records, because the context was cancelled before. */
  lemma RejectedRun(cfg: Config) returns (s: State)
    requires cfg.Valid() && !NeverRejects(cfg)
    ensures Reachable(cfg, s) && |s.parts| == cfg.partitions && s.parts[0].marked == 1
    ensures s.log == [Entry(0, 0, 0, Failed(0)), Entry(0, 0, 0, Dlq(Validation, 0)), Entry(0, 0, 0, Commit)]
    ensures !cfg.mayReject ==> s.cancelled
  {
    hide Apply, Reachable, Handling;
    ReachInit(cfg);
    s := Init(cfg);
    assert !Handling(s.ds, 0) by { NothingHandled(0); }
    s := TakeDeliver(cfg, s);
    if !cfg.mayReject {
      s := TakeCancel(cfg, s);
    }
    s := TakeAct(cfg, s, 0, Reject);
    s := TakeAct(cfg, s, 0, Go);
    s := TakeAct(cfg, s, 0, Go);
  }

  lemma NothingHandled(p: nat)
    ensures !Handling([], p)
  {
  }

  /** No run ever dead-letters a record as a validation failure if and only if no record is oversized
      or invalid and the validator does not look at the context. In particular, with a validator that
      does, cancellation alone dead-letters and commits a good record. */
  lemma RejectsIff(cfg: Config)
    requires cfg.Valid()
    ensures (forall s :: Reachable(cfg, s) ==> NoRejections(s)) <==> !cfg.mayReject && !cfg.validatorChecksCtx
  {
    if NeverRejects(cfg) {
      forall s | Reachable(cfg, s) ensures NoRejections(s) {
        var run :| Exec(cfg, run) == Some(s);
        RejectionRun(cfg, run);
        InvReachable(cfg, s);
        LogRejectsNothing(cfg, s);
      }
    } else {
      var s := RejectedRun(cfg);
      assert IsRejection(s.log[1].act);
    }
  }
}
