/** What every interleaving guarantees about each delivery, its permit and its commit. */
module Lifecycle {
  import opened Options
  import opened Outcomes
  import opened Machine

  predicate IsFinished(pc: Pc) {
    (pc.Releasing? || pc.Ended?) && pc.end.Finished?
  }

  /** Projected onto one delivery, the shared log of any run is a legal lifecycle cut short
      somewhere, and it is complete exactly when the delivery has finished. */
  lemma EveryInterleavingIsLegal(cfg: Config, s: State, i: nat)
    requires cfg.Valid() && Reachable(cfg, s) && i < |s.ds|
    ensures LegalSoFar(cfg.maxAttempts, Proj(s.log, i))
    ensures Legal(cfg.maxAttempts, Proj(s.log, i)) <==> IsFinished(s.ds[i].pc)
  {
    InvReachable(cfg, s);
    assert DeliveryOk(cfg, s, s.ds[i]);
    TraceIsLegal(cfg.maxAttempts, s.ds[i]);
  }

  lemma TraceIsLegal(max: nat, d: Delivery)
    requires max >= 1 && ResultsOk(max, d)
    ensures LegalSoFar(max, TraceOf(d))
    ensures Legal(max, TraceOf(d)) <==> IsFinished(d.pc)
  {
    var k, t := |d.results|, TraceOf(d);
    if IsFinished(d.pc) {
      FinishedIsLegal(max, d);
    } else {
      var n, tail := Continuation(max, d);
      var whole := if t == [] || t[0] == Failed(0) then REJECT_TRACE else Tries(n) + tail;
      assert Legal(max, whole) && t <= whole;
      if Legal(max, t) {
        var _, _ := LegalCases(max, t);
        TriesAt(n, n);
        assert false;
      }
    }
  }

  lemma FinishedIsLegal(max: nat, d: Delivery)
    requires max >= 1 && ResultsOk(max, d) && IsFinished(d.pc)
    ensures Legal(max, TraceOf(d))
  {
    var k := |d.results|;
    match d.pc.end.final
    case Rejected =>
    case Delivered => assert TraceOf(d) == Tries(k) + [Sent(k), Commit];
    case Dead(kind) => assert TraceOf(d) == Tries(k) + [Failed(k), Dlq(kind, k), Commit];
  }

  /** A way an unfinished delivery could still go on. */
  lemma Continuation(max: nat, d: Delivery) returns (n: nat, tail: seq<Action>)
    requires max >= 1 && ResultsOk(max, d) && !IsFinished(d.pc)
    ensures TraceOf(d) == [] || TraceOf(d)[0] == Failed(0)
            || (1 <= n <= max && Legal(max, Tries(n) + tail) && TraceOf(d) <= Tries(n) + tail)
    ensures TraceOf(d) == [] || TraceOf(d)[0] == Failed(0) ==> TraceOf(d) <= REJECT_TRACE
    ensures TraceOf(d) == [] || TraceOf(d)[|TraceOf(d)| - 1] != Commit
  {
    var k := |d.results|;
    n := if k == 0 || d.pc.Sending? then k + 1 else k;
    tail := [Sent(n), Commit];
    if d.pc.ReportDlq? || (d.pc.Committing? && d.pc.final.Dead?) {
      tail := [Failed(n), Dlq(if d.pc.ReportDlq? then d.pc.kind else d.pc.final.kind, n), Commit];
    }
    assert n <= max ==> Legal(max, Tries(n) + tail);
    TriesPrefix(k, n);
    TriesAt(k, 0);
    TriesAt(k, k);
    TriesAt(n, n);
    assert Tries(n) <= Tries(n) + tail;
  }

  /** Answers and wait endings that a delivery's history is an instance of. */
  ghost predicate Agrees(d: Delivery, answers: nat -> SendResult, waits: nat -> WaitEnd) {
    var k := |d.results|;
    && (forall j :: 1 <= j <= k ==> answers(j) == d.results[j - 1])
    && (forall j :: 1 <= j < k ==> waits(j) == Elapsed)
    && ((d.pc.Announcing? || d.pc.Sending?) && k >= 1 ==> waits(k) == Elapsed)
    && ((d.pc.Releasing? || d.pc.Ended?) && d.pc.end.CancelledWaiting? ==> waits(k) == Cancelled)
  }

  /** However the deliveries interleave, one that passed its context check performs a prefix of
      what the sequential retry loop performs on the same answers, and all of it by the time it
      gives its permit back. */
  lemma InterleavingRefinesRun(cfg: Config, s: State, i: nat, answers: nat -> SendResult, waits: nat -> WaitEnd)
    requires cfg.Valid() && Reachable(cfg, s) && i < |s.ds|
    requires s.ds[i].acquires == 1 && Agrees(s.ds[i], answers, waits)
    ensures var whole := RunTrace(Run(cfg.maxAttempts, answers, waits, 1));
            && Proj(s.log, i) <= whole
            && ((s.ds[i].pc.Releasing? || s.ds[i].pc.Ended?) && !s.ds[i].pc.end.CancelledEarly?
                ==> Proj(s.log, i) == whole)
  {
    InvReachable(cfg, s);
    assert DeliveryOk(cfg, s, s.ds[i]);
    TraceRefinesRun(cfg.maxAttempts, s.ds[i], answers, waits);
  }

  lemma TraceRefinesRun(max: nat, d: Delivery, answers: nat -> SendResult, waits: nat -> WaitEnd)
    requires max >= 1 && ResultsOk(max, d) && PermitsOk(d) && d.acquires == 1 && Agrees(d, answers, waits)
    ensures var whole := RunTrace(Run(max, answers, waits, 1));
            && TraceOf(d) <= whole
            && ((d.pc.Releasing? || d.pc.Ended?) && !d.pc.end.CancelledEarly? ==> TraceOf(d) == whole)
  {
    hide ResultsOk, PermitsOk, Agrees, Run;
    var k := |d.results|;
    if d.pc.Spawned? || ((d.pc.Releasing? || d.pc.Ended?) && d.pc.end.CancelledEarly?) {
    } else if d.pc.Announcing? || d.pc.Sending? || d.pc.Waiting? {
      TriesRefineRun(max, d, answers, waits);
    } else {
      SettledRefinesRun(max, d, answers, waits);
    }
  }

  /** A delivery that is still going round the loop. */
  lemma TriesRefineRun(max: nat, d: Delivery, answers: nat -> SendResult, waits: nat -> WaitEnd)
    requires max >= 1 && ResultsOk(max, d) && Agrees(d, answers, waits)
    requires d.pc.Announcing? || d.pc.Sending? || d.pc.Waiting?
    ensures TraceOf(d) <= RunTrace(Run(max, answers, waits, 1))
  {
    hide RunTrace;
    var k := |d.results|;
    var n := if d.pc.Waiting? then k else k + 1;
    RunPasses(max, d, answers, waits, n);
    RunCovers(max, answers, waits, n);
    TriesPrefix(k, n);
  }

  /** A delivery whose last answer ended the loop, or which was stopped in its wait. */
  lemma SettledRefinesRun(max: nat, d: Delivery, answers: nat -> SendResult, waits: nat -> WaitEnd)
    requires max >= 1 && ResultsOk(max, d) && PermitsOk(d) && d.acquires == 1 && Agrees(d, answers, waits)
    requires !d.pc.Spawned? && !d.pc.Announcing? && !d.pc.Sending? && !d.pc.Waiting?
    requires d.pc.Releasing? || d.pc.Ended? ==> !d.pc.end.CancelledEarly?
    ensures var whole := RunTrace(Run(max, answers, waits, 1));
            && TraceOf(d) <= whole
            && (d.pc.Releasing? || d.pc.Ended? ==> TraceOf(d) == whole)
  {
    hide ResultsOk, PermitsOk, Agrees, Run, RunTrace, TraceOf;
    SettledPlace(max, d);
    SettledRun(max, d, answers, waits);
    SettledTrace(d);
  }

  /** The loop is over for the delivery, and it was admitted and started. */
  predicate LoopOver(d: Delivery) {
    && |d.results| >= 1
    && match d.pc
       case ReportSent => true
       case ReportFailed(_) => true
       case ReportDlq(_) => true
       case Committing(f) => f != Rejected
       case Releasing(e) => e != CancelledEarly && e != Refused && e != Finished(Rejected)
       case Ended(e) => e != CancelledEarly && e != Refused && e != Finished(Rejected)
       case _ => false
  }

  /** The outcome a delivery is bound for once its last answer is in. */
  function BoundFor(d: Delivery): Outcome {
    var k := |d.results|;
    match d.pc
    case ReportSent => SentAt(k)
    case ReportFailed(kind) => DeadAt(k, kind)
    case ReportDlq(kind) => DeadAt(k, kind)
    case Committing(f) => EndOutcome(k, Finished(f))
    case Releasing(e) => EndOutcome(k, e)
    case Ended(e) => EndOutcome(k, e)
    case _ => CutAt(k)
  }

  function EndOutcome(k: nat, e: End): Outcome {
    match e
    case Finished(Delivered) => SentAt(k)
    case Finished(Dead(kind)) => DeadAt(k, kind)
    case CtxFailed => DeferredAt(k)
    case _ => CutAt(k)
  }

  lemma SettledRun(max: nat, d: Delivery, answers: nat -> SendResult, waits: nat -> WaitEnd)
    requires max >= 1 && ResultsOk(max, d) && Agrees(d, answers, waits) && LoopOver(d)
    ensures Run(max, answers, waits, 1) == BoundFor(d)
  {
    RunPasses(max, d, answers, waits, |d.results|);
    assert answers(|d.results|) == d.results[|d.results| - 1];
  }

  lemma SettledTrace(d: Delivery)
    requires LoopOver(d)
    ensures TraceOf(d) <= RunTrace(BoundFor(d))
    ensures d.pc.Releasing? || d.pc.Ended? ==> TraceOf(d) == RunTrace(BoundFor(d))
  {
  }

  /** Past its last answer a delivery has at least one, and was never in the rejection path. */
  lemma SettledPlace(max: nat, d: Delivery)
    requires max >= 1 && ResultsOk(max, d) && PermitsOk(d) && d.acquires == 1
    requires !d.pc.Spawned? && !d.pc.Announcing? && !d.pc.Sending? && !d.pc.Waiting?
    requires d.pc.Releasing? || d.pc.Ended? ==> !d.pc.end.CancelledEarly?
    ensures LoopOver(d)
  {
  }

  lemma RunCovers(max: nat, answers: nat -> SendResult, waits: nat -> WaitEnd, n: nat)
    requires 1 <= n <= max
    ensures Tries(n) <= RunTrace(Run(max, answers, waits, n))
  {
    var o := Run(max, answers, waits, n);
    RunIsAtLeast(max, answers, waits, n);
    TriesPrefix(n, o.k);
    assert Tries(o.k) <= RunTrace(o);
  }

  /** The answers a delivery has got past do not settle its run. */
  lemma RunPasses(max: nat, d: Delivery, answers: nat -> SendResult, waits: nat -> WaitEnd, n: nat)
    requires max >= 1 && ResultsOk(max, d) && Agrees(d, answers, waits)
    requires 1 <= n <= max
    requires n == |d.results| || (n == |d.results| + 1 && (n == 1 || d.pc.Announcing? || d.pc.Sending?))
    ensures Run(max, answers, waits, 1) == Run(max, answers, waits, n)
  {
    forall j | 1 <= j < n
      ensures !Settles(max, answers(j), j) && waits(j) == Elapsed
    {
      assert answers(j) == d.results[j - 1];
    }
    RunSkips(max, answers, waits, 1, n);
  }

  // ----- commits -----

  predicate Terminal(a: Action) {
    a.Sent? || a.Failed?
  }

  lemma {:induction false} ProjIndex(log: seq<Entry>, id: nat, n: nat) returns (j: nat)
    requires n < |Proj(log, id)|
    ensures j < |log| && log[j].id == id && log[j].act == Proj(log, id)[n]
    ensures Proj(log[..j], id) == Proj(log, id)[..n]
  {
    var front := log[..|log| - 1];
    var last := log[|log| - 1];
    if n < |Proj(front, id)| {
      j := ProjIndex(front, id, n);
      assert log[..j] == front[..j];
    } else {
      j := |log| - 1;
    }
  }

  lemma {:induction false} ProjPrefix(log: seq<Entry>, id: nat, j: nat)
    requires j < |log| && log[j].id == id
    ensures Proj(log[..j], id) + [log[j].act] <= Proj(log, id)
  {
    var front := log[..|log| - 1];
    if j < |log| - 1 {
      ProjPrefix(front, id, j);
      assert log[..j] == front[..j];
    }
  }

  /** Position a of the log comes before position b and concerns the same delivery. */
  predicate Before(log: seq<Entry>, a: nat, b: nat) {
    a < b < |log| && log[a].id == log[b].id && log[a].part == log[b].part && log[a].offset == log[b].offset
  }

  /** The log position a of a terminal status, and b of its DLQ record if it failed, before the
      commit at position c of the same delivery. */
  predicate Reported(log: seq<Entry>, a: nat, b: nat, c: nat) {
    && Before(log, a, c) && Terminal(log[a].act)
    && (log[a].act.Failed? ==>
          a < b && Before(log, b, c) && log[b].act.Dlq? && log[b].act.attempts == log[a].act.n)
  }

  /** In every run each commit comes after the terminal status of the same delivery, and after its
      DLQ record when that status is `failed`. */
  lemma CommitFollowsReport(cfg: Config, s: State, c: nat) returns (a: nat, b: nat)
    requires cfg.Valid() && Reachable(cfg, s)
    requires c < |s.log| && s.log[c].act == Commit
    ensures Reported(s.log, a, b, c)
  {
    InvReachable(cfg, s);
    var id := s.log[c].id;
    assert EntryOk(s, s.log[c]);
    EveryInterleavingIsLegal(cfg, s, id);
    var t, pre := Proj(s.log, id), Proj(s.log[..c], id);
    ProjPrefix(s.log, id, c);
    CommitIsLast(cfg.maxAttempts, t, |pre|);
    assert pre == t[..|pre|];
    a := ProjIndex(s.log[..c], id, if t[|pre| - 1].Sent? then |pre| - 1 else |pre| - 2);
    b := 0;
    assert EntryOk(s, s.log[a]);
    if s.log[a].act.Failed? {
      b := ProjIndex(s.log[..c], id, |pre| - 1);
      assert EntryOk(s, s.log[b]);
      ProjLater(s.log[..c], id, a, b);
    }
  }

  /** No delivery commits twice. */
  lemma CommitsOnce(cfg: Config, s: State, c: nat, c': nat)
    requires cfg.Valid() && Reachable(cfg, s)
    requires c < |s.log| && s.log[c].act == Commit
    requires c' < |s.log| && s.log[c'].act == Commit && s.log[c'].id == s.log[c].id
    ensures c == c'
  {
    InvReachable(cfg, s);
    var id := s.log[c].id;
    assert EntryOk(s, s.log[c]);
    EveryInterleavingIsLegal(cfg, s, id);
    ProjPrefix(s.log, id, c);
    ProjPrefix(s.log, id, c');
    CommitIsLast(cfg.maxAttempts, Proj(s.log, id), |Proj(s.log[..c], id)|);
    CommitIsLast(cfg.maxAttempts, Proj(s.log, id), |Proj(s.log[..c'], id)|);
    if c < c' {
      ProjGrows(s.log, id, c, c');
    } else if c' < c {
      ProjGrows(s.log, id, c', c);
    }
  }

  lemma ProjLater(log: seq<Entry>, id: nat, a: nat, b: nat)
    requires a < |log| && b < |log| && log[a].id == id && log[b].id == id
    requires |Proj(log[..a], id)| < |Proj(log[..b], id)|
    ensures a < b
  {
    if b < a {
      ProjGrows(log, id, b, a);
    }
  }

  lemma {:induction false} ProjGrows(log: seq<Entry>, id: nat, a: nat, b: nat)
    requires a < b <= |log| && log[a].id == id
    ensures |Proj(log[..a], id)| < |Proj(log[..b], id)|
    decreases b
  {
    assert log[..b][..b - 1] == log[..b - 1];
    if a < b - 1 {
      ProjGrows(log, id, a, b - 1);
    }
  }

  /** A delivery that took a permit and gave it back without committing had its context done, and
      was stopped before processing began or in a positive backoff, unless the adapter let a
      context error through. */
  lemma EndsWithoutCommit(cfg: Config, s: State, i: nat)
    requires cfg.Valid() && Reachable(cfg, s) && i < |s.ds|
    requires s.ds[i].acquires == 1 && s.ds[i].releases == 1
    ensures s.ds[i].pc.Ended? && (Commit in Proj(s.log, i) <==> s.ds[i].pc.end.Finished?)
    ensures Commit !in Proj(s.log, i) && !cfg.mayCtxErr ==>
              CtxDone(s, s.ds[i])
              && (s.ds[i].pc.end.CancelledEarly? || (s.ds[i].pc.end.CancelledWaiting? && s.ds[i].pc.end.delay > 0))
  {
    var d := s.ds[i];
    InvReachable(cfg, s);
    assert DeliveryOk(cfg, s, d);
    TraceIsLegal(cfg.maxAttempts, d);
    var t := TraceOf(d);
    if Commit in t {
      var j :| 0 <= j < |t| && t[j] == Commit;
      CommitIsLast(cfg.maxAttempts, t, j);
    } else if Legal(cfg.maxAttempts, t) {
      var _, _ := LegalCases(cfg.maxAttempts, t);
      assert false;
    }
  }

  // ----- permits -----

  /** Free permits and permits held by live deliveries always add up to the concurrency; each
      delivery takes and returns at most one; a delivery has returned its permit exactly when it
      was admitted and has ended; and when nothing is running every permit is back. */
  lemma PermitsAreConserved(cfg: Config, s: State)
    requires cfg.Valid() && Reachable(cfg, s)
    ensures 0 <= s.free && s.free + |Holders(s.ds)| == cfg.concurrency
    ensures forall d :: d in s.ds ==>
              && d.releases <= d.acquires <= 1
              && (d.releases == 1 <==> d.pc.Ended? && !d.pc.end.Refused? && d.pc.end != Finished(Rejected))
              && (d.pc.Ended? ==> d.acquires == d.releases)
    ensures (forall d :: d in s.ds && d.alive ==> d.pc.Ended? || InHandler(d.pc)) ==> s.free == cfg.concurrency
  {
    InvReachable(cfg, s);
    forall d | d in s.ds
      ensures PermitsOk(d)
    {
      var i :| 0 <= i < |s.ds| && s.ds[i] == d;
      assert DeliveryOk(cfg, s, s.ds[i]);
    }
    if forall d :: d in s.ds && d.alive ==> d.pc.Ended? || InHandler(d.pc) {
      assert Holders(s.ds) == {};
    }
  }
}
