/** The interleaved worker over the shipped adapters, whose errors all carry exactly one sentinel and
    hide every context error. */
module Composed {
  import opened Options
  import opened Outcomes
  import opened Machine
  import opened Lifecycle
  import opened Adapters

  /** Every answer any delivery has had so far is one of a shipped adapter's kind. */
  ghost predicate AllClassified(s: State) {
    forall i, j :: 0 <= i < |s.ds| && 0 <= j < |s.ds[i].results| ==> Classified(s.ds[i].results[j])
  }

  predicate IsUnknown(a: Action) {
    a.Dlq? && a.kind == Unknown
  }

  predicate LastClassified(d: Delivery) {
    d.results != [] ==> Classified(d.results[|d.results| - 1])
  }

  /** What a delivery has done names no unknown failure. */
  lemma TraceKnowsFailures(max: nat, d: Delivery, n: nat)
    requires ResultsOk(max, d) && LastClassified(d) && n < |TraceOf(d)|
    ensures !IsUnknown(TraceOf(d)[n])
  {
    var k := |d.results|;
    if n <= k {
      TriesAt(k, n);
    } else {
      TriesAt(k + 1, if n <= k + 1 then n else 0);
      TriesAt(k, 0);
    }
  }

  /** In no interleaving does such a worker write an `unknown` DLQ record. */
  lemma NeverUnknown(cfg: Config, s: State, j: nat)
    requires cfg.Valid() && Reachable(cfg, s) && AllClassified(s) && j < |s.log|
    ensures !IsUnknown(s.log[j].act)
  {
    hide ResultsOk, TraceOf, IsUnknown, Reachable;
    InvReachable(cfg, s);
    assert EntryOk(s, s.log[j]);
    var i := s.log[j].id;
    var d := s.ds[i];
    assert DeliveryOk(cfg, s, d) && Proj(s.log, i) == TraceOf(d);
    assert LastClassified(d);
    ProjPrefix(s.log, i, j);
    TraceKnowsFailures(cfg.maxAttempts, d, |Proj(s.log[..j], i)|);
  }

  /** In every interleaving, a delivery that gave its permit back without committing had its context
      done, and was stopped before processing began or in a positive backoff. */
  lemma OnlyCancelledGoUncommitted(cfg: Config, s: State, i: nat)
    requires cfg.Valid() && Reachable(cfg, s) && AllClassified(s) && i < |s.ds|
    requires s.ds[i].acquires == 1 && s.ds[i].releases == 1 && Commit !in Proj(s.log, i)
    ensures s.ds[i].pc.Ended? && CtxDone(s, s.ds[i])
    ensures s.ds[i].pc.end.CancelledEarly? || (s.ds[i].pc.end.CancelledWaiting? && s.ds[i].pc.end.delay > 0)
  {
    var d := s.ds[i];
    InvReachable(cfg, s);
    EndsWithoutCommit(cfg, s, i);
    assert DeliveryOk(cfg, s, d);
    assert LastClassified(d);
  }
}
