/** What one delivery of a record may do, seen from outside the worker: the answers an adapter
    can give, the lifecycle actions the engine performs, and the retry loop as a pure function
    from the adapter's answers to an outcome. */
module Outcomes {

  /** An adapter's answer as the engine inspects it: `errors.Is` against the context errors,
      `ErrPermanent` and `ErrTransient`. The three flags are independent. */
  datatype SendResult = Accepted | Error(ctx: bool, permanent: bool, transient: bool)

  datatype FailureType = Permanent | Transient | Validation | Unknown

  /** Calls the engine makes for one record, in the order it makes them. */
  datatype Action =
    | Queued
    | Attempt(n: nat)
    | Sent(n: nat)
    | Failed(n: nat)
    | Dlq(kind: FailureType, attempts: nat)
    | Commit

  /** How a backoff ends: the timer fires, the context is cancelled, or the jitter panics. */
  datatype WaitEnd = Elapsed | Cancelled | Panicked

  datatype Outcome =
    | SentAt(k: nat)
    | DeadAt(k: nat, kind: FailureType)
    | DeferredAt(k: nat)
    | CutAt(k: nat)
    | PanickedAt(k: nat)

  predicate Retryable(r: SendResult) {
    r.Error? && !r.ctx && !r.permanent
  }

  /** The failure type of a final error answer. */
  function KindOf(r: SendResult): FailureType
    requires r.Error?
  {
    if r.permanent then Permanent else if r.transient then Transient else Unknown
  }

  /** The retry loop from attempt `k` on. */
  function Run(max: nat, answers: nat -> SendResult, waits: nat -> WaitEnd, k: nat): Outcome
    requires 1 <= k <= max
    decreases max - k
  {
    var r := answers(k);
    if r.Accepted? then SentAt(k)
    else if r.ctx then DeferredAt(k)
    else if r.permanent then DeadAt(k, Permanent)
    else if k >= max then DeadAt(k, if r.transient then Transient else Unknown)
    else match waits(k)
      case Elapsed => Run(max, answers, waits, k + 1)
      case Cancelled => CutAt(k)
      case Panicked => PanickedAt(k)
  }

  /** `queued` followed by the first k `attempt` events. */
  function Tries(k: nat): seq<Action> {
    if k == 0 then [Queued] else Tries(k - 1) + [Attempt(k)]
  }

  /** Everything an admitted delivery does when its loop ends in `o`. */
  function RunTrace(o: Outcome): seq<Action> {
    Tries(o.k) + match o
      case SentAt(k) => [Sent(k), Commit]
      case DeadAt(k, kind) => [Failed(k), Dlq(kind, k), Commit]
      case _ => []
  }

  const REJECT_TRACE: seq<Action> := [Failed(0), Dlq(Validation, 0), Commit]

  // ----- the loop against a declarative account of which answer decides -----

  /** Answer `r` to attempt `k` ends the loop, whatever comes later. */
  predicate Settles(max: nat, r: SendResult, k: nat) {
    !Retryable(r) || k == max
  }

  /** The outcome a settling answer stands for. */
  function Verdict(r: SendResult, k: nat): Outcome {
    if r.Accepted? then SentAt(k) else if r.ctx then DeferredAt(k) else DeadAt(k, KindOf(r))
  }

  /** k is the attempt that decides: the first settling answer, every wait before it elapsed. */
  predicate DecidedAt(max: nat, answers: nat -> SendResult, waits: nat -> WaitEnd, k: nat) {
    && 1 <= k <= max
    && Settles(max, answers(k), k)
    && forall j :: 1 <= j < k ==> !Settles(max, answers(j), j) && waits(j) == Elapsed
  }

  /** k is the attempt after which the loop is stopped while it waits. */
  predicate StoppedAt(max: nat, answers: nat -> SendResult, waits: nat -> WaitEnd, k: nat) {
    && 1 <= k < max
    && waits(k) != Elapsed
    && !Settles(max, answers(k), k)
    && forall j :: 1 <= j < k ==> !Settles(max, answers(j), j) && waits(j) == Elapsed
  }

  /** Retryable answers with elapsed waits are skipped over. */
  lemma {:induction false} RunSkips(max: nat, answers: nat -> SendResult, waits: nat -> WaitEnd, i: nat, k: nat)
    requires 1 <= i <= k <= max
    requires forall j :: i <= j < k ==> !Settles(max, answers(j), j) && waits(j) == Elapsed
    ensures Run(max, answers, waits, i) == Run(max, answers, waits, k)
    decreases k - i
  {
    if i < k {
      assert !Settles(max, answers(i), i) && waits(i) == Elapsed;
      RunSkips(max, answers, waits, i + 1, k);
    }
  }

  lemma {:induction false} RunIsAtLeast(max: nat, answers: nat -> SendResult, waits: nat -> WaitEnd, n: nat)
    requires 1 <= n <= max
    ensures n <= Run(max, answers, waits, n).k <= max
    decreases max - n
  {
    if n < max {
      RunIsAtLeast(max, answers, waits, n + 1);
    }
  }

  /** The first settling answer within the budget decides; failing that, the first wait that
      does not elapse stops the loop. Exactly one of the two happens. */
  lemma RunDecides(max: nat, answers: nat -> SendResult, waits: nat -> WaitEnd)
    requires 1 <= max
    ensures forall k: nat :: DecidedAt(max, answers, waits, k)
                         <==> Run(max, answers, waits, 1) == Verdict(answers(k), k)
                              && 1 <= k <= max
    ensures forall k: nat :: StoppedAt(max, answers, waits, k)
                         <==> Run(max, answers, waits, 1) in {CutAt(k), PanickedAt(k)}
    ensures exists k: nat :: DecidedAt(max, answers, waits, k) || StoppedAt(max, answers, waits, k)
  {
    var k := RunEnd(max, answers, waits, 1);
    RunSkips(max, answers, waits, 1, k);
    forall k': nat | DecidedAt(max, answers, waits, k') || StoppedAt(max, answers, waits, k')
      ensures k' == k
    {
      EndIsUnique(max, answers, waits, k, k');
    }
  }

  lemma EndIsUnique(max: nat, answers: nat -> SendResult, waits: nat -> WaitEnd, k: nat, k': nat)
    requires DecidedAt(max, answers, waits, k) || StoppedAt(max, answers, waits, k)
    requires DecidedAt(max, answers, waits, k') || StoppedAt(max, answers, waits, k')
    ensures k == k'
  {
  }

  /** The attempt at which the loop started at `i` ends. */
  lemma {:induction false} RunEnd(max: nat, answers: nat -> SendResult, waits: nat -> WaitEnd, i: nat)
    returns (k: nat)
    requires 1 <= i <= max
    requires forall j :: 1 <= j < i ==> !Settles(max, answers(j), j) && waits(j) == Elapsed
    ensures DecidedAt(max, answers, waits, k) || StoppedAt(max, answers, waits, k)
    decreases max - i
  {
    if Settles(max, answers(i), i) || waits(i) != Elapsed {
      k := i;
    } else {
      k := RunEnd(max, answers, waits, i + 1);
    }
  }

  // ----- the outcome, answer by answer -----

  /** An error that is neither a context error nor permanent. */
  predicate TryAgain(r: SendResult) {
    r.Error? && !r.ctx && !r.permanent
  }

  /** The loop gets to its k-th send. */
  ghost predicate GetsTo(max: nat, answers: nat -> SendResult, waits: nat -> WaitEnd, k: nat) {
    1 <= k <= max && forall j :: 1 <= j < k ==> TryAgain(answers(j)) && waits(j) == Elapsed
  }

  /** What becomes of the record, over all answers: which attempt ends the loop, and what the answer to
      that attempt, the budget and the wait after it make of it. */
  lemma RunOutcomes(max: nat, answers: nat -> SendResult, waits: nat -> WaitEnd, k: nat)
    requires max >= 1
    ensures var o := Run(max, answers, waits, 1);
            var r := answers(k);
            var here := GetsTo(max, answers, waits, k);
            && (o == SentAt(k) <==> here && r.Accepted?)
            && (o == DeferredAt(k) <==> here && r.Error? && r.ctx)
            && (o == DeadAt(k, Permanent) <==> here && r.Error? && !r.ctx && r.permanent)
            && (o == DeadAt(k, Transient) <==> here && k == max && TryAgain(r) && r.transient)
            && (o == DeadAt(k, Unknown) <==> here && k == max && TryAgain(r) && !r.transient)
            && (o == CutAt(k) <==> here && k < max && TryAgain(r) && waits(k) == Cancelled)
            && (o == PanickedAt(k) <==> here && k < max && TryAgain(r) && waits(k) == Panicked)
            && o != DeadAt(k, Validation)
  {
    var end := RunEnd(max, answers, waits, 1);
    RunSkips(max, answers, waits, 1, end);
    forall j | 1 <= j < end ensures TryAgain(answers(j)) && waits(j) == Elapsed {
      assert !Settles(max, answers(j), j);
    }
    if GetsTo(max, answers, waits, k) {
      RunSkips(max, answers, waits, 1, k);
    }
  }

  /** A permanent error ends the record at its attempt, if the loop gets there; an error to be tried
      again, below the budget and with its wait elapsed, does not. */
  lemma AnswerDecides(max: nat, answers: nat -> SendResult, waits: nat -> WaitEnd, k: nat)
    requires 1 <= k <= max
    ensures var o := Run(max, answers, waits, 1);
            var r := answers(k);
            && 1 <= o.k <= max
            && (r.Error? && !r.ctx && r.permanent ==> o.k <= k && (o.k == k ==> o == DeadAt(k, Permanent)))
            && (TryAgain(r) && k < max && waits(k) == Elapsed ==> o.k != k)
  {
    RunOutcomes(max, answers, waits, k);
    var end := RunEnd(max, answers, waits, 1);
    RunSkips(max, answers, waits, 1, end);
    if end > k {
      assert !Settles(max, answers(k), k);
    }
  }

  // ----- the shape of a legal lifecycle, independent of the loop -----

  /** A complete lifecycle: a rejection, or `queued`, attempts 1..k and one terminal report, then
      the commit. Only a permanent error may end the record before the budget is spent. */
  ghost predicate Legal(max: nat, t: seq<Action>) {
    || t == REJECT_TRACE
    || (exists k :: 1 <= k <= max && t == Tries(k) + [Sent(k), Commit])
    || (exists k, kind :: 1 <= k <= max && kind != Validation && (kind != Permanent ==> k == max)
                       && t == Tries(k) + [Failed(k), Dlq(kind, k), Commit])
  }

  ghost predicate LegalSoFar(max: nat, t: seq<Action>) {
    exists whole :: Legal(max, whole) && t <= whole
  }

  lemma {:induction false} TriesPrefix(i: nat, k: nat)
    requires i <= k
    ensures Tries(i) <= Tries(k)
    ensures |Tries(k)| == k + 1
    decreases k
  {
    if i < k {
      TriesPrefix(i, k - 1);
    } else if k > 0 {
      TriesPrefix(k - 1, k - 1);
    }
  }

  lemma {:induction false} TriesAt(k: nat, j: nat)
    requires j <= k
    ensures |Tries(k)| == k + 1
    ensures Tries(k)[j] == if j == 0 then Queued else Attempt(j)
  {
    if k > 0 {
      TriesPrefix(k - 1, k - 1);
      if j < k {
        TriesAt(k - 1, j);
      }
    }
  }

  /** The two ways an admitted lifecycle can close after k attempts. */
  predicate Closing(k: nat, tail: seq<Action>) {
    || tail == [Sent(k), Commit]
    || (|tail| == 3 && tail[0] == Failed(k) && tail[1].Dlq? && tail[1].attempts == k && tail[2] == Commit)
  }

  /** Facts about a commit at position i: it is last, the DLQ record (unless the status is
      `sent`) and before it the terminal status precede it, and no other status is terminal. */
  predicate CommitCloses(t: seq<Action>, i: nat) {
    && i == |t| - 1 && i >= 2
    && (t[i - 1].Sent? || (t[i - 1].Dlq? && t[i - 2].Failed? && t[i - 2].n == t[i - 1].attempts))
    && forall j :: 0 <= j < |t| && (t[j].Sent? || t[j].Failed?) ==> j == if t[i - 1].Sent? then i - 1 else i - 2
  }

  lemma ClosedTries(k: nat, tail: seq<Action>, i: nat)
    requires k >= 1 && Closing(k, tail)
    requires i < |Tries(k) + tail| && (Tries(k) + tail)[i] == Commit
    ensures CommitCloses(Tries(k) + tail, i)
  {
    forall j: nat | j <= k
      ensures |Tries(k)| == k + 1 && (Tries(k)[j].Queued? || Tries(k)[j].Attempt?)
    {
      TriesAt(k, j);
    }
    TriesAt(k, 0);
  }

  lemma LegalCases(max: nat, t: seq<Action>) returns (k: nat, tail: seq<Action>)
    requires Legal(max, t)
    ensures t != REJECT_TRACE ==> k >= 1 && Closing(k, tail) && t == Tries(k) + tail
    ensures |t| >= 1 && t[|t| - 1] == Commit
  {
    k, tail := 0, [];
    if t != REJECT_TRACE {
      if n: nat :| 1 <= n <= max && t == Tries(n) + [Sent(n), Commit] {
        k, tail := n, [Sent(n), Commit];
      } else {
        var n: nat, kind :| 1 <= n <= max && t == Tries(n) + [Failed(n), Dlq(kind, n), Commit];
        k, tail := n, [Failed(n), Dlq(kind, n), Commit];
      }
    }
  }

  /** In a legal lifecycle, complete or not, a commit can only be the last action, after the
      terminal status and the DLQ record that goes with a failure. */
  lemma CommitIsLast(max: nat, t: seq<Action>, i: nat)
    requires LegalSoFar(max, t)
    requires i < |t| && t[i] == Commit
    ensures Legal(max, t) && CommitCloses(t, i)
  {
    var whole: seq<Action> :| Legal(max, whole) && t <= whole;
    var k, tail := LegalCases(max, whole);
    assert whole[i] == Commit;
    if whole != REJECT_TRACE {
      ClosedTries(k, tail, i);
    } else {
      assert whole[2] == Commit && whole[1] == Dlq(Validation, 0) && whole[0] == Failed(0);
      assert i == 2;
    }
    assert CommitCloses(whole, i);
    assert t == whole;
  }

  /** Whatever the adapter and the waits do, an admitted delivery stays inside a legal lifecycle,
      and completes it exactly when the outcome is `sent` or dead-lettered. */
  lemma RunIsLegal(max: nat, answers: nat -> SendResult, waits: nat -> WaitEnd)
    requires 1 <= max
    ensures var o := Run(max, answers, waits, 1);
            LegalSoFar(max, RunTrace(o)) && (Legal(max, RunTrace(o)) <==> o.SentAt? || o.DeadAt?)
  {
    var o := Run(max, answers, waits, 1);
    RunDecides(max, answers, waits);
    var k := RunEnd(max, answers, waits, 1);
    RunSkips(max, answers, waits, 1, k);
    assert o.k == k;
    if o.SentAt? || o.DeadAt? {
      assert Legal(max, RunTrace(o));
    } else {
      var whole := Tries(k) + [Sent(k), Commit];
      assert Legal(max, whole) && RunTrace(o) <= whole;
      TriesAt(k, k);
      if Legal(max, RunTrace(o)) {
        var _, _ := LegalCases(max, RunTrace(o));
        assert false;
      }
    }
  }
}
