/** The Twilio recipient loop, which SMS and WhatsApp share: it stops at the first recipient that
    fails, and a retry starts again from the first recipient. */
module Twilio {
  import opened Text
  import opened Outcomes
  import opened Options
  import opened Adapters

  /** `bodyCode` stands for the error code in the response body. */
  datatype Result = Result(sid: string, status: string, httpStatus: int)

  /** What `sendSingle` returns for one recipient. */
  datatype Single = Single(result: Option<Result>, bodyCode: Option<int>, err: Option<GoError>)

  /** What `Send` returns. `contacted` counts the recipients it tried. */
  datatype Reply = Reply(id: string, raw: Option<RawResponse>, err: Option<GoError>, contacted: nat)

  // ----- one send, as a function of the answers to the recipients tried -----

  /** `single(a, i)` is the answer to recipient i in attempt a. */
  predicate Fails(single: (nat, nat) -> Single, a: nat, i: nat) {
    single(a, i).err.Some?
  }

  /** How many of the first n recipients are tried from i on: up to and including the first that
      fails. */
  function Tried(n: nat, single: (nat, nat) -> Single, a: nat, i: nat): nat
    requires i <= n
    decreases n - i
  {
    if i == n then n else if Fails(single, a, i) then i + 1 else Tried(n, single, a, i + 1)
  }

  /** Message ids in order, the non-empty ones only. */
  function Ids(single: (nat, nat) -> Single, a: nat, m: nat): seq<string> {
    if m == 0 then []
    else
      var r := single(a, m - 1).result;
      Ids(single, a, m - 1) + if r.Some? && r.value.sid != "" then [r.value.sid] else []
  }

  function LastStatus(single: (nat, nat) -> Single, a: nat, m: nat): string {
    if m == 0 then ""
    else
      var r := single(a, m - 1).result;
      if r.Some? && r.value.status != "" then r.value.status else LastStatus(single, a, m - 1)
  }

  function LastCode(single: (nat, nat) -> Single, a: nat, m: nat): int {
    if m == 0 then 0
    else
      var r := single(a, m - 1).result;
      if r.Some? then r.value.httpStatus else LastCode(single, a, m - 1)
  }

  /** The reply after m recipients have been tried. */
  function ReplyAfter(single: (nat, nat) -> Single, a: nat, m: nat): Reply
    requires m >= 1
  {
    var last := single(a, m - 1);
    Reply(Join(Ids(single, a, m), ","),
          Some(RawResponse(LastCode(single, a, m), LastStatus(single, a, m), last.bodyCode)), last.err, m)
  }

  function SendReply(n: nat, single: (nat, nat) -> Single, a: nat): Reply
    requires n >= 1
  {
    TriedBounds(n, single, a, 0);
    ReplyAfter(single, a, Tried(n, single, a, 0))
  }

  /** The last of the first m recipients with a result, if any: the response's code is its. */
  ghost predicate CodeIsLast(single: (nat, nat) -> Single, a: nat, m: nat, code: int) {
    if forall j: nat :: j < m ==> single(a, j).result.None? then code == 0
    else exists j: nat :: j < m && single(a, j).result.Some? && code == single(a, j).result.value.httpStatus
                          && forall i: nat :: j < i < m ==> single(a, i).result.None?
  }

  predicate SaysStatus(s: Single) {
    s.result.Some? && s.result.value.status != ""
  }

  ghost predicate StatusIsLast(single: (nat, nat) -> Single, a: nat, m: nat, status: string) {
    if forall j: nat :: j < m ==> !SaysStatus(single(a, j)) then status == ""
    else exists j: nat :: j < m && SaysStatus(single(a, j)) && status == single(a, j).result.value.status
                          && forall i: nat :: j < i < m ==> !SaysStatus(single(a, i))
  }

  predicate HasSid(s: Single) {
    s.result.Some? && s.result.value.sid != ""
  }

  /** The positions, ascending, of exactly the recipients among the first m with a message id. */
  ghost predicate SidsAt(single: (nat, nat) -> Single, a: nat, m: nat, at: seq<nat>) {
    && (forall i, j :: 0 <= i < j < |at| ==> at[i] < at[j])
    && (forall j: nat :: j in at <==> j < m && HasSid(single(a, j)))
  }

  predicate ListsSids(single: (nat, nat) -> Single, a: nat, at: seq<nat>, ids: seq<string>) {
    |ids| == |at| && forall i :: 0 <= i < |at| ==>
        HasSid(single(a, at[i])) && ids[i] == single(a, at[i]).result.value.sid
  }

  ghost predicate IdsInOrder(single: (nat, nat) -> Single, a: nat, m: nat, ids: seq<string>) {
    exists at :: SidsAt(single, a, m, at) && ListsSids(single, a, at, ids)
  }

  /** What a reply carries, from the answers of the recipients tried alone. */
  ghost predicate Carries(n: nat, single: (nat, nat) -> Single, a: nat, r: Reply) {
    var m := r.contacted;
    && 1 <= m <= n
    && (forall j: nat :: j < m - 1 ==> single(a, j).err.None?)
    && (m < n ==> single(a, m - 1).err.Some?)
    && r.err == single(a, m - 1).err
    && r.raw.Some?
    && r.raw.value.bodyCode == single(a, m - 1).bodyCode
    && CodeIsLast(single, a, m, r.raw.value.code)
    && StatusIsLast(single, a, m, r.raw.value.status)
    && exists ids :: IdsInOrder(single, a, m, ids) && r.id == Join(ids, ",")
  }

  lemma {:induction false} LastCodeIs(single: (nat, nat) -> Single, a: nat, m: nat)
    ensures CodeIsLast(single, a, m, LastCode(single, a, m))
  {
    if m > 0 {
      LastCodeIs(single, a, m - 1);
    }
  }

  lemma {:induction false} LastStatusIs(single: (nat, nat) -> Single, a: nat, m: nat)
    ensures StatusIsLast(single, a, m, LastStatus(single, a, m))
  {
    if m > 0 {
      LastStatusIs(single, a, m - 1);
    }
  }

  lemma SidsNext(single: (nat, nat) -> Single, a: nat, m: nat, at: seq<nat>)
    requires SidsAt(single, a, m, at)
    ensures SidsAt(single, a, m + 1, if HasSid(single(a, m)) then at + [m] else at)
  {
    hide HasSid;
    forall i | 0 <= i < |at| ensures at[i] < m {
      assert at[i] in at;
    }
    forall j: nat ensures j in at + [m] <==> j in at || j == m {
    }
  }

  lemma {:induction false} IdsAre(single: (nat, nat) -> Single, a: nat, m: nat)
    ensures IdsInOrder(single, a, m, Ids(single, a, m))
  {
    hide SidsAt;
    if m == 0 {
      NoSids(single, a);
    } else {
      IdsAre(single, a, m - 1);
      var front := Ids(single, a, m - 1);
      var at :| SidsAt(single, a, m - 1, at) && ListsSids(single, a, at, front);
      var last: nat := m - 1;
      SidsNext(single, a, last, at);
      var at': seq<nat> := if HasSid(single(a, last)) then at + [last] else at;
      assert ListsSids(single, a, at', Ids(single, a, m));
    }
  }

  lemma NoSids(single: (nat, nat) -> Single, a: nat)
    ensures SidsAt(single, a, 0, []) && ListsSids(single, a, [], [])
  {
  }

  lemma ReplyCarries(n: nat, single: (nat, nat) -> Single, a: nat)
    requires n >= 1
    ensures Carries(n, single, a, SendReply(n, single, a))
  {
    hide CodeIsLast, StatusIsLast, IdsInOrder, LastCode, LastStatus, Ids;
    TriedBounds(n, single, a, 0);
    var m := Tried(n, single, a, 0);
    FailsIff(n, single, a, 0);
    forall j: nat | j < m - 1 ensures single(a, j).err.None? {
      TriedIsPrefix(n, single, a, 0, m - 1);
      assert !Fails(single, a, j);
    }
    if m < n {
      TriedIsPrefix(n, single, a, 0, m);
    }
    LastCodeIs(single, a, m);
    LastStatusIs(single, a, m);
    IdsAre(single, a, m);
  }

  /** `Send` in attempt a: no recipients or no sender is an error before anyone is tried. */
  method Send(n: nat, fromSet: bool, single: (nat, nat) -> Single, a: nat) returns (r: Reply)
    ensures n == 0 || !fromSet ==> r.raw.None? && r.err.Some? && r.contacted == 0
    ensures n >= 1 && fromSet ==> r == SendReply(n, single, a) && Carries(n, single, a, r)
  {
    hide Carries;
    if n >= 1 {
      ReplyCarries(n, single, a);
    }
    if n == 0 {
      return Reply("", None, Some(Plain("at least one recipient is required", None, false)), 0);
    }
    if !fromSet {
      return Reply("", None, Some(Plain("from number is required", None, false)), 0);
    }
    var ids: seq<string> := [];
    var lastStatus, lastCode, lastBody := "", 0, None;
    for i := 0 to n
      invariant Tried(n, single, a, 0) == Tried(n, single, a, i)
      invariant ids == Ids(single, a, i) && lastStatus == LastStatus(single, a, i) && lastCode == LastCode(single, a, i)
      invariant i > 0 ==> lastBody == single(a, i - 1).bodyCode && single(a, i - 1).err.None?
    {
      var answer := single(a, i);
      if answer.result.Some? {
        if answer.result.value.sid != "" {
          ids := ids + [answer.result.value.sid];
        }
        if answer.result.value.status != "" {
          lastStatus := answer.result.value.status;
        }
        lastCode := answer.result.value.httpStatus;
      }
      lastBody := answer.bodyCode;
      assert Ids(single, a, i + 1) == ids;
      if answer.err.Some? {
        return Reply(Join(ids, ","), Some(RawResponse(lastCode, lastStatus, answer.bodyCode)), answer.err, i + 1);
      }
    }
    return Reply(Join(ids, ","), Some(RawResponse(lastCode, lastStatus, lastBody)), None, n);
  }

  lemma {:induction false} TriedBounds(n: nat, single: (nat, nat) -> Single, a: nat, i: nat)
    requires i <= n
    ensures i <= Tried(n, single, a, i) <= n
    ensures i < n ==> i < Tried(n, single, a, i)
    decreases n - i
  {
    if i < n {
      TriedBounds(n, single, a, i + 1);
    }
  }

  /** The recipients tried are exactly a prefix: recipient j is tried just in case nobody before it
      failed. */
  lemma {:induction false} TriedIsPrefix(n: nat, single: (nat, nat) -> Single, a: nat, i: nat, j: nat)
    requires i <= j < n
    ensures j < Tried(n, single, a, i) <==> forall k :: i <= k < j ==> !Fails(single, a, k)
    decreases n - i
  {
    TriedBounds(n, single, a, i);
    if i < j {
      TriedIsPrefix(n, single, a, i + 1, j);
    }
  }

  /** The reply carries an error exactly when some recipient fails. */
  lemma {:induction false} FailsIff(n: nat, single: (nat, nat) -> Single, a: nat, i: nat)
    requires i < n
    ensures i < Tried(n, single, a, i) <= n
    ensures Fails(single, a, Tried(n, single, a, i) - 1) <==> exists k :: i <= k < n && Fails(single, a, k)
    decreases n - i
  {
    if !Fails(single, a, i) && i + 1 < n {
      FailsIff(n, single, a, i + 1);
    }
  }

  // ----- sends repeated by the retry loop -----

  /** In attempt a recipient i is contacted and `sendSingle` reports no error. */
  predicate AcceptedAt(n: nat, single: (nat, nat) -> Single, a: nat, i: nat) {
    i < Tried(n, single, a, 0) && !Fails(single, a, i)
  }

  /** How often recipient i was accepted over attempts 1..k. */
  function Acceptances(n: nat, single: (nat, nat) -> Single, k: nat, i: nat): nat {
    if k == 0 then 0
    else Acceptances(n, single, k - 1, i) + if AcceptedAt(n, single, k, i) then 1 else 0
  }

  /** Acceptance is downward closed along the list. */
  lemma AcceptedBefore(n: nat, single: (nat, nat) -> Single, a: nat, i: nat, j: nat)
    requires i <= j < n && AcceptedAt(n, single, a, j)
    ensures AcceptedAt(n, single, a, i)
  {
    TriedIsPrefix(n, single, a, 0, i);
    TriedIsPrefix(n, single, a, 0, j);
  }

  /** Acceptances never exceed the attempts and never grow along the recipient list. */
  lemma {:induction false} AcceptancesFall(n: nat, single: (nat, nat) -> Single, k: nat, i: nat, j: nat)
    requires i <= j < n
    ensures Acceptances(n, single, k, j) <= Acceptances(n, single, k, i) <= k
  {
    if k > 0 {
      AcceptancesFall(n, single, k - 1, i, j);
      if AcceptedAt(n, single, k, j) {
        AcceptedBefore(n, single, k, i, j);
      }
    }
  }

  /** The adapter's answer to each attempt. */
  function SmsAnswerTo(n: nat, single: (nat, nat) -> Single, a: nat): SendResult
    requires n >= 1
  {
    var r := SendReply(n, single, a);
    SmsAnswer(Attempted(r.raw, r.err))
  }

  function WhatsAppAnswerTo(n: nat, single: (nat, nat) -> Single, a: nat): SendResult
    requires n >= 1
  {
    var r := SendReply(n, single, a);
    WhatsAppAnswer(Attempted(r.raw, r.err))
  }

  /** The answers are those of the SMS channel, or those of the WhatsApp channel, over these sends. */
  ghost predicate ChannelAnswers(n: nat, single: (nat, nat) -> Single, answers: nat -> SendResult)
    requires n >= 1
  {
    || (forall a: nat :: answers(a) == SmsAnswerTo(n, single, a))
    || (forall a: nat :: answers(a) == WhatsAppAnswerTo(n, single, a))
  }

  lemma ChannelAccepts(n: nat, single: (nat, nat) -> Single, answers: nat -> SendResult, a: nat)
    requires n >= 1 && ChannelAnswers(n, single, answers)
    ensures answers(a).Accepted? <==> SendReply(n, single, a).err.None?
  {
    hide WrapSms, WrapWhatsApp;
  }

  /** Retry loop over recipient loop. A record reported `sent` at attempt k has reached every
      recipient at least once, in attempt k itself; when the loop ends otherwise, some recipient
      failed in its last attempt. No recipient is accepted more often than there were attempts, and
      none more often than one before it in the list. */
  lemma SentReachesAll(n: nat, single: (nat, nat) -> Single, max: nat,
      answers: nat -> SendResult, waits: nat -> WaitEnd)
    requires n >= 1 && max >= 1 && ChannelAnswers(n, single, answers)
    ensures var o := Run(max, answers, waits, 1);
            && 1 <= o.k <= max
            && (forall i: nat, j: nat :: i <= j < n ==>
                  Acceptances(n, single, o.k, j) <= Acceptances(n, single, o.k, i) <= o.k)
            && (o.SentAt? ==> forall i: nat :: i < n ==>
                  AcceptedAt(n, single, o.k, i) && Acceptances(n, single, o.k, i) >= 1)
            && (!o.SentAt? ==> exists j :: 0 <= j < n && Fails(single, o.k, j))
  {
    hide ChannelAnswers, Tried;
    var k := RunEnd(max, answers, waits, 1);
    RunSkips(max, answers, waits, 1, k);
    forall i: nat, j: nat | i <= j < n
      ensures Acceptances(n, single, k, j) <= Acceptances(n, single, k, i) <= k
    {
      AcceptancesFall(n, single, k, i, j);
    }
    ChannelAccepts(n, single, answers, k);
    FailsIff(n, single, k, 0);
    forall i: nat | i < n && answers(k).Accepted?
      ensures AcceptedAt(n, single, k, i)
    {
      TriedIsPrefix(n, single, k, 0, i);
    }
  }

  /** The bound is met: when only the last of several recipients keeps failing, every other one is
      accepted once per attempt. */
  lemma {:induction false} RestartDuplicates(n: nat, single: (nat, nat) -> Single, k: nat, i: nat)
    requires n >= 2 && i < n - 1
    requires forall a: nat, j: nat :: j < n ==> (Fails(single, a, j) <==> j == n - 1)
    ensures Acceptances(n, single, k, i) == k && Acceptances(n, single, k, n - 1) == 0
  {
    if k > 0 {
      RestartDuplicates(n, single, k - 1, i);
      TriedIsPrefix(n, single, k, 0, i);
    }
  }

  /** If that failure is transient, the record is dead-lettered after the other recipients have
      each been accepted `maxAttempts` times. */
  lemma DeadYetDelivered(n: nat, single: (nat, nat) -> Single, max: nat,
      answers: nat -> SendResult, waits: nat -> WaitEnd, i: nat)
    requires n >= 2 && i < n - 1 && max >= 1 && ChannelAnswers(n, single, answers)
    requires forall a: nat, j: nat :: j < n ==> (Fails(single, a, j) <==> j == n - 1)
    requires forall a: nat :: answers(a).Error? ==> answers(a) == Error(false, false, true)
    requires forall k :: waits(k) == Elapsed
    ensures Run(max, answers, waits, 1) == DeadAt(max, Transient)
    ensures Acceptances(n, single, max, i) == max
  {
    hide ChannelAnswers;
    forall a: nat ensures answers(a) == Error(false, false, true) {
      ChannelAccepts(n, single, answers, a);
      FailsIff(n, single, a, 0);
      assert Fails(single, a, n - 1);
    }
    RunSkips(max, answers, waits, 1, max);
    RestartDuplicates(n, single, max, i);
  }

  /** Sends of which only the last recipient's fails, with a server error. */
  function LastFails(n: nat): (nat, nat) -> Single {
    (a: nat, i: nat) =>
      if i + 1 == n then Single(Some(Result("", "", 500)), None, Some(Plain("", None, false)))
      else Single(Some(Result("SM", "queued", 201)), None, None)
  }

  lemma {:induction false} LastFailsReply(n: nat, a: nat, m: nat)
    requires n >= 2 && m < n
    ensures LastCode(LastFails(n), a, m) == if m == 0 then 0 else 201
    ensures LastStatus(LastFails(n), a, m) == if m == 0 then "" else "queued"
  {
    if m > 0 {
      LastFailsReply(n, a, m - 1);
    }
  }

  /** With two recipients or more and those sends, a WhatsApp record is dead-lettered after every
      recipient but the last has been sent it `max` times. */
  lemma DeadYetDeliveredExample(n: nat, max: nat, i: nat)
    requires n >= 2 && i < n - 1 && max >= 1
    ensures var single := LastFails(n);
            && Run(max, (a: nat) => WhatsAppAnswerTo(n, single, a), (k: nat) => Elapsed, 1) == DeadAt(max, Transient)
            && Acceptances(n, single, max, i) == max
  {
    hide WrapWhatsApp;
    var single := LastFails(n);
    var answers := (a: nat) => WhatsAppAnswerTo(n, single, a);
    forall a: nat ensures answers(a) == Error(false, false, true) {
      LastFailsAnswer(n, a);
    }
    DeadYetDelivered(n, single, max, answers, (k: nat) => Elapsed, i);
  }

  lemma LastFailsAnswer(n: nat, a: nat)
    requires n >= 2
    ensures WhatsAppAnswerTo(n, LastFails(n), a) == Error(false, false, true)
  {
    hide Contains;
    var single := LastFails(n);
    FailsIff(n, single, a, 0);
    assert Fails(single, a, n - 1);
    var m := Tried(n, single, a, 0);
    assert m == n;
    LastFailsReply(n, a, n - 1);
    var raw := RawResponse(500, "queued", None);
    assert SendReply(n, single, a).raw == Some(raw) && SendReply(n, single, a).err == Some(Plain("", None, false));
    QueuedSaysNothing();
    WrappersHideCauses(Some(Plain("", None, false)));
  }

  lemma QueuedSaysNothing()
    ensures !Mentions("queued", "permanent", "invalid") && !Contains(ToLower("queued"), "transient")
  {
    var s := "queued";
    assert ToLower(s) == s;
  }

  // ----- exactly when a failed record was delivered, and when twice -----

  /** The first recipient is always tried. */
  lemma FirstTried(n: nat, single: (nat, nat) -> Single, a: nat)
    requires n >= 1
    ensures AcceptedAt(n, single, a, 0) <==> !Fails(single, a, 0)
  {
    TriedBounds(n, single, a, 0);
  }

  lemma {:induction false} FirstAccepted(n: nat, single: (nat, nat) -> Single, k: nat)
    requires n >= 1
    ensures Acceptances(n, single, k, 0) == 0 <==> forall a: nat :: 1 <= a <= k ==> Fails(single, a, 0)
  {
    if k > 0 {
      FirstAccepted(n, single, k - 1);
      FirstTried(n, single, k);
    }
  }

  lemma {:induction false} FirstAcceptedTwice(n: nat, single: (nat, nat) -> Single, k: nat)
    requires n >= 1
    ensures Acceptances(n, single, k, 0) >= 2
       <==> exists a: nat, b: nat :: 1 <= a < b <= k && !Fails(single, a, 0) && !Fails(single, b, 0)
  {
    if k > 0 {
      FirstAcceptedTwice(n, single, k - 1);
      FirstTried(n, single, k);
      FirstAccepted(n, single, k - 1);
      if Acceptances(n, single, k, 0) >= 2 && Acceptances(n, single, k - 1, 0) < 2 {
        var a: nat :| 1 <= a <= k - 1 && !Fails(single, a, 0);
        assert 1 <= a < k <= k && !Fails(single, k, 0);
      }
    }
  }

  /** Whatever the outcome of the retry loop: some recipient was sent the message exactly when the
      first one accepted it in some attempt, and some recipient was sent it twice exactly when the
      first one accepted it in two. For a dead-lettered record this is when it was delivered all the
      same, to anyone, and more than once. */
  lemma DeliveredIff(n: nat, single: (nat, nat) -> Single, max: nat, answers: nat -> SendResult, waits: nat -> WaitEnd)
    requires n >= 1 && max >= 1 && ChannelAnswers(n, single, answers)
    ensures var k := Run(max, answers, waits, 1).k;
            && ((exists i: nat :: i < n && Acceptances(n, single, k, i) >= 1)
                <==> exists a: nat :: 1 <= a <= k && !Fails(single, a, 0))
            && ((exists i: nat :: i < n && Acceptances(n, single, k, i) >= 2)
                <==> exists a: nat, b: nat :: 1 <= a < b <= k && !Fails(single, a, 0) && !Fails(single, b, 0))
  {
    hide ChannelAnswers, Fails;
    var k := Run(max, answers, waits, 1).k;
    forall i: nat | i < n ensures Acceptances(n, single, k, i) <= Acceptances(n, single, k, 0) {
      AcceptancesFall(n, single, k, 0, i);
    }
    FirstAccepted(n, single, k);
    FirstAcceptedTwice(n, single, k);
  }

  // ----- the Twilio error code of the recipient that fails -----

  /** f is the first recipient that fails, and c is the error code in its response body. */
  predicate FailsWith(n: nat, single: (nat, nat) -> Single, a: nat, f: nat, c: int) {
    && f < n && single(a, f).err.Some? && single(a, f).bodyCode == Some(c)
    && forall j: nat :: j < f ==> single(a, j).err.None?
  }

  lemma FailsAtFirst(n: nat, single: (nat, nat) -> Single, a: nat, f: nat, c: int)
    requires FailsWith(n, single, a, f, c)
    ensures SendReply(n, single, a).err == single(a, f).err && SendReply(n, single, a).raw.Some?
    ensures SendReply(n, single, a).raw.value.bodyCode == Some(c)
  {
    ReplyCarries(n, single, a);
    var m := SendReply(n, single, a).contacted;
    assert m - 1 == f;
  }

  /** The code reaches the adapter: a permanent one makes the attempt's error permanent, a retryable one
      transient, whatever the HTTP status and the texts say. */
  lemma BodyCodeAnswers(n: nat, single: (nat, nat) -> Single, a: nat, f: nat, c: int)
    requires FailsWith(n, single, a, f, c)
    ensures c in {21610, 21612, 21614, 21211} ==>
              SmsAnswerTo(n, single, a) == WhatsAppAnswerTo(n, single, a) == Error(false, true, false)
    ensures c in {30001, 30002, 30003, 30005} ==> SmsAnswerTo(n, single, a) == Error(false, false, true)
    ensures c in {63018, 63016, 63015, 63002, 30001, 30003} ==>
              WhatsAppAnswerTo(n, single, a) == Error(false, false, true)
  {
    hide Contains, SendReply;
    FailsAtFirst(n, single, a, f, c);
    WrappersHideCauses(single(a, f).err);
  }

  /** Through the loop: a permanent code ends the record as permanent at the attempt that meets it; a
      retryable one, below the budget and with its wait elapsed, never ends it. */
  lemma BodyCodeDecides(n: nat, single: (nat, nat) -> Single, max: nat, answers: nat -> SendResult,
                        waits: nat -> WaitEnd, a: nat, f: nat, c: int)
    requires 1 <= a <= max && FailsWith(n, single, a, f, c) && ChannelAnswers(n, single, answers)
    ensures var o := Run(max, answers, waits, 1);
            && (c in {21610, 21612, 21614, 21211} ==> o.k <= a && (o.k == a ==> o == DeadAt(a, Permanent)))
            && (c in {30001, 30003} && a < max && waits(a) == Elapsed ==> o.k != a)
            && (a < max && waits(a) == Elapsed && answers(a) == SmsAnswerTo(n, single, a) ==>
                  c in {30002, 30005} ==> o.k != a)
            && (a < max && waits(a) == Elapsed && answers(a) == WhatsAppAnswerTo(n, single, a) ==>
                  c in {63018, 63016, 63015, 63002} ==> o.k != a)
  {
    hide SmsAnswerTo, WhatsAppAnswerTo, Run;
    BodyCodeAnswers(n, single, a, f, c);
    AnswerDecides(max, answers, waits, a);
  }
}
