/** The mock e-mail provider's failure countdown, shared by all messages, and the e-mail channel
    on top of it. */
module MockEmail {
  import opened Text
  import opened Outcomes
  import opened Options
  import opened Adapters

  datatype Scenario = Success | TransientScenario | PermanentScenario | TimeoutScenario

  /** A payload as the mock reads it: the X-Mock-Provider-* headers it found, and `address`, the
      text that stands for the payload's own address. */
  datatype Payload = Payload(messageId: string, recipients: nat, scenario: Option<string>,
                             failureAttempts: Option<string>, failureKey: string, address: string)

  /** Whether, and where, the context ends a send: during the simulated latency, or, in the timeout
      scenario, while the provider pretends to hang. `why` is the context's error. */
  datatype Interrupt = Uninterrupted | WhileDelayed(why: Sentinel) | WhileHanging(why: Sentinel)

  datatype Call = Call(p: Payload, interrupt: Interrupt)

  datatype Reply = Reply(code: Option<int>, err: Option<GoError>)

  /** `strconv.Atoi`: decimal digits with an optional sign, within int64. */
  function Digits(s: string): Option<nat> {
    if s == [] then Some(0)
    else match Digits(s[..|s| - 1])
      case None => None
      case Some(n) => if IsDigit(s[|s| - 1]) then Some(n * 10 + (s[|s| - 1] as int - 48)) else None
  }

  function Atoi(s: string): Option<int> {
    var body := if s != [] && (s[0] == '-' || s[0] == '+') then s[1..] else s;
    if body == [] then None
    else match Digits(body)
      case None => None
      case Some(n) =>
        var v: int := if s[0] == '-' then -(n as int) else n as int;
        if -0x8000_0000_0000_0000 <= v < 0x8000_0000_0000_0000 then Some(v) else None
  }

  /** An unparsable, missing or non-positive header means no induced failures. */
  function ResolveFailureAttempts(p: Payload): (n: nat) {
    if p.failureAttempts.None? then 0
    else match Atoi(Trim(p.failureAttempts.value))
      case None => 0
      case Some(n) => if n <= 0 then 0 else n
  }

  function ResolveScenario(default_: Scenario, p: Payload): Scenario {
    if p.scenario.None? || p.scenario.value == "" then default_
    else
      var v := ToLower(Trim(p.scenario.value));
      if v == "permanent" then PermanentScenario
      else if v == "transient" then TransientScenario
      else if v == "timeout" then TimeoutScenario
      else Success
  }

  function Key(p: Payload): string {
    if p.messageId != "" then p.messageId else if p.failureKey != "" then p.failureKey else p.address
  }

  const QUEUED_CODE := 250

  function FailureReply(code: int, text: string): Reply {
    Reply(Some(code), Some(Plain(text, None, false)))
  }

  const PERMANENT_TEXT := "smtp " + ("550" + ": mock: mailbox unavailable")
  const TRANSIENT_TEXT := "smtp " + ("451" + ": mock: requested action aborted, try again later")

  // ----- the provider -----

  /** The countdown after one send, and whether the send was made to fail. */
  function Consume(state: map<string, int>, key: string, attempts: nat): (map<string, int>, bool) {
    if attempts == 0 then (state, false)
    else
      var remaining := if key in state then state[key] else attempts;
      if remaining <= 0 then (state[key := remaining], false) else (state[key := remaining - 1], true)
  }

  /** One send: the new countdown and the reply. A send cut off in its latency counts nothing. */
  function SendOn(state: map<string, int>, default_: Scenario, call: Call): (map<string, int>, Reply) {
    var p := call.p;
    if p.recipients == 0 then
      (state, Reply(None, Some(Plain("email: at least one recipient is required", None, false))))
    else if call.interrupt.WhileDelayed? then (state, Reply(None, Some(Sentinel(call.interrupt.why))))
    else
      var chosen := ResolveScenario(default_, p);
      var (state', failed) := if chosen.Success? then Consume(state, Key(p),
            ResolveFailureAttempts(p)) else (state, false);
      var effective := if failed then TransientScenario else chosen;
      (state', match effective
       case PermanentScenario => FailureReply(550, PERMANENT_TEXT)
       case TransientScenario => FailureReply(451, TRANSIENT_TEXT)
       case TimeoutScenario =>
         Reply(None, Some(Sentinel(if call.interrupt.WhileHanging? then call.interrupt.why else DeadlineExceeded)))
       case Success => Reply(Some(QUEUED_CODE), None))
  }

  class MockProvider {
    const defaultScenario: Scenario
    var failureState: map<string, int>

    constructor (defaultScenario: Scenario)
      ensures this.defaultScenario == defaultScenario && failureState == map[]
    {
      this.defaultScenario, failureState := defaultScenario, map[];
    }

    method ConsumeFailureAttempt(p: Payload) returns (failed: bool)
      modifies this
      ensures (failureState, failed) == Consume(old(failureState), Key(p), ResolveFailureAttempts(p))
    {
      var attempts := ResolveFailureAttempts(p);
      if attempts <= 0 {
        return false;
      }
      var key := p.messageId;
      if key == "" {
        key := p.failureKey;
      }
      if key == "" {
        key := p.address;
      }
      var remaining := attempts as int;
      if key in failureState {
        remaining := failureState[key];
      }
      if remaining <= 0 {
        failureState := failureState[key := remaining];
        return false;
      }
      remaining := remaining - 1;
      failureState := failureState[key := remaining];
      return true;
    }

    method Send(call: Call) returns (r: Reply)
      modifies this
      ensures (failureState, r) == SendOn(old(failureState), defaultScenario, call)
    {
      var p := call.p;
      if p.recipients == 0 {
        return Reply(None, Some(Plain("email: at least one recipient is required", None, false)));
      }
      if call.interrupt.WhileDelayed? {
        return Reply(None, Some(Sentinel(call.interrupt.why)));
      }
      var scenario := ResolveScenario(defaultScenario, p);
      if scenario == Success {
        var failed := ConsumeFailureAttempt(p);
        if failed {
          scenario := TransientScenario;
        }
      }
      match scenario
      case PermanentScenario => r := FailureReply(550, PERMANENT_TEXT);
      case TransientScenario => r := FailureReply(451, TRANSIENT_TEXT);
      case TimeoutScenario =>
        if call.interrupt.WhileHanging? {
          return Reply(None, Some(Sentinel(call.interrupt.why)));
        }
        r := Reply(None, Some(Sentinel(DeadlineExceeded)));
      case Success => r := Reply(Some(QUEUED_CODE), None);
    }
  }

  // ----- any interleaving of sends -----

  /** The countdown a provider started empty has after a history of sends. */
  function StateAfter(default_: Scenario, history: seq<Call>): map<string, int> {
    if history == [] then map[]
    else SendOn(StateAfter(default_, history[..|history| - 1]), default_, history[|history| - 1]).0
  }

  /** The reply to the send at position p of the history. */
  function ReplyAt(default_: Scenario, history: seq<Call>, p: nat): Reply
    requires p < |history|
  {
    SendOn(StateAfter(default_, history[..p]), default_, history[p]).1
  }

  /** A send for the key that is not cut off before it counts. */
  predicate Counts(call: Call, key: string) {
    Key(call.p) == key && !call.interrupt.WhileDelayed?
  }

  /** How many of the sends in the history count for the key. */
  function Sends(history: seq<Call>, key: string): nat {
    if history == [] then 0
    else Sends(history[..|history| - 1], key) + if Counts(history[|history| - 1], key) then 1 else 0
  }

  /** Every send under the key has a recipient, plays the success scenario and asks for n failures. */
  predicate Constant(default_: Scenario, history: seq<Call>, key: string, n: nat) {
    forall i :: 0 <= i < |history| && Key(history[i].p) == key ==> AsksFor(default_, history[i].p, n)
  }

  predicate AsksFor(default_: Scenario, p: Payload, n: nat) {
    p.recipients > 0 && ResolveScenario(default_, p).Success? && ResolveFailureAttempts(p) == n
  }

  /** A send under another key, or one cut off in its latency, leaves the countdown alone. */
  lemma OtherKeysApart(state: map<string, int>, default_: Scenario, call: Call, key: string)
    requires !Counts(call, key)
    ensures var state' := SendOn(state, default_, call).0;
            (key in state' <==> key in state) && (key in state ==> state'[key] == state[key])
  {
  }

  lemma {:induction false} Countdown(default_: Scenario, history: seq<Call>, key: string, n: nat)
    requires n > 0 && Constant(default_, history, key, n)
    ensures var state := StateAfter(default_, history);
            && (key in state <==> Sends(history, key) > 0)
            && (key in state ==> state[key] == if Sends(history, key) < n then n - Sends(history, key) else 0)
  {
    if history != [] {
      var front, last := history[..|history| - 1], history[|history| - 1];
      Countdown(default_, front, key, n);
      if !Counts(last, key) {
        OtherKeysApart(StateAfter(default_, front), default_, last, key);
      }
    }
  }

  /** However the sends of many messages interleave, a key that always asks for n failures has
      exactly its first n sends fail, each with the transient code; the rest succeed. Sends cut off
      in their latency do not count. */
  lemma FailsFirstN(default_: Scenario, history: seq<Call>, key: string, n: nat, p: nat)
    requires Constant(default_, history, key, n) && p < |history| && Counts(history[p], key)
    ensures ReplyAt(default_, history, p) ==
              if Sends(history[..p], key) < n then FailureReply(451, TRANSIENT_TEXT) else Reply(Some(250), None)
  {
    hide ResolveScenario, ResolveFailureAttempts, Key;
    var front := history[..p];
    assert forall q :: 0 <= q < p ==> front[q] == history[q];
    if n > 0 {
      assert Constant(default_, front, key, n);
      Countdown(default_, front, key, n);
    }
  }

  // ----- through the e-mail adapter and the engine -----

  /** The code the adapter reads back from the mock's transient error text. */
  lemma TransientText()
    ensures FindCode(TRANSIENT_TEXT) == Some(451)
  {
    var s := TRANSIENT_TEXT;
    assert s[0..] == s && s[5] == '4' && s[6] == '5' && s[7] == '1';
    assert MatchesHere(s, 1);
    CodeFound(s, 0, 1);
  }

  function Answer(r: Reply): SendResult {
    EmailAnswer(EmailAttempt(r.code, r.err))
  }

  lemma MockAnswers()
    ensures Answer(FailureReply(451, TRANSIENT_TEXT)) == Error(false, false, true)
    ensures Answer(Reply(Some(QUEUED_CODE), None)) == Accepted
  {
    TransientText();
    WrappersHideCauses(Some(Plain(TRANSIENT_TEXT, None, false)));
  }

  /** End to end: `at(k)` is the position in the mock's history of the k-th attempt for this record,
      for the attempts the record makes. With n induced failures the record is `sent` at attempt n + 1
      when n is below the attempt budget, and otherwise dead-lettered as transient after the whole
      budget. */
  lemma MockedDelivery(default_: Scenario, history: seq<Call>, key: string, n: nat, at: nat -> nat,
                       max: nat, answers: nat -> SendResult, waits: nat -> WaitEnd)
    requires max >= 1 && Constant(default_, history, key, n)
    requires forall k :: 1 <= k <= Run(max, answers, waits, 1).k ==>
               AttemptAt(default_, history, key, k, at(k), answers(k))
    requires forall k :: waits(k) == Elapsed
    ensures Run(max, answers, waits, 1) == if n < max then SentAt(n + 1) else DeadAt(max, Transient)
  {
    hide Constant, Answer, ReplyAt, AttemptAt;
    MockAnswers();
    var end := RunEnd(max, answers, waits, 1);
    RunSkips(max, answers, waits, 1, end);
    forall k | 1 <= k <= end
      ensures answers(k) == if k <= n then Error(false, false, true) else Accepted
    {
      assert AttemptAt(default_, history, key, k, at(k), answers(k));
      AttemptAnswer(default_, history, key, n, k, at(k), answers(k));
    }
    FirstAcceptedEnds(max, answers, waits, end, n);
  }

  /** A loop whose first n answers are transient errors and whose next is a success ends there, or with
      its budget. */
  lemma FirstAcceptedEnds(max: nat, answers: nat -> SendResult, waits: nat -> WaitEnd, end: nat, n: nat)
    requires DecidedAt(max, answers, waits, end) || StoppedAt(max, answers, waits, end)
    requires forall k :: waits(k) == Elapsed
    requires forall k :: 1 <= k <= end ==> answers(k) == if k <= n then Error(false, false, true) else Accepted
    ensures end == if n < max then n + 1 else max
  {
    assert waits(end) == Elapsed;
    if end > 1 {
      assert !Settles(max, answers(end - 1), end - 1);
    }
    assert answers(end) == if end <= n then Error(false, false, true) else Accepted;
  }

  /** The send at this position is the k-th that counts for the key, and its reply is the answer. */
  predicate AttemptAt(default_: Scenario, history: seq<Call>, key: string, k: nat, position: nat, answer: SendResult) {
    && position < |history| && Counts(history[position], key)
    && Sends(history[..position], key) + 1 == k
    && answer == Answer(ReplyAt(default_, history, position))
  }

  lemma AttemptAnswer(default_: Scenario, history: seq<Call>, key: string, n: nat, k: nat,
      position: nat, answer: SendResult)
    requires Constant(default_, history, key, n) && AttemptAt(default_, history, key, k, position, answer)
    ensures answer == if k <= n then Error(false, false, true) else Accepted
  {
    hide Constant, Answer, ReplyAt, Counts;
    MockAnswers();
    FailsFirstN(default_, history, key, n, position);
  }

  // ----- such a history exists -----

  lemma {:induction false} SendsOfSame(call: Call, key: string, m: nat)
    requires Counts(call, key)
    ensures Sends(seq(m, _ => call), key) == m
  {
    if m > 0 {
      SendsOfSame(call, key, m - 1);
      assert seq(m, _ => call)[..m - 1] == seq(m - 1, _ => call);
    }
  }

  /** The history of a record sent alone, over and over while it fails: it ends with its last attempt. */
  function AloneHistory(p: Payload, n: nat, max: nat): seq<Call> {
    seq(if n < max then n + 1 else max, _ => Call(p, Uninterrupted))
  }

  /** A record that is the provider's only one, over the calls it really makes. */
  lemma MockedAlone(default_: Scenario, p: Payload, max: nat, answers: nat -> SendResult, waits: nat -> WaitEnd)
    requires max >= 1 && AsksFor(default_, p, ResolveFailureAttempts(p))
    requires forall k :: 1 <= k <= |AloneHistory(p, ResolveFailureAttempts(p), max)| ==>
               answers(k) == Answer(ReplyAt(default_, AloneHistory(p, ResolveFailureAttempts(p), max), k - 1))
    requires forall k :: waits(k) == Elapsed
    ensures var n := ResolveFailureAttempts(p);
            Run(max, answers, waits, 1) == if n < max then SentAt(n + 1) else DeadAt(max, Transient)
  {
    hide Answer, ReplyAt, AsksFor, ResolveFailureAttempts, Key;
    var n := ResolveFailureAttempts(p);
    var history := AloneHistory(p, n, max);
    var call := Call(p, Uninterrupted);
    assert Constant(default_, history, Key(p), n);
    MockAnswers();
    forall k: nat | 1 <= k <= |history|
      ensures answers(k) == if k <= n then Error(false, false, true) else Accepted
    {
      assert history[..k - 1] == seq(k - 1, _ => call);
      SendsOfSame(call, Key(p), k - 1);
      assert AttemptAt(default_, history, Key(p), k, k - 1, answers(k));
      AttemptAnswer(default_, history, Key(p), n, k, k - 1, answers(k));
    }
    RunSkips(max, answers, waits, 1, |history|);
  }

  // ----- the headers -----

  /** A number in decimal, as the header carries it. */
  function Decimal(n: nat): string {
    if n < 10 then [(48 + n) as char] else Decimal(n / 10) + [(48 + n % 10) as char]
  }

  lemma {:induction false} DigitsOfDecimal(n: nat)
    ensures Decimal(n) != "" && Digits(Decimal(n)) == Some(n)
    ensures forall i :: 0 <= i < |Decimal(n)| ==> IsDigit(Decimal(n)[i])
  {
    if n < 10 {
      assert Decimal(n)[..0] == "";
    } else {
      DigitsOfDecimal(n / 10);
      var s := Decimal(n);
      assert s[..|s| - 1] == Decimal(n / 10);
    }
  }

  lemma DigitsAreNoSpace(c: char)
    requires IsDigit(c) || c == '-' || c == '+'
    ensures !IsSpace(c)
  {
  }

  /** The text of n with a sign or without, and any white space around it, reads as that number. */
  lemma DecimalRead(n: nat, sign: string, before: string, after: string)
    requires sign in {"", "+", "-"} && n < 0x8000_0000_0000_0000
    requires forall i :: 0 <= i < |before| ==> IsSpace(before[i])
    requires forall i :: 0 <= i < |after| ==> IsSpace(after[i])
    ensures Atoi(Trim(before + sign + Decimal(n) + after)) == Some(if sign == "-" then 0 - n else n)
  {
    hide Digits, Decimal, Trim;
    var text := sign + Decimal(n);
    DigitsOfDecimal(n);
    PaddingGoes(before, text, after) by { SignedStarts(sign, Decimal(n)); }
    assert before + sign + Decimal(n) + after == before + text + after;
    if sign == "" {
      assert text == Decimal(n) && IsDigit(text[0]);
    } else {
      assert text[0] == sign[0] && text[1..] == Decimal(n);
    }
  }

  lemma SignedStarts(sign: string, digits: string)
    requires sign in {"", "+", "-"} && digits != "" && forall i :: 0 <= i < |digits| ==> IsDigit(digits[i])
    ensures IsTrimmed(sign + digits)
  {
    var text := sign + digits;
    DigitsAreNoSpace(text[0]);
    DigitsAreNoSpace(text[|text| - 1]);
  }

  lemma PaddingGoes(before: string, text: string, after: string)
    requires IsTrimmed(text)
    requires forall i :: 0 <= i < |before| ==> IsSpace(before[i])
    requires forall i :: 0 <= i < |after| ==> IsSpace(after[i])
    ensures Trim(before + text + after) == text
  {
    hide Trim, IsSpace;
    var s := before + text + after;
    var i, j := |before|, |before| + |text|;
    assert s[i..j] == text;
    forall k | 0 <= k < i || j <= k < |s| ensures IsSpace(s[k]) {
      assert k < i ==> s[k] == before[k];
      assert j <= k ==> s[k] == after[k - j];
    }
    TrimUnique(s, i, j);
  }

  /** A positive number in the header, written in decimal, with a plus sign or without, padded or not,
      is the number of induced failures; with a minus sign, or without the header, there are none. */
  lemma AttemptsRead(p: Payload, n: nat, sign: string, before: string, after: string)
    requires sign in {"", "+", "-"} && n < 0x8000_0000_0000_0000
    requires forall i :: 0 <= i < |before| ==> IsSpace(before[i])
    requires forall i :: 0 <= i < |after| ==> IsSpace(after[i])
    ensures ResolveFailureAttempts(p.(failureAttempts := Some(before + sign + Decimal(n) + after)))
         == if sign == "-" then 0 else n
    ensures ResolveFailureAttempts(p.(failureAttempts := None)) == 0
  {
    hide Atoi, Trim, Decimal;
    DecimalRead(n, sign, before, after);
  }

  lemma {:induction false} DigitsIff(s: string)
    ensures Digits(s).Some? <==> forall i :: 0 <= i < |s| ==> IsDigit(s[i])
  {
    if s != "" {
      DigitsIff(s[..|s| - 1]);
      assert s == s[..|s| - 1] + [s[|s| - 1]];
    }
  }

  /** A header whose trimmed text is anything but digits after at most one sign induces no failures. */
  lemma GarbageInducesNothing(p: Payload)
    requires p.failureAttempts.Some?
    ensures var text := Trim(p.failureAttempts.value);
            var body := if text != "" && text[0] in "+-" then text[1..] else text;
            ResolveFailureAttempts(p) > 0 ==> body != "" && forall i :: 0 <= i < |body| ==> IsDigit(body[i])
  {
    hide Trim;
    var text := Trim(p.failureAttempts.value);
    DigitsIff(if text != "" && text[0] in "+-" then text[1..] else text);
  }

  /** The counter goes by the message id; without one, by the failure-key header; without either, by the
      payload itself. */
  lemma KeyOrder(p: Payload)
    ensures p.messageId != "" ==> Key(p) == p.messageId
    ensures p.messageId == "" && p.failureKey != "" ==> Key(p) == p.failureKey
    ensures p.messageId == "" && p.failureKey == "" ==> Key(p) == p.address
  {
  }

  /** The scenario header, trimmed and lower-cased, against the three names; an empty or missing one
      leaves the default, any other means success. */
  lemma ScenarioNames(default_: Scenario, p: Payload)
    ensures var s := ResolveScenario(default_, p);
            if p.scenario.None? || p.scenario.value == "" then s == default_
            else
              var v := ToLower(Trim(p.scenario.value));
              && (s == PermanentScenario <==> v == "permanent")
              && (s == TransientScenario <==> v == "transient")
              && (s == TimeoutScenario <==> v == "timeout")
  {
    hide Trim, ToLower;
  }

  // ----- what each scenario makes of a record -----

  lemma PermanentTextRead()
    ensures FindCode(PERMANENT_TEXT) == Some(550)
  {
    var s := PERMANENT_TEXT;
    assert s[0..] == s && s[5] == '5' && s[6] == '5' && s[7] == '0';
    assert MatchesHere(s, 1);
    CodeFound(s, 0, 1);
  }

  /** The adapter's answer to one send: permanent in the permanent scenario, a transient error in the
      transient and timeout scenarios, without recipients, and when the context ends the send. */
  lemma ScenarioAnswers(state: map<string, int>, default_: Scenario, call: Call)
    ensures var s := ResolveScenario(default_, call.p);
            var answer := Answer(SendOn(state, default_, call).1);
            if call.p.recipients == 0 || call.interrupt.WhileDelayed? then answer == Error(false, false, true)
            else
              && (s == PermanentScenario ==> answer == Error(false, true, false))
              && (s == TransientScenario || s == TimeoutScenario ==> answer == Error(false, false, true))
              && (s == Success ==> answer == Accepted || answer == Error(false, false, true))
  {
    hide FindCode, Contains, ResolveScenario, ResolveFailureAttempts, Key, Consume;
    TransientText();
    PermanentTextRead();
    var r := SendOn(state, default_, call).1;
    if r.err.Some? {
      EmailClues(r.code, r.err.value);
    }
    NoRecipientText();
  }

  lemma NoRecipientText()
    ensures FindCode("email: at least one recipient is required") == None
    ensures FindCode("context canceled") == None && FindCode("context deadline exceeded") == None
    ensures FindCode("transient error") == None && FindCode("permanent error") == None
  {
    hide FindCode;
    NoDigits("email: at least one recipient is required");
    NoDigits("context canceled");
    NoDigits("context deadline exceeded");
    NoDigits("transient error");
    NoDigits("permanent error");
  }

  /** Without a digit in it a text carries no code. */
  lemma NoDigits(s: string)
    requires forall i :: 0 <= i < |s| ==> !IsDigit(s[i])
    ensures FindCode(s) == None
  {
    hide FindCode, MatchesHere;
    NoCodeIff(s);
    forall i: nat, blanks: nat | i <= |s| ensures !MatchesHere(s[i..], blanks) {
      if MatchesHere(s[i..], blanks) {
        MatchHasDigit(s, i, blanks);
      }
    }
  }

  lemma MatchHasDigit(s: string, i: nat, blanks: nat)
    requires i <= |s| && MatchesHere(s[i..], blanks)
    ensures exists n :: 0 <= n < |s| && IsDigit(s[n])
  {
    assert IsDigit(s[i..][4 + blanks]) && s[i..][4 + blanks] == s[i + 4 + blanks];
  }

  /** A record in the permanent scenario is dead-lettered as permanent at once; one in the transient or
      the timeout scenario as transient after the whole budget. */
  lemma ScenarioEnds(default_: Scenario, call: Call, states: nat -> map<string, int>, max: nat, waits: nat -> WaitEnd)
    requires max >= 1 && call.p.recipients > 0 && !call.interrupt.WhileDelayed? && forall k :: waits(k) == Elapsed
    ensures var o := Run(max, (k: nat) => Answer(SendOn(states(k), default_, call).1), waits, 1);
            && (ResolveScenario(default_, call.p) == PermanentScenario ==> o == DeadAt(1, Permanent))
            && (ResolveScenario(default_, call.p) in {TransientScenario, TimeoutScenario} ==>
                  o == DeadAt(max, Transient))
  {
    hide Answer, SendOn, ResolveScenario;
    var answers := (k: nat) => Answer(SendOn(states(k), default_, call).1);
    forall k: nat
      ensures ResolveScenario(default_, call.p) == PermanentScenario ==> answers(k) == Error(false, true, false)
      ensures ResolveScenario(default_, call.p) in {TransientScenario, TimeoutScenario} ==>
                answers(k) == Error(false, false, true)
    {
      ScenarioAnswers(states(k), default_, call);
    }
    RunOutcomes(max, answers, waits, 1);
    RunOutcomes(max, answers, waits, max);
  }
}
