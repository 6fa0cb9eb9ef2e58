/** The channel adapters: how a provider's answer becomes a status for the event and a sentinel
    error for the engine. Classification and wrapping are written out separately, as they are in
    the adapters. */
module Adapters {
  import opened Text
  import opened Outcomes
  import opened Options

  // ----- errors -----

  datatype Sentinel = ErrTransient | ErrPermanent | Canceled | DeadlineExceeded

  /** An error value: a sentinel; a plain error with its text, the HTTP status it may carry, and
      whether it is a network timeout; or an error that wraps another with %w. */
  datatype GoError =
    | Sentinel(s: Sentinel)
    | Plain(text: string, httpStatus: Option<int>, netTimeout: bool)
    | Wrap(inner: GoError, text: string)

  /** `errors.Is` against a sentinel. */
  predicate Is(e: GoError, s: Sentinel) {
    match e
    case Sentinel(x) => x == s
    case Plain(_, _, _) => false
    case Wrap(inner, _) => Is(inner, s)
  }

  function ErrorText(e: GoError): string {
    match e
    case Sentinel(ErrTransient) => "transient error"
    case Sentinel(ErrPermanent) => "permanent error"
    case Sentinel(Canceled) => "context canceled"
    case Sentinel(DeadlineExceeded) => "context deadline exceeded"
    case Plain(text, _, _) => text
    case Wrap(_, text) => text
  }

  /** `errors.As` against an error that has a status code. */
  function StatusCode(e: GoError): Option<int> {
    match e
    case Sentinel(_) => None
    case Plain(_, status, _) => status
    case Wrap(inner, _) => StatusCode(inner)
  }

  predicate NetTimeout(e: GoError) {
    match e
    case Sentinel(s) => s == DeadlineExceeded
    case Plain(_, _, t) => t
    case Wrap(inner, _) => NetTimeout(inner)
  }

  /** `%w: %v`: the sentinel stays visible to `errors.Is`, the cause only as text. */
  function WrapTransient(e: Option<GoError>): GoError {
    if e.None? then Sentinel(ErrTransient)
    else Wrap(Sentinel(ErrTransient), "transient error: " + ErrorText(e.value))
  }

  function WrapPermanent(e: Option<GoError>): GoError {
    if e.None? then Sentinel(ErrPermanent)
    else Wrap(Sentinel(ErrPermanent), "permanent error: " + ErrorText(e.value))
  }

  /** What the engine sees of an adapter's error. */
  function Seen(e: GoError): SendResult {
    Error(Is(e, Canceled) || Is(e, DeadlineExceeded), Is(e, ErrPermanent), Is(e, ErrTransient))
  }

  /** A classified error: exactly one of the two sentinels, and no context error. */
  predicate Classified(r: SendResult) {
    r.Error? ==> !r.ctx && r.permanent != r.transient
  }

  /** Whatever is wrapped, even a cancellation, only the sentinel shows. */
  lemma WrappersHideCauses(e: Option<GoError>)
    ensures Seen(WrapTransient(e)) == Error(false, false, true)
    ensures Seen(WrapPermanent(e)) == Error(false, true, false)
  {
    forall s: Sentinel, x: Sentinel, text: string
      ensures Is(Wrap(Sentinel(x), text), s) <==> x == s
    {
      assert Is(Sentinel(x), s) <==> x == s;
    }
  }

  /** A context error that is not wrapped shows; wrapping with %w keeps what shows. */
  lemma ContextErrorsShow(e: GoError, text: string)
    ensures Seen(Sentinel(Canceled)) == Seen(Sentinel(DeadlineExceeded)) == Error(true, false, false)
    ensures Seen(Wrap(e, text)) == Seen(e)
  {
  }

  // ----- SMS and WhatsApp -----

  datatype ProviderStatus = StatusRejected | StatusRateLimited | StatusUnknown

  /** `bodyCode` is the Twilio error code of the body, when it parses and has one. */
  datatype RawResponse = RawResponse(code: int, status: string, bodyCode: Option<int>)

  predicate Mentions(s: string, a: string, b: string) {
    Contains(ToLower(s), a) || Contains(ToLower(s), b)
  }

  function ClassifyWhatsApp(raw: Option<RawResponse>, err: GoError): ProviderStatus {
    if raw.Some? && raw.value.bodyCode.Some? && raw.value.bodyCode.value in {21610, 21612, 21614, 21211}
          then StatusRejected
    else if raw.Some? && raw.value.bodyCode.Some?
            && raw.value.bodyCode.value in {63018, 63016, 63015, 63002, 30001, 30003} then StatusRateLimited
    else if raw.Some? && Mentions(raw.value.status, "permanent", "invalid") then StatusRejected
    else if raw.Some? && Contains(ToLower(raw.value.status), "transient") then StatusRateLimited
    else if raw.Some? && raw.value.code >= 500 then StatusRateLimited
    else if raw.Some? && raw.value.code == 429 then StatusRateLimited
    else if raw.Some? && raw.value.code >= 400 then StatusRejected
    else if Mentions(ErrorText(err), "invalid", "permanent") then StatusRejected
    else if Mentions(ErrorText(err), "timeout", "temporary") then StatusRateLimited
    else StatusUnknown
  }

  function WrapWhatsApp(raw: Option<RawResponse>, err: GoError): GoError {
    if raw.Some? && raw.value.bodyCode.Some? && raw.value.bodyCode.value in {21610, 21612, 21614, 21211}
          then WrapPermanent(Some(err))
    else if raw.Some? && raw.value.bodyCode.Some?
            && raw.value.bodyCode.value in {63018, 63016, 63015, 63002, 30001, 30003} then WrapTransient(Some(err))
    else if raw.Some? && Mentions(raw.value.status, "permanent", "invalid") then WrapPermanent(Some(err))
    else if raw.Some? && Contains(ToLower(raw.value.status), "transient") then WrapTransient(Some(err))
    else if raw.Some? && raw.value.code >= 500 then WrapTransient(Some(err))
    else if raw.Some? && raw.value.code == 429 then WrapTransient(Some(err))
    else if raw.Some? && raw.value.code >= 400 then WrapPermanent(Some(err))
    else if Mentions(ErrorText(err), "permanent", "invalid") then WrapPermanent(Some(err))
    else if Mentions(ErrorText(err), "timeout", "temporary") then WrapTransient(Some(err))
    else WrapTransient(Some(err))
  }

  function ClassifySms(raw: Option<RawResponse>, err: GoError): ProviderStatus {
    if raw.Some? && raw.value.bodyCode.Some? && raw.value.bodyCode.value in {21610, 21612, 21614, 21211}
          then StatusRejected
    else if raw.Some? && raw.value.bodyCode.Some?
            && raw.value.bodyCode.value in {30001, 30002, 30003, 30005} then StatusRateLimited
    else if raw.Some? && Mentions(raw.value.status, "permanent", "invalid") then StatusRejected
    else if raw.Some? && Contains(ToLower(raw.value.status), "transient") then StatusRateLimited
    else if raw.Some? && raw.value.code >= 500 then StatusRateLimited
    else if raw.Some? && raw.value.code == 429 then StatusRateLimited
    else if raw.Some? && raw.value.code >= 400 then StatusRejected
    else if StatusCode(err).Some? && StatusCode(err).value >= 500 then StatusRateLimited
    else if StatusCode(err).Some? && StatusCode(err).value >= 400 then StatusRejected
    else if Contains(ToLower(ErrorText(err)), "timeout") then StatusRateLimited
    else StatusUnknown
  }

  function WrapSms(raw: Option<RawResponse>, err: GoError): GoError {
    if raw.Some? && raw.value.bodyCode.Some? && raw.value.bodyCode.value in {21610, 21612, 21614, 21211}
          then WrapPermanent(Some(err))
    else if raw.Some? && raw.value.bodyCode.Some?
            && raw.value.bodyCode.value in {30001, 30002, 30003, 30005} then WrapTransient(Some(err))
    else if raw.Some? && Mentions(raw.value.status, "permanent", "invalid") then WrapPermanent(Some(err))
    else if raw.Some? && Contains(ToLower(raw.value.status), "transient") then WrapTransient(Some(err))
    else if raw.Some? && raw.value.code >= 500 then WrapTransient(Some(err))
    else if raw.Some? && raw.value.code == 429 then WrapTransient(Some(err))
    else if raw.Some? && raw.value.code >= 400 then WrapPermanent(Some(err))
    else if Mentions(ErrorText(err), "permanent", "invalid") then WrapPermanent(Some(err))
    else if Mentions(ErrorText(err), "timeout", "temporary") then WrapTransient(Some(err))
    else WrapTransient(Some(err))
  }

  /** For WhatsApp the reported status is `rejected` exactly when the engine will not retry. */
  lemma WhatsAppAgrees(raw: Option<RawResponse>, err: GoError)
    ensures ClassifyWhatsApp(raw, err).StatusRejected? <==> Seen(WrapWhatsApp(raw, err)).permanent
    ensures Classified(Seen(WrapWhatsApp(raw, err)))
  {
    hide Contains;
    WrappersHideCauses(Some(err));
  }

  /** The raw SMS response settles the classification by itself: a known body code, a telling
      status, or an HTTP code from 400 up. */
  predicate RawDecides(raw: Option<RawResponse>) {
    raw.Some? && (
      || (raw.value.bodyCode.Some?
          && raw.value.bodyCode.value in {21610, 21612, 21614, 21211, 30001, 30002, 30003, 30005})
      || Mentions(raw.value.status, "permanent", "invalid")
      || Contains(ToLower(raw.value.status), "transient")
      || raw.value.code >= 400)
  }

  predicate SmsTells(raw: Option<RawResponse>, err: GoError) {
    || RawDecides(raw)
    || ((StatusCode(err).Some? && 400 <= StatusCode(err).value < 500)
        <==> Mentions(ErrorText(err), "permanent", "invalid"))
  }

  /** For SMS the two agree exactly when the raw response decides, or when the error's HTTP status
      is a client error just in case its text says permanent or invalid. */
  lemma SmsAgreesIff(raw: Option<RawResponse>, err: GoError)
    ensures (ClassifySms(raw, err).StatusRejected? <==> Seen(WrapSms(raw, err)).permanent)
       <==> SmsTells(raw, err)
    ensures Classified(Seen(WrapSms(raw, err)))
  {
    hide Contains;
    WrappersHideCauses(Some(err));
  }

  // ----- email -----

  predicate RegexSpace(c: char) { c == ' ' || c == '\t' || c == '\n' || c == '\r' || c == 0x0C as char }

  function SkipSpaces(s: string): string {
    if s != [] && RegexSpace(s[0]) then SkipSpaces(s[1..]) else s
  }

  /** The three digits of `smtp\s+(\d{3})` matched at the front. */
  function CodeAtFront(s: string): Option<int> {
    if !("smtp" <= s) then None
    else
      var rest := SkipSpaces(s[4..]);
      if |rest| < |s| - 4 && |rest| >= 3 && IsDigit(rest[0]) && IsDigit(rest[1]) && IsDigit(rest[2]) then
        Some((rest[0] as int - 48) * 100 + (rest[1] as int - 48) * 10 + (rest[2] as int - 48))
      else None
  }

  /** Leftmost match in an error text. */
  function FindCode(s: string): Option<int> {
    if CodeAtFront(s).Some? then CodeAtFront(s) else if s == [] then None else FindCode(s[1..])
  }

  function DigitsValue(d: string): int
    requires |d| == 3
  {
    (d[0] as int - 48) * 100 + (d[1] as int - 48) * 10 + (d[2] as int - 48)
  }

  /** The text starts with a match: `smtp`, one or more white space characters, three digits. */
  ghost predicate MatchesHere(s: string, blanks: nat) {
    && "smtp" <= s && blanks >= 1 && |s| >= 4 + blanks + 3
    && (forall i :: 4 <= i < 4 + blanks ==> RegexSpace(s[i]))
    && (forall i :: 4 + blanks <= i < 4 + blanks + 3 ==> IsDigit(s[i]))
  }

  lemma {:induction false} SkipsBlanks(s: string, blanks: nat)
    requires blanks < |s| && !RegexSpace(s[blanks])
    requires forall i :: 0 <= i < blanks ==> RegexSpace(s[i])
    ensures SkipSpaces(s) == s[blanks..]
  {
    if blanks > 0 {
      SkipsBlanks(s[1..], blanks - 1);
    }
  }

  lemma {:induction false} SkipsSome(s: string) returns (blanks: nat)
    ensures blanks <= |s| && SkipSpaces(s) == s[blanks..]
    ensures forall i :: 0 <= i < blanks ==> RegexSpace(s[i])
  {
    blanks := 0;
    if s != [] && RegexSpace(s[0]) {
      blanks := SkipsSome(s[1..]);
      blanks := blanks + 1;
      forall i | 0 <= i < blanks ensures RegexSpace(s[i]) {
        assert i > 0 ==> s[i] == s[1..][i - 1];
      }
    }
  }

  lemma MatchRead(s: string, blanks: nat)
    requires MatchesHere(s, blanks)
    ensures CodeAtFront(s) == Some(DigitsValue(s[4 + blanks..4 + blanks + 3]))
  {
    var rest := s[4..];
    assert IsDigit(rest[blanks]) && !RegexSpace(rest[blanks]);
    SkipsBlanks(rest, blanks);
    assert rest[blanks..] == s[4 + blanks..];
  }

  lemma MatchFound(s: string) returns (blanks: nat)
    requires CodeAtFront(s).Some?
    ensures MatchesHere(s, blanks)
  {
    var rest := s[4..];
    blanks := SkipsSome(rest);
    assert rest[blanks..] == s[4 + blanks..];
    forall i | 4 <= i < 4 + blanks ensures RegexSpace(s[i]) {
      assert s[i] == rest[i - 4];
    }
    forall i | 4 + blanks <= i < 4 + blanks + 3 ensures IsDigit(s[i]) {
      assert s[i] == rest[blanks..][i - 4 - blanks];
    }
  }

  /** The pattern first matches at position i. */
  ghost predicate FirstMatch(s: string, i: nat, blanks: nat) {
    && i <= |s| && MatchesHere(s[i..], blanks)
    && forall j, n :: 0 <= j < i ==> !MatchesHere(s[j..], n)
  }

  /** The code is the three digits of the leftmost match, wherever in the text that is. */
  lemma {:induction false} CodeFound(s: string, i: nat, blanks: nat)
    requires FirstMatch(s, i, blanks)
    ensures FindCode(s) == Some(DigitsValue(s[i..][4 + blanks..4 + blanks + 3]))
  {
    hide CodeAtFront, DigitsValue, MatchesHere;
    if i == 0 {
      assert s[0..] == s;
      MatchRead(s, blanks);
    } else {
      if CodeAtFront(s).Some? {
        var n := MatchFound(s);
        assert s[0..] == s && !MatchesHere(s[0..], n);
      }
      NextMatch(s, i, blanks);
      CodeFound(s[1..], i - 1, blanks);
      assert s[1..][i - 1..] == s[i..];
    }
  }

  lemma NextMatch(s: string, i: nat, blanks: nat)
    requires FirstMatch(s, i, blanks) && i > 0
    ensures FirstMatch(s[1..], i - 1, blanks)
  {
    hide MatchesHere;
    assert s[1..][i - 1..] == s[i..];
    forall j, n | 0 <= j < i - 1 ensures !MatchesHere(s[1..][j..], n) {
      assert s[1..][j..] == s[j + 1..];
    }
  }

  /** No code is found exactly when the pattern matches nowhere. */
  lemma {:induction false} NoCodeIff(s: string)
    ensures FindCode(s) == None <==> forall i, blanks :: 0 <= i <= |s| ==> !MatchesHere(s[i..], blanks)
  {
    hide CodeAtFront, MatchesHere;
    assert s[0..] == s;
    if CodeAtFront(s).Some? {
      var n := MatchFound(s);
      assert MatchesHere(s[0..], n);
    } else {
      forall n ensures !MatchesHere(s[0..], n) {
        if MatchesHere(s, n) {
          MatchRead(s, n);
        }
      }
      if s != [] {
        NoCodeIff(s[1..]);
        forall i, n | 0 <= i <= |s[1..]| ensures MatchesHere(s[1..][i..], n) <==> MatchesHere(s[i + 1..], n) {
          assert s[1..][i..] == s[i + 1..];
        }
        assert forall i, n :: 1 <= i <= |s| ==> (MatchesHere(s[i..], n) <==> MatchesHere(s[1..][i - 1..], n));
      }
    }
  }

  function SmtpCode(err: GoError): Option<int> {
    FindCode(ErrorText(err))
  }

  predicate IsPermanentCode(code: int) {
    code in {530, 535, 550, 551, 553}
  }

  predicate IsTimeout(err: GoError) {
    Is(err, DeadlineExceeded) || Is(err, Canceled) || NetTimeout(err) || Contains(ToLower(ErrorText(err)), "timeout")
  }

  function ClassifyStatus(err: GoError, code: Option<int>): ProviderStatus {
    if code.Some? && IsPermanentCode(code.value) then StatusRejected
    else if code.Some? && code.value >= 400 then StatusRateLimited
    else if IsTimeout(err) then StatusRateLimited
    else StatusUnknown
  }

  /** `buildErrorResponse` trusts the raw code first, the error's text second. */
  function EmailStatus(rawCode: Option<int>, err: GoError): ProviderStatus {
    ClassifyStatus(err, if rawCode.None? && SmtpCode(err).Some? then SmtpCode(err) else rawCode)
  }

  /** `wrapError` trusts the error's text first, the raw code second. */
  function WrapEmail(rawCode: Option<int>, err: GoError): GoError {
    var code := if SmtpCode(err).Some? then SmtpCode(err) else rawCode;
    if code.Some? && IsPermanentCode(code.value) then WrapPermanent(Some(err))
    else if IsTimeout(err) then WrapTransient(Some(err))
    else WrapTransient(Some(err))
  }

  predicate EmailTells(rawCode: Option<int>, err: GoError) {
    rawCode.Some? && SmtpCode(err).Some? ==> (IsPermanentCode(rawCode.value) <==> IsPermanentCode(SmtpCode(err).value))
  }

  /** For email the two agree exactly when the raw code and the error's code, if both are there,
      do not disagree about permanence. */
  lemma EmailAgreesIff(rawCode: Option<int>, err: GoError)
    ensures (EmailStatus(rawCode, err).StatusRejected? <==> Seen(WrapEmail(rawCode, err)).permanent)
       <==> EmailTells(rawCode, err)
    ensures Classified(Seen(WrapEmail(rawCode, err)))
  {
    hide Contains, SmtpCode;
    WrappersHideCauses(Some(err));
  }

  /** An input on which they differ: the raw response has the retryable code 451, the error text the
      permanent code 550; the event says rate limited and the engine gives up. */
  lemma EmailCanDisagree()
    ensures var err := Plain("smtp 550", None, false);
            !EmailStatus(Some(451), err).StatusRejected? && Seen(WrapEmail(Some(451), err)).permanent
  {
    hide FindCode, Contains;
    PermanentText();
    WrappersHideCauses(Some(Plain("smtp 550", None, false)));
  }

  lemma PermanentText()
    ensures FindCode("smtp 550") == Some(550)
  {
    var text := "smtp 550";
    assert text[0..] == text && text[5] == '5' && text[6] == '5' && text[7] == '0';
    assert MatchesHere(text, 1);
    CodeFound(text, 0, 1);
  }

  /** For SMS: no response, and an error text that says invalid; the event says unknown and the engine
      gives up. */
  lemma SmsCanDisagree()
    ensures var err := Plain("invalid", None, false);
            !ClassifySms(None, err).StatusRejected? && Seen(WrapSms(None, err)).permanent
  {
    var text := "invalid";
    assert ToLower(text) == text;
    assert OccursAt(text, "invalid", 0);
    WrappersHideCauses(Some(Plain(text, None, false)));
  }

  // ----- which clue decides -----

  /** For WhatsApp the clues come in this order: the body's error code, the status text, the HTTP code,
      the error text. */
  lemma WhatsAppClues(raw: Option<RawResponse>, err: GoError)
    ensures var text := ToLower(ErrorText(err));
            var status := if raw.Some? then ToLower(raw.value.status) else "";
            var code := if raw.Some? then raw.value.code else 0;
            var body := if raw.Some? && raw.value.bodyCode.Some? then raw.value.bodyCode.value else 0;
            var never := body in {21610, 21612, 21614, 21211};
            var later := body in {63018, 63016, 63015, 63002, 30001, 30003};
            var statusNever := raw.Some? && (Contains(status, "permanent") || Contains(status, "invalid"));
            var statusLater := raw.Some? && Contains(status, "transient");
            var textNever := Contains(text, "permanent") || Contains(text, "invalid");
            var textLater := Contains(text, "timeout") || Contains(text, "temporary");
            var permanent := never || (!later && (statusNever || (!statusLater
                               && ((400 <= code < 500 && code != 429) || (code < 400 && textNever)))));
            && (Seen(WrapWhatsApp(raw, err)) == Error(false, permanent, !permanent))
            && (ClassifyWhatsApp(raw, err).StatusUnknown?
                <==> !permanent && !later && !statusLater && code < 400 && !textLater)
  {
    hide Contains;
    WrappersHideCauses(Some(err));
  }

  /** For SMS in the same order; but the published status looks at the error's own HTTP status and for
      `timeout`, where the error returned looks at its text. */
  lemma SmsClues(raw: Option<RawResponse>, err: GoError)
    ensures var text := ToLower(ErrorText(err));
            var status := if raw.Some? then ToLower(raw.value.status) else "";
            var code := if raw.Some? then raw.value.code else 0;
            var body := if raw.Some? && raw.value.bodyCode.Some? then raw.value.bodyCode.value else 0;
            var own := if StatusCode(err).Some? then StatusCode(err).value else 0;
            var never := body in {21610, 21612, 21614, 21211};
            var later := body in {30001, 30002, 30003, 30005};
            var statusNever := raw.Some? && (Contains(status, "permanent") || Contains(status, "invalid"));
            var statusLater := raw.Some? && Contains(status, "transient");
            var textNever := Contains(text, "permanent") || Contains(text, "invalid");
            var decided := never || (!later && (statusNever || (!statusLater && 400 <= code < 500 && code != 429)));
            var open := !never && !later && !statusNever && !statusLater && code < 400;
            var permanent := decided || (open && textNever);
            && (Seen(WrapSms(raw, err)) == Error(false, permanent, !permanent))
            && (ClassifySms(raw, err).StatusRejected? <==> decided || (open && 400 <= own < 500))
            && (ClassifySms(raw, err).StatusUnknown? <==> open && own < 400 && !Contains(text, "timeout"))
  {
    hide Contains;
    WrappersHideCauses(Some(err));
  }

  /** For e-mail: the error is permanent just in case the code in its text, or, without one, the raw
      code, is one of five; the status looks at the raw code first. */
  lemma EmailClues(rawCode: Option<int>, err: GoError)
    ensures var found := FindCode(ErrorText(err));
            var used := if found.Some? then found else rawCode;
            var shown := if rawCode.Some? then rawCode else found;
            var hung := Is(err, DeadlineExceeded) || Is(err, Canceled) || NetTimeout(err)
                        || Contains(ToLower(ErrorText(err)), "timeout");
            var permanent := used.Some? && used.value in {530, 535, 550, 551, 553};
            var rejected := shown.Some? && shown.value in {530, 535, 550, 551, 553};
            && Seen(WrapEmail(rawCode, err)) == Error(false, permanent, !permanent)
            && (EmailStatus(rawCode, err).StatusRejected? <==> rejected)
            && (EmailStatus(rawCode, err).StatusRateLimited?
                <==> !rejected && ((shown.Some? && shown.value >= 400) || hung))
            && (EmailStatus(rawCode, err).StatusUnknown?
                <==> !rejected && !(shown.Some? && shown.value >= 400) && !hung)
  {
    hide Contains, FindCode;
    WrappersHideCauses(Some(err));
  }

  /** A network timeout shows through wrapping, and a deadline is one. */
  lemma TimeoutsShow(e: GoError, text: string, t: bool, status: Option<int>)
    ensures NetTimeout(Wrap(e, text)) == NetTimeout(e) && StatusCode(Wrap(e, text)) == StatusCode(e)
    ensures NetTimeout(Plain(text, status, t)) == t && StatusCode(Plain(text, status, t)) == status
    ensures NetTimeout(Sentinel(DeadlineExceeded)) && !NetTimeout(Sentinel(Canceled))
  {
  }

  // ----- one attempt, as an adapter reports it -----

  /** The adapter refuses a missing or mistyped request itself; otherwise it has the provider's raw
      response and error. */
  datatype Attempted = Refused(why: string) | Attempted(raw: Option<RawResponse>, err: Option<GoError>)

  /** The same for e-mail, where the raw response matters for its code only. */
  datatype EmailAttempt = EmailRefused(why: string) | EmailAttempt(rawCode: Option<int>, err: Option<GoError>)

  function RefusalOf(why: string): SendResult {
    Seen(WrapPermanent(Some(Plain(why, None, false))))
  }

  function WhatsAppAnswer(a: Attempted): SendResult {
    match a
    case Refused(why) => RefusalOf(why)
    case Attempted(raw, err) => if err.None? then Accepted else Seen(WrapWhatsApp(raw, err.value))
  }

  function SmsAnswer(a: Attempted): SendResult {
    match a
    case Refused(why) => RefusalOf(why)
    case Attempted(raw, err) => if err.None? then Accepted else Seen(WrapSms(raw, err.value))
  }

  function EmailAnswer(a: EmailAttempt): SendResult {
    match a
    case EmailRefused(why) => RefusalOf(why)
    case EmailAttempt(rawCode, err) => if err.None? then Accepted else Seen(WrapEmail(rawCode, err.value))
  }

  /** The provider status published with a failed attempt; a refusal has none. */
  function WhatsAppReport(a: Attempted): Option<ProviderStatus> {
    if a.Attempted? && a.err.Some? then Some(ClassifyWhatsApp(a.raw, a.err.value)) else None
  }

  function SmsReport(a: Attempted): Option<ProviderStatus> {
    if a.Attempted? && a.err.Some? then Some(ClassifySms(a.raw, a.err.value)) else None
  }

  function EmailReport(a: EmailAttempt): Option<ProviderStatus> {
    if a.EmailAttempt? && a.err.Some? then Some(EmailStatus(a.rawCode, a.err.value)) else None
  }

  /** The status is `rejected` just in case the answer is permanent. */
  predicate Tells(status: Option<ProviderStatus>, r: SendResult) {
    r.Error? && (status == Some(StatusRejected) <==> r.permanent)
  }

  lemma WhatsAppAnswers(a: Attempted)
    ensures Classified(WhatsAppAnswer(a))
    ensures WhatsAppAnswer(a).Error? ==> (Tells(WhatsAppReport(a), WhatsAppAnswer(a)) <==> a.Attempted?)
  {
    hide ClassifyWhatsApp, WrapWhatsApp;
    if a.Refused? {
      WrappersHideCauses(Some(Plain(a.why, None, false)));
    } else if a.err.Some? {
      WhatsAppAgrees(a.raw, a.err.value);
    }
  }

  lemma SmsAnswers(a: Attempted)
    ensures Classified(SmsAnswer(a))
    ensures SmsAnswer(a).Error? ==> (a.Attempted? ==> a.err.Some?)
    ensures SmsAnswer(a).Error? ==>
              (Tells(SmsReport(a), SmsAnswer(a)) <==> a.Attempted? && SmsTells(a.raw, a.err.value))
  {
    hide ClassifySms, WrapSms, SmsTells;
    if a.Refused? {
      WrappersHideCauses(Some(Plain(a.why, None, false)));
    } else if a.err.Some? {
      SmsAgreesIff(a.raw, a.err.value);
    }
  }

  lemma EmailAnswers(a: EmailAttempt)
    ensures Classified(EmailAnswer(a))
    ensures EmailAnswer(a).Error? ==> (a.EmailAttempt? ==> a.err.Some?)
    ensures EmailAnswer(a).Error? ==>
              (Tells(EmailReport(a), EmailAnswer(a)) <==> a.EmailAttempt? && EmailTells(a.rawCode, a.err.value))
  {
    hide EmailStatus, WrapEmail, EmailTells;
    if a.EmailRefused? {
      WrappersHideCauses(Some(Plain(a.why, None, false)));
    } else if a.err.Some? {
      EmailAgreesIff(a.rawCode, a.err.value);
    }
  }

  // ----- under the engine -----

  /** With classified errors the loop never defers for a context error and never writes an
      `unknown` DLQ entry; it writes a `permanent` one exactly when the deciding answer is
      permanent. */
  lemma ClassifiedRun(max: nat, answers: nat -> SendResult, waits: nat -> WaitEnd)
    requires max >= 1 && forall k :: Classified(answers(k))
    ensures var o := Run(max, answers, waits, 1);
            && 1 <= o.k <= max && !o.DeferredAt?
            && (o.DeadAt? ==> o.kind in {Permanent, Transient} && answers(o.k).Error?)
            && (o.DeadAt? ==> (o.kind == Permanent <==> answers(o.k).permanent))
  {
    var k := RunEnd(max, answers, waits, 1);
    RunSkips(max, answers, waits, 1, k);
    assert Classified(answers(k));
  }

  /** The DLQ record is permanent just in case the last provider status is `rejected`. */
  predicate Told(o: Outcome, status: Option<ProviderStatus>) {
    o.DeadAt? && (o.kind == Permanent <==> status == Some(StatusRejected))
  }

  /** A dead-lettered WhatsApp record is permanent exactly when the status published with its last
      attempt is `rejected`, unless the adapter refused the request: then it is permanent, without a
      status. */
  lemma WhatsAppDeadLetters(max: nat, sends: nat -> Attempted, waits: nat -> WaitEnd)
    requires max >= 1
    ensures var o := Run(max, (k: nat) => WhatsAppAnswer(sends(k)), waits, 1);
            && !o.DeferredAt?
            && (o.DeadAt? ==> o.kind in {Permanent, Transient})
            && (o.DeadAt? ==> (Told(o, WhatsAppReport(sends(o.k))) <==> sends(o.k).Attempted?))
  {
    hide WhatsAppAnswer, WhatsAppReport;
    var answers := (k: nat) => WhatsAppAnswer(sends(k));
    forall k: nat ensures Classified(answers(k)) {
      WhatsAppAnswers(sends(k));
    }
    ClassifiedRun(max, answers, waits);
    WhatsAppAnswers(sends(Run(max, answers, waits, 1).k));
  }

  /** For SMS they coincide exactly when the adapter did not refuse, and the deciding raw response
      decides or the error's HTTP status is a client error just in case its text says permanent or
      invalid. */
  lemma SmsDeadLetters(max: nat, sends: nat -> Attempted, waits: nat -> WaitEnd)
    requires max >= 1
    ensures var o := Run(max, (k: nat) => SmsAnswer(sends(k)), waits, 1);
            && !o.DeferredAt?
            && (o.DeadAt? ==> o.kind in {Permanent, Transient} && (sends(o.k).Attempted? ==> sends(o.k).err.Some?))
            && (o.DeadAt? ==>
                  (Told(o, SmsReport(sends(o.k)))
                   <==> sends(o.k).Attempted? && SmsTells(sends(o.k).raw, sends(o.k).err.value)))
  {
    hide SmsAnswer, SmsReport, SmsTells;
    var answers := (k: nat) => SmsAnswer(sends(k));
    forall k: nat ensures Classified(answers(k)) {
      SmsAnswers(sends(k));
    }
    ClassifiedRun(max, answers, waits);
    SmsAnswers(sends(Run(max, answers, waits, 1).k));
  }

  /** For e-mail they coincide exactly when the adapter did not refuse, and the raw code and the error's
      code, if both are there, agree about permanence. */
  lemma EmailDeadLetters(max: nat, sends: nat -> EmailAttempt, waits: nat -> WaitEnd)
    requires max >= 1
    ensures var o := Run(max, (k: nat) => EmailAnswer(sends(k)), waits, 1);
            && !o.DeferredAt?
            && (o.DeadAt? ==> o.kind in {Permanent, Transient} && (sends(o.k).EmailAttempt? ==> sends(o.k).err.Some?))
            && (o.DeadAt? ==>
                  (Told(o, EmailReport(sends(o.k)))
                   <==> sends(o.k).EmailAttempt? && EmailTells(sends(o.k).rawCode, sends(o.k).err.value)))
  {
    hide EmailAnswer, EmailReport, EmailTells;
    var answers := (k: nat) => EmailAnswer(sends(k));
    forall k: nat ensures Classified(answers(k)) {
      EmailAnswers(sends(k));
    }
    ClassifiedRun(max, answers, waits);
    EmailAnswers(sends(Run(max, answers, waits, 1).k));
  }

  /** Through the loop: one of the five codes ends an e-mail record as permanent at the attempt that
      meets it; any other failure, below the budget and with its wait elapsed, never ends it. */
  lemma EmailCodeDecides(max: nat, sends: nat -> EmailAttempt, waits: nat -> WaitEnd, k: nat)
    requires 1 <= k <= max && sends(k).EmailAttempt? && sends(k).err.Some?
    ensures var o := Run(max, (k: nat) => EmailAnswer(sends(k)), waits, 1);
            var found := FindCode(ErrorText(sends(k).err.value));
            var used := if found.Some? then found else sends(k).rawCode;
            if used.Some? && used.value in {530, 535, 550, 551, 553}
            then o.k <= k && (o.k == k ==> o == DeadAt(k, Permanent))
            else k < max && waits(k) == Elapsed ==> o.k != k
  {
    hide WrapEmail, FindCode, Run;
    var answers := (k: nat) => EmailAnswer(sends(k));
    EmailClues(sends(k).rawCode, sends(k).err.value);
    AnswerDecides(max, answers, waits, k);
  }
}
