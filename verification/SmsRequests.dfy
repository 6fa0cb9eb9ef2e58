/** An SMS request checked and rewritten in place, and when a second pass leaves it alone. */
module SmsRequests {
  import opened Text
  import opened MapFold
  import opened Options
  import opened Metadata

  /** A point in time, counted from the zero time, and the zone it is shown in. */
  datatype Time = Time(instant: int, zone: int)

  datatype Request = Request(channel: string, messageId: string, traceId: string, tenantId: string, createdAt: Time,
                             from: string, to: seq<string>, bodyType: string,
                             content: string, mediaType: string, meta: Entries)

  datatype Settings = Settings(recipientsMax: int, bodyMax: int, limits: Limits)

  datatype Problem = WrongChannel | BadMessageId | NoCreatedAt | BadFrom | BadTo | BadBodyType
      | BodyTooLong | BadMetadata

  function ChannelOf(asked: string, channel: string): string {
    if Trim(ToLower(asked)) == "" then channel else Trim(ToLower(asked))
  }

  function BodyTypeOf(asked: string): string {
    if ToLower(Trim(asked)) == "" then "text" else ToLower(Trim(asked))
  }

  predicate ChannelFits(asked: string, channel: string) {
    channel == "" || ChannelOf(asked, channel) == ToLower(channel)
  }

  predicate IdFits(isUuid: string -> bool, id: string) {
    Trim(id) != "" && isUuid(Trim(id))
  }

  predicate NumbersFit(to: seq<string>, max: int) {
    |to| >= 1 && !Exceeds(|to|, max) && forall i :: 0 <= i < |to| ==> IsE164(Trim(to[i]))
  }

  function TrimAll(xs: seq<string>): (r: seq<string>)
    ensures |r| == |xs| && forall i :: 0 <= i < |xs| ==> r[i] == Trim(xs[i])
  {
    seq(|xs|, i requires 0 <= i < |xs| => Trim(xs[i]))
  }

  /** The first thing wrong with the envelope: channel, message id, time of creation. */
  function EnvelopeProblem(q: Request, channel: string, isUuid: string -> bool): Option<Problem> {
    if !ChannelFits(q.channel, channel) then Some(WrongChannel)
    else if !IdFits(isUuid, q.messageId) then Some(BadMessageId)
    else if q.createdAt.instant == 0 then Some(NoCreatedAt)
    else None
  }

  /** The first thing wrong with the numbers, the body or the metadata. */
  ghost function ContentProblem(q: Request, cfg: Settings): Option<Problem> {
    if !IsE164(Trim(q.from)) then Some(BadFrom)
    else if !NumbersFit(q.to, cfg.recipientsMax) then Some(BadTo)
    else if BodyTypeOf(q.bodyType) != "text" then Some(BadBodyType)
    else if Exceeds(|q.content|, cfg.bodyMax) then Some(BodyTooLong)
    else if !Acceptable(cfg.limits, q.meta) then Some(BadMetadata)
    else None
  }

  ghost function Rejection(q: Request, channel: string, cfg: Settings, isUuid: string -> bool): Option<Problem> {
    if EnvelopeProblem(q, channel, isUuid).Some? then EnvelopeProblem(q, channel, isUuid) else ContentProblem(q, cfg)
  }

  /** The rewritten request, given its new metadata. */
  function Rewritten(q: Request, channel: string, meta: Entries): Request {
    Request(ChannelOf(q.channel, channel), Trim(q.messageId), Trim(q.traceId), Trim(q.tenantId),
            Time(q.createdAt.instant, 0),
            Trim(q.from), TrimAll(q.to), "text", q.content, q.mediaType, meta)
  }

  /** What an accepted request can become; only the metadata leaves a choice. */
  ghost predicate MayBecome(q: Request, channel: string, cfg: Settings, r: Request) {
    MayAnswer(cfg.limits, q.meta, Accepted(r.meta)) && r == Rewritten(q, channel, r.meta)
  }

  class SmsRequest {
    var channel: string
    var messageId: string
    var traceId: string
    var tenantId: string
    var createdAt: Time
    var from: string
    var to: seq<string>
    var bodyType: string
    var content: string
    var mediaType: string
    var meta: Entries

    function Value(): Request
      reads this
    {
      Request(channel, messageId, traceId, tenantId, createdAt, from, to, bodyType, content, mediaType, meta)
    }

    /** `applyDefaultsAndValidate`. A refused request is left half rewritten and is not used again. */
    method ApplyDefaultsAndValidate(expected: string, cfg: Settings, isUuid: string -> bool)
      returns (problem: Option<Problem>)
      modifies this
      ensures problem == Rejection(old(Value()), expected, cfg, isUuid)
      ensures problem == None ==> MayBecome(old(Value()), expected, cfg, Value())
      ensures content == old(content) && mediaType == old(mediaType)
    {
      hide Trim, IsE164, Acceptable, MayAnswer, Exceeds, TrimAll, NumbersFit, ChannelOf, BodyTypeOf, EnvelopeProblem;
      problem := CheckEnvelope(expected, isUuid);
      if problem == None {
        problem := CheckContent(cfg);
      }
    }

    /** Its first part: channel, ids and time of creation. */
    method CheckEnvelope(expected: string, isUuid: string -> bool) returns (problem: Option<Problem>)
      modifies this`channel, this`messageId, this`traceId, this`tenantId, this`createdAt
      ensures problem == EnvelopeProblem(old(Value()), expected, isUuid)
      ensures problem == None ==> channel == ChannelOf(old(channel), expected) && messageId == Trim(old(messageId))
      ensures problem == None ==> traceId == Trim(old(traceId)) && tenantId == Trim(old(tenantId))
      ensures problem == None ==> createdAt == Time(old(createdAt).instant, 0)
    {
      hide Trim, ToLower;
      channel := Trim(ToLower(channel));
      if channel == "" {
        channel := expected;
      }
      if expected != "" && channel != ToLower(expected) {
        return Some(WrongChannel);
      }
      if Trim(messageId) == "" || !isUuid(Trim(messageId)) {
        return Some(BadMessageId);
      }
      messageId := Trim(messageId);
      traceId := Trim(traceId);
      tenantId := Trim(tenantId);
      if createdAt.instant == 0 {
        return Some(NoCreatedAt);
      }
      createdAt := Time(createdAt.instant, 0);
      problem := None;
    }

    /** Its second part: numbers, body and metadata. */
    method CheckContent(cfg: Settings) returns (problem: Option<Problem>)
      modifies this`from, this`to, this`bodyType, this`meta
      ensures problem == ContentProblem(old(Value()), cfg)
      ensures problem == None ==> from == Trim(old(from)) && to == TrimAll(old(to)) && bodyType == "text"
      ensures problem == None ==> MayAnswer(cfg.limits, old(meta), Accepted(meta))
    {
      hide Trim, ToLower, IsE164, Acceptable, MayAnswer, Exceeds, TrimAll, NumbersFit, NormalizeE164;
      var sender := NormalizeE164(from);
      if sender.None? {
        return Some(BadFrom);
      }
      from := sender.value;
      var numbers := NormalizeE164List(to, 1, cfg.recipientsMax);
      NumbersAnswer(to, cfg.recipientsMax, numbers);
      if !numbers.Phones? {
        return Some(BadTo);
      }
      to := numbers.numbers;
      bodyType := ToLower(Trim(bodyType));
      if bodyType == "" {
        bodyType := "text";
      }
      if bodyType != "text" {
        return Some(BadBodyType);
      }
      if Exceeds(|content|, cfg.bodyMax) {
        return Some(BodyTooLong);
      }
      var answer := ValidateMetadata(cfg.limits, meta);
      if answer.Refused? {
        return Some(BadMetadata);
      }
      meta := answer.meta;
      problem := None;
    }
  }

  lemma NumbersAnswer(to: seq<string>, max: int, r: Phones)
    requires r == TooFew <==> |to| < 1
    requires r == TooMany <==> |to| >= 1 && Exceeds(|to|, max)
    requires r.Phones? ==> |r.numbers| == |to| && forall i :: 0 <= i < |to| ==>
               NormalizeE164(to[i]) == Some(r.numbers[i])
    requires r.BadPhone? ==> r.index < |to| && NormalizeE164(to[r.index]) == None
    ensures r.Phones? <==> NumbersFit(to, max)
    ensures r.Phones? ==> r.numbers == TrimAll(to)
  {
    hide Trim, IsE164, Exceeds;
    forall i | r.Phones? && 0 <= i < |to| ensures r.numbers[i] == Trim(to[i]) && IsE164(Trim(to[i])) {
      assert NormalizeE164(to[i]).Some?;
    }
  }

  // ----- a second pass -----

  /** A channel name given in the request is stable; one filled in is stable only if trimming leaves
      it alone or leaves nothing. */
  lemma ChannelAgain(asked: string, channel: string)
    requires ChannelFits(asked, channel)
    ensures var c := ChannelOf(asked, channel);
            var stable := Trim(channel) == channel || Trim(channel) == "";
            && (stable <==> ChannelFits(c, channel))
            && (stable ==> ChannelOf(c, channel) == c)
  {
    hide Trim, ToLower;
    TrimLower(asked);
    TrimLower(channel);
    LowerTwice(asked);
    LowerTwice(Trim(asked));
    TrimTwice(ToLower(asked));
    if channel != "" && Trim(ToLower(asked)) != "" {
      SameLength(channel);
    }
    assert Trim("") == "" by { TrimmedStays(""); }
  }

  /** Trimming that drops no characters changes nothing. */
  lemma SameLength(s: string)
    requires Trim(ToLower(s)) == ToLower(s) || |Trim(s)| == |s|
    ensures Trim(s) == s
  {
    TrimLower(s);
    assert |ToLower(Trim(s))| == |Trim(s)| && |ToLower(s)| == |s|;
    var i, j := TrimIsSlice(s);
  }

  /** A body type accepted once is accepted as rewritten. */
  lemma TextIsText()
    ensures BodyTypeOf("text") == "text"
  {
    TrimmedStays("text");
    assert ToLower("text") == "text";
  }

  /** Validating an accepted request again changes nothing, whatever the iteration order, when the
      expected channel is trimmed or blank; otherwise the second pass refuses its channel. */
  lemma SecondPassIff(q: Request, channel: string, cfg: Settings, isUuid: string -> bool, r: Request)
    requires Rejection(q, channel, cfg, isUuid) == None && MayBecome(q, channel, cfg, r)
    ensures if Trim(channel) == channel || Trim(channel) == ""
            then Rejection(r, channel, cfg, isUuid) == None &&
                 forall again :: MayBecome(r, channel, cfg, again) <==> again == r
            else Rejection(r, channel, cfg, isUuid) == Some(WrongChannel)
  {
    hide Trim, ToLower, IsE164, Acceptable, MayAnswer, Exceeds, ChannelFits, ChannelOf, BodyTypeOf, TrimAll;
    ChannelAgain(q.channel, channel);
    TrimTwice(q.messageId);
    TrimTwice(q.traceId);
    TrimTwice(q.tenantId);
    TrimTwice(q.from);
    NumbersAgain(q.to, cfg.recipientsMax);
    TextIsText();
    AcceptedIsNormal(cfg.limits, q.meta, r.meta);
    NormalIsKept(cfg.limits, r.meta);
    if Trim(channel) == channel || Trim(channel) == "" {
      assert Rewritten(r, channel, r.meta) == r;
    }
  }

  lemma NumbersAgain(to: seq<string>, max: int)
    requires NumbersFit(to, max)
    ensures NumbersFit(TrimAll(to), max) && TrimAll(TrimAll(to)) == TrimAll(to)
  {
    hide Trim, IsE164, Exceeds;
    forall i | 0 <= i < |to| ensures Trim(TrimAll(to)[i]) == TrimAll(to)[i] {
      PhoneStays(to[i]);
    }
  }

  lemma SomeAnswer(limits: Limits, meta: Entries) returns (copy: Entries)
    requires Acceptable(limits, meta)
    ensures MayAnswer(limits, meta, Accepted(copy))
  {
    hide EntryComplaint, FirstComplaint, Fold, TrimEntry;
    var order := EnumerationExists(meta.Keys);
    copy := Fold(TrimEntry(), meta, order);
    AcceptedOnes(limits, meta);
    assert FoldsTo(TrimEntry(), meta, copy);
  }

  lemma SpacedName()
    ensures Trim(" sms") == "sms"
  {
    var s := " sms";
    assert s[1..4] == "sms";
    TrimUnique(s, 1, 4);
  }

  const SAMPLE_ID := "5f0c7a52-3d1e-4b86-9a47-c2e81d90b6f3"

  function SampleRequest(): Request {
    Request("", SAMPLE_ID, "", "", Time(1, 0), "+12", ["+12"], "text", "", "", map[])
  }

  lemma SampleNumber()
    ensures IsE164(Trim("+12"))
  {
    TrimmedStays("+12");
  }

  /** A request that is accepted under " sms", whatever the limits, once and not a second time. */
  lemma SampleIsRefused(cfg: Settings, isUuid: string -> bool) returns (r: Request)
    requires isUuid(SAMPLE_ID)
    ensures Rejection(SampleRequest(), " sms", cfg, isUuid) == None
    ensures MayBecome(SampleRequest(), " sms", cfg, r) && Rejection(r, " sms", cfg, isUuid) == Some(WrongChannel)
  {
    hide Trim, IsE164, MayAnswer, TrimAll;
    SampleNumber();
    TextIsText();
    assert Trim(SAMPLE_ID) == SAMPLE_ID by { TrimmedStays(SAMPLE_ID); }
    assert ToLower("") == "" && Trim("") == "" by { TrimmedStays(""); }
    assert ToLower(" sms") == " sms";
    assert NumbersFit(["+12"], cfg.recipientsMax);
    r := SecondPassCanRefuse(SampleRequest(), cfg, isUuid);
  }

  /** A request accepted once and refused the second time: it names no channel, and the channel
      filled in begins with a space. */
  lemma SecondPassCanRefuse(q: Request, cfg: Settings, isUuid: string -> bool) returns (r: Request)
    requires q.channel == "" && Rejection(q, " sms", cfg, isUuid) == None
    ensures MayBecome(q, " sms", cfg, r) && Rejection(r, " sms", cfg, isUuid) == Some(WrongChannel)
  {
    hide Trim, IsE164, Acceptable, MayAnswer, Exceeds, BodyTypeOf, TrimAll;
    SpacedName();
    var copy := SomeAnswer(cfg.limits, q.meta);
    r := Rewritten(q, " sms", copy);
    SecondPassIff(q, " sms", cfg, isUuid, r);
  }

  /** An accepted request can become only one request exactly when its metadata keys do not clash. */
  lemma RewriteIgnoresOrderIff(q: Request, channel: string, cfg: Settings, isUuid: string -> bool)
    requires Rejection(q, channel, cfg, isUuid) == None
    ensures (forall r1, r2 :: MayBecome(q, channel, cfg, r1) && MayBecome(q, channel, cfg, r2) ==> r1 == r2)
       <==> NoClash(TrimEntry(), q.meta, {})
  {
    hide MayAnswer, Acceptable, NoClash, Trim, ChannelOf, TrimAll, TrimEntry;
    AnswerIgnoresOrderIff(cfg.limits, q.meta);
    NoneBad(cfg.limits, q.meta);
    if NoClash(TrimEntry(), q.meta, {}) {
      forall r1, r2 | MayBecome(q, channel, cfg, r1) && MayBecome(q, channel, cfg, r2) ensures r1 == r2 {
      }
    } else {
      var a, b :| MayAnswer(cfg.limits, q.meta, a) && MayAnswer(cfg.limits, q.meta, b) && a != b;
      DecisionIgnoresOrder(cfg.limits, q.meta, a);
      DecisionIgnoresOrder(cfg.limits, q.meta, b);
      var r1, r2 := Rewritten(q, channel, a.meta), Rewritten(q, channel, b.meta);
      assert MayBecome(q, channel, cfg, r1) && MayBecome(q, channel, cfg, r2) && r1.meta != r2.meta;
    }
  }

  lemma NoneBad(limits: Limits, meta: Entries)
    requires Acceptable(limits, meta)
    ensures OneComplaint(limits, meta) && !Exceeds(|meta|, limits.entries)
  {
  }

  // ----- the checks and the rewriting, spelt out -----

  /** A request is accepted just in case every one of these holds. */
  lemma AcceptedIff(q: Request, channel: string, cfg: Settings, isUuid: string -> bool)
    ensures Rejection(q, channel, cfg, isUuid) == None <==>
              && (channel == "" ||
                    (if Trim(ToLower(q.channel)) == "" then channel else Trim(ToLower(q.channel))) == ToLower(channel))
              && Trim(q.messageId) != "" && isUuid(Trim(q.messageId))
              && q.createdAt.instant != 0
              && IsE164(Trim(q.from))
              && |q.to| >= 1 && (cfg.recipientsMax <= 0 || |q.to| <= cfg.recipientsMax)
              && (forall i :: 0 <= i < |q.to| ==> IsE164(Trim(q.to[i])))
              && ToLower(Trim(q.bodyType)) in {"", "text"}
              && (cfg.bodyMax <= 0 || |q.content| <= cfg.bodyMax)
              && Acceptable(cfg.limits, q.meta)
  {
    hide Trim, ToLower, IsE164, Acceptable;
  }

  /** A refusal names the first check that fails, in this order. */
  lemma FirstProblemFirst(q: Request, channel: string, cfg: Settings, isUuid: string -> bool)
    requires Rejection(q, channel, cfg, isUuid).Some?
    ensures var why := Rejection(q, channel, cfg, isUuid).value;
            && (why == WrongChannel <==> !ChannelFits(q.channel, channel))
            && (why in {NoCreatedAt, BadFrom, BadTo, BadBodyType, BodyTooLong, BadMetadata} ==>
                  IdFits(isUuid, q.messageId))
            && (why in {BadFrom, BadTo, BadBodyType, BodyTooLong, BadMetadata} ==> q.createdAt.instant != 0)
            && (why in {BadTo, BadBodyType, BodyTooLong, BadMetadata} ==> IsE164(Trim(q.from)))
            && (why in {BadBodyType, BodyTooLong, BadMetadata} ==> NumbersFit(q.to, cfg.recipientsMax))
            && (why in {BodyTooLong, BadMetadata} ==> BodyTypeOf(q.bodyType) == "text")
            && (why == BadMetadata ==> !Exceeds(|q.content|, cfg.bodyMax) && !Acceptable(cfg.limits, q.meta))
            && (why == BodyTooLong ==> Exceeds(|q.content|, cfg.bodyMax))
            && (why == BadBodyType ==> BodyTypeOf(q.bodyType) != "text")
            && (why == BadTo ==> !NumbersFit(q.to, cfg.recipientsMax))
            && (why == BadFrom ==> !IsE164(Trim(q.from)))
            && (why == NoCreatedAt ==> q.createdAt.instant == 0)
            && (why == BadMessageId ==> !IdFits(isUuid, q.messageId))
  {
    hide Trim, ToLower, IsE164, Acceptable, Exceeds, NumbersFit, BodyTypeOf, IdFits, ChannelFits;
  }

  /** Field by field, what an accepted request becomes. */
  lemma BecomesIff(q: Request, channel: string, cfg: Settings, r: Request)
    ensures MayBecome(q, channel, cfg, r) <==>
              && r.channel == (if Trim(ToLower(q.channel)) == "" then channel else Trim(ToLower(q.channel)))
              && r.messageId == Trim(q.messageId) && r.traceId == Trim(q.traceId) && r.tenantId == Trim(q.tenantId)
              && r.createdAt.instant == q.createdAt.instant && r.createdAt.zone == 0
              && r.from == Trim(q.from)
              && |r.to| == |q.to| && (forall i :: 0 <= i < |q.to| ==> r.to[i] == Trim(q.to[i]))
              && r.bodyType == "text" && r.content == q.content && r.mediaType == q.mediaType
              && MayAnswer(cfg.limits, q.meta, Accepted(r.meta))
  {
    hide Trim, ToLower, MayAnswer;
  }
}
