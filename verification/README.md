# Verification of the messaging worker

A Dafny model of the delivery worker of `messaging-service-go` and proofs about it. The worker
consumes message requests from Kafka, sends each through a channel adapter (e-mail, SMS, WhatsApp)
with retries, publishes lifecycle events, writes failures to a dead-letter queue (DLQ) and commits
the record's offset.

`dafny verify dfyconfig.toml` checks the whole project.

## How the model is laid out

| files | what they hold |
|---|---|
| `Outcomes.dfy` | the actions of one delivery, the retry loop as a pure function of the adapter's answers, and the grammar of legal lifecycles |
| `Machine.dfy`, `Lifecycle.dfy`, `Offsets.dfy`, `FinishOrder.dfy`, `Realised.dfy`, `Rejections.dfy`, `Composed.dfy` | the worker as a transition system: any number of deliveries interleaved action by action, sharing one semaphore, one log and the partitions' offsets, with cancellation, rebalance and crash steps; what every run keeps, and what some run can do |
| `Backoff.dfy` | backoff and jitter with float64 rounding, int64 wrap-around and an unspecified out-of-range float conversion |
| `Engine.dfy` | the engine, the consumer wrapper and the record as classes; the real loop proved against the pure one, with its delays and with every timestamp traced to the clock reading it comes from |
| `Adapters.dfy`, `Twilio.dfy`, `MockEmail.dfy` | error classification and wrapping, the recipient loop, the mock provider's countdown map, each composed with the retry loop |
| `Newlines.dfy`, `HeaderText.dfy`, `Smtp.dfy`, `SmtpProperties.dfy`, `Addresses.dfy` | the SMTP message builder, read back by a reference reader of RFC 5322 (sections 2.1 and 2.2), and the recipient list |
| `MapFold.dfy`, `Metadata.dfy`, `SmsRequests.dfy` | loops over maps in arbitrary iteration order, metadata validation, the SMS request rewritten in place |
| `Text.dfy`, `Options.dfy` | trimming, lower-casing, replacing, searching; optional values |

## What the proofs found

The model follows the code. Where the code and its documentation differ, or a property does not
hold everywhere, the condition under which it holds is proved exact, and there is an input or a run
that fails.

- **Committed offsets can pass unhandled records.** `docs/design_1.1.md:280` says that a record whose
  loop is stopped by cancellation will be reprocessed. Commits are per record, so a later record's
  commit moves the watermark past it. `Offsets.SafeIffSerial`: every run keeps every offset below the
  watermark handled if and only if the worker has one permit, no record is ever rejected, the
  validator ignores the context, and the adapter lets no context error through. In a single run it is
  enough that deliveries finish in offset order (`FinishOrder.InOrderIsSafe`).
- **Cancellation can dead-letter a valid record.** All three validators fail once the context is done
  (`internal/worker/validator/sms/validator.go:36-38` and its siblings), so a record delivered then is
  reported as a validation failure and committed. `Rejections.RejectsIff`: no run writes a validation
  record if and only if no record is oversized or invalid and the validator ignores the context;
  `Rejections.RejectedRun` is the run that rejects a good record.
- **The context branch of the loop is dead with the shipped adapters.** They wrap causes with `%v`, so
  `internal/worker/engine.go:361-364` never sees a context error (`Adapters.WrappersHideCauses`); a
  cancellation during a send is retried, or reported as a transient failure. In no interleaving is an
  `unknown` DLQ record written (`Composed.NeverUnknown`).
- **The jitter can panic.** Within a budget of `max` attempts it cannot if and only if the base is not
  positive, the cap is in (0, 2^63 - 2], `max` is 1, or the product of the last backoff, with the base
  rounded to a float64, fits in an int64 (`Backoff.NeverPanicsWithinIff`); with the cap off or at 2^63 - 1 no condition covers every budget
  (`Backoff.NeverPanicsIff`).
- **SMS and e-mail status and error can disagree.** SMS when the raw response does not decide and the
  error's HTTP status and text point different ways, e-mail when the raw code and the code in the error
  text differ about permanence; the conditions are exact (`Adapters.SmsAgreesIff`,
  `Adapters.EmailAgreesIff`) and each has an input that fails (`Adapters.SmsCanDisagree`,
  `Adapters.EmailCanDisagree`).
- **A retry sends to every recipient again, and a failed record may have been delivered.** Some recipient
  got the message, whatever became of the record, if and only if the first one accepted it in some
  attempt, and some recipient got it twice if and only if the first one accepted it in two
  (`Twilio.DeliveredIff`). `Twilio.DeadYetDeliveredExample` has sends for which a record is dead-lettered
  after every recipient but the last got it `maxAttempts` times.
- **A built message can carry two version headers**: the builder's `MIME-Version` is not the canonical
  spelling, so a second one is in the message if and only if the payload has a kept header of that name
  (`SmtpProperties.MimeVersionTwiceIff`, with a payload in `SmtpProperties.MimeVersionTwice`).
- **Which complaint a bad metadata map draws, and which of two colliding values survives, depends on
  map iteration order** (`Metadata.AnswerIgnoresOrderIff`).
- **Revalidating an accepted SMS request can refuse it**: exactly when the configured channel name is
  not blank and has outer white space (`SmsRequests.SecondPassIff`). The shipped worker passes the
  constant `sms` (`cmd/sms-worker/main.go:89`), so there revalidation always changes nothing.
  `SmsRequests.SampleIsRefused` has a request that is refused.
- `docs/design_1.1.md:270` gives the size guard without its exception: a limit that is not positive
  switches it off. The model follows the code.

## Model

| member | source | states |
|---|---|---|
| Outcomes.RunDecides | internal/worker/engine.go:338-406 | an attempt decides the delivery iff its answer is the first that is a success, a permanent or context error, or exhausts the budget, with every wait before it elapsed; the loop stops at a wait iff that wait is the first not to elapse; one of the two always happens |
| Outcomes.RunOutcomes | internal/worker/engine.go:338-406 | for all answers and waits, exactly which one makes the record sent, deferred, dead-lettered as permanent, transient or unknown, or stopped in a wait, and at which attempt |
| Outcomes.AnswerDecides | internal/worker/engine.go:373-406 | a permanent error ends the record at its attempt; an error to be tried again, below the budget and with its wait elapsed, never does |
| Outcomes.RunIsLegal | internal/worker/engine.go:338-406 | for all answers and waits the loop's actions are a prefix of a legal lifecycle, complete iff the outcome is sent or dead-lettered |
| Outcomes.CommitIsLast | internal/worker/engine.go:246-407 | in any legal lifecycle, complete or not, a commit is last and directly follows `sent`, or `failed` and its DLQ record with the same attempt count, and no other terminal status occurs |
| Machine.InvStep | internal/worker/engine.go:246-407 | every step of the interleaved system (delivery, any goroutine's move, cancellation, rebalance, crash, flush) keeps the invariant tying log, results, permits and offsets |
| Machine.InvReachable | internal/worker/engine.go:246-407 | the invariant holds in every reachable state |
| Lifecycle.EveryInterleavingIsLegal | internal/worker/engine.go:246-407 | in every interleaving of any number of deliveries, the log projected on one delivery is a prefix of a legal lifecycle, and a whole one iff that delivery finished |
| Lifecycle.InterleavingRefinesRun | internal/worker/engine.go:325-407 | under any interleaving a delivery that took a permit performs a prefix of what the sequential loop performs on the same answers, and all of it by the time the permit goes back, unless cancelled before it began |
| Realised.Realised | internal/worker/engine.go:246-407 | the converse: from every reachable state with the claim loop and a permit free, for all answers and all elapsed or cancelled waits, some continuation delivers the next record and does exactly what the sequential loop does, its offset marked iff the loop closes it |
| Realised.CanBeRefused | internal/worker/engine.go:311-318 | with the context cancelled a delivery can be refused its permit and does nothing |
| Realised.CanStopEarly | internal/worker/engine.go:328-334 | one that has its permit can give it back without doing anything |
| Realised.FullHouse | internal/worker/engine.go:236 | any number of deliveries up to the concurrency can hold a permit at once |
| Lifecycle.CommitFollowsReport | internal/worker/engine.go:354-389 | in every run each commit is preceded in the shared log by the same record's terminal status, and by its DLQ record when that status is `failed` |
| Lifecycle.CommitsOnce | internal/worker/engine.go:246-407 | the engine calls commit at most once for a delivery, in any run |
| Lifecycle.EndsWithoutCommit | internal/worker/engine.go:328-406 | a delivery that gave its permit back committed iff it finished; if not, and the adapter shows no context error, its context was done and it stopped before processing or in a positive backoff |
| Lifecycle.PermitsAreConserved | internal/worker/engine.go:311-334 | in every reachable state, also after crashes, free permits plus live holders equal the concurrency; each delivery takes and returns at most one, a refused acquisition none; when no live delivery is running all are back |
| Machine.HoldersUpdate | internal/worker/engine.go:311-326 | a move changes the number of permit holders by exactly the permit it takes or gives back |
| Offsets.WatermarkRestsOnHandled | internal/kafka/consumer/consumer.go:169-190 | in every run the record just below a marked or flushed watermark has reached its outcome, and flushed never passes marked |
| Realised.CommitMarks | internal/kafka/consumer/consumer.go:169-190 | a commit in the current session moves its partition's mark to just past the offset, never back, and no other partition's; one through an older session does so or changes nothing |
| Realised.FlushesOnCommitOnly | internal/kafka/consumer/consumer.go:185-188 | with commit-on-success flushed equals marked in every reachable state, so a crash delivers nothing below a mark again; without it no delivery's move flushes |
| Realised.Restarts | internal/kafka/consumer/consumer.go:145-163 | a crash or rebalance resumes every partition at its flushed offset, in a session that is not cancelled, and leaves the log alone |
| Realised.Recovers | internal/kafka/consumer/consumer.go:238-276 | from every reachable state, a crash later, the record at the flushed offset can be delivered again and go through any run of the loop |
| FinishOrder.InOrderIsSafe | internal/kafka/consumer/consumer.go:169-190 | in any run with crashes and rebalances, if each commit comes after those of the earlier deliveries of its session and partition, every offset below the watermark has an outcome |
| FinishOrder.GapsStep | internal/kafka/consumer/consumer.go:238-276 | every step keeps that each offset below a delivery, or below the next one of a partition, was handed out in the same session or is handled |
| Offsets.CommitKeepsSafe | internal/kafka/consumer/consumer.go:169-190 | a commit keeps a safe state safe iff every offset it jumps over is already handled |
| Offsets.SafeIffSerial | internal/worker/engine.go:246-407 | all runs keep every offset below the watermark handled iff one permit, no rejections, no context check in the validator and no context error from the adapter |
| Offsets.UnsafeRun | internal/worker/engine.go:246-407 | every other configuration has a concrete run that commits past an unhandled record |
| Offsets.OvertakeByRejecting | internal/worker/engine.go:283-293 | a record rejected inside the claim loop commits past an earlier one still in progress |
| Offsets.OvertakeBySending | internal/worker/engine.go:354-359 | a record sent by one goroutine commits past an earlier one still in progress or deferred |
| Offsets.RedeliversUnhandled | internal/worker/kafka_handler.go:11-27 | in a serial configuration a crash or rebalance delivers again every record that has no outcome yet |
| Rejections.RejectsIff | internal/worker/validator/sms/validator.go:36-38 | no run dead-letters a record as a validation failure iff no record is oversized or invalid and the validator ignores the context |
| Rejections.RejectedRun | internal/worker/engine.go:283-293 | every other configuration has a run that rejects and commits its first record; with only good records, one that was cancelled |
| Composed.NeverUnknown | internal/worker/engine.go:380-389 | over adapters whose errors carry exactly one sentinel, no interleaving writes an `unknown` DLQ record |
| Composed.OnlyCancelledGoUncommitted | internal/worker/engine.go:328-406 | over such adapters, a delivery that gave its permit back without committing had its context done before it began or in a positive backoff |
| Backoff.FullJitter | internal/worker/engine.go:423-433 | zero for a non-positive limit; otherwise a draw in [0, limit], or a panic when limit + 1 wraps around |
| Backoff.ComputeBackoff | internal/worker/engine.go:409-421 | the delay is one that some result of the float conversion, the cap and the jitter allow |
| Backoff.DelayWithinCap | internal/worker/engine.go:409-433 | with a cap in (0, 2^63 - 2] every delay of every attempt lies in [0, cap], whatever an out-of-range conversion yields |
| Backoff.NeverPanicsIff | internal/worker/engine.go:409-433 | the jitter cannot panic under any attempt budget iff the base is not positive or the cap is in (0, 2^63 - 2] |
| Backoff.NeverPanicsWithinIff | internal/worker/engine.go:380-433 | with MaxAttempts = max it cannot panic iff that holds, or max is 1, or the last backoff's product, of the base as a float64, fits in an int64 |
| Backoff.RoundsToNearest | internal/worker/engine.go:415 | the float64 of the base is the multiple of its unit nearest to it |
| Backoff.TiesToEven | internal/worker/engine.go:415 | of two equally near multiples it is the even one |
| Backoff.DelayMatchesDesign | docs/design_1.0.md:464-468 | in range, the possible delays before attempt n are exactly 0 to min(base * 2^(n-2), cap), the documented bound, for the base as a float64, which is the base itself below 2^53 |
| Backoff.DesignDelayMonotone | docs/design_1.0.md:464-468 | the documented bound never shrinks from one attempt to the next |
| Backoff.TotalWait | internal/worker/engine.go:391-405 | in range, w waits add up to at most the sum of their documented bounds, hence to at most base * (2^w - 1) and, with a cap, w * cap, for the base as a float64 |
| Backoff.CappedWait | internal/worker/engine.go:391-421 | with any base and any conversion results, w waits under a positive cap add up to at most w * cap |
| Engine.Consumer.Commit | internal/kafka/consumer/consumer.go:169-190 | fails without record or session data and changes nothing; the first time, moves the mark to just past the offset unless it is there or beyond, and flushes it iff commit-on-success is set; never again for the same record |
| Engine.Engine.PublishStatus | internal/worker/engine.go:451-481 | appends the status with its own timestamp, or with the current time if that is zero |
| Engine.Engine.RejectRecord | internal/worker/engine.go:283-293 | failed(0), the validation DLQ record and the commit, in this order and at one clock reading; the offset is marked |
| Engine.Engine.RetryLoop | internal/worker/engine.go:336-407 | terminates; its outcome and delays are those of the pure loop on the same answers; it stops early only for a cancellation in a positive backoff or a jitter panic; every event carries the clock reading taken at its own place in the run, a DLQ record those of the first and of the last failure; the offset is marked iff it closed |
| Engine.Engine.Conclude | internal/worker/engine.go:354-405 | after a send: report success, leave for a context error, or continue with the failure, whose time is kept as FirstFailedAt only for attempt 1 |
| Engine.Engine.AfterError | internal/worker/engine.go:373-405 | after a non-context error: dead-letter with the right failure type and times, stop in the wait, or reach the loop's state for the next attempt |
| Engine.Engine.ProcessRecord | internal/worker/engine.go:325-407 | gives back exactly one permit on every path; does nothing when the context is already done; otherwise as the loop |
| Engine.Engine.HandleRecord | internal/worker/engine.go:246-323 | every path: ignored, rejected with its three actions, refused a permit, or processed; the permit count is unchanged at the end and the offset marked iff the record reached an outcome |
| Engine.MarksAsInMachine | internal/kafka/consumer/consumer.go:185-188 | what the wrapper makes of a partition is what a commit of the interleaved system makes of it |
| Engine.EventsAreRunTrace | internal/worker/engine.go:336-389 | the timed events of an outcome, times dropped, are the actions of the pure loop |
| Engine.StatusTimesAscend | internal/worker/engine.go:336-389 | with a clock that does not go back, a delivery's status timestamps never decrease over its whole run |
| Engine.DlqTimes | internal/worker/engine.go:366-389 | FirstFailedAt is read after attempt 1's send returned, at or after its `attempt` event and at or before that of attempt 2; FirstFailedAt <= LastAttemptAt, which is the `failed` event's timestamp |
| Engine.UncancelledOutcome | internal/worker/engine.go:338-406 | without cancellation, whenever the jitter cannot panic within the budget, the imperative loop's outcome is the pure loop's with every wait elapsed |
| Engine.DeliveryWait | internal/worker/engine.go:391-405 | a delivery of k attempts completed k - 1 waits; a positive cap bounds their total by (k-1) * cap, and a base in range at the last of them by base * (2^(k-1) - 1), for the base as a float64 |
| Adapters.WrappersHideCauses | internal/adapters/common/errors.go:16-29 | a wrapped error matches exactly its own sentinel and no context error, whatever its cause |
| Adapters.ContextErrorsShow | internal/worker/engine.go:361 | a context error that is not wrapped would be seen as one |
| Adapters.WhatsAppAgrees | internal/adapters/whatsapp/adapter.go:204-278 | for all responses and errors the status is `rejected` iff the error is permanent, and exactly one sentinel matches |
| Adapters.WhatsAppClues | internal/adapters/whatsapp/adapter.go:204-278 | over all responses and errors, with the codes written out: exactly when the error is permanent, when transient, and when the status is unknown |
| Adapters.SmsAgreesIff | internal/adapters/sms/adapter.go:204-284 | status and sentinel agree iff the raw response decides, or the error is a client error just in case its text says permanent or invalid |
| Adapters.SmsClues | internal/adapters/sms/adapter.go:204-284 | the same for SMS, and exactly when the status is `rejected` |
| Adapters.SmsCanDisagree | internal/adapters/sms/adapter.go:204-284 | no response and the error text `invalid`: status unknown, error permanent |
| Adapters.EmailAgreesIff | internal/adapters/email/adapter.go:162-228 | status and sentinel agree iff the raw code and the error's code, when both exist, agree about permanence |
| Adapters.EmailClues | internal/adapters/email/adapter.go:162-228 | the error is permanent iff the text's code, else the raw one, is 530, 535, 550, 551 or 553; exactly when the status is `rejected`, `rate_limited` and `unknown`, raw code first |
| Adapters.EmailCanDisagree | internal/adapters/email/adapter.go:162-228 | raw code 451 and the error text `smtp 550`: status rate limited, error permanent |
| Adapters.CodeFound | internal/adapters/email/adapter.go:237-250 | the code read back is the three digits of the leftmost match, any white space between, anywhere in the text |
| Adapters.NoCodeIff | internal/adapters/email/adapter.go:237-250 | no code is read iff the pattern matches nowhere |
| Adapters.ClassifiedRun | internal/worker/engine.go:338-406 | with exactly one sentinel per error the loop never defers for a context error and never writes an `unknown` DLQ entry; it writes a `permanent` one iff the deciding answer is permanent |
| Adapters.WhatsAppDeadLetters | internal/adapters/whatsapp/adapter.go:62-96 | for a dead-lettered WhatsApp record, permanent and last status `rejected` coincide iff the adapter did not itself refuse the deciding request |
| Adapters.SmsDeadLetters | internal/adapters/sms/adapter.go:63-97 | for a dead-lettered SMS they coincide iff the adapter did not refuse and the condition of SmsAgreesIff holds of the deciding answer |
| Adapters.EmailDeadLetters | internal/adapters/email/adapter.go:72-105 | for a dead-lettered e-mail they coincide iff the adapter did not refuse and the codes of the deciding answer, when both exist, agree about permanence |
| Adapters.EmailCodeDecides | internal/adapters/email/adapter.go:196-211 | through the loop: one of the five codes ends the record as permanent at the attempt that meets it; any other failure, below the budget and with its wait elapsed, does not end it |
| Twilio.Send | internal/providers/sms/twilio_provider.go:130-175 | an error before anyone is tried without recipients or sender; otherwise, from the answers alone: recipients tried up to the first that fails, its error and body, the code of the last with a result, the last non-empty status, the message ids in order |
| Twilio.BodyCodeAnswers | internal/providers/sms/twilio_provider.go:155-165 | the body code of the recipient that fails reaches the adapter: permanent codes make the attempt's error permanent, retryable ones transient, for each channel |
| Twilio.BodyCodeDecides | internal/worker/engine.go:373-406 | through the loop: a permanent code ends the record as permanent at its attempt, a retryable one does not end it before the budget does |
| Twilio.TriedIsPrefix | internal/providers/sms/twilio_provider.go:144-166 | a recipient is contacted iff nobody before it failed |
| Twilio.FailsIff | internal/providers/whatsapp/twilio_provider.go:148-178 | the attempt returns an error iff some recipient fails |
| Twilio.AcceptancesFall | internal/providers/sms/twilio_provider.go:144-174 | accepted sends never exceed the attempts and never increase along the recipient list |
| Twilio.SentReachesAll | internal/worker/engine.go:341-406 | loop over loop, for SMS and WhatsApp: `sent` means every recipient was accepted, in the last attempt; any other end means some recipient failed in it |
| Twilio.RestartDuplicates | internal/providers/whatsapp/twilio_provider.go:148-178 | if only the last recipient keeps failing, every other one is accepted once per attempt |
| Twilio.DeadYetDelivered | internal/worker/engine.go:380-389 | if that failure is transient the record is dead-lettered, each other recipient having been accepted `maxAttempts` times |
| Twilio.DeadYetDeliveredExample | internal/providers/whatsapp/twilio_provider.go:148-178 | sends, for any number of recipients from two on, with which that happens |
| Twilio.DeliveredIff | internal/providers/sms/twilio_provider.go:144-174 | for either channel and any outcome of the loop, somebody was accepted iff the first recipient was in some attempt, and somebody twice iff the first was in two |
| MockEmail.MockProvider.ConsumeFailureAttempt | internal/providers/email/mock_provider.go:209-240 | the countdown map and the verdict after one call |
| MockEmail.MockProvider.Send | internal/providers/email/mock_provider.go:124-165 | the new countdown and the reply, for every scenario and for a context that ends during the latency or while hanging |
| MockEmail.AttemptsRead | internal/providers/email/mock_provider.go:242-259 | a number written in decimal in the header, signed or not and padded with any white space, induces that many failures; a negative one, or no header, none |
| MockEmail.GarbageInducesNothing | internal/providers/email/mock_provider.go:242-259 | a header text that is not digits after at most one sign induces no failures |
| MockEmail.ScenarioNames | internal/providers/email/mock_provider.go:167-183 | the scenario header against its names, trimmed and in any case |
| MockEmail.KeyOrder | internal/providers/email/mock_provider.go:215-221 | the counter goes by message id, else by the failure-key header, else by the payload |
| MockEmail.ScenarioAnswers | internal/providers/email/mock_provider.go:124-165 | what the adapter makes of each scenario, of a send without recipients and of one cut off |
| MockEmail.ScenarioEnds | internal/worker/engine.go:341-406 | through the loop: the permanent scenario dead-letters a record as permanent at once, the transient and timeout ones as transient after the whole budget |
| MockEmail.Countdown | internal/providers/email/mock_provider.go:209-240 | after any interleaved history a key's counter is what its own sends leave of n, and absent before the first |
| MockEmail.FailsFirstN | internal/providers/email/mock_provider.go:209-240 | however sends interleave, a key asking for n failures has exactly its first n sends fail, not counting those cut off in their latency |
| MockEmail.MockedDelivery | internal/worker/engine.go:341-406 | mock, e-mail adapter and loop together, over the attempts the record really makes: `sent` at attempt n + 1 iff n is below the budget, otherwise dead-lettered as transient after the whole budget |
| MockEmail.MockedAlone | internal/providers/email/mock_provider.go:209-240 | the same for a record that is the provider's only one, over the exact calls it makes |
| Newlines.PassesAgree | internal/providers/email/smtp_provider.go:352-359 | the three passes equal a one-pass automaton that takes CRLF, CR and LF as one break each |
| Newlines.BodyIsNormal | internal/providers/email/smtp_provider.go:352-359 | for every body: no bare CR or LF (section 2.3.8 of RFC 5321), idempotent, unchanged iff it had no bare break, same line contents for a CRLF-only reader |
| HeaderText.PrintReadIff | internal/providers/email/smtp_provider.go:313-325 | reading printed fields gives fields and body back iff no name has a colon and nothing has a CR or LF |
| Smtp.FoldHeaders | internal/providers/email/smtp_provider.go:270-277 | the loop's map is what some iteration order of the payload's headers produces |
| Smtp.SortedNames | internal/providers/email/smtp_provider.go:307-311 | all names, once each, ascending |
| Smtp.RenderHeaders | internal/providers/email/smtp_provider.go:313-323 | the header section is the printed non-empty fields in the order of the names |
| Smtp.BuildMessage | internal/providers/email/smtp_provider.go:269-328 | the text is, for some iteration order of the payload's headers, the print of the final headers in sorted order and the normalised body |
| Smtp.SortsUnique | internal/providers/email/smtp_provider.go:307-311 | a set of names has only one ascending listing |
| Smtp.LexLessIff | internal/providers/email/smtp_provider.go:311 | the order is decided at the first place where two names differ, or by their lengths |
| SmtpProperties.SanitizedIsClean | internal/providers/email/smtp_provider.go:361-365 | a sanitised value has no CR or LF, and is not empty unless the value was blank |
| SmtpProperties.SanitizedIs | internal/providers/email/smtp_provider.go:361-365 | a space for each CR and LF, then trimmed; a clean, trimmed value stays |
| SmtpProperties.FinalTable | internal/providers/email/smtp_provider.go:279-305 | header by header, what is left after all assignments and deletions: the message's own data where it has any, an own Date and Message-Id kept, Bcc always gone, Cc gone without copies, every other payload header untouched |
| SmtpProperties.MessageReadsIff | internal/providers/email/smtp_provider.go:269-328 | a built message, read back, gives exactly its non-empty final headers in sorted order and the normalised body iff no kept name has a colon, CR or LF and no address a CR or LF |
| SmtpProperties.ReadHeaders | internal/providers/email/smtp_provider.go:269-328 | a sendable message, read back, has a field with a name and value iff the value is the one the table of headers gives the name, and not empty |
| SmtpProperties.ReadContentType | internal/providers/email/smtp_provider.go:341-350 | and its one Content-Type is that of html iff the trimmed body type is `html` in any case, else that of plain text |
| SmtpProperties.MessageOrderIrrelevantIff | internal/providers/email/smtp_provider.go:269-328 | the message text is the same for every iteration order of the payload's headers iff no two kept headers disagree about one canonical name that survives |
| SmtpProperties.RendersSameIff | internal/providers/email/smtp_provider.go:307-325 | two orders of the header loop give one text iff they give the same final headers |
| SmtpProperties.MimeVersionTwiceIff | internal/providers/email/smtp_provider.go:270-323 | a message has a printed `Mime-Version` beside the builder's `MIME-Version` iff the payload has a kept header with that canonical name |
| SmtpProperties.MimeVersionTwice | internal/providers/email/smtp_provider.go:304 | a payload whose one header is `MIME-Version: 1.0` gives such a message |
| Addresses.UniqueAddresses | internal/providers/email/smtp_provider.go:367-384 | the loop with its set of seen addresses yields the first occurrences of the trimmed, non-blank addresses of all groups |
| Addresses.DedupUnique | internal/providers/email/smtp_provider.go:367-384 | a list has only one stable deduplication: same elements, once each, in order of first occurrence |
| Addresses.UniqueIsStable | internal/providers/email/smtp_provider.go:367-384 | the result has no repeats, exactly the non-blank trimmed addresses, is the one stable deduplication of them, and is left alone by a second pass |
| Addresses.FlattenThree | internal/providers/email/smtp_provider.go:367-372 | the lists are taken one after the other |
| MapFold.OrderIrrelevantIff | internal/util/validation.go:172-190 | a map built by looping over a map is the same for every iteration order iff no two kept entries write different values under one key |
| Metadata.ValidateMetadata | internal/util/validation.go:163-193 | for any iteration order with early return: the answer is one that some order gives, and the map is accepted iff no entry, looked at alone, is bad and there are not too many |
| Metadata.DecisionIgnoresOrder | internal/util/validation.go:163-193 | acceptance never depends on the order; a refusal names the complaint of some bad entry |
| Metadata.AnswerIgnoresOrderIff | internal/util/validation.go:163-193 | the whole answer is order-independent iff there are too many entries, or all bad entries draw one complaint and, if none is bad, no two keys trim to one key with different trimmed values |
| Metadata.AcceptedIsNormal | internal/util/validation.go:172-192 | an accepted copy has only trimmed keys and values and keeps every limit |
| Metadata.AcceptableIff | internal/util/validation.go:163-190 | the conditions on the number of entries, the trimmed keys and the trimmed values, limit by limit |
| Metadata.AcceptedCopies | internal/util/validation.go:172-192 | an accepted copy has a key for every entry, and under each key the trimmed value of an entry with that key |
| Metadata.NormalIsKept | internal/util/validation.go:163-193 | a map in that form is accepted in every order and the copy equals it |
| Metadata.NormalizeE164 | internal/util/validation.go:123-134 | a number is accepted iff its trimmed text is a plus sign, a non-zero digit and one to fourteen digits, and becomes that text |
| Metadata.E164Iff | internal/util/validation.go:32 | the form is a plus sign, a digit from one to nine, and one to fourteen digits |
| Metadata.PhoneStays | internal/util/validation.go:123-134 | a normalised number normalises to itself |
| Metadata.NormalizeE164List | internal/util/validation.go:137-159 | too few, too many, the first bad number, or every number normalised |
| SmsRequests.SmsRequest.ApplyDefaultsAndValidate | internal/worker/validator/sms/validator.go:73-125 | the first problem in the order of the checks, or none; then the fields are the normalised ones, the metadata as some iteration order gives it |
| SmsRequests.AcceptedIff | internal/worker/validator/sms/validator.go:73-125 | a request is accepted iff all the conditions, written out field by field, hold |
| SmsRequests.FirstProblemFirst | internal/worker/validator/sms/validator.go:73-125 | a refusal names the first check that fails |
| SmsRequests.BecomesIff | internal/worker/validator/sms/validator.go:73-125 | field by field, what an accepted request becomes |
| SmsRequests.SecondPassIff | internal/worker/validator/sms/validator.go:73-125 | revalidating an accepted request accepts it and changes nothing iff the expected channel is trimmed or blank; otherwise the second pass refuses the channel |
| SmsRequests.SecondPassCanRefuse | internal/worker/validator/sms/validator.go:74-80 | every request without a channel that is accepted under the channel name " sms" is refused when validated again |
| SmsRequests.SampleIsRefused | internal/worker/validator/sms/validator.go:73-125 | such a request, for every setting of the limits |
| SmsRequests.RewriteIgnoresOrderIff | internal/worker/validator/sms/validator.go:117-122 | an accepted request can become only one request iff its metadata keys do not clash after trimming |

## Assumptions

- `MarkMessage` moves a partition's mark forward only, to one past the record; `Commit` flushes the
  marks; a session that starts after a crash or rebalance resumes at the flushed offset. A mark made
  through a session that has already ended may or may not stick; both are modelled.
- `Acquire` may fail only once its context is done, and may then also still succeed.
- The clock does not go back and is never the zero time. A delivery's events are timed by its own
  readings, counted from its first; those of other goroutines in between do not matter.
- A status publisher is configured; without one no event is published and its clock reading is not taken.
- Each provider send, and each `sendSingle`, is an arbitrary answer. So are the draws of the random
  source, the order of map iteration, and which of timer and cancellation wins.

## Left out

- Kafka networking, group membership, producer and readiness code: library I/O.
- Durability of events: publish errors are only logged, so the order of publish calls is modelled, not what reached the broker; the message text, ids, raw payload and provider response inside events are not modelled.
- Filling of empty fields of a validated message from the record's key and headers (`internal/worker/engine.go:268-309`), and the copying of the record before the goroutine starts.
- Engine.Engine.HandleRecord: one goroutine's view, so `go processRecord` runs to its end within the call, because blocking in `Acquire` and all interleavings are in `Machine`; the filling of empty message fields is not modelled.
- Machine.InvStep: a jitter panic is not a step of its own there, because it ends the process and the crash step covers that.
- Outcomes.RunDecides: time inside a send is not modelled.
- SMTP dialogue, TLS, HTTP requests, JSON decoding, UUID and mail-address parsing: foreign calls; the Twilio error code of a body and the UUID test are parameters.
- The building of Twilio request parameters, WhatsApp address prefixes, and e-mail payloads.
- The length of the mock provider's latency, its random ids, and its lookup of headers ignoring case: a payload holds the header values found, and a call says whether the context ended it.
- MockEmail.MockedDelivery: the k-th attempt of the record is the k-th uninterrupted send under its message id, which holds when ids are unique and the context is not cancelled.
- Lower-casing is modelled on ASCII letters, and string length on code points; Unicode case mapping and invalid UTF-8 are not modelled.
- Smtp.BuildMessage: `CanonicalMIMEHeaderKey` is modelled for keys of token characters and leaves any other key alone, as the library documents.
- HeaderText.PrintReadIff: names that start with a space or tab are excluded, because the builder trims names first and a leading blank would read as a folded line.
- SmsRequests.SmsRequest.ApplyDefaultsAndValidate: the half-rewritten fields of a refused request are not specified, because the request is discarded; error texts carry no detail beyond which check failed.
- The e-mail and WhatsApp validators, `NormalizeEmails`, size, URL and timestamp checks: the same shape as what is modelled, with library parsing at the core.
- Configuration, logging, wiring, health endpoint and provider factories.
