# Yes4All review poller, modelled in Dafny

The modelled program polls the company page of Yes4All on reviewscongty.me once a minute. It strips known noise
from the HTML, and compares the review-counter fragment with the copy kept in `review_data.txt`. When the counter
changed, it mails the newest review to two fixed addresses. The model covers the whole of `ReviewScheduler`.

- `Regex` (regex.dfy) gives the meaning of `String.replaceAll` for the patterns the program uses: literal
  text, the unescaped `.` and the greedy `c?`. Matching is leftmost-first, with Java's backtracking order.
- `Normalizer` (normalizer.dfy) holds `processHtmlContent` as an ordered table of eleven rules. The table is
  given twice. `RulesAsWritten` has the regular expressions exactly as the source writes them; this is what the
  Java program runs. `Rules` reads every pattern as literal text, which is what the authors evidently meant. The
  two differ on the company logo's address (see Findings). The scheduler in this model normalises with `Rules`.
- `Mail` (mail.dfy) holds the fixed message headers and the HTML body that `extractReviewBox` builds.
- `Scheduler` (scheduler.dfy) has pure reference functions for one detection, one composition and one whole
  tick. It also has the class `ReviewScheduler` with fields `file`, `faults` and `outbox`. `file` is
  `review_data.txt` and is None while the file does not exist. `faults` says which file or mail operations
  throw. `outbox` logs every hand-over to the mail transport. Each method is proved against the reference
  function, and lemmas about those functions state the poller's guarantees.

Three behaviours of the code are worth stating up front:
- Normalisation is not idempotent: a second pass can change the page again (`ProcessHtmlContentNotIdempotent`).
- The counter is stored while the message is composed, not when the change is detected, and only if the counter
  exists. So a failed write means the same message is sent again on the next tick (`LostWriteRepeatsNotification`).
- A missing counter does not count as "no change": it throws a NullPointerException at line 127. That exception
  ends the tick, and on a first run it leaves an empty `review_data.txt` behind (`MissingCounterIsSilent`,
  `FirstRun`).

## Model

| member | source | states |
|---|---|---|
| Regex.MatchLen | src/main/java/com/example/yes4all/review/Yes4allReviewApplication.java:65-75 | a match found at the front of a text is at least as long as the pattern's shortest match and no longer than the text |
| Regex.ReplaceAll | src/main/java/com/example/yes4all/review/Yes4allReviewApplication.java:65-75 | `String.replaceAll` for a replacement with no `$` or `\`; characterised by `ReplaceAllNoMatch`, `ReplaceAllShrinks`, `ReplaceAllEmpty`, `ReplaceAllSkip` and `ReplaceAllTextFront` |
| Regex.ReplaceAllNoMatch | src/main/java/com/example/yes4all/review/Yes4allReviewApplication.java:65-75 | a text in which the pattern matches at no position is returned unchanged by `replaceAll` |
| Regex.ReplaceAllShrinks | src/main/java/com/example/yes4all/review/Yes4allReviewApplication.java:65-75 | a replacement no longer than the shortest match never makes the text longer |
| Regex.ReplaceAllEmpty | src/main/java/com/example/yes4all/review/Yes4allReviewApplication.java:65-75 | a pattern that cannot match the empty text leaves the empty text empty |
| Regex.ReplaceAllSkip | src/main/java/com/example/yes4all/review/Yes4allReviewApplication.java:65-75 | text before the first possible start of the pattern's literal is copied through unchanged |
| Regex.ReplaceAllTextFront | src/main/java/com/example/yes4all/review/Yes4allReviewApplication.java:65-75 | a literal pattern at the front of the text is replaced, and the scan continues after it |
| Normalizer.ApplyRules | src/main/java/com/example/yes4all/review/Yes4allReviewApplication.java:65-75 | the chained `replaceAll` calls, first rule first; characterised by `ApplyRulesAppend`, `ApplyRulesShrinks`, `ApplyRulesEmpty` and `ApplyRulesNoMatch` |
| Normalizer.ApplyRulesAppend | src/main/java/com/example/yes4all/review/Yes4allReviewApplication.java:65-75 | the rules run one after another in the listed order: a chain split in two is the second part run on the first part's result |
| Normalizer.ApplyRulesShrinks | src/main/java/com/example/yes4all/review/Yes4allReviewApplication.java:65-75 | a chain of well-formed rules never makes the text longer |
| Normalizer.ApplyRulesEmpty | src/main/java/com/example/yes4all/review/Yes4allReviewApplication.java:65-75 | a chain of well-formed rules maps the empty text to the empty text |
| Normalizer.ApplyRulesNoMatch | src/main/java/com/example/yes4all/review/Yes4allReviewApplication.java:65-75 | a text that no rule matches anywhere comes back unchanged |
| Normalizer.RulesShape | src/main/java/com/example/yes4all/review/Yes4allReviewApplication.java:65-75 | eleven rules: the first turns the 8-character `> <span ` into the 7-character `><span `, the other ten delete their match, all are well-formed |
| Normalizer.RulesAsWrittenShape | src/main/java/com/example/yes4all/review/Yes4allReviewApplication.java:65-75 | the chain as written has the same first rule and deletions, and every rule is well-formed |
| Normalizer.ProcessHtmlContent | src/main/java/com/example/yes4all/review/Yes4allReviewApplication.java:64-79 | the normaliser with every pattern read literally, which the scheduler uses; characterised by `ProcessHtmlContentShrinks`, `ProcessHtmlContentEmpty`, `ProcessHtmlContentNoMatch`, `ProcessHtmlContentNotIdempotent` and the two `…RemovedLiterally` lemmas |
| Normalizer.ProcessHtmlContentAsWritten | src/main/java/com/example/yes4all/review/Yes4allReviewApplication.java:64-79 | the normaliser with the regular expressions as written; characterised by `ProcessHtmlContentShrinks`, `ProcessHtmlContentEmpty` and the two `…SurvivesLine7x` lemmas |
| Normalizer.ProcessHtmlContentShrinks | src/main/java/com/example/yes4all/review/Yes4allReviewApplication.java:64-79 | normalisation, literal or as written, never makes the page longer |
| Normalizer.ProcessHtmlContentEmpty | src/main/java/com/example/yes4all/review/Yes4allReviewApplication.java:64-79 | an empty page normalises to the empty page |
| Normalizer.ProcessHtmlContentNoMatch | src/main/java/com/example/yes4all/review/Yes4allReviewApplication.java:64-79 | a page containing none of the eleven patterns is left unchanged |
| Normalizer.ProcessHtmlContentNotIdempotent | src/main/java/com/example/yes4all/review/Yes4allReviewApplication.java:65-66 | `> Xem thêm<span ` normalises to `> <span `, which normalises again to `><span `, so normalising twice differs from normalising once |
| Normalizer.LogoTailMisses | src/main/java/com/example/yes4all/review/Yes4allReviewApplication.java:72-73 | the logo rules' tail `.pn`, `g?`, `t=1704357127` cannot match the text `.png?t=1704357127` |
| Normalizer.LogoUrlSurvivesLine72 | src/main/java/com/example/yes4all/review/Yes4allReviewApplication.java:72 | the rule at line 72, as written, leaves the logo address it spells out unchanged |
| Normalizer.LogoPathSurvivesLine73 | src/main/java/com/example/yes4all/review/Yes4allReviewApplication.java:73 | the rule at line 73, as written, leaves the logo path it spells out unchanged |
| Normalizer.LogoUrlRemovedLiterally | src/main/java/com/example/yes4all/review/Yes4allReviewApplication.java:72 | read literally, the rule at line 72 deletes the logo address |
| Normalizer.LogoPathRemovedLiterally | src/main/java/com/example/yes4all/review/Yes4allReviewApplication.java:73 | read literally, the rule at line 73 deletes the logo path |
| Mail.Message | src/main/java/com/example/yes4all/review/Yes4allReviewApplication.java:110-118 | the message carries the given body as HTML, the fixed subject, the fixed sender address and name, the fixed to and cc |
| Mail.Body | src/main/java/com/example/yes4all/review/Yes4allReviewApplication.java:134-155 | the body the builder returns; `DetailOfBody` is its inverse (`BodyRoundTrip`, `BodyOnlyFromParts`, `BodyInjective`), and `BodyStartsWithIntro`, `BodyLinksToPage` and `BodyWithoutDetail` fix its layout |
| Mail.BodyRoundTrip | src/main/java/com/example/yes4all/review/Yes4allReviewApplication.java:134-155 | the review fragment can be read back from the body built around it, and an absent fragment reads back as an empty box |
| Mail.BodyOnlyFromParts | src/main/java/com/example/yes4all/review/Yes4allReviewApplication.java:134-155 | a text with a body's shape is exactly the intro, the box, the fragment, `</div>` and the signature, with nothing else in it |
| Mail.BodyInjective | src/main/java/com/example/yes4all/review/Yes4allReviewApplication.java:134-155 | equal bodies come from equal review fragments, an absent fragment counting as empty |
| Mail.BodyWithoutDetail | src/main/java/com/example/yes4all/review/Yes4allReviewApplication.java:146-148 | without a review fragment the body is the fixed wrapper with an empty box |
| Mail.BodyStartsWithIntro | src/main/java/com/example/yes4all/review/Yes4allReviewApplication.java:136 | every body starts with the fixed intro |
| Mail.BodyLinksToPage | src/main/java/com/example/yes4all/review/Yes4allReviewApplication.java:136 | every body contains the monitored page's address, at its fixed place in the intro |
| Scheduler.GetReviewFileData | src/main/java/com/example/yes4all/review/Yes4allReviewApplication.java:123-128 | the counter fragment if the selection found one, otherwise a NullPointerException |
| Scheduler.Persist | src/main/java/com/example/yes4all/review/Yes4allReviewApplication.java:98-106 | after a save the file holds exactly the content, unless the write failed and the file is untouched |
| Scheduler.Detect | src/main/java/com/example/yes4all/review/Yes4allReviewApplication.java:81-96 | "new" exactly on a first run that could create the file, or when a readable stored counter differs from the page's; an exception only when the file is readable and the counter is missing; the only change is creating an empty file |
| Scheduler.Compose | src/main/java/com/example/yes4all/review/Yes4allReviewApplication.java:130-156 | a body exactly when the counter exists, and then the body for the page's review fragment, with the counter saved over the whole file; otherwise a NullPointerException and an untouched file |
| Scheduler.TickSpec | src/main/java/com/example/yes4all/review/Yes4allReviewApplication.java:49-62 | a tick hands at most one message to the transport, and only when the fetch succeeded and detection said "new" |
| Scheduler.FetchFailureDoesNothing | src/main/java/com/example/yes4all/review/Yes4allReviewApplication.java:52-53 | a failed fetch changes neither the file nor the outbox |
| Scheduler.FirstRun | src/main/java/com/example/yes4all/review/Yes4allReviewApplication.java:84-90 | with no file, detection says "new" without consulting the counter and creates an empty file; the tick then sends one message and stores the counter, or sends nothing and leaves the empty file when the counter is missing |
| Scheduler.FirstRunCannotCreate | src/main/java/com/example/yes4all/review/Yes4allReviewApplication.java:88-94 | a first run whose file cannot be created sends nothing and leaves no file |
| Scheduler.SameCounterIsSilent | src/main/java/com/example/yes4all/review/Yes4allReviewApplication.java:84-87 | a stored counter equal to the page's sends nothing and leaves the file unchanged |
| Scheduler.ChangedCounterNotifies | src/main/java/com/example/yes4all/review/Yes4allReviewApplication.java:84-87 | a readable stored counter that differs from the page's sends exactly one message with the review's body, and stores the new counter unless the write fails |
| Scheduler.UnreadableFileIsSilent | src/main/java/com/example/yes4all/review/Yes4allReviewApplication.java:84-94 | a file that cannot be read makes the tick send nothing and leaves the file unchanged |
| Scheduler.MissingCounterIsSilent | src/main/java/com/example/yes4all/review/Yes4allReviewApplication.java:123-128 | a page without a counter never gets a message out; at most an empty file is created |
| Scheduler.SentMeansPersisted | src/main/java/com/example/yes4all/review/Yes4allReviewApplication.java:146-152 | a tick that sent a message had the counter, sent the body for the page's review, and saved the counter before the send |
| Scheduler.NoRepeatedNotification | src/main/java/com/example/yes4all/review/Yes4allReviewApplication.java:49-62 | after a tick that sent and could write, a tick that sees the same counter sends nothing |
| Scheduler.LostWriteRepeatsNotification | src/main/java/com/example/yes4all/review/Yes4allReviewApplication.java:98-106 | when the write fails, the file keeps the old counter and the next tick on the same page sends the same message again |
| Scheduler.ReviewScheduler.IsNewReview | src/main/java/com/example/yes4all/review/Yes4allReviewApplication.java:81-96 | the verdict and the new file are those of `Detect` |
| Scheduler.ReviewScheduler.SaveToLocalStorage | src/main/java/com/example/yes4all/review/Yes4allReviewApplication.java:98-106 | the file afterwards is `Persist` of the old file |
| Scheduler.ReviewScheduler.ExtractReviewBox | src/main/java/com/example/yes4all/review/Yes4allReviewApplication.java:130-156 | the body, built by successive appends, and the new file are those of `Compose` |
| Scheduler.ReviewScheduler.SendEmail | src/main/java/com/example/yes4all/review/Yes4allReviewApplication.java:108-121 | a failed composition sends nothing and passes its exception on; otherwise exactly one message with the composed body is appended to the outbox, and the send's failure is reported |
| Scheduler.ReviewScheduler.FetchAndProcessHtmlContent | src/main/java/com/example/yes4all/review/Yes4allReviewApplication.java:49-62 | the outbox only grows, and the new file and the messages added are those of `TickSpec`; no exception leaves the method |

## Findings

| source | as written | input that shows it | evidently intended | confidence | as-written member | corrected member |
|---|---|---|---|---|---|---|
| src/main/java/com/example/yes4all/review/Yes4allReviewApplication.java:72 | the regex `…yesall.png?t=1704357127`, where `png?t` is `pn`, an optional `g`, then `t` | `https://reviewscongty.me/storage/app/uploads/public/companies/cong-ty-tnhh-dich-vu-thuong-mai-yesall.png?t=1704357127` is left in place | delete that address, with `.` and `?` taken literally | high, not executed | Normalizer.LogoUrlSurvivesLine72 | Normalizer.LogoUrlRemovedLiterally |
| src/main/java/com/example/yes4all/review/Yes4allReviewApplication.java:73 | the same unescaped `png?t` in the path-only rule | `/storage/app/uploads/public/companies/cong-ty-tnhh-dich-vu-thuong-mai-yesall.png?t=1704357127` is left in place | delete that path | high, not executed | Normalizer.LogoPathSurvivesLine73 | Normalizer.LogoPathRemovedLiterally |

`Normalizer.Rules` is the corrected table, and `Normalizer.ProcessHtmlContent` and the scheduler use it.
`Normalizer.RulesAsWritten` and `ProcessHtmlContentAsWritten` keep the regular expressions as written. In the
as-written table, the other unescaped dots (lines 71, 74, 75) also match any character. They still match the text
they were written for.

## Left out

- The HTTP fetch (lines 52-53) is network I/O. It becomes the tick's parameter `fetched`. None covers both a
  failed request and a null body, since the null body makes `replaceAll` throw before anything else happens.
- HTML parsing and CSS selection (lines 124-125, 131-132) belong to a foreign library. Each selection is an
  uninterpreted function of the normalised page (`Scheduler.Selectors`) that gives the element's outer HTML
  or None.
- Mail transport (lines 110-120): `MimeMessage`, its UTF-8 encoding and SMTP are not modelled. A send is a
  `Delivery` appended to `outbox`, and `faults.sendFails` decides whether it went through. Setting the
  subject twice (lines 111 and 117) is one field.
- The file system: `review_data.txt` is the field `file`. A failing `createFile` and a failing
  `FileWriter` are both `faults.writeFails`, and a failing write leaves the file as it was. The file
  truncated by `new FileWriter` before a failing `write` is not modelled. `new String(bytes)` with the
  platform charset is taken to give back the text that was written.
- Regular expressions: only literal text, `.` and `c?` are modelled, the only constructs the eleven rules
  use. The replacements contain no `$` or `\`, so replacement-string escapes are left out. Text is a
  sequence of Unicode code points, which is what `.` consumes in Java.
- Logging, `printStackTrace`, the `@Scheduled(fixedRate = 60000)` timing and the Spring bootstrap
  (lines 31-38, 48) are framework glue. Ticks are modelled as successive calls; overlapping ticks are not.
- Scheduler.TickSpec and Scheduler.ReviewScheduler.FetchAndProcessHtmlContent: the tick normalises with the
  corrected table `Rules`, not with `RulesAsWritten` as the Java program does. On a page that carries the logo
  address `…yesall.png?t=1704357127`, the modelled tick deletes that address before the selections see the page,
  while the program keeps it. The counter and review selections are arbitrary functions of the page, so no
  guarantee about the tick depends on which table is used. `ProcessHtmlContentAsWritten`,
  `LogoUrlSurvivesLine72` and `LogoPathSurvivesLine73` state the program's own behaviour.
- `ReviewController` (lines 159-168) returns a constant and is not modelled.
