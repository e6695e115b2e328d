# Spaced-repetition core of the recallTutor backend, in Dafny

This project models the part of the backend that decides what a student knows and
when the student should see a concept again:

- the Bayesian Knowledge Tracing (BKT) mastery update of `KtEngine` (guess 0.2,
  slip 0.1, transit 0.1), exactly, over `real`;
- the forgetting curve R = e^(-t/S) solved for the review time, as
  `calculateNextReview` and as the schedule `submitResponse` writes;
- the scheduler's periodic tick (`handleCron`): at most ten due memory entries, a
  review quiz for each, and a one-day lockout for each whose work completes;
- `submitResponse`: the answer check, the response log, the BKT update of the first
  memory entry tracking the student and concept, and its new schedule;
- `getPendingQuizzes`: the student's three earliest entries (or fallback entries
  created for a student with none), quiz validation with a fixed fallback, and the
  result list whose last id is patched when the question is saved;
- the concept-not-found check of `generateQuizForConcept`;
- `getStats`: concepts mastered (mastery > 0.8), the streak of consecutive active
  days, the time spent formatted as hours and minutes, and the average mastery.

Files, one module each:

| file | module | contents |
|---|---|---|
| `wrappers.dfy` | `Wrappers` | `Option` and `Result` |
| `kt_engine.dfy` | `KtEngine` | the BKT update and its properties |
| `forgetting_curve.dfy` | `ForgettingCurve` | review time from stability and ln(target); `Math.log` as the type `Log` |
| `memory_store.dfy` | `MemoryStore` | memory entries, responses, questions, concepts; the `Database` class the services update |
| `quiz_service.dfy` | `QuizService` | `generateQuizForConcept`'s check, `submitResponse`, `getPendingQuizzes` |
| `scheduler.dfy` | `Scheduler` | `calculateNextReview` and the `handleCron` tick |
| `student_service.dfy` | `StudentService` | `getStats` |

The database is a class whose fields are the tables: memory entries and responses
are sequences (a memory entry is identified by its position), questions a map from
id to question. Its one method, `CreateEntry`, appends a memory entry. The
services' state-changing operations (`SubmitResponse`, `GetPendingQuizzes`,
`HandleCron`) are module-level methods that take the database and update its
fields. Each is proved against a function of the old state (`RecordReview`,
`StoreAfterPending`, `Tick`), and the properties are lemmas about those functions. Timestamps are real
milliseconds. Everything outside the process is a parameter: the current time
`now`, the outcome of each external call (`completes`, `upstreamOk`, the
generator's output `llm`, the save results `saves`, the temporary-id suffixes
`stamps`) and the logarithm `ln` where the target is not fixed.

## Model

| member | source | states |
|---|---|---|
| KtEngine.Denominator | backend/src/student/kt.engine.ts:17-25 | for a prior in [0,1] the denominator is 0.2+0.7m ≥ 0.2 after a correct answer and 0.8−0.7m ≥ 0.1 after a wrong one, so the division never degenerates |
| KtEngine.Posterior | backend/src/student/kt.engine.ts:16-25 | the Bayesian posterior of a prior in [0,1] is a probability |
| KtEngine.UpdateMastery | backend/src/student/kt.engine.ts:15-28 | the updated mastery lies in [p_transit, 1] = [0.1, 1] |
| KtEngine.UpdateIsAffineInPosterior | backend/src/student/kt.engine.ts:27 | the transit step is 0.9·posterior + 0.1 |
| KtEngine.CorrectNeverLowers | backend/src/student/kt.engine.ts:17-27 | a correct answer never lowers mastery |
| KtEngine.IncorrectPosteriorAtMostPrior | backend/src/student/kt.engine.ts:21-25 | after a wrong answer the posterior (before transit) never exceeds the prior |
| KtEngine.CorrectDominatesIncorrect | backend/src/student/kt.engine.ts:16-27 | for the same prior, the result after a correct answer is at least the result after a wrong one |
| KtEngine.FixedPoints | backend/src/student/kt.engine.ts:11-27 | mastery 1 stays 1 and mastery 0 becomes p_transit = 0.1, in both branches |
| KtEngine.UpdateMonotone | backend/src/student/kt.engine.ts:17-27 | for a fixed answer the result is non-decreasing in the prior |
| KtEngine.HalfPriorValues | backend/src/student/kt.engine.ts:11-28 | from 0.5 a correct answer gives exactly 46/55 and a wrong one exactly 1/5; from 0.1 a correct answer gives exactly 0.4 |
| ForgettingCurve.LogBelowOneNegative | backend/src/scheduling/scheduler.service.ts:21 | the logarithm of a target in (0,1) is negative |
| ForgettingCurve.ReviewTime | backend/src/scheduling/scheduler.service.ts:21-23 | with positive stability and negative log-target the review is strictly after the last one |
| ForgettingCurve.ReviewTimeIncreasing | backend/src/scheduling/scheduler.service.ts:21-23 | review time is strictly increasing in stability |
| ForgettingCurve.ReviewTimeTargetMonotone | backend/src/scheduling/scheduler.service.ts:21-23 | a log-target of larger magnitude gives a strictly later review |
| ForgettingCurve.ReviewTimeShift | backend/src/scheduling/scheduler.service.ts:23 | shifting the last review by d shifts the review time by d |
| ForgettingCurve.UnitInterval | backend/src/scheduling/scheduler.service.ts:21-23 | the interval for stability 1 is positive when the log-target is negative |
| ForgettingCurve.ReviewIntervalLinear | backend/src/scheduling/scheduler.service.ts:21-23 | the interval is stability times the unit interval |
| MemoryStore.FindConcept | backend/src/quiz/quiz.service.ts:20-25 | the lookup finds a concept with the id, and finds none exactly when no concept has it |
| MemoryStore.NewEntry | backend/src/knowledge/ingest.service.ts:67-76 | a new entry has mastery 0.5, no last review, is due now and is valid |
| MemoryStore.Database.CreateEntry | backend/src/quiz/quiz.service.ts:89-98 | appends exactly the entry, keeps the store valid and changes nothing else |
| QuizService.GenerateQuizForConcept | backend/src/quiz/quiz.service.ts:16-25 | fails with concept-not-found exactly when the id is unknown; succeeds exactly when the concept exists and the external calls complete, with that concept |
| QuizService.Stability | backend/src/quiz/quiz.service.ts:189 | stability is the larger of 0.5 and ten times the mastery |
| QuizService.ResponseNextReview | backend/src/quiz/quiz.service.ts:193-194 | with positive stability the next review is strictly after now |
| QuizService.FindFirst | backend/src/quiz/quiz.service.ts:179-181 | the result is the first entry in store order tracking the student and concept; none exactly when no entry does |
| QuizService.Reviewed | backend/src/quiz/quiz.service.ts:184-203 | the reviewed entry keeps its identity, gets the BKT mastery, last review now, next review after now, and stays valid |
| QuizService.RecordReview | backend/src/quiz/quiz.service.ts:179-203 | the store after an answer has the same size and stays valid |
| QuizService.SubmitResponse | backend/src/quiz/quiz.service.ts:158-214 | unknown question: question-not-found, nothing logged, no entry changed; otherwise correct exactly when the option equals the answer, one response appended, the store becomes `RecordReview` of the old one, and the returned mastery and next review are the persisted ones, present only when an entry tracks the concept |
| QuizService.OnlyFirstMatchReviewed | backend/src/quiz/quiz.service.ts:179-203 | entries not tracking the pair and any later duplicate are unchanged; a changed entry was reviewed now and is due after now |
| QuizService.UntrackedConceptLeavesStore | backend/src/quiz/quiz.service.ts:183-213 | without a tracking entry the store is unchanged |
| QuizService.ResponseStabilityRange | backend/src/quiz/quiz.service.ts:184-189 | the stability after an answer is ten times the new mastery and lies in [1, 10]: the 0.5 floor never applies |
| QuizService.RetentionDay | backend/src/quiz/quiz.service.ts:193 | one retention-day, -ln(0.7) days in ms, is positive |
| QuizService.ReviewIntervalBounds | backend/src/quiz/quiz.service.ts:184-194 | the interval granted by an answer lies between one and ten retention-days and is no shorter after a correct answer than after a wrong one |
| QuizService.IntervalsOrdered | backend/src/quiz/quiz.service.ts:189-194 | intervals for stabilities 1 ≤ sw ≤ sr ≤ 10 are ordered and bounded by one and ten unit intervals |
| QuizService.WellFormedCases | backend/src/quiz/quiz.service.ts:110 | missing data, missing options, or an empty question or answer are refused; an empty options array passes |
| QuizService.ValidateQuiz | backend/src/quiz/quiz.service.ts:110-119 | well-formed generator output passes unchanged, anything else becomes the fallback; the result always has a question and an answer |
| QuizService.FallbackQuizShape | backend/src/quiz/quiz.service.ts:113-118 | the fallback asks "What is <label>? (Fallback)", offers Concept, Process, Tool, Metric and its answer Concept is one of them |
| QuizService.ValidateIdempotent | backend/src/quiz/quiz.service.ts:110-119 | validating validated data changes nothing |
| QuizService.InsertKeepsSorted | backend/src/quiz/quiz.service.ts:79 | inserting into a list sorted by next review keeps it sorted |
| QuizService.SortByReview | backend/src/quiz/quiz.service.ts:79 | the ordering is a permutation of the positions, sorted by ascending next review |
| QuizService.StudentPositions | backend/src/quiz/quiz.service.ts:74-77 | exactly the positions of the student's entries, each once, in increasing order |
| QuizService.SelectPending | backend/src/quiz/quiz.service.ts:74-82 | min(3, count) distinct entries of the student, sorted by next review |
| QuizService.SelectPendingEmpty | backend/src/quiz/quiz.service.ts:74-85 | the selection is empty exactly when the student has no entry |
| QuizService.SelectPendingTakesEarliest | backend/src/quiz/quiz.service.ts:74-82 | an entry of the student left out is due no earlier than every selected one |
| QuizService.FallbackEntries | backend/src/quiz/quiz.service.ts:86-100 | min(3, #concepts) new entries, one per concept in order, in the first course |
| QuizService.PendingEntries | backend/src/quiz/quiz.service.ts:74-101 | at most three entries get quizzes |
| QuizService.StoreAfterPending | backend/src/quiz/quiz.service.ts:85-101 | the store after the selection keeps every old entry in place and grows by at most three |
| QuizService.PendingCreatesOnlyWhenEmpty | backend/src/quiz/quiz.service.ts:85-101 | entries are created only for a student without any, at most three, each new and for the first concepts; existing entries are kept |
| QuizService.PendingEntriesBelongToStudent | backend/src/quiz/quiz.service.ts:74-101 | every entry a quiz is made for belongs to the student |
| QuizService.QuizFor | backend/src/quiz/quiz.service.ts:122-128 | the quiz is about the entry's concept and label, with the validated question (never empty) and options |
| QuizService.QuizIdPatch | backend/src/quiz/quiz.service.ts:122-153 | a successful save replaces only the id with the saved question's id; a failed one leaves the temporary id |
| QuizService.SaveQuestionsStep | backend/src/quiz/quiz.service.ts:131-147 | one more turn stores the validated question, about the entry's concept, under the id its save returns, and nothing else |
| QuizService.UnsavedQuestionsKept | backend/src/quiz/quiz.service.ts:131-153 | a question that no save names keeps its content |
| QuizService.SavedIdsComeFromSaves | backend/src/quiz/quiz.service.ts:131-153 | every question id that was not there before is one a save returned |
| QuizService.LastSaveHoldsConcept | backend/src/quiz/quiz.service.ts:131-153 | the question under a successful save's id, when no later save reuses it, is about that entry's concept |
| QuizService.QuizzesFor | backend/src/quiz/quiz.service.ts:103-154 | one quiz per pending entry |
| QuizService.QuizzesForAt | backend/src/quiz/quiz.service.ts:103-154 | the k-th quiz is the quiz for the k-th pending entry |
| QuizService.SavedQuizzesStored | backend/src/quiz/quiz.service.ts:131-153 | with fresh, distinct saved ids, each quiz whose save succeeded carries the id of a stored question about its concept, and earlier questions are kept |
| QuizService.AddQuiz | backend/src/quiz/quiz.service.ts:121-150 | one turn: the list grows by exactly the quiz for the entry, its id patched when the save returns one, and the store gains exactly that question |
| QuizService.CreateFallbackEntries | backend/src/quiz/quiz.service.ts:85-101 | appends exactly the fallback entries, keeping the store valid |
| QuizService.AssembleQuizzes | backend/src/quiz/quiz.service.ts:103-154 | the result is `QuizzesFor` the entries and the store becomes `SaveQuestions` of the old one; only the question store changes |
| QuizService.GetPendingQuizzes | backend/src/quiz/quiz.service.ts:72-156 | the store becomes `StoreAfterPending` of the old one; one quiz per pending entry; each successfully saved quiz's id names a stored question about that entry's concept; old questions are kept |
| Scheduler.CalculateNextReview | backend/src/scheduling/scheduler.service.ts:20-25 | with positive stability and a target in (0,1) the review is strictly after the last one |
| Scheduler.CalculateNextReviewIncreasing | backend/src/scheduling/scheduler.service.ts:21-23 | strictly increasing in stability |
| Scheduler.CalculateNextReviewShift | backend/src/scheduling/scheduler.service.ts:23 | shifting the last review by d shifts the result by d |
| Scheduler.HigherTargetSooner | backend/src/scheduling/scheduler.service.ts:20-23 | a higher retention target gives a strictly earlier review |
| Scheduler.ResponseScheduleIsDefaultCurve | backend/src/quiz/quiz.service.ts:193-194 | the schedule after an answer is `calculateNextReview` at the default target 0.7 |
| Scheduler.DueFrom | backend/src/scheduling/scheduler.service.ts:32-43 | at most `limit` due positions, increasing, skipping a due entry only when full |
| Scheduler.DueBatch | backend/src/scheduling/scheduler.service.ts:32-43 | at most ten due entries in store order, none skipped unless the batch is full of earlier ones; empty exactly when nothing is due |
| Scheduler.Lockout | backend/src/scheduling/scheduler.service.ts:61-67 | only nextReview changes, to one day after the tick |
| Scheduler.TickUpTo | backend/src/scheduling/scheduler.service.ts:52-74 | the loop over the batch keeps the store's size |
| Scheduler.Tick | backend/src/scheduling/scheduler.service.ts:52-74 | a tick keeps the store's size; `TickPointwise` says which entries change |
| Scheduler.TickUpToOutside | backend/src/scheduling/scheduler.service.ts:52-74 | the loop leaves entries it has not processed unchanged |
| Scheduler.TickUpToInside | backend/src/scheduling/scheduler.service.ts:52-74 | a processed entry is locked out exactly when its own work completes, whatever happens to the others |
| Scheduler.TickPointwise | backend/src/scheduling/scheduler.service.ts:52-74 | after a tick, entries outside the batch are unchanged and each batch entry is locked out exactly when its work completes |
| Scheduler.NoDueNoChange | backend/src/scheduling/scheduler.service.ts:45-48 | with nothing due a tick changes nothing |
| Scheduler.TickChangesOnlyBatchSchedules | backend/src/scheduling/scheduler.service.ts:31-74 | only due batch entries (at most ten) change, only their nextReview, to now plus a day |
| Scheduler.TickPreservesValidity | backend/src/scheduling/scheduler.service.ts:52-67 | a tick keeps every entry valid and every concept reference |
| Scheduler.HandleCron | backend/src/scheduling/scheduler.service.ts:27-75 | the store becomes `Tick` of the old one and stays valid; responses, concepts and courses are unchanged |
| StudentService.ConceptsMastered | backend/src/student/student.service.ts:15-20 | the count never exceeds the number of entries |
| StudentService.ThresholdIsStrict | backend/src/student/student.service.ts:18 | an entry at exactly 0.8, or another student's, is not counted |
| StudentService.MasteredEntryCounts | backend/src/student/student.service.ts:15-20 | an entry of the student above 0.8 adds exactly one |
| StudentService.MasteredCountMonotone | backend/src/student/student.service.ts:15-20 | raising masteries without changing owners never lowers the count |
| StudentService.CorrectAnswerKeepsMastered | backend/src/student/student.service.ts:15-20 | a correct answer never lowers any student's mastered count |
| StudentService.StudentEntryCount | backend/src/student/student.service.ts:62-65 | the student's entry count never exceeds the number of entries |
| StudentService.MasterySum | backend/src/student/student.service.ts:62-65 | for valid entries the student's mastery sum lies between 0 and the student's entry count |
| StudentService.AverageMastery | backend/src/student/student.service.ts:62-65 | the average mastery lies in [0,1] and is 0 for a student with no entries |
| StudentService.DayOf | backend/src/student/student.service.ts:30 | the day number d is the UTC day holding the timestamp: d days ≤ t < d+1 days |
| StudentService.ActiveDays | backend/src/student/student.service.ts:30 | exactly the days of the student's responses |
| StudentService.BelowShrinks | backend/src/student/student.service.ts:41-49 | stepping back from an active day leaves fewer active days to visit (the loop's termination measure) |
| StudentService.RunLength | backend/src/student/student.service.ts:35-49 | the days ending on d, as many as the result, are all active and the day before them is not: the maximal run |
| StudentService.Streak | backend/src/student/student.service.ts:30-49 | the loop computes the maximal run of active days ending today; 0 when today is inactive; never more than the number of active days |
| StudentService.TotalLatency | backend/src/student/student.service.ts:52-56 | the total is non-negative when the student's latencies are, and 0 for a student without responses |
| StudentService.Hours | backend/src/student/student.service.ts:57 | the hours are the whole hours in the total: h hours ≤ total < h+1 hours |
| StudentService.Minutes | backend/src/student/student.service.ts:58 | JavaScript's % keeps the dividend's sign, so the minutes lie in [-60, 59], and in [0, 59] for a non-negative total |
| StudentService.HoursMinutesSplit | backend/src/student/student.service.ts:56-58 | for a non-negative total, minutes lie in [0,59] and hours·60 + minutes is the number of whole minutes |
| StudentService.NatToString | backend/src/student/student.service.ts:59 | decimal digits only, no leading zero |
| StudentService.ParseNatToString | backend/src/student/student.service.ts:59 | reading the digits back gives the number |
| StudentService.IntToString | backend/src/student/student.service.ts:59 | the text is "0" exactly for zero |
| StudentService.FormatTimeSpent | backend/src/student/student.service.ts:59 | the text ends in "m" and, with hours, starts "<hours>h " |
| StudentService.TimeSpent | backend/src/student/student.service.ts:59-70 | the report is the formatted time or "< 1m", the latter only when some time was spent; it ends in "m" |
| StudentService.FormattedZero | backend/src/student/student.service.ts:59 | the formatted time is "0m" exactly when there are no hours and zero minutes |
| StudentService.LessThanAMinute | backend/src/student/student.service.ts:56-70 | for a non-negative total the report is "< 1m" exactly when it is above zero and under a minute, and "0m" for zero |
| StudentService.HoursShape | backend/src/student/student.service.ts:59 | with at least an hour the report is "<hours>h <minutes>m" |
| StudentService.GetStats | backend/src/student/student.service.ts:13-73 | the mastered count, "<streak> Days" for the maximal run ending today, the time-spent report and the average mastery, which lies in [0,1] |

## Notes on the BKT update

- The update clamps neither its input nor its output. It needs no clamping: for a
  prior in [0,1] both denominators are at least 0.1 (`KtEngine.Denominator`), and
  the result lies in [0.1, 1] (`KtEngine.UpdateMastery`).
- From 0.5 the update gives 46/55 ≈ 0.836 after a correct answer and 1/5 after a
  wrong one; from 0.1 it gives 0.4 after a correct answer
  (`KtEngine.HalfPriorValues`).
- A wrong answer can lower mastery, from 0.5 to 0.2. A correct answer never lowers
  it (`KtEngine.CorrectNeverLowers`).

## Left out

- `Math.log` is the type `Log`: any function strictly increasing on the positive
  reals with ln(1) = 0. The inverse e^x and round trips through it are not modelled.
  The answer path evaluates `Math.log(0.7)` on a constant, so it uses the
  double-precision value -0.35667494393873245 (`LnDefaultRetention`).
- IEEE-754 rounding is not modelled: all arithmetic is over `real`. The truncation
  of `Date` to whole milliseconds is also left out.
- Clocks: each operation reads one `now`. The source reads the clock again for the
  lockout, for lastReview and for nextReview; those readings may differ by the
  operation's own duration. `setDate(getDate() + 1)` is exactly one day of
  milliseconds, and the streak steps back one UTC day at a time. Daylight-saving
  days of 23 or 25 hours are not modelled.
- Scheduler.DueBatch: the tick's query has no `orderBy`, so the order of the rows
  is the database's. The model takes the first due entries in store order.
- Scheduler.HandleCron: the question, quiz and audit rows that `generateQuizForConcept`
  writes during a tick are not modelled, so the model says nothing about the
  question store after a tick. Embedding, retrieval, generation and
  persistence are one outcome per entry (`completes`). The logger is not modelled.
- QuizService.GetPendingQuizzes: the query's tie order among equal `nextReview`
  values is the database's. The model uses a stable sort, which keeps store order.
  The quiz row created with each saved question, the difficulty argument and the
  `distractors` field of the fallback are not modelled. A generated field that is
  present but not a string counts as missing. The timestamp and random suffix of the
  temporary id are the parameter `stamps`. The ids the saves return are taken to be
  new and distinct, as the database's generated ids are.
- QuizService.SubmitResponse: the response's timestamp, which the database assigns,
  is `now`. The read of `question.concept` has no effect and is not modelled. A
  database failure between the response write and the entry update would leave the
  response logged without the update; that is not modelled.
- StudentService.GetStats: the retention rate is reported as the average mastery.
  The `Math.round` of the percentage and its "%" text are left out. The profile
  placeholder `getProfile` is not modelled.
- StudentService.HoursMinutesSplit and StudentService.LessThanAMinute: stated for a
  non-negative total only. The source accepts any latency, and a negative total
  gives negative minutes.
- Concurrency, the cron decorator, HTTP controllers, the LLM, embedding and
  vector-store clients, the ONNX knowledge-tracing path, ingestion orchestration
  and the frontend are outside this core.
