# Exam lifecycle model

A Dafny model of the exam lifecycle of the Exam_pressure backend. The backend is a
FastAPI service in which a user starts a timed exam and submits answers. The user
reads the results once a two-hour analysis delay has passed, and a "today focus"
endpoint looks at the trend of the latest scores. When an exam starts, each bank
question may be replaced by a generated "trap" variation.

The database is a value `Db` holding three tables: questions, variations and
attempts. Each table is a sequence of rows in insertion order. A new variation or
attempt row gets the key `1 + max key` (autoincrement), so the invariant `Wf` keeps
those two tables in strictly increasing key order; of the question table it
requires only distinct keys. Every endpoint is a pure function from the
database value to the new database value and a response or an error. The model
does not handle I/O.

- The clock reading `now` is an integer number of seconds and is passed in. The
  deadline of 2 minutes is `ExamDuration = 120`, and the analysis delay of 2 hours
  is `AnalysisDelay = 7200`.
- The random draws (`random.random() < 0.25` and `random.choice(TRAP_TYPES)`) are
  passed in too, as one `Choice` per bank question: `Keep`, or `Mutate(trap)` with
  an index into `TrapTypes`.
- Background mistake logging becomes the list of `MistakeLog` records that
  `Submit` returns.

Files:

- `wrappers.dfy`: `Option` and `Result`.
- `models.dfy`: the table rows, key projections, sortedness, `NextId` (the
  autoincrement key) and `Find` (the first row with a key).
- `services.dfy`: `generate_variation`, `TRAP_TYPES` and `classify_mistake`.
- `scoring.dfy`: the scoring loop of `submit_exam`, applied to answers already
  paired with what their ids resolved to.
- `exams.dfy`: the four endpoints `Start`, `Submit`, `Results` and `Focus`.
- `lifecycle.dfy`: the database invariant `Wf` and properties that span several
  calls.
- `id_collision.dfy`: the answer-id collision described under Findings, and the
  keyed grading that avoids it.

Behaviour of the code worth noting:

- If a question chosen for a variation has no options, `start_exam` raises
  IndexError. By then the attempt and the earlier variations are already
  committed. `Start` returns that database together with `Err(InternalError)`, so
  the user is left with an active attempt that they never saw.
- The focus check applies `scores[0] < scores[1] < scores[2]` to attempts listed
  newest first, so a death spiral is scores strictly falling over time.
- A `None` score among the three newest attempts makes Python's `<` raise
  TypeError. `Focus` models this as `Err(InternalError)`, and it short-circuits the
  chained comparison the way Python does. In a database that satisfies `Wf`,
  every submitted attempt has a score, so this never happens.

## Model

| member | source | states |
|---|---|---|
| Services.SwapFirstTwo | services.py:35-38 | The option list keeps its length and its multiset of options. With two or more options, positions 0 and 1 trade places and every other position is unchanged; with fewer than two, the list is returned as is. |
| Services.SwapFirstTwoInvolution | services.py:37-38 | Swapping twice gives back the original list. |
| Services.GenerateVariation | services.py:31-47 | The content is the source content followed by " (Read carefully.)". The options are a permutation of the source's options, swapped as above. The correct option is the source's. The trap option is the first new option, which is the source's second option when there are at least two. The tag is one of the three trap types, and the explanation is the fixed text. The precondition "at least one option" is where the source raises IndexError. |
| Scoring.Grade | routers/exams.py:142-174 | The score is the number of answers that resolve and whose selection equals the correct option. Score plus the number of mistake records equals the number of answers that resolve. The score is at most the number of answers. Every mistake record carries the submitting user. |
| Scoring.GradeMistakes | routers/exams.py:162-172 | Every mistake record comes from a wrong answer that resolved, carrying user, id, selection, correct option and mistake type. Every such wrong answer has its record. |
| Scoring.GradeOrderIndependent | routers/exams.py:144-163 | Grading a permutation of the answers gives the same score and the same multiset of mistake records. |
| Models.NextId | models.py:35 | A new autoincrement key is at least 1 and above every key already in the table. |
| Models.Find | routers/exams.py:129-131 | `.filter(id == k).first()`: the first row whose key is `k`, and none exactly when no row has it. |
| Exams.MakeVariation | routers/exams.py:87-97 | The inserted variation row has the given key and the source question's id, and every other field is what `generate_variation` produced: the content with " (Read carefully.)" appended, the swapped options, the source's correct option, the first new option as trap, the chosen trap type and the fixed explanation. |
| Exams.Present | routers/exams.py:85-113 | The question loop only appends to the variation table: the rows before it stay a prefix. When the loop completes, it returns one entry per bank question. |
| Exams.PresentFailsExactly | routers/exams.py:85-101 | The question loop fails exactly when some question chosen for a variation has no options. |
| Exams.PresentShowsEveryQuestion | routers/exams.py:85-113 | When the loop completes, entry `i` shows question `i`: either the question itself under its own key, or a variation of it (source id = question id, same correct option) that was inserted into the variation table, with that variation's key, content and options. |
| Exams.PresentKeepsKeysSorted | routers/exams.py:89-101 | Inserting variations keeps the variation table sorted by key. |
| Exams.PresentAddsOnePerMutate | routers/exams.py:85-107 | The loop inserts exactly one variation for each question it replaced before it stopped (at the first replaced question without options, or at the end of the bank), and nothing else: in bank order, under consecutive keys from the next free key. When the loop completes, every replaced question is shown under the key of its variation. |
| Exams.PresentAllMutated | routers/exams.py:85-107 | When every question becomes a variation, the entries carry consecutive keys starting at the next free variation key. |
| Exams.Start | routers/exams.py:61-119 | With an active attempt of the user: `ActiveExamExists` and nothing changes. Otherwise exactly one attempt is appended, with a key above every existing key, the user, `startedAt = now`, `endTime = now + 120`, and score, submission time, unlock time and flag unset. The question table is unchanged. The old variations are kept, followed by exactly one new variation per question replaced before the loop stopped, in bank order under consecutive keys; after the IndexError only those made before the failing question remain. The start succeeds exactly when no chosen question lacks options. On success it returns the new key, the deadline and one entry per bank question, in bank order, each replaced question shown under the key of its new variation. |
| Exams.Resolve | routers/exams.py:146-160 | An id that names a bank question resolves to that question's correct option and mistake type, even if a variation has the same id. An id that names no question resolves to nothing exactly when no variation has it either, and otherwise to a variation with that id and its mistake tag. |
| Exams.SubmitResolved | routers/exams.py:129-184 | Unknown attempt: `ExamNotFound`. Submitted attempt: `AlreadySubmitted`. Neither error changes anything. Otherwise only that attempt changes: submission time `now`, unlock time `now + 7200`, the score, and a flag that is set exactly when it was already set or `now > endTime`. The score counts the right answers, and score plus mistakes counts the answers that resolved. |
| Exams.Submit | routers/exams.py:129-184 | It succeeds exactly when the attempt exists and has no submission time. The score lies between 0 and the number of answers. It equals the number of answers whose id resolves (question first, then variation) and whose selection matches. Score plus mistakes equals the number of answers that resolve. Every resolved wrong answer has a mistake record with its id, selection, correct option and type. An error leaves the database unchanged. A success writes only the attempt found under the key: submission time `now`, unlock time `now + 7200`, the reported score, and the reported flag, which is set exactly when it was already set or `now > endTime`. Every mistake record carries that attempt's user. |
| Exams.Results | routers/exams.py:210-229 | The errors are `ExamNotFound` for an unknown id and `NotSubmittedYet` for an active attempt. A submitted attempt is `AnalysisLocked` exactly when its unlock time is set and `now` is before it. The call succeeds exactly when the attempt is submitted and its unlock time is unset or reached, and then returns the stored score and flag. |
| Exams.Recent | routers/exams.py:190-193 | Returns at most `k` attempts, each a submitted attempt of the user taken from the table. |
| Exams.RecentNewestFirst | routers/exams.py:190-193 | In a key-sorted table, the attempts come newest first (strictly decreasing keys). |
| Exams.RecentAreNewest | routers/exams.py:190-193 | In a key-sorted table, every submitted attempt of the user that is left out is older than all `k` returned ones, so the returned ones are the `k` newest. |
| Exams.Focus | routers/exams.py:190-205 | `NotEnoughData` exactly when fewer than three submitted attempts are returned. With three attempts (newest first), `DeathSpiral` exactly when all three scores are set and `s0 < s1 < s2`. `Stable` exactly when `s0` and `s1` are set and either `s1 <= s0` (the chain stops there, whatever `s2` is) or `s2` is set and `s2 <= s1`. It raises exactly when the chained comparison reaches a missing score. |
| Lifecycle.FreshDbWf | models.py:8-42 | A bank with distinct keys and empty variation and attempt tables is well formed. |
| Lifecycle.StartPreservesWf | routers/exams.py:61-113 | A start keeps unique sorted keys, keeps at most one active attempt per user, and keeps every attempt consistent, even when it fails half way. |
| Lifecycle.SubmitPreservesWf | routers/exams.py:129-184 | A submission keeps the database invariant. |
| Lifecycle.StartTwiceRefused | routers/exams.py:61-67 | After any start, including one that failed while generating, a further start by the same user is refused and changes nothing. |
| Lifecycle.SubmitTwiceRefused | routers/exams.py:136-137 | After a successful submission, a second submission of the same attempt is refused with `AlreadySubmitted` and changes nothing. |
| Lifecycle.SubmitFlagsLateOnly | routers/exams.py:139-140 | In a well-formed database, a submission is flagged exactly when `now > endTime`. A submission exactly at the deadline is not flagged. |
| Lifecycle.ResultsUnlockExactly | routers/exams.py:174-176 | After a submission at `now`, results are locked at every time before `now + 7200` and return the recorded score and flag from that instant on. |
| Lifecycle.FocusOnNewestThree | routers/exams.py:190-205 | In a well-formed database, `Focus` never raises. It reports too little data exactly when the user has fewer than three submitted attempts. Otherwise it looks at the three newest, which have strictly decreasing keys, and reports a death spiral exactly when their scores strictly fall from oldest to newest. |
| IdCollision.SeedBankIsSeedShaped | routers/exams.py:27-49 | The three seeded questions have keys 1, 2 and 3 and options. Questions 1 and 2 share their correct option "4", and question 3's correct option differs. |
| IdCollision.CollisionStartKeys | routers/exams.py:85-107 | On a bank shaped like the seed bank, with one earlier variation, a start that replaces every question shows the variations under keys 2, 3 and 4. |
| IdCollision.WireSheetMisgraded | routers/exams.py:146-163 | The same start, answered correctly over the wire, scores 2 instead of 3 and logs one mistake against bank question 3. |
| IdCollision.ResolveRef | routers/exams.py:146-160 | Corrected lookup: an entry resolves only in the table it came from, to a row of that table with its key, and to nothing exactly when no row of that table has the key (such an answer is skipped). |
| IdCollision.SubmitKeyed | routers/exams.py:129-184 | Corrected submission: it succeeds exactly when the attempt exists and is active, and an error changes nothing. The score lies between 0 and the number of answers and counts the answers that are right against their entry's own table. Score plus mistakes counts the answers that resolve, and every resolved wrong answer has a mistake record with its id, selection, correct option and type. A success writes what `Exams.Submit` writes: only the attempt's submission time, unlock time, score and late flag change, and every mistake record carries the attempt's user. |
| IdCollision.EntryResolvesToItsQuestion | routers/exams.py:85-113 | Every entry of a start resolves, by its own table, to the correct option of the question behind it. |
| IdCollision.KeyedPerfectSheetScoresFull | routers/exams.py:142-174 | With keyed answers, answering every entry with the correct option of its question scores full marks and logs no mistake. |

## Left out

- Concurrent requests are not modelled. Every call is one atomic step, and calls are serialised. In the code, the check for an active attempt (routers/exams.py:61-67) and the insert and commit (routers/exams.py:78-80) are separate statements, with no lock and no unique constraint. So two concurrent starts of one user can both pass the check. Likewise two concurrent submits can both pass the check at routers/exams.py:136-137, and the second then overwrites the score and logs the mistakes again. `Lifecycle.StartPreservesWf` (at most one active attempt per user) and `Lifecycle.SubmitTwiceRefused` hold for serialised calls only.

- Database sessions are not modelled: `get_db`, commit/refresh, and the rollback path that answers 500 (routers/exams.py:178-182). The tables are immutable values, and a commit cannot fail.
- HTTP routing, status codes and response dictionaries are replaced by `ExamError` variants and small response records.
- `log_mistake` and `BackgroundTasks` are not modelled. `Submit` returns the mistake records, without `created_at`, instead of writing them.
- The clock and `random` are parameters. The three `utcnow()` reads of `submit_exam` are collapsed into one `now`.
- Authentication is not part of this model (`auth_router.py`, `auth.get_current_user`). The user is a string id, as in the `user_id` column. `start_exam` filters on the integer `User.id`, and the model treats it as the same string.
- `seed_questions` is not modelled as an endpoint. Its three questions serve only as the bank `IdCollision.SeedBank`.
- `main.py`, `schemas.py` and `models.py` are used only for the shapes of the records. The answers dictionary of the submit request is a sequence of (id, selection) pairs in iteration order. A dictionary is the case where the ids are distinct, and the contracts hold for any sequence.
- `generate_variation` copies the option list before swapping, so the source question is never modified. Dafny values are immutable, so this needs no statement.
- Services.ClassifyMistake: it returns the question's stored mistake type, and it has no contract of its own because that would only repeat its body. `submit_exam` reads the field directly, and `Exams.Resolve` states that this field is the mistake type logged for a question.
- Exams.Recent: its own contract only bounds the result. That the result holds the `k` newest attempts, newest first, is stated separately by `Exams.RecentNewestFirst` and `Exams.RecentAreNewest`.

## Findings

| source | as written | input that shows it | evidently intended | confidence | as-written member | corrected member |
|---|---|---|---|---|---|---|
| routers/exams.py:103-107 and 146-160 | A variation is shown to the user under its own key from the variation table, and submit looks every answer id up among the bank questions first. | The seed bank, one earlier variation (key 1), then a start that replaces all three questions: they are shown as keys 2, 3 and 4. The correct answers `{2: "4", 3: "4", 4: "25"}` score 2, and key 3 is graded against bank question 3 ("25") and logged as a TIME mistake. | Each answer is graded against the entry that was shown, so the correct sheet scores 3 and logs nothing. | medium, not executed | IdCollision.WireSheetMisgraded | IdCollision.KeyedPerfectSheetScoresFull |
