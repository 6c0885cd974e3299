# uniprep API core in Dafny

A model of the rule-bearing core of the uniprep study backend (a NestJS
service over a Prisma store), with proofs of the properties that its code and the expectations of its
unit tests state:

- `SM2`: the SuperMemo SM-2 scheduler `calculateSM2`, with the quality
  scale collapsed to correct (5) and incorrect (0). It holds the easiness
  floor, the repetition reset and the 1 / 6 / `Math.round(I * EF)` interval
  ladder.
- `Flashcards`: the flashcard table and `FlashcardsService`.
  - `submitAnswer` is an in-place update of one row, through a class.
  - `getFlashcardsByTopic` and `getFlashcardsToRepeat` are
    filter / order / skip-take selections.
  - `getEntryTestFlashcards` is a shuffle (any permutation) followed by a
    slice.
- `ProgressTracker`: the `progress` table keyed by (user, subject), with
  get, create-if-absent, upsert and delete.
- `StudyPlan`: `createPlan` (answer counting, wrong-topic deduplication,
  fallback when the analysis reply is unusable), `updateTopicStatus` with
  its ownership check, and `getPlanBySubject`.
- `Auth`: the user table as a state machine over sign-up, sign-in,
  logout, `getMe` and the rotation of the hashed refresh token.
- `FilterFunc` and `DbFill`: the seeding helpers `extractTopicsFromHistory`,
  `insertTopic`, `insertTask`, `answersInfo`, `deleteEmptyTopics` and
  `deleteEmptyFlashcards`.
- `Text`: JavaScript's `String.prototype.trim`.
- `Sequences`: generic sequence helpers (filter, skip/take page, first
  index, deduplication by key).

Tables are values held in the fields of a class where the service updates
them (`FlashcardTable`, `ProgressService`, `PlanStore`, `AuthService`,
`Catalog`). Loops of the source (`for`, `forEach`, `map`) are methods with
`while` loops proved against specification functions. An exception becomes
an `Err` of `Result`, tagged with the NestJS exception class it surfaces as.

The clock, the hash function, the issued JWT pair, the language-model
replies and the history dump are parameters. Stored rows get their ids
from a counter where the store would generate uuids.

Where the header comment of `calculateSM2.ts` says intervals are "rounded
up" (line 19), the model follows the code, which uses `Math.round`: the
nearest integer, with halves going toward +infinity.

## Model

| member | source | states |
|---|---|---|
| SM2.Round | apps/api/src/flashcards/utils/calculateSM2/calculateSM2.ts:54 | `Math.round`: the result lies in (x - 0.5, x + 0.5], which pins down the nearest integer with halves rounded up |
| SM2.CalculateSM2 | apps/api/src/flashcards/utils/calculateSM2/calculateSM2.ts:33-71 | The easiness factor is at least 1.3. It is max(1.3, ef + 0.1) on a correct answer and max(1.3, ef - 0.8) on an incorrect one. A wrong answer resets repetition to 0 and interval to 1; a correct one adds 1 to repetition. The interval ladder is 1, 1, 6, then round(interval * new ef). nextReview is now plus the interval in days of milliseconds |
| SM2.IntervalNeverShrinks | apps/api/src/flashcards/utils/calculateSM2/calculateSM2.ts:43-54 | From the third success on, with a prior interval of at least 1, the new interval is at least the prior one and at least 1 day |
| SM2.LadderFromFreshCard | apps/api/src/flashcards/utils/calculateSM2/calculateSM2.ts:39-63 | A card starting at (interval 0, repetition 0, ef 2.5) and answered right three times is scheduled 1, 6 and 17 days out; a wrong answer then brings it back to 1 day with ef 2.0 |
| Text.Trim | apps/api/src/db_fill/aditional_func/filterfunc.ts:8 | `trim()` is a slice s[i..j] of the input whose cut-off prefix and suffix are whitespace only. It is empty exactly when the string is whitespace only; otherwise it starts and ends with non-whitespace |
| Text.TrimIdempotent | apps/api/src/db_fill/aditional_func/filterfunc.ts:8 | Trimming a trimmed string changes nothing |
| Flashcards.GetFlashcardsByTopic | apps/api/src/flashcards/flashcards.service.ts:12-23 | Every returned card is in the table and has the topic. The length is min(take, max(0, n - skip)), where n counts the topic's cards |
| Flashcards.TopicPagesJoin | apps/api/src/flashcards/flashcards.service.ts:17-22 | The page (skip, a) followed by the page (skip + a, b) is the page (skip, a + b): consecutive pages neither skip nor repeat a card |
| Flashcards.WholeTopicOnOnePage | apps/api/src/flashcards/flashcards.service.ts:17-22 | Every card of the topic is on the first page when take covers the table |
| Flashcards.InsertByNextReview | apps/api/src/flashcards/flashcards.service.ts:85 | Inserting into a list sorted by nextReview keeps it sorted and adds exactly that card (multiset) |
| Flashcards.SortByNextReview | apps/api/src/flashcards/flashcards.service.ts:85 | `orderBy: { nextReview: 'asc' }`: the result is sorted ascending and is a permutation of the input |
| Flashcards.DueInOrder | apps/api/src/flashcards/flashcards.service.ts:77-86 | The due cards (nextReview <= now, and the topic when one is given) sorted ascending: a permutation of exactly the due cards, each of them in the table |
| Flashcards.GetFlashcardsToRepeat | apps/api/src/flashcards/flashcards.service.ts:70-89 | The result is the window (skip, take) of the due cards put in some ascending order of nextReview: a permutation of exactly the due cards, paged. So it holds only due cards of the table, sorted by nextReview, with no card twice when ids are unique. The length is min(take, max(0, due - skip)), so the result is empty when nothing is due |
| Flashcards.RepeatPagesJoin | apps/api/src/flashcards/flashcards.service.ts:77-86 | The due page (skip, a) followed by the due page (skip + a, b) is the due page (skip, a + b): consecutive pages neither skip nor repeat a due card |
| Flashcards.RepeatPagesInOrder | apps/api/src/flashcards/flashcards.service.ts:77-86 | Every card on the due page (skip, a) is due no later than every card on the next page (skip + a, b) |
| Flashcards.PageSorted | apps/api/src/flashcards/flashcards.service.ts:83-85 | skip/take of a list sorted by nextReview is still sorted |
| Flashcards.PageOfDue | apps/api/src/flashcards/flashcards.service.ts:78-85 | A page of the sorted due cards holds only due cards of the table, in order |
| Flashcards.FirstPageMostOverdue | apps/api/src/flashcards/flashcards.service.ts:78-85 | A due card left off the first page is due no earlier than any card on it |
| Flashcards.AllDueOnLargeFirstPage | apps/api/src/flashcards/flashcards.service.ts:78-85 | When take is at least the number of due cards, every due card is on the first page |
| Flashcards.GetEntryTestFlashcards | apps/api/src/flashcards/flashcards.service.ts:25-48 | Returns slice(skip, skip + take) of any permutation of the matching cards. Every card returned matches (its topic is in the subject when a non-empty subject id is given), none is repeated, and the length is min(take, max(0, n - skip)) |
| Flashcards.FlashcardTable.SubmitAnswer | apps/api/src/flashcards/flashcards.service.ts:50-68 | An unknown id is NotFound and the table is unchanged. Otherwise that row takes the SM-2 result computed from its own interval, repetition and ef, and the updated row is returned. Every other row, and the row's id, topic and question, stay as they were |
| ProgressTracker.Lookup | apps/api/src/progress_tracker/progress_tracker.service.ts:16-27 | Null exactly when no row has that (user, subject); otherwise a stored row with that key |
| ProgressTracker.Upsert | apps/api/src/progress_tracker/progress_tracker.service.ts:52-61 | The key holds the written row whether or not it existed. Other keys are unchanged, and the size grows by one only for a new key |
| ProgressTracker.UpsertKeepsKeysMatch | apps/api/src/progress_tracker/progress_tracker.service.ts:52-61 | After the upsert, every row still sits under its own (user, subject) key |
| ProgressTracker.UpsertIdempotent | apps/api/src/progress_tracker/progress_tracker.service.ts:52-61 | The same update twice gives the same table as once |
| ProgressTracker.LookupAfterUpsert | apps/api/src/progress_tracker/progress_tracker.service.ts:16-27 | After an upsert, the lookup of that key returns exactly the written row |
| ProgressTracker.CreateThenDeleteRestores | apps/api/src/progress_tracker/progress_tracker.service.ts:40-74 | Creating a row under a free key and deleting that key gives back the original table |
| ProgressTracker.ListRows | apps/api/src/progress_tracker/progress_tracker.service.ts:11-14 | The enumeration holds every stored row exactly once and nothing else, so its length is the table's size |
| ProgressTracker.ProgressService.GetMetrix | apps/api/src/progress_tracker/progress_tracker.service.ts:11-14 | Every stored row once and nothing else, so an empty table gives [] |
| ProgressTracker.ProgressService.GetMetrixById | apps/api/src/progress_tracker/progress_tracker.service.ts:16-27 | The row stored under (user, subject), or null exactly when there is none |
| ProgressTracker.ProgressService.AddMetrix | apps/api/src/progress_tracker/progress_tracker.service.ts:29-45 | An existing key is Forbidden (metric already exists) and nothing changes. Otherwise exactly one row `{ user_id, ...body }` is added and returned |
| ProgressTracker.ProgressService.UpdateMetrix | apps/api/src/progress_tracker/progress_tracker.service.ts:47-64 | The new table is the upsert of the old one, and the written row is returned |
| ProgressTracker.ProgressService.DeleteMetrix | apps/api/src/progress_tracker/progress_tracker.service.ts:66-80 | An absent key fails and the table is unchanged. Otherwise only that key is removed, and the reply carries the deletion message and the removed row |
| StudyPlan.WrongAnswers | apps/api/src/study-plan/study-plan.service.ts:22-33 | An answer is wrong exactly when it is in the table, is incorrect, and its id was submitted |
| StudyPlan.CorrectTaskNumBounds | apps/api/src/study-plan/study-plan.service.ts:20-35 | With unique answer ids, correctTaskNum lies between 0 and the number of results |
| StudyPlan.NoWrongAnswerAllCorrect | apps/api/src/study-plan/study-plan.service.ts:20-35 | When no submitted answer in the table is incorrect, there are no wrong answers and every result counts as correct, ids missing from the table included |
| StudyPlan.WrongTopics | apps/api/src/study-plan/study-plan.service.ts:37-49 | The values of `wrongTopicsMap`: unique by topic id, holding the topic of every wrong answer and only those, each with its first-seen name |
| StudyPlan.WrongTopicsInFirstOccurrenceOrder | apps/api/src/study-plan/study-plan.service.ts:37-49 | The deduplicated topics keep insertion order of the `Map`: the i-th and j-th (i < j) are the topics of wrong answers p < q, and answer q is the first one with its topic |
| StudyPlan.WrongTopicIds | apps/api/src/study-plan/study-plan.service.ts:37-49 | The ids of the wrong topics have no duplicates and are exactly the topic ids of the wrong answers |
| StudyPlan.AnalysedTopics | apps/api/src/study-plan/study-plan.service.ts:60-74 | With no wrong topic the result is []. A parsed analysis reply is used as is; a missing or unparsable one falls back to the wrong topics |
| StudyPlan.PlanMessageFromSupport | apps/api/src/study-plan/study-plan.service.ts:51-58 | The support call is told (taskNum, correctTaskNum). An unparsable reply makes createPlan throw; otherwise its message is the plan's message |
| StudyPlan.NoWrongAnswersNoTopics | apps/api/src/study-plan/study-plan.service.ts:60-79 | With no wrong answer the plan has no topics, whatever the analysis would answer |
| StudyPlan.FallbackListsWrongTopics | apps/api/src/study-plan/study-plan.service.ts:66-79 | When the analysis gives no usable ids, the plan's topics are the ids of the deduplicated wrong topics, in that order: the topic id of every wrong answer, each once, and nothing else |
| StudyPlan.FallbackTopicsInFirstOccurrenceOrder | apps/api/src/study-plan/study-plan.service.ts:37-79 | In the fallback plan, topic i comes before topic j only if its first wrong answer comes before the first wrong answer of topic j: the order is that in which `wrongTopicsMap` first saw each topic |
| StudyPlan.CollectWrongTopics | apps/api/src/study-plan/study-plan.service.ts:37-49 | The loop over wrong answers yields exactly the deduplicated wrong topics. It fails exactly when a wrong answer has no flashcard topic |
| StudyPlan.PushTopicIds | apps/api/src/study-plan/study-plan.service.ts:76-79 | `studyPlan` holds the analysed topics' ids, one for one and in order |
| StudyPlan.CreatePlan | apps/api/src/study-plan/study-plan.service.ts:17-94 | Returns what PlanFor specifies. The lemmas above pin that value down: the message, the fallback and the deduplicated ids |
| StudyPlan.OwnerOf | apps/api/src/study-plan/study-plan.service.ts:105-114 | The plan's user id read through the topic's StudyPlan relation, or none exactly when no plan has that id |
| StudyPlan.PlanStore.UpdateTopicStatus | apps/api/src/study-plan/study-plan.service.ts:100-124 | An unknown topic is NotFound and another user's plan is Forbidden; neither writes anything. Otherwise only that topic's status changes, to the given one, and no other topic changes. The returned row is that topic with the new status, and every topic stays stored under its own id |
| StudyPlan.PlanStore.GetPlanBySubject | apps/api/src/study-plan/study-plan.service.ts:138-159 | NotFound exactly when the user has no plan for the subject. Otherwise it returns the first such plan, with exactly the topics that belong to it |
| Auth.WithRefreshToken | apps/api/src/auth/auth.service.ts:106-113 | Only the refresh token of the row with that id changes; every other row and column is kept |
| Auth.WithRefreshTokenKeepsRows | apps/api/src/auth/auth.service.ts:106-113 | A token update keeps ids and emails unique and leaves every lookup by id or email finding the same row |
| Auth.AppendUser | apps/api/src/auth/auth.service.ts:49-56 | A user with a fresh id and an unused email keeps the table well formed, and the following token update touches only the new row |
| Auth.LogoutBlocksRefresh | apps/api/src/auth/auth.service.ts:76-98 | After logout, no presented token refreshes that user |
| Auth.RotationReplacesToken | apps/api/src/auth/auth.service.ts:92-113 | After rotation, the newly issued token is accepted exactly when its hash is non-empty, and a previous token with a different hash is refused |
| Auth.EmptyStoredTokenRefused | apps/api/src/auth/auth.service.ts:92-95 | A stored refresh token that is the empty string is falsy, so `!user.refresh_token` refuses every presented token |
| Auth.OtherSessionsUntouched | apps/api/src/auth/auth.service.ts:106-113 | Changing one user's token leaves every other user's refresh verdicts as they were |
| Auth.AuthService.UpdateRefreshToken | apps/api/src/auth/auth.service.ts:106-113 | Stores hash(token) on the user's row; a missing row makes the store throw and nothing changes |
| Auth.AuthService.SignUp | apps/api/src/auth/auth.service.ts:40-59 | A taken email is Forbidden and creates nothing. Otherwise exactly one user is appended, with the password hashed and hash(issued refresh token) stored, and the issued pair is returned |
| Auth.AuthService.SignIn | apps/api/src/auth/auth.service.ts:61-74 | An unknown email is NotFound and a non-matching password is Forbidden; neither changes anything. Otherwise the user's refresh token becomes hash(issued) |
| Auth.AuthService.Logout | apps/api/src/auth/auth.service.ts:76-83 | The user's refresh token becomes null and nothing else changes; the reply is the logout success |
| Auth.AuthService.GetMe | apps/api/src/auth/auth.service.ts:85-90 | The user with that id, or NotFound exactly when there is none |
| Auth.AuthService.RefreshTokens | apps/api/src/auth/auth.service.ts:92-104 | Forbidden, with nothing changed, unless the user exists, holds a non-empty token and the presented token matches it. Then the stored token becomes hash(issued) |
| FilterFunc.TrimmedTopics | apps/api/src/db_fill/aditional_func/filterfunc.ts:6-9 | Every candidate is the non-empty trimmed topic of some task. Every task with a non-empty trimmed topic contributes one, and tasks without a topic are skipped |
| FilterFunc.ExtractTopicsFromHistory | apps/api/src/db_fill/aditional_func/filterfunc.ts:3-12 | A non-array gives []. Otherwise the output has no duplicates, and every element is non-empty and trimmed. Its elements are exactly the trimmed non-empty topics of the tasks |
| FilterFunc.TopicsInFirstOccurrenceOrder | apps/api/src/db_fill/aditional_func/filterfunc.ts:6-11 | Output order is first-occurrence order, scanning sections and then their tasks |
| DbFill.InfoFor | apps/api/src/db_fill/db_fill.service.ts:38-45 | One `{ subject_id, name }` per extracted name, in order, all under the given subject |
| DbFill.CreatedTopics | apps/api/src/db_fill/db_fill.service.ts:47-49 | `createMany` adds one topic row per entry, in order, under consecutive fresh ids |
| DbFill.InsertedTopics | apps/api/src/db_fill/db_fill.service.ts:38-49 | The new topics carry exactly the extracted names, in order. All are under the History subject, with distinct fresh ids |
| DbFill.AnswerRows | apps/api/src/db_fill/db_fill.service.ts:68-70 | The nested `answers: { create }`: one row per answer, in order, linked to the new flashcard, with its text and correctness |
| DbFill.SeedOneStep | apps/api/src/db_fill/db_fill.service.ts:58-79 | One task goes to exactly one side: one new flashcard, or `tempArr`. Nothing stored before is changed |
| DbFill.SeedTempArr | apps/api/src/db_fill/db_fill.service.ts:76-78 | `tempArr` is exactly, and in order, the tasks whose topic name no topic carries |
| DbFill.SeedCount | apps/api/src/db_fill/db_fill.service.ts:58-79 | Each matched task makes exactly one flashcard. Matched and unmatched tasks together are all the tasks, so none is lost |
| DbFill.SeedGrows | apps/api/src/db_fill/db_fill.service.ts:58-79 | insertTask only appends: earlier flashcards and answers stay in front, and ids only grow |
| DbFill.SeedFlashcards | apps/api/src/db_fill/db_fill.service.ts:59-72 | The k-th new flashcard comes from the k-th matched task: it has that task's question and the id of the first topic with that name |
| DbFill.AnswersInfoOf | apps/api/src/db_fill/db_fill.service.ts:84-106 | answerNum is the number of answers. answerNoText counts those whose text is missing or whitespace only. topicsWithNoText is duplicate-free and holds exactly the labels of those answers |
| DbFill.UnknownWhenRelationMissing | apps/api/src/db_fill/db_fill.service.ts:97-99 | A text-less answer whose flashcard is missing, has no topic id, or points to a missing topic is reported under 'UNKNOWN' |
| DbFill.Catalog.InsertTopic | apps/api/src/db_fill/db_fill.service.ts:22-50 | With no History subject it throws and writes nothing. With no extracted topic it returns the parsing-error text and writes nothing. Otherwise it appends one topic per extracted name, in order, under the History subject's id |
| DbFill.Catalog.InfoToInsert | apps/api/src/db_fill/db_fill.service.ts:38-45 | The `forEach` builds exactly the entries InfoFor specifies |
| DbFill.Catalog.CreateTopics | apps/api/src/db_fill/db_fill.service.ts:47-49 | The topic table gains exactly CreatedTopics under fresh ids; no other table changes |
| DbFill.Catalog.InsertTask | apps/api/src/db_fill/db_fill.service.ts:52-82 | The tables and `tempArr` are what SeedAll gives over the topics read before the loop. The Seed lemmas above state what that value is. Subjects and topics are unchanged |
| DbFill.Catalog.InsertOne | apps/api/src/db_fill/db_fill.service.ts:58-79 | One element of `info.map`, as SeedOne specifies |
| DbFill.Catalog.CreateFlashcard | apps/api/src/db_fill/db_fill.service.ts:64-72 | Appends one flashcard under the topic, with its answers linked to it, all under fresh ids |
| DbFill.Catalog.DeleteEmptyTopics | apps/api/src/db_fill/db_fill.service.ts:116-129 | Every remaining topic has a flashcard; every removed one had none, and the order is kept. The reported count is the number removed |
| DbFill.Catalog.DeleteEmptyFlashcards | apps/api/src/db_fill/db_fill.service.ts:131-144 | Every remaining flashcard has an answer; every removed one had none, and the order is kept. The reported count is the number removed |

## Left out

- Mail: the greeting email of sign-up (`sendGreetingEmail`) and the mail service are I/O and are not modelled; sending is taken to succeed.
- Auth.AuthService.SignUp: the mail-failure path is not modelled. `sendMail` rethrows, and sign-up awaits the greeting after `user.create` and before `updateRefreshToken` (apps/api/src/auth/auth.service.ts:49-56), so a failed email leaves the new user row with a null refresh token and answers 500.
- JWT: `generateTokens` signs with a secret and the clock, so each issued token pair is a parameter.
- Hashing: bcrypt hashing is an uninterpreted function `hash`, and `compareValue(v, h)` holds exactly when `h == hash(v)`. A stored empty string counts as no token, as JavaScript's falsiness makes it.
- Shuffle: `Math.random` in the entry-test shuffle is any permutation of the matching cards; randomness is not modelled.
- Clock: `Date.now()` and `new Date()` are the parameter `now`, in milliseconds.
- Floating point: easiness factors are exact reals. IEEE-754 rounding of `ef + ...` and `interval * ef` is not modelled.
- SM-2 quality constants: the constants file of the scheduler is not part of this model. Correct is taken as 5 and incorrect as 0, the two ends of the 0-5 scale, and a day as 24 * 60 * 60 * 1000 ms.
- insertTask concurrency: the un-awaited `info.map(async ...)` is modelled as a sequential loop. The interleaving of the flashcard writes, errors thrown by a write, and the `console.log` of `tempArr.length` are not modelled; `tempArr` is returned instead.
- Seeding inputs: the dump `history_raw.json` and `filterHistoryData` are not part of this model. Their outputs (the parsed history and the filtered tasks) are parameters.
- JSON shapes: a history section whose `tasks` is not an array is not modelled; sections always carry a task list.
- Generated ids: uuids and `xata_*` timestamps are not modelled. New rows take ids from a counter.
- Language-model calls: the OpenAI calls of `createPlan` are parameters that map the request to a reply, and a reply may fail to parse.
- Plan persistence: `createPlan` persists nothing, since its `studyPlan.create` call is commented out.
- `getAllPlansByUser`: a plain `findMany` ordered by creation time, which is not modelled.
- `findAll`: a plain `findMany` of the topic table, not modelled.
- `insertSub`: a single `subject.create`, not modelled.
- Flashcards.FlashcardTable: the flashcard table is a sequence in the store's order with unique ids (the primary key), not a map.
- Flashcards.GetEntryTestFlashcards: requires the table's ids to be unique, which the primary key guarantees.
- Flashcards.GetFlashcardsByTopic, Flashcards.GetFlashcardsToRepeat, Flashcards.GetEntryTestFlashcards: the joined `answers` relation (`include: { answers: true }`, apps/api/src/flashcards/flashcards.service.ts:19, 42, 82) is not returned. A `Card` carries only the flashcard's own columns, so the answer rows attached to each returned card are not modelled.
- Flashcards.GetFlashcardsByTopic: skip and take are non-negative integers. The defaults (`skip = 0`, `take = DEFAULT_CARDS_TAKE`, whose constants file is not part of this model) and the store's handling of negative or fractional values are not modelled.
- Flashcards.GetFlashcardsToRepeat: skip and take are non-negative integers. The defaults (`skip = 0`, `take = DEFAULT_CARDS_TAKE`) and the store's handling of negative or fractional values are not modelled.
- Flashcards.GetEntryTestFlashcards: skip and take are non-negative integers. The defaults (`skip = 0`, `take = ENTRY_TEST_CARDS_NUMBER`) and `slice`'s coercion of negative or fractional bounds are not modelled.
- Flashcards.GetFlashcardsToRepeat: cards with equal `nextReview` keep table order. The store does not promise an order among ties, so the contract states only the ascending order.
- StudyPlan.PlanStore.GetPlanBySubject: `PlanTopics` are returned as a set, so their ordering by name is not modelled. The included `Subject` row is left out.
- StudyPlan.PlanStore: a topic status is an uninterpreted string, because its enumeration is not part of this model.
- ProgressTracker.ProgressService.GetMetrix: the order in which the store lists the rows is not specified, so none is stated.
- ProgressTracker: the row's own id and `updated_at` are not modelled.
- Error messages: the texts are opaque reasons. Deleting or updating a missing row is the store's own error, `Thrown(RecordNotFound)`.
