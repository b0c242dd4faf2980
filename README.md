# StudyGenius study aid, modelled in Dafny

StudyGenius is a browser study aid. The user uploads text or a file. A remote
AI service turns it into markdown notes, and then, on request, into a
flashcard deck and a multiple-choice quiz. The user studies the deck, takes
the quiz, and the dashboard summarises the quiz history.

This project models the deterministic logic around the service calls, one
Dafny module per source file:

- `Types` (`types.dfy`) holds the shared records: views, flashcards, questions,
  results and the study set. It also holds `RoundDiv`, the exact integer form
  of `Math.round(a / n)`.
- `Quiz` (`quiz.dfy`) is the quiz session, a class whose handlers update its
  fields. It also scores answers, computes the percentage and the rank, and
  emits one result per completed run.
- `Flashcards` (`flashcards.dfy`) is the flashcard session, a class. It covers
  wrap-around navigation, marking, shuffling and the visibility gate.
  - The gate works in three steps: the handler hides the card and schedules
    the update (`pending`); `Settle` is the 300 ms timer that runs the update;
    `Reveal` is the 50 ms timer that shows the card again.
  - The scheduled update closes over the deck as it was at the click. So a
    pending move carries that deck's length, or the deck itself.
- `Dashboard` (`dashboard.dfy`) holds pure statistics over the quiz history:
  the average, mastery, encouragement, trend window, recent list, badges,
  question total and streak.
- `Sidebar` (`sidebar.dfy`) holds the navigation items, their enable rule and
  what clicks do.
- `Notes` (`notes.dfy`) is the notes renderer at the text level:
  - the split into lines, `trim`, and first-occurrence `replace`;
  - the classification into h1/h2/h3/bullet/spacer/paragraph;
  - the global lazy `**…**` replacement, modelled as plain and strong spans.
- `StudyApp` (`app.dfy`) is the application class. It holds the study set,
  the current view and the append-only quiz history, and its handlers.
  - Each service call is a parameter `Ok(value)` or `Err`.
  - Each handler that calls the service is a begin step (busy flag) plus a
    finish step (outcome), and also one composed step.

Dates, the clock and the randomness of shuffling are parameters too: a date
string, an integer timestamp, and a sequence of picks.

## Model

| member | source | states |
|---|---|---|
| Types.RoundDiv | components/QuizSection.tsx:23 | `Math.round(a/n)` for n > 0: the integer r with r - 1/2 <= a/n < r + 1/2 (halves round up) |
| Types.RoundDivPercentRange | components/DashboardSection.tsx:14-16 | a dividend between 0 and 100·n rounds to a value in [0, 100] |
| Quiz.Score | components/QuizSection.tsx:80-86 | the number of questions whose recorded answer equals the correct index; never more than the quiz length |
| Quiz.FullScoreIffAllCorrect | components/QuizSection.tsx:80-86 | score == quiz length exactly when every question is answered correctly |
| Quiz.ZeroScoreIffNoneCorrect | components/QuizSection.tsx:80-86 | score == 0 exactly when no question is answered correctly |
| Quiz.Percentage | components/QuizSection.tsx:89-90 | the rounded percentage of a run lies in [0, 100] |
| Quiz.PercentageHundred | components/QuizSection.tsx:23 | 100% exactly when 200·score >= 199·total; for fewer than 200 questions, exactly when all are correct |
| Quiz.NearlyPerfectShowsHundred | components/QuizSection.tsx:90 | 199 correct out of 200 shows as 100% |
| Quiz.RankOf | components/QuizSection.tsx:96-112 | Grandmaster exactly for >= 90, Expert exactly for [80, 90), Apprentice exactly for [60, 80), Novice exactly below 60 |
| Quiz.RankBoundaries | components/QuizSection.tsx:96-112 | 100 and 90 give Grandmaster, 89 and 80 Expert, 79 and 60 Apprentice, 59 and 0 Novice |
| Quiz.RankMonotone | components/QuizSection.tsx:96-112 | each rank covers exactly its band (>= 90, [80, 90), [60, 80), < 60); a higher percentage never earns a lower rank |
| Quiz.SevenOfTen | components/QuizSection.tsx:89-112 | 7 of 10 correct is 70%, an Apprentice |
| Quiz.ResultOf | components/QuizSection.tsx:20-32 | the emitted result: completed, total = quiz length, score = the number of correct answers (full exactly when all correct), percentage = the rounded percentage of that score and in [0, 100], the answers, the timestamp, no topic |
| Quiz.QuizSession.constructor | components/QuizSection.tsx:13-17 | a fresh run: index 0, nothing selected, not revealed, no answers, not completed |
| Quiz.QuizSession.Select | components/QuizSection.tsx:60-63 | ignored once the answer is revealed; otherwise the selection becomes the option; nothing else changes |
| Quiz.QuizSession.Check | components/QuizSection.tsx:65-68 | needs a selection (the button is disabled without one); reveals and records the selection under the current question's id, keeping other answers |
| Quiz.QuizSession.CalculateScore | components/QuizSection.tsx:80-86 | the counting loop returns `Score(quiz, answers)` |
| Quiz.QuizSession.Next | components/QuizSection.tsx:19-34 | before the last question: index + 1, selection and reveal cleared; on the last: completed, index kept; a result is emitted exactly when completion goes from false to true, and it is `ResultOf(...)`; the index stays in range |
| Quiz.QuizSession.Retry | components/QuizSection.tsx:137-143 | back to the initial state of a fresh run |
| Flashcards.NextIndex | components/FlashcardSection.tsx:37 | `(i + 1) mod n`: one on, wrapping from the last card to 0 |
| Flashcards.PrevIndex | components/FlashcardSection.tsx:46 | `(i - 1 + n) mod n`: one back, wrapping from 0 to the last card |
| Flashcards.NextPrevRoundTrip | components/FlashcardSection.tsx:32-48 | prev undoes next and next undoes prev on any deck of n >= 1 cards |
| Flashcards.Shuffled | components/FlashcardSection.tsx:62 | the reordered deck has the same length and the same multiset of cards |
| Flashcards.CountStatus | components/FlashcardSection.tsx:199-210 | the number of cards with a status, at most the deck size |
| Flashcards.StatusCountsSum | components/FlashcardSection.tsx:199-210 | known + review + new == deck size |
| Flashcards.CountAfterMark | components/FlashcardSection.tsx:50-56 | marking one card with s adds one to the count of s unless it already had s |
| Flashcards.MarkOneOfFreshDeck | components/FlashcardSection.tsx:50-56 | marking one card of an all-new deck known leaves exactly one known card |
| Flashcards.FlashcardSession.constructor | components/FlashcardSection.tsx:11-16 | the working copy is the given deck, index 0, unflipped, visible, nothing pending |
| Flashcards.FlashcardSession.ReplaceDeck | components/FlashcardSection.tsx:18-20 | a new upstream deck replaces the copy; the index is kept, so it stays in range exactly when the new deck is longer than it |
| Flashcards.FlashcardSession.Flip | components/FlashcardSection.tsx:121 | toggles the flipped flag and nothing else |
| Flashcards.FlashcardSession.Animate | components/FlashcardSection.tsx:23-30 | when visible, hides the card and schedules the move; when hidden, changes nothing |
| Flashcards.FlashcardSession.Next | components/FlashcardSection.tsx:32-39 | ignored while hidden; otherwise hides and schedules a move one card on, over the current length |
| Flashcards.FlashcardSession.Prev | components/FlashcardSection.tsx:41-48 | ignored while hidden; otherwise hides and schedules a move one card back |
| Flashcards.FlashcardSession.Mark | components/FlashcardSection.tsx:50-56 | ignored while hidden; otherwise sets only the current card's status, keeps the length, then advances as next does |
| Flashcards.FlashcardSession.Shuffle | components/FlashcardSection.tsx:58-66 | ignored while hidden; otherwise hides and schedules a reshuffle of the current deck |
| Flashcards.FlashcardSession.Settle | components/FlashcardSection.tsx:25-29 | runs the scheduled move unflipped: next/prev index over the captured length, or a reshuffled permutation with index 0; the index is in range after a reshuffle and whenever the captured length is the current one |
| Flashcards.FlashcardSession.Reveal | components/FlashcardSection.tsx:28 | the card shows again and accepts input; nothing else changes |
| Flashcards.NextThenPrev | components/FlashcardSection.tsx:32-48 | next then prev, each run to the end of its transition, shows the starting card of the same deck, unflipped |
| Dashboard.SumPercent | components/DashboardSection.tsx:15 | the sum of the percentages (missing as 0); with percentages in [0, 100] it is in [0, 100·n] |
| Dashboard.AvgScore | components/DashboardSection.tsx:13-16 | 0 for no tests; otherwise the sum of percentages (missing as 0) divided by n, rounded half up |
| Dashboard.AvgScoreInRange | components/DashboardSection.tsx:13-16 | the average of in-range percentages is in [0, 100] |
| Dashboard.MasteryCount | components/DashboardSection.tsx:19 | the count of entries with percentage (missing as 0) >= 80, at most the number of tests |
| Dashboard.MasteryCountAll | components/DashboardSection.tsx:19 | mastery equals the number of tests exactly when every entry scored >= 80 |
| Dashboard.TwoQuizScenario | components/DashboardSection.tsx:13-19 | a 100% and a 50% entry average 75% with one mastered |
| Dashboard.EncouragementFor | components/DashboardSection.tsx:21-26 | the start prompt exactly for no tests; otherwise >= 90, [70, 90) and < 70 pick the three tiers |
| Dashboard.TopicLabel | components/DashboardSection.tsx:35 | a prefix of the topic of min(10, its length) characters followed by "..."; a missing topic prints "undefined..." |
| Dashboard.RecentWindow | components/DashboardSection.tsx:30 | the last min(10, n) entries in order |
| Dashboard.Trend | components/DashboardSection.tsx:32-36 | one point per window entry, x its position, y its percentage or 0, caption the label of its topic |
| Dashboard.TrendAfterAppend | components/DashboardSection.tsx:39 | the graph shows with at least two entries; its last point is the newest entry; a full window slides by one |
| Dashboard.RecentQuizzes | components/DashboardSection.tsx:173 | the first min(5, n) entries of the reversed history, newest first |
| Dashboard.BadgeOf | components/DashboardSection.tsx:194 | Excellent exactly for >= 80, Good exactly for [60, 80), Needs Work exactly below 60 (a missing percentage as 0) |
| Dashboard.BadgeAgreesWithMastery | components/DashboardSection.tsx:194 | an entry's badge is Excellent exactly when it counts for mastery; a missing percentage gets Needs Work |
| Dashboard.StatsAfterAppend | components/DashboardSection.tsx:216 | appending an entry adds its total to the question count, its percentage to the sum, one to mastery if >= 80, and makes it the newest recent entry |
| Dashboard.TotalQuestions | components/DashboardSection.tsx:216 | the sum of the entries' question counts; non-negative when every count is |
| Dashboard.TotalQuestionsGrows | components/DashboardSection.tsx:216 | with non-negative counts no earlier history totals more questions than a later one |
| Dashboard.Streak | components/DashboardSection.tsx:220 | min(n, 5) |
| Sidebar.NavItems | components/Sidebar.tsx:15-21 | five items in the order HOME, UPLOAD, NOTES, FLASHCARDS, QUIZ; an item is disabled exactly when it is a study screen and there are no notes |
| Sidebar.OneItemPerView | components/Sidebar.tsx:15-21 | every view has exactly one item |
| Sidebar.ItemFor | components/Sidebar.tsx:15-21 | the item of a view is one of the navigation items and is that view's |
| Sidebar.AfterItemClick | components/Sidebar.tsx:36 | an enabled item sets the view to its own; a disabled one leaves the view as it was |
| Sidebar.AfterLogoClick | components/Sidebar.tsx:25 | the dashboard, whatever the current view, a view that needs no notes |
| Sidebar.ClickGating | components/Sidebar.tsx:36 | HOME and UPLOAD are always reached; a study screen is reached exactly when notes exist, else the view is unchanged |
| Sidebar.ClickKeepsNotesRule | components/Sidebar.tsx:25-36 | item and logo clicks never lead to a study screen without notes |
| Notes.Split | components/NotesSection.tsx:14 | at least one line, and no line holds a newline |
| Notes.JoinSplit | components/NotesSection.tsx:14 | joining the lines with newlines gives back the content; there is one more line than newlines |
| Notes.SplitJoin | components/NotesSection.tsx:14 | splitting the join of newline-free lines gives back the lines |
| Notes.IndexOf | components/NotesSection.tsx:17 | the first occurrence of a pattern at or after a position, or none |
| Notes.ReplaceFirst | components/NotesSection.tsx:17 | text without an occurrence of the pattern comes back unchanged; otherwise the first occurrence, and only it, is replaced |
| Notes.ReplacePrefix | components/NotesSection.tsx:17-23 | on a line starting with the marker, replacing its first occurrence by "" removes the prefix |
| Notes.Trim | components/NotesSection.tsx:25 | a contiguous part of the line with only white space before and after it; empty exactly for an all-white-space line, otherwise starting and ending with a non-white-space character |
| Notes.FindClose | components/NotesSection.tsx:27 | the lazy `.*?`: the first closing `**` on the same line, or none |
| Notes.FindPair | components/NotesSection.tsx:27 | the leftmost opening `**` that has a closing one, with its shortest close; no earlier match exists |
| Notes.Emphasize | components/NotesSection.tsx:27-40 | the spans give back the line when the markers are restored; strong text never crosses a line terminator; the spans are the steps of the global left-to-right scan: no match starts inside plain text, and each strong span is a match starting where it stands, closed at its first `**` |
| Notes.NoPairUnchanged | components/NotesSection.tsx:27-40 | a line with no complete pair comes back as one plain span |
| Notes.FirstPairIsStrong | components/NotesSection.tsx:27-40 | the leftmost shortest pair's inner text becomes a strong span |
| Notes.KindOf | components/NotesSection.tsx:16-41 | h1, h2 and h3 exactly for the `# `, `## `, `### ` prefixes; bullet exactly for a non-heading whose trimmed form starts `- `; blank exactly for an all-white-space line; text otherwise |
| Notes.Classify | components/NotesSection.tsx:16-41 | per kind of line: a heading holds the line without its marker; a bullet holds the emphasized text after the trimmed line's `- `; a blank line is a spacer; any other line is a paragraph holding the emphasized line |
| Notes.RenderContent | components/NotesSection.tsx:14-15 | one block per line of the split, in order |
| Notes.CarriageReturnIsSpacer | components/NotesSection.tsx:35-36 | a line holding only "\r" is a spacer |
| Notes.EmptyBulletIsParagraph | components/NotesSection.tsx:25-41 | "- " trims to "-" and so is a paragraph, not a bullet |
| Notes.HeadingKeepsRest | components/NotesSection.tsx:16-17 | a `# ` heading keeps everything after its marker, a trailing "\r" left by the line split included |
| StudyApp.NotesOrFallback | services/geminiService.ts:71 | the notes are never empty: the reply, or the fallback text when the reply is empty |
| StudyApp.Title | App.tsx:49 | the file's name when it has one, else "Text Notes " + date; never empty |
| StudyApp.OriginalContent | App.tsx:58 | the text, else "File: " + name, else ""; empty exactly when there is neither text nor file |
| StudyApp.RegenerateKeepsSource | App.tsx:58-120 | replaying a kept source with no file keeps it, a file-only placeholder included |
| StudyApp.Topic | App.tsx:101 | a non-empty file name, else a non-empty title, else "General Knowledge"; never empty |
| StudyApp.TopicAfterProcessing | App.tsx:49-101 | after a successful processing the topic is the processing's title |
| StudyApp.RequestFor | App.tsx:47-49 | the request carries the text, a file part exactly when there is a file (its data and type), and the title |
| StudyApp.InitialStudySet | App.tsx:14-22 | no notes, no flashcards, no quiz, not generating, no file |
| StudyApp.App.constructor | App.tsx:13-25 | view HOME, the initial study set, empty history |
| StudyApp.App.BeginProcessing | App.tsx:44-49 | only the busy flag is set; the request is built from text, file and date |
| StudyApp.App.FinishProcessing | App.tsx:55-68 | success sets title, kept source, notes, file name, clears busy and shows NOTES; failure only clears busy |
| StudyApp.App.ProcessMaterial | App.tsx:43-69 | the composed handler: as above, and flashcards, quiz and history never change |
| StudyApp.App.UploadBusy | App.tsx:118 | the upload spinner shows only while a request is pending and no notes exist |
| StudyApp.App.SubmitUpload | components/UploadSection.tsx:52-143 | while the upload screen is busy, or with neither text nor file, nothing happens; otherwise it processes, and on success the kept source is non-empty and the busy flag cleared |
| StudyApp.App.Regenerate | App.tsx:120 | a no-op while a request is pending; otherwise replays the kept source with no file and ends not busy: on success the kept source is unchanged, the file name cleared, the title dated; id and file type never change |
| StudyApp.App.BeginGenerateFlashcards | App.tsx:72-74 | a no-op exactly when there are no notes; otherwise only the busy flag is set and the notes are sent |
| StudyApp.App.FinishGenerateFlashcards | App.tsx:76-81 | success replaces the whole deck and clears busy; failure only clears busy |
| StudyApp.App.GenerateFlashcards | App.tsx:71-82 | the composed handler: no-op without notes, else as above |
| StudyApp.App.BeginGenerateQuiz | App.tsx:85-87 | a no-op exactly when there are no notes; otherwise only the busy flag is set and the notes are sent |
| StudyApp.App.FinishGenerateQuiz | App.tsx:89-94 | success replaces the whole quiz and clears busy; failure only clears busy |
| StudyApp.App.GenerateQuiz | App.tsx:84-95 | the composed handler: no-op without notes, else as above |
| StudyApp.App.QuizComplete | App.tsx:97-105 | appends exactly one entry, the result tagged with the set's topic; earlier entries unchanged |
| StudyApp.App.ClickNavItem | components/Sidebar.tsx:36 | the sidebar rule applied to the app's notes: a disabled item leaves the view, an enabled one sets it |
| StudyApp.App.ClickLogo | components/Sidebar.tsx:25 | the view becomes HOME |
| StudyApp.App.StartFromDashboard | components/DashboardSection.tsx:97 | the view becomes UPLOAD |
| StudyApp.FirstSession | App.tsx:43-105 | from a fresh start, process text, generate a deck and a quiz, complete a quiz: history of one entry topped with the dated title |

Every `StudyApp.App` method also keeps `Valid()`: a study screen is shown only
while notes exist. It holds because the notes service never returns empty
notes.

## Left out

- The generation service (`services/geminiService.ts`) is not modelled beyond
  its empty-reply fallback. That covers the network calls, the prompts, JSON
  parsing, the 20000-character truncation of the notes it is sent, and the
  ids and status it stamps on cards and questions. Each call is an outcome
  parameter.
- The upload screen's file reading and drag-and-drop are not modelled. Only
  its submit guard is (`SubmitUpload`).
- Timers keep their order (begin, `Settle`, `Reveal`) but not their durations.
  A click landing between `Settle` and `Reveal` is rejected, as in the app.
- `Shuffled` claims a permutation and nothing about fairness. The picks stand
  for `Math.random` in the sort comparator, so not every order a comparator
  sort can produce is claimed to be reachable.
- `Types.RoundDiv` is exact rational rounding. The app computes
  `Math.round((score / total) * 100)` and `Math.round(sum / n)` in floating
  point. The two can differ where a product lands within rounding error of a
  half.
- SVG coordinates, the progress-bar width, dark mode, CSS classes, emoji,
  alerts, and all wording except the navigation captions are not modelled.
- The HTML built by the bold replacement is not modelled. Strong spans stand
  for `<strong>` elements, and HTML safety is not modelled.
- Emphasize: the contract fixes every strong span and where every match
  stands. It lets a run of plain text come back as several plain spans, which
  render the same.
- `Flashcards.FlashcardSession.Mark`: the card is updated as a value. In the
  app, the shallow copy shares card objects, so the status change is also
  visible through the study set's deck.
- Leaving a screen and coming back remounts its section in the app, which
  starts a fresh quiz or flashcard session. The model creates sessions with
  their constructors and does not tie that to view changes.
- A quiz session holds one quiz. The app asks for a quiz only from the
  empty-quiz screen, so a new quiz reaches a section whose run is still in its
  initial state. A new deck reaches a running flashcard session through
  `ReplaceDeck`.
- The screens for an empty quiz and an empty deck are preconditions: a quiz
  session needs a question, and next/prev/shuffle need a card.
- Strings are sequences of code points. JavaScript strings are UTF-16, so
  `substring(0, 10)` in `TopicLabel` can differ for characters outside the
  Basic Multilingual Plane.
- Concurrent handlers are not modelled. Each service call is a begin step
  and a finish step, and nothing else interleaves with them.

## Notes on the behaviour

- Rounding makes a run show 100% whenever 200·score >= 199·total
  (`Quiz.PercentageHundred`). So "100% exactly when every answer is right"
  holds only for quizzes of fewer than 200 questions. This follows from the
  standard rounding, not from a defect.
- A regenerate replays `originalContent` with no file. For a set made from a
  file alone, the service then receives only the placeholder "File: name",
  the file name is cleared, and later quiz results take the dated text title
  as their topic (`StudyApp.App.Regenerate`).
