# Student portal decision logic, in Dafny

A model of the decision logic inside a React student-portal front end. The portal shows
attendance, a timetable, live quizzes and quiz results, and a profile page. Almost all of
the front end is rendering and `fetch` plumbing. The model keeps the small decisions inside
it and states them as pure functions over immutable datatypes:

- the attendance target calculator of the summary card;
- the live-quiz session: phases, countdowns, classifying the server's replies, the answers
  map, navigation, the submission guard, and the quiz code and `submitting` flag that each
  one-second interval captured when it was installed;
- the question view of an active quiz, including its "Answering..." flag over a run of
  choices and replies;
- list processing:
  - the attendance course grid and the attendance details page;
  - the completed-quiz search and sort;
  - the day's attendance records;
  - the timetable rows and lecture status;
  - the option highlighting on the quiz-results page;
- the profile page's password and PIN forms, and the login form with its forgot-password
  dialog;
- the authentication context over an abstract key-value store.

Conventions:

- Every server reply is an input datatype, and every request a page would send is an
  output value.
- Instants are integer seconds and days are integer indices.
- Local storage is an abstract `map`.
- Timers become explicit steps that take `now`.
- JavaScript built-ins the logic depends on are written out explicitly. `Text` covers the
  remainder `%`, `parseInt` with no radix (white space, sign and the `0x` prefix included),
  `length` in UTF-16 code units, `includes`, ASCII `toLowerCase`, `localeCompare` as
  code-point order, and `x || fallback` on messages. `Sorting` is a stable `Array.prototype.sort`, and
  `Lists` covers `filter`, `find` and counting.

Files (one module each): `wrappers.dfy` (Option), `text.dfy`, `lists.dfy`, `sorting.dfy`,
`auth_context.dfy`, `attendance_summary.dfy`, `attendance_card.dfy`,
`attendance_details.dfy`, `daily_attendance.dfy`, `timetable.dfy`, `completed_quizzes.dfy`,
`completed_quiz_details.dfy`, `quiz_types.dfy`, `quiz_session.dfy`, `quiz_question.dfy`,
`profile.dfy`, `login_form.dfy`.

## Model

| member | source | states |
|---|---|---|
| AttendanceCard.RequiredLectures | src/components/AttendanceSummaryCard.tsx:35-61 | Below 100 % the count is the least number of further attended lectures that reaches the target (0 when already reached), teased with an emoji exactly at 69 when positive. At 100 % the result is "impossible" iff total ≥ present and 0 iff present > total, because the `<= 0` test runs before the finiteness test. |
| AttendanceCard.RawRequiredIsLeast | src/components/AttendanceSummaryCard.tsx:40-49 | The ceiling formula's value, when positive, is the least x with 100·(P+x) ≥ t·(T+x). When it is ≤ 0, no further lecture is needed. |
| AttendanceCard.ReachesLinear | src/components/AttendanceSummaryCard.tsx:40-45 | Reaching the target after x more lectures is the linear condition x·(100−t) ≥ t·T − 100·P. |
| AttendanceCard.CeilDiv | src/components/AttendanceSummaryCard.tsx:47-49 | `Math.ceil(a/b)` for b > 0 is the unique q with (q−1)·b < a ≤ q·b. |
| AttendanceCard.LeavingLectures | src/components/AttendanceSummaryCard.tsx:63-75 | The leaving count is the greatest x with 100·P ≥ t·(T+x): one more missed lecture would drop below the target. |
| AttendanceCard.Advise | src/components/AttendanceSummaryCard.tsx:198-244 | For a slider target in 1..100, the leaving count is shown iff the displayed percentage is at least the target. It is the greatest x with 100·P ≥ t·(T+x): one more missed lecture would fall below. Otherwise the panel shows the calculator's required count. |
| AttendanceCard.RequiredText | src/components/AttendanceSummaryCard.tsx:53-60 | A count is shown as decimal text that reads back as the count, the teased count after the 🤤 emoji, and the impossible case as "Its Impossible, Infinite". |
| AttendanceCard.ConsistentAdvice | src/components/AttendanceSummaryCard.tsx:215-244 | When the percentage agrees with the counts, the panel never advises missing a negative number of lectures. When it advises attending, at least one lecture is needed, or at 100 % the target is out of reach. |
| AttendanceCard.ReachedIff | src/components/AttendanceSummaryCard.tsx:215 | With a consistent percentage, "percentage ≥ target" holds iff 100·P ≥ t·T. |
| AttendanceCard.Absent | src/components/AttendanceSummaryCard.tsx:32 | Absent plus present equals total. |
| AttendanceCard.CardColor | src/components/AttendanceSummaryCard.tsx:77-81 | Green iff ≥ 85, red iff < 75. |
| AttendanceSummary.KeptCourses | src/components/AttendanceSummary.tsx:46-49 | Keeps, in order, exactly the entries whose code is not "Total" and that held at least one lecture, each as often as it occurs. |
| AttendanceSummary.KeptCoursesMembership | src/components/AttendanceSummary.tsx:46-49 | An entry is shown iff it was received, is not "Total" and has Total > 0. |
| AttendanceSummary.CacheKeyInjective | src/components/AttendanceSummary.tsx:53 | Distinct `cf_id`s never share a `course_<cf_id>` key. |
| AttendanceSummary.CacheKeyReadsBack | src/components/AttendanceSummary.tsx:53 | A course's key is `course_` followed by text that reads back as its `cf_id`. |
| AttendanceSummary.CacheCourses | src/components/AttendanceSummary.tsx:52-54 | The store gains exactly the kept courses' keys. Entries under other keys are untouched. |
| AttendanceSummary.CacheHoldsLastWrite | src/components/AttendanceSummary.tsx:52-54 | A course that no later course shares a `cf_id` with can be read back from its own key. |
| AttendanceSummary.ApplyFetch | src/components/AttendanceSummary.tsx:44-58 | A success shows and caches the kept courses. A failure keeps the grid and sets "Failed to load attendance data". |
| AttendanceSummary.FetchCachesEveryCourse | src/components/AttendanceSummary.tsx:46-56 | After a successful fetch, each shown course is what the cache holds under its key. |
| AttendanceSummary.ClickTarget | src/components/AttendanceSummary.tsx:69-71 | A click navigates to `/attendance?course_id=` followed by text that `parseInt` reads back as the clicked course's `cf_id`. |
| AttendanceSummary.ColorFor | src/components/AttendanceSummary.tsx:89-93 | Green iff ≥ 85, yellow iff 75 ≤ p < 85, red iff < 75. |
| AttendanceSummary.ColorMonotonic | src/components/AttendanceSummary.tsx:89-93 | A higher percentage never gets a worse colour. |
| AttendanceDetails.TotalOf | src/pages/AttendanceDetails.tsx:140-142 | The overall summary is the first entry coded "Total", looked up among all entries. It is missing iff no entry has that code. |
| AttendanceDetails.SelectionFor | src/pages/AttendanceDetails.tsx:146-154 | An empty `course_id`, or one that `parseInt` reads as NaN, selects nothing. A selection is the first kept course whose `cf_id` equals `parseInt(course_id)`, read with the hexadecimal prefix and white space as JavaScript reads them. Some course is selected whenever one has that `cf_id`. |
| AttendanceDetails.RecordsRequestFor | src/pages/AttendanceDetails.tsx:71-77 | Records are requested iff the user id and the course `id` are both non-zero. |
| AttendanceDetails.ApplyRecords | src/pages/AttendanceDetails.tsx:95-98 | A records list replaces the shown records. A failed fetch leaves them as they were. |
| AttendanceDetails.ApplyFetch | src/pages/AttendanceDetails.tsx:129-158 | A success yields kept courses, cache, "Total" summary and cleared error, and leaves the shown records alone. A parameter-named course is selected and its records requested; otherwise the earlier selection stays. A failure only sets the error. |
| AttendanceDetails.ClickTargetSelects | src/components/AttendanceSummary.tsx:69-71 | The grid's link round-trips. The parameter of the clicked card's URL selects a course with the clicked `cf_id`, and the clicked course itself when `cf_id`s are distinct. |
| AttendanceDetails.ClickCourse | src/pages/AttendanceDetails.tsx:216-225 | A course whose `id` is 0 is ignored. Otherwise it is selected, its records are requested when a user id is known, and the page navigates to its link. |
| AttendanceDetails.Back | src/pages/AttendanceDetails.tsx:206-214 | With a selection, Back clears it and the records, keeps the error and goes to `/attendance`. Without one it goes to `/dashboard` and changes nothing. |
| AttendanceDetails.BackUndoesClick | src/pages/AttendanceDetails.tsx:206-225 | Back after a click on a course restores the unselected page. |
| AttendanceDetails.OverallAbsent | src/pages/AttendanceDetails.tsx:510-511 | The overall card's absent count plus present equals total. |
| AttendanceDetails.AbsentAgreement | src/pages/AttendanceDetails.tsx:510-592 | The overall card's derived count equals a course's `Absent` field iff present + absent = total. |
| AttendanceDetails.PercentColor | src/pages/AttendanceDetails.tsx:200-204 | The same 85/75 thresholds as the grid. |
| DailyAttendance.ByStartIsPreorder | src/components/DailyAttendance.tsx:49-51 | The start-time comparator is a total preorder. |
| DailyAttendance.ByStart | src/components/DailyAttendance.tsx:49-51 | The comparator is negative iff the first record starts earlier, and zero iff both start together. |
| DailyAttendance.SortByStart | src/components/DailyAttendance.tsx:49-51 | The records shown are a permutation of those received, in non-decreasing start time. |
| DailyAttendance.ApplyFetch | src/components/DailyAttendance.tsx:48-55 | A success shows the received records, rearranged only, in non-decreasing start time, and clears the error. A failure keeps the records and sets "Failed to load attendance data". |
| DailyAttendance.PresentCount | src/components/DailyAttendance.tsx:99 | At most the number of records; 0 iff no record is exactly "Present". |
| DailyAttendance.AbsentCount | src/components/DailyAttendance.tsx:100 | At most the number of records; 0 iff no record is exactly "Absent". |
| DailyAttendance.CountsPartition | src/components/DailyAttendance.tsx:99-100 | Present + absent ≤ records, with equality iff every status is one of the two. Sorting changes neither count. |
| DailyAttendance.TypeLabel | src/components/DailyAttendance.tsx:145 | "Lecture" iff the type is "L", else "Practical". |
| TimeTable.Today | src/components/TimeTable.tsx:99 | `now` lies between the start and end of its own day. |
| TimeTable.DayTests | src/components/TimeTable.tsx:97-109 | "Day ends before today starts" iff the day is before today. "Day starts after now" iff the day is after today. |
| TimeTable.SlotVerdict | src/components/TimeTable.tsx:113-127 | A slot with both times readable always decides. With start ≤ end it is ongoing iff start ≤ now ≤ end, upcoming iff now < start, completed iff now > end. A slot with neither readable says nothing. |
| TimeTable.SlotsStatus | src/components/TimeTable.tsx:112-130 | The first slot that says anything decides. When no slot does, including an empty list, the status is upcoming. |
| TimeTable.SkipSilentSlot | src/components/TimeTable.tsx:112-128 | Passing over a first slot that says nothing leaves the rest to decide as the whole list would. |
| TimeTable.LectureStatus | src/components/TimeTable.tsx:95-131 | A past day is completed and a future day is upcoming, whatever the slots. Today the slots decide. |
| TimeTable.FirstReadableSlotDecides | src/components/TimeTable.tsx:112-128 | Today, a well-formed first slot alone decides ongoing, upcoming or completed, with inclusive ends. |
| TimeTable.TableStarts | src/components/TimeTable.tsx:135-141 | Holds exactly the slot start times of every lecture of every day. |
| TimeTable.SlotStarts | src/components/TimeTable.tsx:137-139 | Holds exactly the start times of a lecture's slots. |
| TimeTable.LectureStarts | src/components/TimeTable.tsx:136-140 | Holds exactly the slot start times of every lecture of a day. |
| TimeTable.Dedup | src/components/TimeTable.tsx:134-142 | Keeps each element once, with the same membership. |
| TimeTable.CompareTextIsPreorder | src/components/TimeTable.tsx:142 | The default string sort order is a total preorder. |
| TimeTable.AllSlots | src/components/TimeTable.tsx:133-143 | The rows are strictly increasing, so free of duplicates, and hold exactly the start times found in the table. |
| TimeTable.SelectedDay | src/components/TimeTable.tsx:146-148 | When some entry has the selected date, the day shown is the first such entry. When none has it, the day shown is the first entry under key "", and nothing iff there is no such entry. The sequence order stands for `Object.keys` order. |
| TimeTable.LectureAt | src/components/TimeTable.tsx:150-155 | With no day there is no lecture. A lecture found is the first class of the day with a slot starting at the row's time. Finding none means no class of the day has one. |
| TimeTable.Row | src/components/TimeTable.tsx:193-197 | A row has a status exactly when it has a lecture, and that status is the lecture's. |
| CompletedQuizzes.Search | src/pages/CompletedQuizzes.tsx:112-120 | An empty term keeps every quiz. Otherwise the result keeps, in order and with multiplicity, exactly the quizzes whose course or quiz code contains the term, ignoring ASCII case. |
| CompletedQuizzes.EmptyTermMatches | src/pages/CompletedQuizzes.tsx:112 | The empty term matches every quiz, so skipping the filter changes nothing. |
| CompletedQuizzes.SearchMembership | src/pages/CompletedQuizzes.tsx:112-120 | A quiz is found iff it is stored and matches. |
| CompletedQuizzes.MatchesIgnoresCase | src/pages/CompletedQuizzes.tsx:112-120 | A term matches exactly when its lower-cased form matches: the search ignores ASCII case in the term as in the codes. |
| CompletedQuizzes.ComparatorIsPreorder | src/pages/CompletedQuizzes.tsx:123-139 | Every key/order comparator is a total preorder. |
| CompletedQuizzes.CompareQuizzes | src/pages/CompletedQuizzes.tsx:123-139 | With desc, a quiz goes first iff it is newer or has more marks (fractional marks included). With asc, iff it is older or has fewer. Zero iff the key's values are equal. |
| CompletedQuizzes.Visible | src/pages/CompletedQuizzes.tsx:108-141 | The list shown is a permutation of the search result, sorted by the comparator. |
| CompletedQuizzes.VisibleOrder | src/pages/CompletedQuizzes.tsx:123-139 | Desc lists dates newest-first, marks highest-first and course codes ascending. Asc reverses each. |
| CompletedQuizzes.VisibleMembership | src/pages/CompletedQuizzes.tsx:108-141 | A quiz is shown iff it is stored and matches the search. |
| CompletedQuizzes.SelectSortKey | src/pages/CompletedQuizzes.tsx:216-223 | The current key flips the order. Another key is selected with order desc. Nothing else changes. |
| CompletedQuizzes.SelectTwiceRestores | src/pages/CompletedQuizzes.tsx:216-223 | Choosing the current key twice restores the page. Choosing another key twice leaves it selected ascending. |
| CompletedQuizzes.EmptyMessage | src/pages/CompletedQuizzes.tsx:337-344 | The empty-list message depends only on whether a search term is set. |
| CompletedQuizzes.EmptyMessageMeaning | src/pages/CompletedQuizzes.tsx:337-344 | An empty list with no search term means nothing is stored. |
| CompletedQuizzes.ApplyFetch | src/pages/CompletedQuizzes.tsx:93-97 | A success replaces the list and keeps any earlier error. A failure sets "Failed to load completed quizzes". |
| CompletedQuizDetails.Classify | src/pages/CompletedQuizDetails.tsx:336-361 | Success iff chosen and correct, failure iff chosen and wrong, soft success iff unchosen and correct, neutral otherwise. A missing answer or verdict cannot be classified. |
| CompletedQuizDetails.OptionStyles | src/pages/CompletedQuizDetails.tsx:335-361 | An empty option list renders as no styles, whatever is recorded. A non-empty list gets a style per option exactly when the question has a recorded answer and a verdict, and each style is that option's classification. |
| CompletedQuizDetails.StylesMarkAnswerAndKey | src/pages/CompletedQuizDetails.tsx:336-361 | Green marks exactly the correct option and a chosen style exactly the submitted one. A full-success highlight appears iff the answer was right and is an option. |
| CompletedQuizDetails.DurationMinutes | src/pages/CompletedQuizDetails.tsx:162-166 | The rounded minutes m satisfy 60m − 30 ≤ seconds < 60m + 30, with halves rounding up. |
| CompletedQuizDetails.DurationMinutesNearest | src/pages/CompletedQuizDetails.tsx:165 | That m is the only whole number within half a minute. |
| CompletedQuizDetails.DurationText | src/pages/CompletedQuizDetails.tsx:166 | The number in "<m> minutes" reads back as m. |
| CompletedQuizDetails.ShowsExplanation | src/pages/CompletedQuizDetails.tsx:372 | The explanation (the question's `answer` text) is shown iff it is non-empty. |
| CompletedQuizDetails.Open | src/pages/CompletedQuizDetails.tsx:91-101 | A spinner at first. A user without a session is sent to "/". The fetch starts iff signed in with a PIN, a username and a quiz code. |
| CompletedQuizDetails.Settle | src/pages/CompletedQuizDetails.tsx:124-146 | A settled fetch leaves the spinner and fails iff the request failed, with "Failed to load quiz details". |
| CompletedQuizDetails.OpenThenSettle | src/pages/CompletedQuizDetails.tsx:91-130 | With complete credentials the user stays and the spinner ends. |
| CompletedQuizDetails.QuestionHeading | src/pages/CompletedQuizDetails.tsx:306 | The heading's number reads back as the question's one-based position. |
| QuizSession.Initial | src/pages/Quiz.tsx:27-56 | A fresh page is idle with the given code, nothing in flight and no modal, and its empty answers map agrees with its empty question list. Every timer reads that code and a clear `submitting` flag. |
| QuizSession.Step | src/pages/Quiz.tsx:72-582 | One event followed by the render it causes. Moving between questions, closing the modal and typing send nothing. |
| QuizSession.Handle | src/pages/Quiz.tsx:221-582 | The event's own handler, before any effect re-runs. Moving between questions, closing the modal and typing send nothing. |
| QuizSession.Rerun | src/pages/Quiz.tsx:72-193 | An interval reads the new render's quiz code iff its effect's dependencies changed: status and window for the auto-redirect, these plus the modal's kind and visibility for the countdown. The same holds for status and details for the duration timer, which also takes that render's `submitting` flag. Otherwise it keeps what it read. No other field changes. |
| QuizSession.CapturedCodeStaysLive | src/pages/Quiz.tsx:72-204 | Until the quiz code is edited, every timer reads the current code. |
| QuizSession.ClearedCodeStillFetches | src/pages/Quiz.tsx:72-168 | After the code is cleared while waiting, the countdown and auto-redirect ticks still request the questions with the codes they captured. |
| QuizSession.StepKeepsCode | src/pages/Quiz.tsx:596 | Only typing changes the quiz code; every handler and timer reads it and none writes it. |
| QuizSession.JsRemainder | src/pages/Quiz.tsx:133 | JavaScript's `%`: it agrees with the Euclidean remainder for a non-negative dividend and is never positive for a negative one. |
| QuizSession.JsRemainderOdd | src/pages/Quiz.tsx:133 | JavaScript's remainder is odd in the dividend. |
| QuizSession.Split | src/pages/Quiz.tsx:130-134 | For diff ≥ 0: minutes·60 + seconds = diff, 0 ≤ seconds < 60, minutes ≥ 0. |
| QuizSession.SplitUnique | src/pages/Quiz.tsx:130-134 | That reading is the only one. |
| QuizSession.StartDetails | src/pages/Quiz.tsx:221-225 | The details are requested, with the given render's code, iff PIN, username and that code are present. Otherwise "Missing required information" is shown. |
| QuizSession.Guarded | src/pages/Quiz.tsx:335 | A request goes out iff the credentials are present. |
| QuizSession.StartSubmit | src/pages/Quiz.tsx:497-502 | The Submit button uses the current render: a submission with the current code is sent iff none is in flight and the credentials are present, and sending marks one in flight. |
| QuizSession.SubmitFrom | src/pages/Quiz.tsx:497-502 | A render's handler sends iff that render's `submitting` flag was clear and the credentials with its code are present. Sending carries that code and sets the current flag. |
| QuizSession.WaitingTick | src/pages/Quiz.tsx:119-168 | The countdown interval: before login the countdown shows the time to login, then the time to start. Once both have passed it is cleared. The questions are requested iff now ≥ login and now ≥ start, with credentials for the code the interval captured, and the request carries that code. Questions, answers, status, code and timers are unchanged. |
| QuizSession.BeforeLogin | src/pages/Quiz.tsx:129-144 | The countdown shows the time to login, and nothing is sent. Only the countdown and the modal change. |
| QuizSession.BeforeStart | src/pages/Quiz.tsx:146-157 | The countdown shows the time to start. At most the details are requested, with the interval's captured code. |
| QuizSession.RedirectTick | src/pages/Quiz.tsx:72-89 | The auto-redirect interval requests the questions iff waiting with a window, now ≥ start, and credentials for the code it captured. The request carries that code. |
| QuizSession.WaitingTickModal | src/pages/Quiz.tsx:137-156 | Only a countdown modal is touched: before login its countdown is refreshed, and between login and start it is hidden and the details are fetched again. |
| QuizSession.ActiveTick | src/pages/Quiz.tsx:171-193 | Before the end the time left is shown and nothing is sent. At or after the end the time left is cleared. A submission with the interval's captured code is sent iff the `submitting` flag captured with the interval was clear; the current flag is not consulted. Only the time left and the flag change. |
| QuizSession.IntendedActiveTick | src/pages/Quiz.tsx:171-193 | Corrected check: at or after the end a submission with the current code is sent iff the current flag is clear and the credentials are present, and it marks one in flight. |
| QuizSession.IntendedStep | src/pages/Quiz.tsx:171-193 | The page with the corrected check differs from the page only on clock ticks. |
| QuizSession.Tick | src/pages/Quiz.tsx:120-172 | Outside the waiting and active phases a tick does nothing. |
| QuizSession.PollTimer | src/pages/Quiz.tsx:195-204 | The 30-second refresh asks for the questions, with the current code, iff active with credentials. |
| QuizSession.HandleDetails | src/pages/Quiz.tsx:245-328 | In order: 403/406, an "expired" message and an exception each give error. "Not started" gives waiting with the reply's window. Otherwise found details are stored, and the page waits before the login time or checks the status after it. The status check is the only request it sends, and it carries the code the details were requested with. |
| QuizSession.ExpiredWins | src/pages/Quiz.tsx:253-259 | A message that is both expired and not started is read as expired. |
| QuizSession.HandleStatus | src/pages/Quiz.tsx:354-401 | Completed iff 400 with "Test is already over.". Waiting iff a not-started message with a window. Active iff a non-empty list follows none of the earlier messages. Anything else is error. |
| QuizSession.AnswersOf | src/pages/Quiz.tsx:430-436 | The rebuilt map's keys are exactly the ids of questions with a recorded answer. |
| QuizSession.AnswersOfAgree | src/pages/Quiz.tsx:430-436 | With distinct ids, the rebuilt map gives each question its recorded answer. |
| QuizSession.HandlePoll | src/pages/Quiz.tsx:426-446 | A list replaces questions and answers wholesale, activates the quiz and clears the window. No list shows the message and changes nothing else. An exception gives error. |
| QuizSession.RecordAnswer | src/pages/Quiz.tsx:476-488 | Only questions with that id change, and only their recorded answer. |
| QuizSession.HandleAnswer | src/pages/Quiz.tsx:473-494 | Only the exact success message records the answer in the map and the questions. Any other reply leaves both alone and shows an error. |
| QuizSession.AnswerKeepsAgreement | src/pages/Quiz.tsx:473-488 | A recorded answer keeps the map and the questions in agreement. |
| QuizSession.AnswerIdempotent | src/pages/Quiz.tsx:473-488 | Recording the same answer twice equals recording it once. |
| QuizSession.FinishSubmit | src/pages/Quiz.tsx:519-533 | The in-flight flag is always released. Completed iff the reply is 2xx; a failure keeps the status and shows an error. |
| QuizSession.PreviousIndex | src/pages/Quiz.tsx:575-577 | `max(0, i−1)` is never negative and steps back from a positive index. |
| QuizSession.NextIndex | src/pages/Quiz.tsx:578-582 | `min(len−1, i+1)` stays below len and steps forward when there is room. |
| QuizSession.NavigationStaysInRange | src/pages/Quiz.tsx:575-582 | An index in [0, len) stays there. Next undoes Previous and Previous undoes Next. |
| QuizSession.StepKeepsAgreement | src/pages/Quiz.tsx:426-491 | Every step except the status check keeps the answers map in agreement with the questions. |
| QuizSession.StepKeepsData | src/pages/Quiz.tsx:404-491 | Only the question-list replies and the answer reply change questions or answers. |
| QuizSession.CountdownModalNeverSet | src/pages/Quiz.tsx:276-283 | No step leaves a countdown modal showing, because the one handler that shows one replaces it at once. |
| QuizSession.TickKeepsModal | src/pages/Quiz.tsx:137-156 | Without a countdown modal, ticks never touch the modal. |
| QuizSession.WaitingTickNeverRefetchesDetails | src/pages/Quiz.tsx:152-156 | Hence the tick's second details fetch can never fire. |
| QuizSession.ActivePhaseNeverWaits | src/pages/Quiz.tsx:170-204 | Active-phase events never return to waiting or idle. |
| QuizSession.CompletedIsQuiet | src/pages/Quiz.tsx:72-204 | After completion no timer sends anything or changes the session. |
| QuizSession.AutoSubmitResends | src/pages/Quiz.tsx:171-193 | As written: with the captured flag clear, the first tick at or after the end sends the submission and marks it in flight. The next tick sends it again. |
| QuizSession.IntendedSubmitsOnce | src/pages/Quiz.tsx:497-502 | With the corrected check, no event sends a submission while one is in flight. |
| QuizSession.AutoSubmitOnceIntended | src/pages/Quiz.tsx:497-533 | With the corrected check, the first tick at or after the end submits and a tick in flight sends nothing. Success completes the quiz, after which ticks are quiet. |
| QuizSession.WaitingThenActive | src/pages/Quiz.tsx:119-168 | Until both the login and the start time have passed, a waiting tick counts down and sends nothing. After both it requests the questions with the interval's code. A list then activates the quiz with an agreeing answers map. |
| QuizQuestionView.Attempted | src/components/QuizQuestion.tsx:65 | The attempted count is at most the list length, 0 iff none answered, and full iff all answered. |
| QuizQuestionView.Remaining | src/components/QuizQuestion.tsx:65-66 | With the list length as total (the page passes it), remaining lies between 0 and total and counts the unanswered questions. |
| QuizQuestionView.PreviousDisabled | src/components/QuizQuestion.tsx:259 | Disabled iff on the first question. |
| QuizQuestionView.NextDisabled | src/components/QuizQuestion.tsx:279 | Disabled iff on the last question. |
| QuizQuestionView.DisabledIffStuck | src/components/QuizQuestion.tsx:259-279 | Inside the list, a button is disabled iff pressing it would not move the page's index. |
| QuizQuestionView.DisplayedChoice | src/components/QuizQuestion.tsx:221 | The page's answer wins, then the recorded answer, else none. |
| QuizQuestionView.AgreementShowsRecordedAnswers | src/components/QuizQuestion.tsx:221 | While map and questions agree, every question shows its recorded answer. |
| QuizQuestionView.ChosenAnswerIsIndex | src/components/QuizQuestion.tsx:221-233 | An option's value parses back to its index. |
| QuizQuestionView.ChosenAnswer | src/components/QuizQuestion.tsx:222-226 | An empty radio value submits nothing. |
| QuizQuestionView.SaveDisabled | src/components/QuizQuestion.tsx:269 | Disabled iff there is neither a page answer nor a recorded one. |
| QuizQuestionView.SaveClick | src/components/QuizQuestion.tsx:268 | A click submits only the page's answer, and only when Save is enabled. |
| QuizQuestionView.SaveEnabledButInert | src/components/QuizQuestion.tsx:268-269 | Save is enabled but submits nothing iff only the question records an answer. |
| QuizQuestionView.CellStyle | src/components/QuizQuestion.tsx:300-305 | Current first, then answered, then unanswered, each given as an iff. |
| QuizTypes.MarksNoun | src/components/QuizQuestion.tsx:176 | One of the two words, the plural iff the marks exceed 1, fractional marks included. |
| QuizQuestionView.BadgeFor | src/components/QuizQuestion.tsx:178-190 | Answering, then answered, then not answered, each given as an iff. |
| QuizQuestionView.Observe | src/components/QuizQuestion.tsx:72-76 | A choice sends its answer iff the page's handler has PIN, username and quiz code; an answer reply ends a call. |
| QuizQuestionView.AnsweringIffLastTouchSent | src/components/QuizQuestion.tsx:72-76 | As written, the flag is up iff the last choice or answer reply was a choice whose answer was sent. |
| QuizQuestionView.OutstandingCounts | src/components/QuizQuestion.tsx:72-76 | While every reply answers an earlier request, the outstanding count is sends minus replies. |
| QuizQuestionView.AnsweringNeedsOutstanding | src/components/QuizQuestion.tsx:72-76 | The flag is up only while some answer request is outstanding. |
| QuizQuestionView.OverlapLowersEarly | src/components/QuizQuestion.tsx:72-76 | Two overlapping answers and the first reply leave the flag down with one request still outstanding. |
| QuizQuestionView.IntendedBadgeWhileOutstanding | src/components/QuizQuestion.tsx:72-76 | The corrected flag is up iff requests outnumber replies, and it is up whenever the flag as written is. |
| QuizQuestionView.MarksWord | src/components/QuizQuestion.tsx:176 | "Marks" iff the marks exceed 1, else "Mark". |
| CompletedQuizDetails.MarksWord | src/pages/CompletedQuizDetails.tsx:312 | "marks" iff the marks exceed 1, else "mark". |
| QuizTypes.SubmittedChoice | src/types/quiz.ts:70-73 | The recorded choice exists iff the question has a submitted answer, and is that answer's index. |
| Profile.UpdateField | src/components/Profile.tsx:68-75 | The edited field takes the new text and every other field keeps its text. |
| Profile.FormExtensional | src/components/Profile.tsx:52-57 | Forms with equal fields are equal. |
| Profile.UpdateLaws | src/components/Profile.tsx:68-75 | Retyping a field's text changes nothing, and the later of two edits wins. |
| Profile.SubmitPassword | src/components/Profile.tsx:77-99 | A request is sent iff the new and confirmed passwords agree. Otherwise "New passwords do not match" is shown. |
| Profile.FinishPassword | src/components/Profile.tsx:100-120 | Success clears the three password fields, keeps the PIN and closes the panel. A refusal shows the server's message or "Failed to change password". An exception shows its own message. |
| Profile.SubmitPin | src/components/Profile.tsx:126-147 | A request is sent iff the PIN is 4 UTF-16 code units long, digits or not. Otherwise "PIN must be 4 digits" is shown. |
| Profile.FinishPin | src/components/Profile.tsx:148-160 | Success clears only the PIN. Failures show their messages. |
| Profile.RequestsCarryCheckedForms | src/components/Profile.tsx:77-147 | A password request carries a password equal to the confirmation. A PIN request carries 4 code units: 2 to 4 characters, exactly 4 iff none lies outside the Basic Multilingual Plane. |
| Profile.SuccessResetsOnlyItsForm | src/components/Profile.tsx:101-152 | Each success clears exactly its own fields. |
| Profile.BatchLabelReadsBack | src/components/Profile.tsx:187 | The batch label reads back as batch − 4 from its front and as batch after " - ". |
| Profile.FirstYearReadsBack | src/components/Profile.tsx:187 | The label's front parses as batch − 4. |
| Profile.LastYearReadsBack | src/components/Profile.tsx:187 | The label's tail after " - " parses as batch. |
| Profile.LabelSplits | src/components/Profile.tsx:187 | The label is the first year's text followed by " - " and the second year's. |
| LoginForm.Landing | src/components/LoginForm.tsx:132-137 | `/welcome` iff the welcome flag is unset or empty, else `/dashboard`. |
| LoginForm.Mount | src/components/LoginForm.tsx:68-78 | A stored non-empty token redirects at once, to the landing. |
| LoginForm.Edit | src/components/LoginForm.tsx:80-88 | The edited field changes, the other keeps its text, and the error clears. |
| LoginForm.Submit | src/components/LoginForm.tsx:90-98 | Credentials are sent iff both are filled. Otherwise "Please enter both username and password" is shown. |
| LoginForm.FinishLogin | src/components/LoginForm.tsx:110-139 | Success saves the session through the context's login and lands the user. Every failure shows the one generic error and leaves session and store alone. |
| LoginForm.LoginKeepsLanding | src/components/LoginForm.tsx:116-137 | Saving the session does not change the landing choice. |
| LoginForm.RedirectRuleAgrees | src/components/LoginForm.tsx:68-78 | After a login, reopening the screen redirects where the login did. |
| LoginForm.FailuresLookAlike | src/components/LoginForm.tsx:112-139 | A refusal's server message never reaches the screen: it looks like an exception. |
| LoginForm.SubmitForgot | src/components/LoginForm.tsx:145-153 | A reset is requested iff a username is given, and sending clears both messages. |
| LoginForm.FinishForgot | src/components/LoginForm.tsx:172-186 | A message containing "successfully" is shown as success and any other message as the error. A missing message or failed request shows the generic error. |
| LoginForm.DismissForgot | src/components/LoginForm.tsx:176-180 | After success the dialog closes and forgets the username and message. |
| LoginForm.ForgotShowsOneOutcome | src/components/LoginForm.tsx:151-186 | After a sent request settles, success and error are never shown together. Success is shown iff the message says "successfully". |
| AuthContext.Initial | src/context/AuthContext.tsx:13-16 | The saved state when one is stored. Signed out when nothing or empty text is stored. |
| AuthContext.Login | src/context/AuthContext.tsx:18-22 | The state becomes {token, user} and is saved under `auth`. Other keys are untouched. |
| AuthContext.Logout | src/context/AuthContext.tsx:24-27 | Token and user become null and the saved entry is removed. Other keys are untouched. |
| AuthContext.LoginSurvivesReload | src/context/AuthContext.tsx:13-22 | Re-initialising after a login yields the state the login set. |
| AuthContext.LogoutSurvivesReload | src/context/AuthContext.tsx:13-27 | Re-initialising after a logout starts signed out. |
| Text.Contains | src/pages/CompletedQuizzes.tsx:115-118 | `includes` holds iff the needle occurs at some position. |
| Text.ToLowerIdempotent | src/pages/CompletedQuizzes.tsx:116-118 | Lower-casing twice equals once and leaves no ASCII capital. |
| Text.ToLower | src/pages/CompletedQuizzes.tsx:116-118 | Lower-casing keeps the length and lower-cases each character on its own. |
| Text.Compare | src/pages/CompletedQuizzes.tsx:135 | The comparison is 0 iff the strings are equal. |
| Text.CompareAntisymmetric | src/pages/CompletedQuizzes.tsx:135 | Swapping the arguments negates the comparison. |
| Text.CompareTransitive | src/pages/CompletedQuizzes.tsx:135 | "At most" is transitive. |
| Text.ParseIntRoundTrip | src/pages/AttendanceDetails.tsx:148 | `parseInt` reads every integer's decimal text back as that integer. |
| Text.ParseIntPrefix | src/pages/AttendanceDetails.tsx:148 | `parseInt` reads an integer's decimal text back from the front of any text that continues with a non-digit. The one exception is 0 followed by `x` or `X`, which starts a hexadecimal number. |
| Text.ParseIntNeedsDigit | src/pages/AttendanceDetails.tsx:148 | `parseInt` yields a number only when a digit follows the leading white space and the optional sign. |
| Text.ParseIntSkipsSpace | src/pages/AttendanceDetails.tsx:148 | Leading JavaScript white space or a line terminator does not change what `parseInt` reads. |
| Text.ParseIntHexPrefix | src/pages/AttendanceDetails.tsx:148 | With no radix, `0x` or `0X` after the optional sign reads the following hexadecimal digits, and NaN when none follows. |
| Text.IntToStringInjective | src/components/AttendanceSummary.tsx:53 | Distinct integers have distinct decimal texts. |
| Text.IntToString | src/components/AttendanceSummary.tsx:53 | The decimal text is non-empty and starts with "-" iff the integer is negative. |
| Text.Utf16Length | src/components/Profile.tsx:127 | `length` counts one unit per character and two for a character outside the Basic Multilingual Plane, so it lies between the character count and twice it. |
| Text.MsgOr | src/pages/Quiz.tsx:248 | The `msg`-or-fallback idiom is the message when it is present and non-empty, else the fallback. |
| Lists.Filter | src/components/AttendanceSummary.tsx:46-49 | `filter` keeps exactly the satisfying elements, in order and with multiplicity. |
| Lists.Find | src/pages/AttendanceDetails.tsx:140-142 | `find` returns the first satisfying element, and none iff no element satisfies. |
| Lists.FirstIndex | src/components/TimeTable.tsx:146-148 | The index `find` stops at: the first satisfying position, and none iff no element satisfies. |
| Lists.CountIsFilterLength | src/components/DailyAttendance.tsx:99-100 | Counting equals the length of the filtered list. |
| Lists.Count | src/components/DailyAttendance.tsx:99-100 | `filter(p).length` is at most the length, equals it iff every element satisfies, and is 0 iff none does. |
| Lists.CountSnoc | src/components/QuizQuestion.tsx:72-76 | Appending one element adds one to the count iff it satisfies the predicate. |
| Lists.CountDisjoint | src/components/DailyAttendance.tsx:99-100 | Two exclusive counts add up to at most the length, and to it iff every element satisfies one of them. |
| Lists.CountPermutation | src/components/DailyAttendance.tsx:49-52 | Reordering does not change a count. |
| Sorting.Sort | src/pages/CompletedQuizzes.tsx:123 | `sort` yields a permutation of its input. |
| Sorting.Insert | src/pages/CompletedQuizzes.tsx:123-139 | Inserting adds exactly the one element to the multiset. |
| Sorting.InsertSorted | src/pages/CompletedQuizzes.tsx:123-139 | Inserting into a sorted list keeps it sorted under a total preorder. |
| Sorting.SortSorted | src/pages/CompletedQuizzes.tsx:123-139 | Under a total-preorder comparator the result is sorted. |

## Left out

- Network requests are not modelled: every `fetch` is a reply datatype given as input and a request value given as output. Loading and refreshing flags and spinners are left out, except the results page's spinner and the question view's "Answering..." flag.
- Timers (`setInterval`, `setTimeout`) are not modelled: each tick is an explicit step that takes `now`. A quiz interval's first run when it is installed is not a separate step; a tick at that instant stands for it. The 3-second redirect after a quiz submission and the 5-minute attendance refreshes are not modelled.
- date-fns parsing and formatting are not modelled. Instants are integer seconds, days are integer indices, and reading a slot's clock time is a parameter. Where the date-fns version matters (`isWithinInterval` with reversed ends), the end points are taken in either order.
- `parseFloat` of the server's percentage text is not modelled: the percentage is a `real` input. The progress and score percentages and the calculator's floating-point rounding are left out; the calculator is exact.
- `parseContent` (HTML question text), all rendering, styles and modal plumbing are left out.
- Page-level redirects for signed-out users are left out. These are the quiz page's auth effect (src/pages/Quiz.tsx:111-117), the attendance details and completed-quiz pages' `navigate("/")`, and the profile page's guard. The results page's redirect is modelled.
- `console.error` logging is left out.
- Locale-aware `localeCompare` and Unicode case mapping are not modelled: comparison is by code point and lower-casing is ASCII only.
- TimeTable.CompareTextIsPreorder: the default `sort()` compares UTF-16 code units, and the model compares code points. The two orders differ only between characters above U+FFFF and those in U+E000 to U+FFFF, which clock-time strings do not contain.
- TimeTable.SelectedDay: the sequence order of the days stands for `Object.keys` order. JavaScript lists integer-like keys first, in ascending order, and the model does not reorder them.
- Marks and marks obtained are exact `real` numbers, not IEEE doubles, so they may be fractional but are never rounded.
- AuthContext.Initial: stored text other than the empty text is JSON in the source and is not decoded; the model treats it as signed out. Only a stored state value is restored.
- QuizSession.HandleStatus: as in the source, the status check replaces the questions without rebuilding the answers map, so StepKeepsAgreement excludes that event.
- QuizSession.HandleDetails: in the not-started branch the source shows a countdown modal and immediately overwrites it with the success modal; the model keeps only the final modal.
- QuizSession.Step: the user-id guards and the URL-parameter effect are left out. The modal's time texts are kept as instants rather than formatted clock text. The signed-in user is taken to be the same at every step, although the intervals also capture `auth.user`.
- QuizSession.Rerun: effect dependencies are compared by value. React compares the window and details objects by identity, so a reply that stores an equal object again re-runs the effect in the source and not in the model.
- QuizQuestionView.Answering: the question view is taken to stay mounted for the whole run of beats. It has no `key`, so moving between questions keeps its flag; leaving the active phase unmounts it, and that is not modelled.
- CompletedQuizDetails.Classify: the source throws when a question has no recorded answer or no verdict; the model returns no classification.
- CompletedQuizDetails.Open: the source leaves the spinner up forever when credentials are incomplete (the guard returns before `finally`); the model records that no fetch starts and does not model the spinner's lifetime.
- AttendanceDetails.ApplyRecords: the records' own fields (date formatting, faculty) are carried as plain values.
- JavaScript's `undefined` and `null` are not distinguished; both are `None`.
- Integers are unbounded; the source's counts and ids never approach the 2^53 limit of JavaScript numbers. `parseInt` of a longer digit run would round in JavaScript and is exact here.

## Findings

| source | as written | input that shows it | evidently intended | confidence | as-written member | corrected member |
|---|---|---|---|---|---|---|
| src/pages/Quiz.tsx:171-193 | The duration interval calls the `handleSubmitQuiz` of the render that installed it. `submitting` is not a dependency of that effect, so the interval keeps seeing it clear after the submission starts. | An active quiz past its end time, credentials present, and a submission reply slower than one second: the tick at the end and the tick one second later both send the submission. | One submission in flight at a time, as the `submitting` guard at src/pages/Quiz.tsx:498 intends. | high, not executed | QuizSession.AutoSubmitResends | QuizSession.IntendedSubmitsOnce |
| src/components/QuizQuestion.tsx:72-76 | One boolean serves every answer call, and whichever call returns first lowers it. | Choose an option, choose another before the first reply, then the first reply arrives: the badge stops reading "Answering..." while the second answer is still in flight. | The badge reads "Answering..." while any answer is in flight. | medium, not executed | QuizQuestionView.OverlapLowersEarly | QuizQuestionView.IntendedBadgeWhileOutstanding |
