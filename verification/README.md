# Quiz page: session logic and proctoring statistics

A Dafny model of the discrete logic in the proctored quiz page of the
certiChain web application (`src/pages/Quiz.jsx`). The React handlers,
effects and callbacks are rewritten as pure transition functions over
immutable records:

- `maybe.dfy`: module `Maybe`, the `Option` type. It stands for a JavaScript
  value that may be `null`.
- `quiz.dfy`: module `QuizSession`, the quiz session. It covers loading the
  question list, answering, Next/Previous, the one-second countdown, scoring
  on completion, the pass mark, the certificate-claim gate and retake.
- `presence.dfy`: module `Presence`, the face-presence / multi-face tracker.
  This is the per-frame body of the face-mesh result callback. It has a
  one-second debounce, and time is an integer millisecond parameter.
- `metrics.dfy`: module `Metrics`, the running sample lists for head pose,
  eye gaze and micro-movement. Each keeps its average and maximum. The module
  also holds the micro-movement sample (the first one compares a face with
  itself) and the audio "speaking" flag.
- `page.dfy`: module `QuizPage`, the whole page as one state. A quiz session
  sits next to the proctoring statistics and the answer sheet that the running
  countdown interval closed over. Every UI, timer and device event is one
  `Step`. Buttons only act on the screen that shows them. Detector results only
  count on the quiz screen, because the callback draws on a canvas that only
  that screen renders. The timer fires the interval as written, so on timeout
  it scores the captured sheet. Invariants are proved over whole event runs
  from mount.

Scores use exact integer arithmetic. `Math.round((correct / n) * 100)`
becomes `(200 * correct + n) / (2 * n)`, which is 100·correct/n rounded half
up. The speaking test `avg > 8` over the byte spectrum becomes
`sum > 8 * length`. `Math.floor` of the absence time in seconds becomes
`(now - lastFaceTime) / 1000`. That value is at least 1000 ms whenever it is
computed, so integer division and `Math.floor` agree.

Notes on what the code does, modelled as written:

- `noFaceTotal` is shown with an "s" suffix. It counts the frames that
  qualified as absent, not seconds.
- Retake resets only the quiz state and the tab-switch counter. The proctoring
  statistics are kept, including the focus-loss counter, the per-question
  answer-change counts and the time spent.
- The cheat flag is only ever set to `false`. So wherever the claim button is
  offered (a completed, passed quiz) it is enabled and the gate never blocks
  (`QuizPage.ClaimNeverBlocked`).
- The countdown effect re-runs only when loading, the error, the questions,
  completion or the current index change. The interval callback keeps the
  answers of that render (`QuizSession.Rebind`). `QuizPage.Step` carries that
  sheet and scores it on timeout; see "## Findings".
- The face-mesh callback starts with `canvasRef.current.getContext("2d")`.
  The canvas is rendered only on the quiz screen. On the loading, error and
  result screens the callback throws before it touches a statistic, so there a
  detector result changes nothing.
- A frame with no face does not touch `multiFaceCurrent`. It keeps the value
  from the last frame that had a face.
- `lastLandmarks` survives absences. The first micro-movement sample after a
  gap compares against the last face seen, not against itself.

## Model

| member | source | states |
|---|---|---|
| `QuizSession.Init` | src/pages/Quiz.jsx:19-66 | The page starts loading with no questions, no answers and no error. It has 600 s on the clock, score 0, no cheat flag, no tab switches, the mount time as the tick reference and the timer off. |
| `QuizSession.Load` | src/pages/Quiz.jsx:94-117 | The page is usable exactly when the course came with questions. Then the answers are all null and the change and time counters all 0. An empty list gives the "no quiz questions" error with the timer off, and a failure gives "Failed to load quiz". |
| `QuizSession.Answer` | src/pages/Quiz.jsx:405-411 | Only the current question's answer and change counter change. The counter goes up by one exactly when the new option differs from the stored one. Array lengths and every other field are kept. |
| `QuizSession.AnswerIdempotent` | src/pages/Quiz.jsx:405-411 | Re-selecting the same option right away changes nothing. |
| `QuizSession.Next` | src/pages/Quiz.jsx:413-417 | Next moves one question on below the last index. On the last question it completes the quiz. The index stays within the question list. |
| `QuizSession.Previous` | src/pages/Quiz.jsx:419-422 | Previous moves back only from an index above 0. Otherwise the state is unchanged. |
| `QuizSession.NextPreviousInverse` | src/pages/Quiz.jsx:413-422 | Away from the ends, Previous undoes Next and Next undoes Previous. |
| `QuizSession.CorrectCount` | src/pages/Quiz.jsx:426-430 | The number of correct answers is at most the number of questions. |
| `QuizSession.AllCorrectCountsAll` | src/pages/Quiz.jsx:426-430 | When every answer equals the option at the question's correct index, the count is the number of questions. |
| `QuizSession.NoneCorrectCountsNone` | src/pages/Quiz.jsx:426-430 | When no answer is correct, the count is 0. |
| `QuizSession.CorrectCountMonotone` | src/pages/Quiz.jsx:426-430 | Making answers right and none wrong never lowers the count. |
| `QuizSession.Score` | src/pages/Quiz.jsx:431-433 | The score lies in 0..100. It is within half a point of 100·correct/n, with ties rounding up. |
| `QuizSession.ScoreUnique` | src/pages/Quiz.jsx:431-433 | Only one whole number meets that rounding bound, so the score is fixed by it. |
| `QuizSession.ScoreExtremes` | src/pages/Quiz.jsx:431-433 | All answers correct gives 100 and none correct gives 0. |
| `QuizSession.ScoreMonotone` | src/pages/Quiz.jsx:431-433 | More correct answers never lower the score. |
| `QuizSession.PassedIffFraction` | src/pages/Quiz.jsx:531 | The quiz is passed (score at least 70) exactly when at least 69.5% of the answers are correct. |
| `QuizSession.SevenOfTenPasses` | src/pages/Quiz.jsx:531 | 7 of 10 scores 70 and passes. 6 of 10 scores 60 and fails. |
| `QuizSession.SheetExtremes` | src/pages/Quiz.jsx:424-433 | A fully correct answer sheet scores 100 and a fully wrong one scores 0. |
| `QuizSession.CompleteWith` | src/pages/Quiz.jsx:424-440 | Completion scores the given answer sheet, clears the cheat flag, marks the quiz complete and stops the timer. Nothing else changes. |
| `QuizSession.Complete` | src/pages/Quiz.jsx:424-440 | Completion on the live answers scores 100 when all are correct and 0 when none are. Afterwards the claim guard would let a claim through. |
| `QuizSession.Claim` | src/pages/Quiz.jsx:466-472 | A claim is blocked exactly when the cheat flag is set. |
| `QuizSession.Retake` | src/pages/Quiz.jsx:477-484 | Retake shows the first question again with n null answers. It sets 600 s, clears the cheat flag and zeroes the tab-switch count. It keeps the questions, score, answer-change counts, time spent and tick reference time. The quiz screen is active again. |
| `QuizSession.RetakeIdempotent` | src/pages/Quiz.jsx:477-484 | Retaking twice gives the same state as retaking once. |
| `QuizSession.TimerRunsOnQuizScreen` | src/pages/Quiz.jsx:124-130 | On a valid session the countdown effect's guard holds exactly when the quiz screen is on display. |
| `QuizSession.TickScoring` | src/pages/Quiz.jsx:124-151 | The interval exists only while the quiz is loaded, error-free, non-empty and not complete. At 1 s or less a tick sets the clock to 0 and completes the quiz. Otherwise it takes one second off and adds the time since the last tick to the current question only. |
| `QuizSession.Tick` | src/pages/Quiz.jsx:131-147 | The corrected tick never raises the clock. Expiry completes the quiz on the live answers, and with the timer off nothing changes. |
| `QuizSession.CountdownExpires` | src/pages/Quiz.jsx:131-147 | A running quiz with t seconds left keeps running after fewer than t ticks, with t minus the tick count left. It is complete with the clock at 0 after exactly t ticks. |
| `QuizSession.AnswerKeepsTimerDeps` | src/pages/Quiz.jsx:151 | Answering changes none of the countdown effect's dependencies. So the interval callback is not rebuilt and still sees the old answers. |
| `QuizSession.StaleTimerLosesAnswer` | src/pages/Quiz.jsx:131-136 | A one-question quiz answered correctly scores 0 when the as-written timer expires. The intended tick gives 100. |
| `Presence.Start` | src/pages/Quiz.jsx:40-169 | The tracker starts with the mount time as the last face time, no absence run and all counters at 0. It satisfies the tracker invariant. |
| `Presence.Frame` | src/pages/Quiz.jsx:248-354 | A frame with k faces, k at least 1, resets the absence to 0, closes the run and stamps the time. It sets the extra-face count to k-1, and the multi-face total goes up by one exactly when k > 1. The absence counters are kept. A frame with no face changes nothing within 1000 ms of the last face. After that it is counted once and stores whole seconds. It opens a session only when none was open and keeps the longest absence at least the current one, never dropping. Multi-face fields are untouched. The tracker invariant is preserved. |
| `Presence.AbsentRun` | src/pages/Quiz.jsx:333-354 | Over a run of face-less frames, the total grows by the number of qualifying frames. At most one session opens, and exactly one when none was open and some frame qualified. The longest absence covers every qualifying frame. |
| `Presence.AbsentKeepsInv` | src/pages/Quiz.jsx:333-354 | The tracker invariant survives any run of absent frames. |
| `Presence.BriefMissIsIgnored` | src/pages/Quiz.jsx:333-336 | Debounce: missed frames within a second of the last face, then a face again, leave all absence statistics unchanged. |
| `Presence.LongAbsenceCountsOnce` | src/pages/Quiz.jsx:250-354 | Absence of at least g seconds, then a face, adds exactly one session. It makes the longest absence at least g and resets the current absence to 0. |
| `Metrics.Max` | src/pages/Quiz.jsx:271-273 | The reported maximum is one of the samples and at least every sample. |
| `Metrics.Average` | src/pages/Quiz.jsx:268-270 | The average is the value whose n copies add up to the sample sum. |
| `Metrics.Observe` | src/pages/Quiz.jsx:267-273 | Observing appends the sample, adds it to the running sum and leaves the stored average and maximum consistent with the list. |
| `Metrics.ObserveMonotone` | src/pages/Quiz.jsx:304-310 | The maximum never decreases as samples are appended and covers the new sample. The average never exceeds the maximum. |
| `Metrics.AverageAtMostBound` | src/pages/Quiz.jsx:268-273 | When every sample is at most some bound, so is the average. |
| `Metrics.Speaking` | src/pages/Quiz.jsx:370-377 | The speaking flag over a byte spectrum. It is raised only for a non-empty spectrum whose bins sum to more than 8. |
| `Metrics.SpeakingIffMeanAboveThreshold` | src/pages/Quiz.jsx:375-377 | The division-free test holds exactly when the spectrum is non-empty and its real mean exceeds 8. |
| `Metrics.SpeakingNeedsLoudBin` | src/pages/Quiz.jsx:375-377 | Speaking implies that at least one frequency bin is above 8. |
| `Metrics.DisplacementToSelf` | src/pages/Quiz.jsx:293-302 | Landmarks compared with identical landmarks sum to zero displacement. |
| `Metrics.MicroStep` | src/pages/Quiz.jsx:291-316 | With no previous landmarks, or identical ones, the micro-movement sample is 0. The face becomes the new previous landmarks. |
| `QuizPage.Start` | src/pages/Quiz.jsx:40-176 | The page mounts with a fresh session and a fresh presence tracker. The head-pose, gaze and micro-movement lists are empty with average and maximum 0. There are no previous landmarks, no speaking and no focus lost, and no captured sheet. The mounted page satisfies the page invariant. |
| `QuizPage.OnResults` | src/pages/Quiz.jsx:248-316 | Every result updates the presence tracker. Only a result with a face adds the first face's tilt, gaze and micro-movement samples and stores its landmarks. Speaking and focus loss are untouched. |
| `QuizPage.OnResultsKeepsInv` | src/pages/Quiz.jsx:248-354 | The result callback keeps the sample lists in step and the first micro-movement sample at 0. |
| `QuizPage.Blur` | src/pages/Quiz.jsx:155-158 | A blur adds one to both the focus-loss counter and the tab-switch counter and changes nothing else. |
| `QuizPage.Step` | src/pages/Quiz.jsx:124-738 | Every event keeps the page invariant. That covers valid indices and array lengths, a captured sheet as long as the question list, a clock in 0..600, a score in 0..100, a cheat flag that is never raised, a tab-switch count at most the focus-loss count, and consistent metrics. The captured sheet is renewed exactly when the countdown effect's dependencies change. A detector result off the quiz screen leaves the statistics alone (line 240). A timer event is the as-written tick on the captured sheet. |
| `QuizPage.StepByEvent` | src/pages/Quiz.jsx:124-738 | Each event runs its handler. The option, Next and Previous buttons do nothing off the quiz screen (line 657 on). Next does nothing while the current answer is null (line 732). Retake acts only on the result screen (611-619). A timer event is the as-written tick on the captured sheet, and a blur is `Blur`. A detector result updates the statistics only on the quiz screen. An audio sample sets only the speaking flag. Each handler leaves the side it does not own unchanged. |
| `QuizPage.Run` | src/pages/Quiz.jsx:124-484 | Any sequence of events keeps the page invariant. |
| `QuizPage.ClaimNeverBlocked` | src/pages/Quiz.jsx:466-472 | From mount, after any events, wherever the claim button is offered (complete and passed, line 621) it is enabled and the claim is not blocked. |
| `QuizPage.RetakeKeepsProctoring` | src/pages/Quiz.jsx:477-484 | Retake leaves every proctoring statistic unchanged, including focus loss. It zeroes the tab-switch count, keeps answer-change counts and time spent, and reactivates the quiz. |
| `QuizPage.ErrorStepIsFinal` | src/pages/Quiz.jsx:124-130 | On an error screen no event clears the error, starts the timer, moves the clock or completes the quiz. |
| `QuizPage.ErrorIsFinal` | src/pages/Quiz.jsx:499-504 | The same holds after any sequence of events. |
| `QuizPage.EmptyCourseNeverStartsTimer` | src/pages/Quiz.jsx:94-98 | A course with no questions shows the "no quiz questions" error. After that the timer never runs and the clock stays at 600. |
| `QuizPage.StepFocusLost` | src/pages/Quiz.jsx:155-157 | One event raises the focus-loss counter by one exactly when it is a blur. |
| `QuizPage.FocusLostCountsBlurs` | src/pages/Quiz.jsx:154-161 | Over any event sequence, retakes included, the focus-loss counter grows by exactly the number of blurs. |
| `QuizPage.LastAnswerLostOnTimeout` | src/pages/Quiz.jsx:124-151 | On any reachable quiz screen with at most 1 s left, an option clicked and then the timer firing completes the quiz with the click on the sheet. The score is that of the sheet the interval captured before the click. |
| `QuizPage.RunAppend` | src/pages/Quiz.jsx:124-484 | Running two event sequences one after the other equals running their concatenation. |
| `QuizPage.CountdownOnPage` | src/pages/Quiz.jsx:131-147 | Fewer timer events than seconds left keep the quiz screen up. Each takes one second off, and the answers, the question on screen and the captured sheet stay as they were. |
| `QuizPage.LoadThenAnswer` | src/pages/Quiz.jsx:94-151 | After mount, loading a one-question course and picking the right option, the quiz screen is up with 600 s left. The right option is on the sheet while the interval's captured sheet is still unanswered. |
| `QuizPage.TimeoutScoresCaptured` | src/pages/Quiz.jsx:131-136 | A timer event with 1 s left completes the quiz. It keeps the live answers and scores the captured sheet. |
| `QuizPage.StaleTimerFromMount` | src/pages/Quiz.jsx:124-151 | From mount: a one-question course is loaded, the right option is picked, and 600 timer events follow. The quiz completes with the right answer on the sheet and a score of 0, where scoring the sheet gives 100. |

## Left out

- Device and model lifecycle is not modelled: `getUserMedia`, video readiness and `play`, canvas sizing, `AudioContext` and the analyser, face-mesh setup, the camera frame loop, `requestAnimationFrame`, and teardown with the `canceled` flag (src/pages/Quiz.jsx:164-246, 357-401). It is device I/O and asynchronous lifecycle. Detector results and spectra arrive as event parameters instead.
- Canvas drawing of the face box (src/pages/Quiz.jsx:241-246, 318-332) is left out. It is output only. The canvas lookup at line 240 is modelled: it throws when the canvas is not rendered, so results off the quiz screen change nothing.
- Whether the capture pipeline starts at all is not modelled. It needs the `<video>` element (line 190), which only the quiz screen renders, so the pipeline fails to start when the camera answers before the course. The model lets detector results arrive at any time and applies them only on the quiz screen. A pipeline that never started sends none.
- The REST calls are network I/O and are not modelled: profile load, course load, the completion POST, `navigate`, the "already completed" screen and `markingCompleted`. The course request's outcome is an input to `QuizSession.Load`. A claim that goes ahead (`Proceed`) stands for the POST and navigation.
- Head-tilt and gaze samples (src/pages/Quiz.jsx:264-266, 276-282) are opaque reals in `FaceObservation`. They are floating-point geometry on landmark coordinates.
- `Metrics.Displacement`: the per-landmark pixel distance `Math.sqrt(dx*dx + dy*dy)` is a function parameter `dist`. Only `dist(q, q) == 0` is assumed, since Dafny reals have no square root.
- `QuizSession.Score`: rounding is exact rational half-up. JavaScript double-precision effects in `(correct / n) * 100` are not modelled.
- `Metrics.Observe`: sums, averages and maxima are exact reals. IEEE rounding and NaN are not modelled. The maximum is taken by spreading the whole list into `Math.max` (lines 271-273, 287-289, 308-310). The lists are never trimmed, so on a long enough session the engine's argument limit makes that call throw, and from then on the lists fall out of step. The model has no argument limit and keeps them in step.
- `QuizPage.Step`: each detector result is assumed to carry the face mesh's 468 landmarks per face. With fewer, the source's micro-movement loop would throw inside the callback, and that case is not modelled.
- `QuizPage.Step`: the countdown is one event per tick. The one-second phase of `setInterval`, and its restart when the effect re-runs on navigation, are not modelled.
- Option clicks carry any text, although the page only offers the current question's options (src/pages/Quiz.jsx:705-708). Every property stated holds for any text, so the model allows more clicks than the page does.
- Time spent per question is kept in integer milliseconds instead of fractional seconds (src/pages/Quiz.jsx:139-144).
- Display-only values are not modelled: course name, progress percentage, the mm:ss clock and the monitoring panel formatting. React StrictMode double invocation of updaters is also left out.
- JavaScript numbers are doubles. The model's counters are unbounded integers, so any precision loss above 2^53 is not modelled.
- src/pages/internship/CreateInternship.jsx and src/components/InternshipOrganizerLayout.jsx are not part of this model. They are a form with a POST and a layout shell, with no logic of interest.

## Findings

| source | as written | input that shows it | evidently intended | confidence | as-written member | corrected member |
|---|---|---|---|---|---|---|
| src/pages/Quiz.jsx:124-151 | The countdown effect depends on loading, error, questions, completion and the current index, but not on `answers`. Its interval callback calls the `handleQuizComplete` of the render in which the effect last ran. So when time runs out, it scores the answer sheet as it was at the last navigation. | A one-question quiz where the right option is picked and the clock is left to reach 0: score 0. | Timeout scores the answers as they stand: 100 for that input. | not executed; the stale closure follows from the dependency list | `QuizSession.TickScoring` with `QuizSession.Rebind`, used by `QuizPage.Step`; exhibited by `QuizSession.StaleTimerLosesAnswer` and, from mount, `QuizPage.StaleTimerFromMount` | `QuizSession.Tick`, which scores the live answers on expiry (used by `QuizSession.Ticks` and `QuizSession.CountdownExpires`) |
