/** The quiz side of src/pages/Quiz.jsx as pure transitions over one session
    record: loading the question list, answering, navigating, the one-second
    countdown, scoring on completion, the certificate-claim gate and retake. */
module QuizSession {
  import opened Maybe

  /** Seconds on the clock when the quiz starts or is retaken. */
  const QuizSeconds: int := 600
  /** Smallest score that passes. */
  const PassMark: int := 70

  const NoQuestionsMessage: string := "This course does not have any quiz questions yet."
  const LoadFailedMessage: string := "Failed to load quiz"

  /** A question: its option texts and the index of the right one. */
  datatype Question = Question(options: seq<string>, correctAnswer: int)

  /** An entry of the answers array: `null` or the text of the option picked. */
  datatype Choice = Unanswered | Chosen(option: string)

  datatype Session = Session(
    loading: bool,
    error: Option<string>,
    questions: seq<Question>,
    current: int,               // index of the question on screen
    answers: seq<Choice>,
    answerChanges: seq<nat>,    // per question: how many times the choice changed
    timeSpentMs: seq<int>,      // per question: time attributed by the ticks
    lastViewMs: int,            // time of the last attribution
    timeLeft: int,              // seconds on the clock
    complete: bool,
    score: int,
    cheatWarning: bool,
    tabSwitchCount: nat
  )

  /** Page state when it mounts at `mountMs`, before the course arrives. */
  function Init(mountMs: int): (s: Session)
    ensures Valid(s) && s.loading && !TimerRunning(s) && !s.complete
    ensures s.timeLeft == QuizSeconds && !s.cheatWarning && s.score == 0 && s.tabSwitchCount == 0
    ensures s.questions == [] && s.answers == [] && s.error == None && s.lastViewMs == mountMs
  {
    Session(true, None, [], 0, [], [], [], mountMs, QuizSeconds, false, 0, false, 0)
  }

  /** The per-question arrays line up with the questions, the index is on a
      question when there is one, and clock and score stay in range. */
  ghost predicate Valid(s: Session)
  {
    && |s.answers| == |s.questions|
    && |s.answerChanges| == |s.questions|
    && |s.timeSpentMs| == |s.questions|
    && (if |s.questions| > 0 then 0 <= s.current < |s.questions| else s.current == 0)
    && 0 <= s.timeLeft <= QuizSeconds
    && 0 <= s.score <= 100
    && (s.loading ==> |s.questions| == 0 && s.error.None? && !s.complete)
    && (s.complete ==> Ready(s))
    // a course that arrived without error came with questions
    && (!s.loading && s.error.None? ==> |s.questions| > 0)
  }

  /** The course arrived with questions and without error. */
  predicate Ready(s: Session)
  {
    !s.loading && s.error.None? && |s.questions| > 0
  }

  /** The quiz screen with its answer and navigation buttons is on display: the
      page renders, in order, the loading screen, the error screen, the result
      screen and only otherwise the quiz. */
  predicate Active(s: Session)
  {
    !s.loading && s.error.None? && !s.complete
  }

  // ---------------- loading ----------------

  /** What the course request produced: a failure, or the course's question list
      (a missing list reads as empty). */
  datatype LoadOutcome = LoadFailed | Loaded(questions: seq<Question>)

  function Load(s: Session, outcome: LoadOutcome): (r: Session)
    requires Valid(s) && s.loading
    ensures Valid(r) && !r.loading
    ensures r.error.None? <==> outcome.Loaded? && |outcome.questions| > 0
    ensures r.error.None? ==>
      && r.questions == outcome.questions
      && (forall i :: 0 <= i < |r.answers| ==> r.answers[i] == Unanswered)
      && (forall i :: 0 <= i < |r.answerChanges| ==> r.answerChanges[i] == 0)
      && (forall i :: 0 <= i < |r.timeSpentMs| ==> r.timeSpentMs[i] == 0)
    ensures outcome == Loaded([]) ==> r.error == Some(NoQuestionsMessage) && !TimerRunning(r)
    ensures outcome == LoadFailed ==> r.error == Some(LoadFailedMessage)
  {
    match outcome
    case LoadFailed => s.(error := Some(LoadFailedMessage), loading := false)
    case Loaded(qs) =>
      if |qs| == 0 then s.(error := Some(NoQuestionsMessage), loading := false)
      else
        s.(questions := qs,
           answers := seq(|qs|, _ => Unanswered),
           timeSpentMs := seq(|qs|, _ => 0),
           answerChanges := seq(|qs|, _ => 0),
           loading := false)
  }

  // ---------------- answering and navigation ----------------

  /** Pick `option` for the question on screen; a different choice than the
      stored one counts as a change. */
  function Answer(s: Session, option: string): (r: Session)
    requires Valid(s) && |s.questions| > 0
    ensures Valid(r)
    ensures |r.answers| == |s.answers| && |r.answerChanges| == |s.answerChanges|
    ensures r.answers[s.current] == Chosen(option)
    ensures forall i :: 0 <= i < |s.answers| && i != s.current ==> r.answers[i] == s.answers[i]
    ensures forall i :: 0 <= i < |s.answerChanges| && i != s.current ==> r.answerChanges[i] == s.answerChanges[i]
    ensures s.answers[s.current] != Chosen(option) <==> r.answerChanges[s.current] == s.answerChanges[s.current] + 1
    ensures s.answers[s.current] == Chosen(option) <==> r.answerChanges[s.current] == s.answerChanges[s.current]
    ensures r.(answers := s.answers, answerChanges := s.answerChanges) == s
  {
    var changes :=
      if s.answers[s.current] != Chosen(option)
      then s.answerChanges[s.current := s.answerChanges[s.current] + 1]
      else s.answerChanges;
    s.(answers := s.answers[s.current := Chosen(option)], answerChanges := changes)
  }

  /** Re-selecting the option already chosen changes nothing. */
  lemma AnswerIdempotent(s: Session, option: string)
    requires Valid(s) && |s.questions| > 0
    ensures Answer(Answer(s, option), option) == Answer(s, option)
  {
  }

  /** Score for `correct` right answers out of `n`: 100 * correct / n rounded
      half up, computed exactly. */
  function Score(correct: nat, n: nat): (score: int)
    requires 0 < n && correct <= n
    ensures 0 <= score <= 100
    // the nearest whole percentage, ties going up
    ensures 2 * n * score - n <= 200 * correct < 2 * n * score + n
  {
    RoundHalfUp(correct, n);
    (200 * correct + n) / (2 * n)
  }

  lemma RoundHalfUp(correct: nat, n: nat)
    requires 0 < n && correct <= n
    ensures var k := (200 * correct + n) / (2 * n);
      && 0 <= k <= 100
      && 2 * n * k - n <= 200 * correct < 2 * n * k + n
  {
    var k := (200 * correct + n) / (2 * n);
    assert k * (2 * n) <= 200 * correct + n < (k + 1) * (2 * n);
  }

  lemma MulAtLeast(m: int, d: int)
    requires m > 0 && d >= 1
    ensures m * d >= m
  {
  }

  lemma MulStep(m: int, a: int, b: int)
    requires m > 0 && a < b
    ensures m * a + m <= m * b
  {
    MulAtLeast(m, b - a);
    assert m * b == m * a + m * (b - a);
  }

  /** Two whole numbers both within half a step of 200 * correct / (2 * n) are equal. */
  lemma HalfStepUnique(c: int, n: int, k1: int, k2: int)
    requires n > 0
    requires 2 * n * k1 - n <= c < 2 * n * k1 + n
    requires 2 * n * k2 - n <= c < 2 * n * k2 + n
    ensures k1 == k2
  {
    if k1 < k2 {
      MulStep(2 * n, k1, k2);
    } else if k2 < k1 {
      MulStep(2 * n, k2, k1);
    }
  }

  /** The rounding characterisation picks out one value, so Score is determined by it. */
  lemma ScoreUnique(correct: nat, n: nat, k: int)
    requires 0 < n && correct <= n
    requires 2 * n * k - n <= 200 * correct < 2 * n * k + n
    ensures k == Score(correct, n)
  {
    HalfStepUnique(200 * correct, n, k, Score(correct, n));
  }

  lemma ScoreExtremes(n: nat)
    requires 0 < n
    ensures Score(n, n) == 100
    ensures Score(0, n) == 0
  {
    ScoreUnique(n, n, 100);
    ScoreUnique(0, n, 0);
  }

  /** More right answers never lower the score. */
  lemma ScoreMonotone(c1: nat, c2: nat, n: nat)
    requires 0 < n && c1 <= c2 <= n
    ensures Score(c1, n) <= Score(c2, n)
  {
    var s1 := Score(c1, n);
    var s2 := Score(c2, n);
    if s1 > s2 {
      MulStep(2 * n, s2, s1);
    }
  }

  predicate Passed(score: int)
  {
    score >= PassMark
  }

  /** Passing means at least 69.5% of the answers were right: 139 * n <= 200 * correct. */
  lemma PassedIffFraction(correct: nat, n: nat)
    requires 0 < n && correct <= n
    ensures Passed(Score(correct, n)) <==> 139 * n <= 200 * correct
  {
    var k := Score(correct, n);
    if k >= PassMark {
      if k > PassMark {
        MulStep(2 * n, PassMark, k);
      }
      assert 2 * n * k >= 2 * n * PassMark;
    } else {
      MulStep(2 * n, k, PassMark);
      assert 2 * n * k + 2 * n <= 2 * n * PassMark;
    }
  }

  lemma SevenOfTenPasses()
    ensures Score(7, 10) == 70 && Passed(Score(7, 10))
    ensures Score(6, 10) == 60 && !Passed(Score(6, 10))
  {
  }

  /** Whether an answer picks the question's right option. An index outside the
      option list names no option, so no answer matches it. */
  predicate IsCorrect(q: Question, a: Choice)
  {
    0 <= q.correctAnswer < |q.options| && a == Chosen(q.options[q.correctAnswer])
  }

  /** How many questions are answered correctly. */
  function CorrectCount(qs: seq<Question>, answers: seq<Choice>): (c: nat)
    requires |answers| == |qs|
    ensures c <= |qs|
  {
    if |qs| == 0 then 0
    else CorrectCount(qs[..|qs| - 1], answers[..|qs| - 1])
         + (if IsCorrect(qs[|qs| - 1], answers[|qs| - 1]) then 1 else 0)
  }

  lemma {:induction false} AllCorrectCountsAll(qs: seq<Question>, answers: seq<Choice>)
    requires |answers| == |qs|
    requires forall i :: 0 <= i < |qs| ==> IsCorrect(qs[i], answers[i])
    ensures CorrectCount(qs, answers) == |qs|
  {
    if |qs| > 0 {
      AllCorrectCountsAll(qs[..|qs| - 1], answers[..|qs| - 1]);
    }
  }

  lemma {:induction false} NoneCorrectCountsNone(qs: seq<Question>, answers: seq<Choice>)
    requires |answers| == |qs|
    requires forall i :: 0 <= i < |qs| ==> !IsCorrect(qs[i], answers[i])
    ensures CorrectCount(qs, answers) == 0
  {
    if |qs| > 0 {
      NoneCorrectCountsNone(qs[..|qs| - 1], answers[..|qs| - 1]);
    }
  }

  /** Turning answers from wrong to right (and never back) never lowers the count. */
  lemma {:induction false} CorrectCountMonotone(qs: seq<Question>, a1: seq<Choice>, a2: seq<Choice>)
    requires |a1| == |qs| && |a2| == |qs|
    requires forall i :: 0 <= i < |qs| && IsCorrect(qs[i], a1[i]) ==> IsCorrect(qs[i], a2[i])
    ensures CorrectCount(qs, a1) <= CorrectCount(qs, a2)
  {
    if |qs| > 0 {
      CorrectCountMonotone(qs[..|qs| - 1], a1[..|qs| - 1], a2[..|qs| - 1]);
    }
  }

  /** Score the given answers, stop the clock's effect and show the result. */
  function CompleteWith(s: Session, answers: seq<Choice>): (r: Session)
    requires Valid(s) && Ready(s) && |answers| == |s.questions|
    ensures Valid(r) && r.complete && !r.cheatWarning && !TimerRunning(r)
    ensures r.score == Score(CorrectCount(s.questions, answers), |s.questions|)
    ensures r.(complete := s.complete, score := s.score, cheatWarning := s.cheatWarning) == s
  {
    s.(score := Score(CorrectCount(s.questions, answers), |s.questions|),
       cheatWarning := false,
       complete := true)
  }

  /** Completion scores the answers currently recorded. */
  function Complete(s: Session): (r: Session)
    requires Valid(s) && Ready(s)
    ensures Valid(r) && r.complete && !r.cheatWarning
    ensures (forall i :: 0 <= i < |s.questions| ==> IsCorrect(s.questions[i], s.answers[i])) ==> r.score == 100
    ensures (forall i :: 0 <= i < |s.questions| ==> !IsCorrect(s.questions[i], s.answers[i])) ==> r.score == 0
    ensures Claim(r) == Proceed
  {
    SheetExtremes(s.questions, s.answers);
    CompleteWith(s, s.answers)
  }

  /** A fully right answer sheet scores 100 and a fully wrong one 0. */
  lemma SheetExtremes(qs: seq<Question>, answers: seq<Choice>)
    requires 0 < |qs| && |answers| == |qs|
    ensures (forall i :: 0 <= i < |qs| ==> IsCorrect(qs[i], answers[i])) ==> Score(CorrectCount(qs, answers), |qs|) == 100
    ensures (forall i :: 0 <= i < |qs| ==> !IsCorrect(qs[i], answers[i])) ==> Score(CorrectCount(qs, answers), |qs|) == 0
  {
    ScoreExtremes(|qs|);
    if forall i :: 0 <= i < |qs| ==> IsCorrect(qs[i], answers[i]) {
      AllCorrectCountsAll(qs, answers);
    }
    if forall i :: 0 <= i < |qs| ==> !IsCorrect(qs[i], answers[i]) {
      NoneCorrectCountsNone(qs, answers);
    }
  }

  /** "Next": move one question on, or submit from the last question. */
  function Next(s: Session): (r: Session)
    requires Valid(s) && Ready(s)
    ensures Valid(r)
    ensures s.current < |s.questions| - 1 ==> r == s.(current := s.current + 1)
    ensures s.current == |s.questions| - 1 ==> r == Complete(s)
  {
    if s.current < |s.questions| - 1 then s.(current := s.current + 1) else Complete(s)
  }

  /** "Previous": move one question back unless on the first. */
  function Previous(s: Session): (r: Session)
    requires Valid(s)
    ensures Valid(r)
    ensures s.current > 0 ==> r == s.(current := s.current - 1)
    ensures s.current <= 0 ==> r == s
  {
    if s.current > 0 then s.(current := s.current - 1) else s
  }

  /** Next and Previous undo each other away from the ends of the quiz. */
  lemma NextPreviousInverse(s: Session)
    requires Valid(s) && Ready(s)
    ensures s.current < |s.questions| - 1 ==> Previous(Next(s)) == s
    ensures s.current > 0 ==> Next(Previous(s)) == s
  {
  }

  // ---------------- certificate claim and retake ----------------

  datatype ClaimOutcome = Blocked | Proceed

  /** The claim goes ahead (to the completion request and the certificate page)
      unless the cheat flag is raised. */
  function Claim(s: Session): (c: ClaimOutcome)
    ensures c == Blocked <==> s.cheatWarning
  {
    if s.cheatWarning then Blocked else Proceed
  }

  /** Back to the first question with a cleared answer sheet and a full clock.
      Answer-change counts, time spent and the tick reference time are kept. */
  function Retake(s: Session): (r: Session)
    requires Valid(s)
    ensures Valid(r)
    ensures !r.complete && r.current == 0 && r.timeLeft == QuizSeconds
    ensures !r.cheatWarning && r.tabSwitchCount == 0
    ensures |r.answers| == |s.questions| && forall i :: 0 <= i < |r.answers| ==> r.answers[i] == Unanswered
    ensures r.answerChanges == s.answerChanges && r.timeSpentMs == s.timeSpentMs
    ensures r.questions == s.questions && r.score == s.score && r.lastViewMs == s.lastViewMs
    ensures r.loading == s.loading && r.error == s.error
    ensures Active(r) <==> Ready(s)
  {
    s.(complete := false,
       current := 0,
       answers := seq(|s.questions|, _ => Unanswered),
       timeLeft := QuizSeconds,
       cheatWarning := false,
       tabSwitchCount := 0)
  }

  /** Retaking twice is the same as retaking once. */
  lemma RetakeIdempotent(s: Session)
    requires Valid(s)
    ensures Retake(Retake(s)) == Retake(s)
  {
  }

  // ---------------- countdown ----------------

  /** The countdown effect's own guard: the interval is installed only once the
      quiz is loaded, without error, with questions and not yet complete. It is
      written apart from `Active`, which is the render order of the screens. */
  predicate TimerRunning(s: Session)
  {
    !s.loading && s.error.None? && |s.questions| > 0 && !s.complete
  }

  /** The countdown runs exactly while the quiz screen is on display. */
  lemma TimerRunsOnQuizScreen(s: Session)
    requires Valid(s)
    ensures TimerRunning(s) <==> Active(s)
  {
  }

  /** One tick of the countdown at `nowMs`, with completion scoring `seen`: the
      answers the interval callback can see. On the last second the clock is set
      to 0 and the quiz completes; otherwise a second is taken off and the time
      since the last tick is attributed to the question on screen. */
  function TickScoring(s: Session, nowMs: int, seen: seq<Choice>): (r: Session)
    requires Valid(s) && |seen| == |s.questions|
    ensures Valid(r) && r.questions == s.questions
    ensures !TimerRunning(s) ==> r == s
    ensures TimerRunning(s) && s.timeLeft <= 1 ==> r.timeLeft == 0 && r.complete && !TimerRunning(r)
    ensures TimerRunning(s) && s.timeLeft > 1 ==>
      && r.timeLeft == s.timeLeft - 1 && !r.complete
      && r.lastViewMs == nowMs
      && r.timeSpentMs[s.current] == s.timeSpentMs[s.current] + (nowMs - s.lastViewMs)
      && (forall i :: 0 <= i < |s.timeSpentMs| && i != s.current ==> r.timeSpentMs[i] == s.timeSpentMs[i])
      && r.answers == s.answers && r.current == s.current
  {
    if !TimerRunning(s) then s
    else if s.timeLeft <= 1 then CompleteWith(s, seen).(timeLeft := 0)
    else
      s.(timeSpentMs := s.timeSpentMs[s.current := s.timeSpentMs[s.current] + (nowMs - s.lastViewMs)],
         lastViewMs := nowMs,
         timeLeft := s.timeLeft - 1)
  }

  /** The tick as intended: an expiring clock scores the answers as they stand. */
  function Tick(s: Session, nowMs: int): (r: Session)
    requires Valid(s)
    ensures Valid(r)
    ensures r.timeLeft <= s.timeLeft
    ensures TimerRunning(s) && s.timeLeft <= 1 ==> r == Complete(s).(timeLeft := 0)
    ensures !TimerRunning(s) ==> r == s
  {
    TickScoring(s, nowMs, s.answers)
  }

  /** Ticks at the given times, earliest first. */
  function Ticks(s: Session, times: seq<int>): (r: Session)
    requires Valid(s)
    ensures Valid(r)
    decreases |times|
  {
    if |times| == 0 then s else Ticks(Tick(s, times[0]), times[1..])
  }

  /** A running quiz with t seconds left is complete, with the clock at 0, after
      exactly t ticks and not before. */
  lemma {:induction false} CountdownExpires(s: Session, times: seq<int>)
    requires Valid(s) && TimerRunning(s) && s.timeLeft >= 1
    requires |times| <= s.timeLeft
    ensures var r := Ticks(s, times);
      && (|times| == s.timeLeft ==> r.complete && r.timeLeft == 0)
      && (|times| < s.timeLeft ==> TimerRunning(r) && r.timeLeft == s.timeLeft - |times|)
    decreases |times|
  {
    if |times| > 0 && s.timeLeft > 1 {
      CountdownExpires(Tick(s, times[0]), times[1..]);
    }
  }

  // ---------------- the stale interval callback ----------------

  /** The state the countdown effect depends on; the interval callback is
      rebuilt, and sees fresh answers, only when one of these changes. */
  function TimerDeps(s: Session): (bool, Option<string>, seq<Question>, bool, int)
  {
    (s.loading, s.error, s.questions, s.complete, s.current)
  }

  /** Answers the running interval callback sees after the page moves from
      `before` to `after`, when it saw `seen` before. */
  function Rebind(before: Session, after: Session, seen: seq<Choice>): seq<Choice>
  {
    if TimerDeps(before) == TimerDeps(after) then seen else after.answers
  }

  /** Answering never rebuilds the interval callback. */
  lemma AnswerKeepsTimerDeps(s: Session, option: string, seen: seq<Choice>)
    requires Valid(s) && |s.questions| > 0
    ensures Rebind(s, Answer(s, option), seen) == seen
  {
  }

  /** As written, a one-question quiz answered correctly and left to time out
      scores 0: the callback still sees the answer sheet from before the answer.
      Scoring the live answers gives 100. */
  lemma StaleTimerLosesAnswer()
    ensures var q := Question(["right", "wrong"], 0);
            var loaded := Load(Init(0), Loaded([q]));
            var answered := Answer(loaded, "right");
            var lastSecond := answered.(timeLeft := 1);
            var seen := Rebind(loaded, answered, loaded.answers);
            && TickScoring(lastSecond, 1000, seen).score == 0
            && Tick(lastSecond, 1000).score == 100
  {
  }
}
