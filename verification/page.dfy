/** The whole quiz page as one event-driven state: the quiz session next to the
    proctoring statistics, each UI or device event a pure step. Buttons only
    act when the screen that shows them is on display. */
module QuizPage {
  import opened Maybe
  import opened Metrics
  import P = Presence
  import opened QuizSession

  /** Landmarks the face-mesh model reports per face. */
  const LandmarkCount: int := 468

  /** What the detector reports for one face: the head-tilt and gaze samples
      derived from its landmarks, and the landmarks themselves. */
  datatype FaceObservation = FaceObservation(tilt: real, gaze: real, landmarks: seq<Point>)

  /** The proctoring statistics record and the callback's private state. */
  datatype Proctoring = Proctoring(
    presence: P.Tracker,
    headPose: Metric,
    eyeGaze: Metric,
    microMove: Metric,
    lastLandmarks: Option<seq<Point>>,
    speaking: bool,
    focusLost: nat
  )

  /** The quiz session, the proctoring statistics, and the answer sheet that the
      running countdown interval closed over when its effect last ran. */
  datatype Page = Page(quiz: Session, stats: Proctoring, timerAnswers: seq<Choice>)

  /** Page events. An option click carries any string: the page only offers the
      current question's options, and every property here holds for any text. */
  datatype Event =
    | CourseLoaded(outcome: LoadOutcome)
    | OptionClicked(option: string)
    | NextClicked
    | PreviousClicked
    | RetakeClicked
    | TimerFired(nowMs: int)
    | WindowBlurred
    | DetectorResult(faces: seq<FaceObservation>, nowMs: int)
    | AudioSampled(spectrum: seq<Byte>)

  /** Detector results carry full landmark sets. */
  predicate WellFormed(e: Event)
  {
    e.DetectorResult? ==> forall i :: 0 <= i < |e.faces| ==> |e.faces[i].landmarks| == LandmarkCount
  }

  /** `dist` measures a landmark against itself as 0, as Euclidean distance does. */
  ghost predicate ZeroOnSelf(dist: (Point, Point) -> real)
  {
    forall q :: dist(q, q) == 0.0
  }

  /** The page as it mounts: a fresh session, a fresh tracker, empty sample
      lists with zero average and maximum, no previous landmarks, not speaking,
      no focus lost and no captured sheet. */
  function Start(mountMs: int): (p: Page)
    ensures Inv(p)
    ensures p.quiz == Init(mountMs) && p.stats.presence == P.Start(mountMs)
    ensures p.stats.headPose == Empty && p.stats.eyeGaze == Empty && p.stats.microMove == Empty
    ensures p.stats.lastLandmarks == None && !p.stats.speaking && p.stats.focusLost == 0
    ensures p.timerAnswers == []
  {
    Page(Init(mountMs), Proctoring(P.Start(mountMs), Empty, Empty, Empty, None, false, 0), [])
  }

  /** What holds on every reachable page. */
  ghost predicate Inv(p: Page)
  {
    && Valid(p.quiz)
    && |p.timerAnswers| == |p.quiz.questions|
    && !p.quiz.cheatWarning
    && p.quiz.tabSwitchCount <= p.stats.focusLost
    && P.Inv(p.stats.presence)
    && Consistent(p.stats.headPose) && Consistent(p.stats.eyeGaze) && Consistent(p.stats.microMove)
    && |p.stats.headPose.samples| == |p.stats.eyeGaze.samples| == |p.stats.microMove.samples|
    && (p.stats.lastLandmarks.None? <==> |p.stats.microMove.samples| == 0)
    && (p.stats.lastLandmarks.Some? ==> |p.stats.lastLandmarks.value| == LandmarkCount)
    // the first micro-movement sample compares the first face with itself
    && (|p.stats.microMove.samples| > 0 ==> p.stats.microMove.samples[0] == 0.0)
  }

  /** One detector result: presence and multi-face bookkeeping always; the three
      metrics only from the first face, when there is one. */
  function OnResults(st: Proctoring, faces: seq<FaceObservation>, nowMs: int,
                     dist: (Point, Point) -> real): (r: Proctoring)
    requires ZeroOnSelf(dist)
    requires forall i :: 0 <= i < |faces| ==> |faces[i].landmarks| == LandmarkCount
    requires st.lastLandmarks.Some? ==> |st.lastLandmarks.value| == LandmarkCount
    ensures r.presence == P.Frame(st.presence, |faces|, nowMs)
    ensures r.speaking == st.speaking && r.focusLost == st.focusLost
    ensures |faces| == 0 ==> r == st.(presence := r.presence)
    ensures |faces| > 0 ==>
      && r.headPose == Observe(st.headPose, faces[0].tilt)
      && r.eyeGaze == Observe(st.eyeGaze, faces[0].gaze)
      && r.microMove == Observe(st.microMove, MicroStep(st.lastLandmarks, faces[0].landmarks, dist).0)
      && r.lastLandmarks == Some(faces[0].landmarks)
  {
    var presence := P.Frame(st.presence, |faces|, nowMs);
    if |faces| == 0 then st.(presence := presence)
    else
      var face := faces[0];
      var (micro, last) := MicroStep(st.lastLandmarks, face.landmarks, dist);
      st.(presence := presence,
          headPose := Observe(st.headPose, face.tilt),
          eyeGaze := Observe(st.eyeGaze, face.gaze),
          microMove := Observe(st.microMove, micro),
          lastLandmarks := Some(last))
  }

  lemma OnResultsKeepsInv(p: Page, faces: seq<FaceObservation>, nowMs: int, dist: (Point, Point) -> real)
    requires Inv(p) && ZeroOnSelf(dist)
    requires forall i :: 0 <= i < |faces| ==> |faces[i].landmarks| == LandmarkCount
    ensures Inv(p.(stats := OnResults(p.stats, faces, nowMs, dist)))
  {
    var st := OnResults(p.stats, faces, nowMs, dist);
    if |faces| > 0 {
      var m := MicroStep(p.stats.lastLandmarks, faces[0].landmarks, dist);
      assert st.microMove.samples == p.stats.microMove.samples + [m.0];
      if p.stats.lastLandmarks.Some? {
        assert st.microMove.samples[0] == p.stats.microMove.samples[0];
      } else {
        assert st.microMove.samples == [m.0];
      }
      ObserveMonotone(p.stats.microMove, m.0);
    }
  }

  /** Window blur: both the proctoring counter and the tab-switch counter go up. */
  function Blur(p: Page): (r: Page)
    ensures r.stats.focusLost == p.stats.focusLost + 1
    ensures r.quiz.tabSwitchCount == p.quiz.tabSwitchCount + 1
    ensures r.(stats := p.stats, quiz := p.quiz) == p
    ensures r.quiz.(tabSwitchCount := p.quiz.tabSwitchCount) == p.quiz
    ensures r.stats.(focusLost := p.stats.focusLost) == p.stats
  {
    p.(quiz := p.quiz.(tabSwitchCount := p.quiz.tabSwitchCount + 1),
       stats := p.stats.(focusLost := p.stats.focusLost + 1))
  }

  /** One event. The detector callback draws on the canvas first, and the canvas
      exists only on the quiz screen, so results change nothing elsewhere. The
      timer fires the interval as written, scoring the answer sheet it closed
      over; that sheet is renewed whenever the countdown effect's dependencies
      change. */
  function Step(p: Page, e: Event, dist: (Point, Point) -> real): (r: Page)
    requires Inv(p) && WellFormed(e) && ZeroOnSelf(dist)
    ensures Inv(r)
    ensures r.timerAnswers == Rebind(p.quiz, r.quiz, p.timerAnswers)
  {
    var n := Handle(p, e, dist);
    n.(timerAnswers := Rebind(p.quiz, n.quiz, p.timerAnswers))
  }

  /** What each event does. The quiz-screen buttons do nothing on any other
      screen, Next is disabled while the question on screen is unanswered, and
      Retake exists only on the result screen. */
  lemma StepByEvent(p: Page, e: Event, dist: (Point, Point) -> real)
    requires Inv(p) && WellFormed(e) && ZeroOnSelf(dist)
    ensures var r := Step(p, e, dist);
      && (!Active(p.quiz) && (e.OptionClicked? || e.NextClicked? || e.PreviousClicked?) ==> r == p)
      && (e.CourseLoaded? ==>
            && r.stats == p.stats
            && r.quiz == (if p.quiz.loading then Load(p.quiz, e.outcome) else p.quiz))
      && (e.OptionClicked? && Active(p.quiz) ==>
            r.stats == p.stats && r.quiz == Answer(p.quiz, e.option))
      && (e.NextClicked? && Active(p.quiz) ==>
            && r.stats == p.stats
            && r.quiz == (if p.quiz.answers[p.quiz.current] == Unanswered then p.quiz else Next(p.quiz)))
      && (e.PreviousClicked? && Active(p.quiz) ==>
            r.stats == p.stats && r.quiz == Previous(p.quiz))
      && (e.RetakeClicked? ==>
            && r.stats == p.stats
            && r.quiz == (if p.quiz.complete then Retake(p.quiz) else p.quiz))
      && (e.TimerFired? ==>
            r.stats == p.stats && r.quiz == TickScoring(p.quiz, e.nowMs, p.timerAnswers))
      && (e.WindowBlurred? ==> r == Blur(p))
      && (e.DetectorResult? ==>
            && r.quiz == p.quiz
            && r.stats == (if Active(p.quiz) then OnResults(p.stats, e.faces, e.nowMs, dist) else p.stats))
      && (e.AudioSampled? ==> r == p.(stats := p.stats.(speaking := Speaking(e.spectrum))))
  {
  }

  /** The event's effect on the session and the statistics. */
  function Handle(p: Page, e: Event, dist: (Point, Point) -> real): (r: Page)
    requires Inv(p) && WellFormed(e) && ZeroOnSelf(dist)
    ensures Inv(r.(timerAnswers := Rebind(p.quiz, r.quiz, p.timerAnswers)))
    ensures r.timerAnswers == p.timerAnswers
  {
    var q := p.quiz;
    match e
    case CourseLoaded(outcome) =>
      if q.loading then p.(quiz := Load(q, outcome)) else p
    case OptionClicked(option) =>
      if Active(q) then p.(quiz := Answer(q, option)) else p
    case NextClicked =>
      if Active(q) && q.answers[q.current] != Unanswered then p.(quiz := Next(q)) else p
    case PreviousClicked =>
      if Active(q) then p.(quiz := Previous(q)) else p
    case RetakeClicked =>
      if q.complete then p.(quiz := Retake(q)) else p
    case TimerFired(nowMs) =>
      p.(quiz := TickScoring(q, nowMs, p.timerAnswers))
    case WindowBlurred =>
      Blur(p)
    case DetectorResult(faces, nowMs) =>
      if Active(q) then
        OnResultsKeepsInv(p, faces, nowMs, dist);
        p.(stats := OnResults(p.stats, faces, nowMs, dist))
      else p
    case AudioSampled(spectrum) =>
      p.(stats := p.stats.(speaking := Speaking(spectrum)))
  }

  /** The page after a sequence of events. */
  function Run(p: Page, events: seq<Event>, dist: (Point, Point) -> real): (r: Page)
    requires Inv(p) && ZeroOnSelf(dist)
    requires forall i :: 0 <= i < |events| ==> WellFormed(events[i])
    ensures Inv(r)
  {
    if |events| == 0 then p
    else Step(Run(p, events[..|events| - 1], dist), events[|events| - 1], dist)
  }

  /** The claim button is rendered on the result screen of a passed quiz. */
  predicate ClaimOffered(q: Session)
  {
    q.complete && Passed(q.score)
  }

  /** The cheat flag is never raised, so wherever the claim button is offered on
      a reachable page it is enabled and the claim goes ahead. */
  lemma ClaimNeverBlocked(mountMs: int, events: seq<Event>, dist: (Point, Point) -> real)
    requires ZeroOnSelf(dist)
    requires forall i :: 0 <= i < |events| ==> WellFormed(events[i])
    ensures var q := Run(Start(mountMs), events, dist).quiz;
      ClaimOffered(q) ==> !q.cheatWarning && Claim(q) == Proceed
  {
  }

  /** Retake resets the quiz and the tab-switch count and leaves every proctoring
      statistic, the focus-loss counter included, as it was. */
  lemma RetakeKeepsProctoring(p: Page, dist: (Point, Point) -> real)
    requires Inv(p) && ZeroOnSelf(dist) && p.quiz.complete
    ensures var r := Step(p, RetakeClicked, dist);
      && r.stats == p.stats
      && r.quiz.tabSwitchCount == 0 && r.stats.focusLost == p.stats.focusLost
      && r.quiz.answerChanges == p.quiz.answerChanges && r.quiz.timeSpentMs == p.quiz.timeSpentMs
      && Active(r.quiz)
  {
  }

  /** A course without questions shows its error for good: the clock never runs,
      never moves and the quiz never completes. */
  lemma {:induction false} ErrorIsFinal(p: Page, events: seq<Event>, dist: (Point, Point) -> real)
    requires Inv(p) && ZeroOnSelf(dist) && !p.quiz.loading && p.quiz.error.Some?
    requires forall i :: 0 <= i < |events| ==> WellFormed(events[i])
    ensures var r := Run(p, events, dist);
      && r.quiz.error == p.quiz.error && !TimerRunning(r.quiz)
      && r.quiz.timeLeft == p.quiz.timeLeft && r.quiz.complete == p.quiz.complete
      && r.quiz.answers == p.quiz.answers
  {
    if |events| > 0 {
      ErrorIsFinal(p, events[..|events| - 1], dist);
      ErrorStepIsFinal(Run(p, events[..|events| - 1], dist), events[|events| - 1], dist);
    }
  }

  lemma ErrorStepIsFinal(p: Page, e: Event, dist: (Point, Point) -> real)
    requires Inv(p) && ZeroOnSelf(dist) && WellFormed(e) && !p.quiz.loading && p.quiz.error.Some?
    ensures var r := Step(p, e, dist);
      && r.quiz.error == p.quiz.error && !r.quiz.loading && !TimerRunning(r.quiz)
      && r.quiz.timeLeft == p.quiz.timeLeft && r.quiz.complete == p.quiz.complete
      && r.quiz.answers == p.quiz.answers
  {
  }

  lemma EmptyCourseNeverStartsTimer(mountMs: int, events: seq<Event>, dist: (Point, Point) -> real)
    requires ZeroOnSelf(dist)
    requires forall i :: 0 <= i < |events| ==> WellFormed(events[i])
    ensures var loaded := Step(Start(mountMs), CourseLoaded(Loaded([])), dist);
      && loaded.quiz.error == Some(NoQuestionsMessage)
      && !TimerRunning(Run(loaded, events, dist).quiz)
      && Run(loaded, events, dist).quiz.timeLeft == QuizSeconds
  {
    var loaded := Step(Start(mountMs), CourseLoaded(Loaded([])), dist);
    ErrorIsFinal(loaded, events, dist);
  }

  /** Number of window-blur events in a sequence. */
  function BlurCount(events: seq<Event>): nat
  {
    if |events| == 0 then 0
    else BlurCount(events[..|events| - 1]) + (if events[|events| - 1] == WindowBlurred then 1 else 0)
  }

  lemma StepFocusLost(p: Page, e: Event, dist: (Point, Point) -> real)
    requires Inv(p) && ZeroOnSelf(dist) && WellFormed(e)
    ensures Step(p, e, dist).stats.focusLost == p.stats.focusLost + (if e == WindowBlurred then 1 else 0)
  {
  }

  /** Focus losses are never forgotten: the counter goes up by exactly the number
      of blur events, whatever else happens (retakes included). */
  lemma {:induction false} FocusLostCountsBlurs(p: Page, events: seq<Event>, dist: (Point, Point) -> real)
    requires Inv(p) && ZeroOnSelf(dist)
    requires forall i :: 0 <= i < |events| ==> WellFormed(events[i])
    ensures Run(p, events, dist).stats.focusLost == p.stats.focusLost + BlurCount(events)
  {
    if |events| > 0 {
      var n := |events| - 1;
      FocusLostCountsBlurs(p, events[..n], dist);
      StepFocusLost(Run(p, events[..n], dist), events[n], dist);
    }
  }

  // ---------------- the countdown closure ----------------

  /** An option picked in the last second is not scored when the clock runs out:
      the interval still holds the sheet from before the click. */
  lemma LastAnswerLostOnTimeout(p: Page, option: string, nowMs: int, dist: (Point, Point) -> real)
    requires Inv(p) && ZeroOnSelf(dist) && Active(p.quiz) && p.quiz.timeLeft <= 1
    ensures var answered := Step(p, OptionClicked(option), dist);
            var r := Step(answered, TimerFired(nowMs), dist);
      && answered.quiz.answers[p.quiz.current] == Chosen(option)
      && r.quiz.complete && r.quiz.timeLeft == 0
      && r.quiz.answers == answered.quiz.answers
      && r.quiz.score == Score(CorrectCount(p.quiz.questions, p.timerAnswers), |p.quiz.questions|)
  {
  }

  /** One timer event per time stamp. */
  function Fires(times: seq<int>): (es: seq<Event>)
    ensures |es| == |times|
    ensures forall i :: 0 <= i < |es| ==> es[i] == TimerFired(times[i])
  {
    if |times| == 0 then [] else Fires(times[..|times| - 1]) + [TimerFired(times[|times| - 1])]
  }

  /** Running two event sequences one after the other is running their concatenation. */
  lemma {:induction false} RunAppend(p: Page, a: seq<Event>, b: seq<Event>, dist: (Point, Point) -> real)
    requires Inv(p) && ZeroOnSelf(dist)
    requires forall i :: 0 <= i < |a| ==> WellFormed(a[i])
    requires forall i :: 0 <= i < |b| ==> WellFormed(b[i])
    ensures forall i :: 0 <= i < |a + b| ==> WellFormed((a + b)[i])
    ensures Run(p, a + b, dist) == Run(Run(p, a, dist), b, dist)
  {
    ConcatWellFormed(a, b);
    if |b| == 0 {
      assert a + b == a;
    } else {
      var k := |b| - 1;
      var ab := a + b;
      assert ab[..|ab| - 1] == a + b[..k];
      assert ab[|ab| - 1] == b[k];
      ConcatWellFormed(a, b[..k]);
      RunAppend(p, a, b[..k], dist);
      var pa := Run(p, a, dist);
      var mid := Run(pa, b[..k], dist);
      RunLast(p, ab, dist);
      assert Run(p, ab, dist) == Step(mid, b[k], dist);
      RunLast(pa, b, dist);
    }
  }

  lemma ConcatWellFormed(a: seq<Event>, b: seq<Event>)
    requires forall i :: 0 <= i < |a| ==> WellFormed(a[i])
    requires forall i :: 0 <= i < |b| ==> WellFormed(b[i])
    ensures forall i :: 0 <= i < |a + b| ==> WellFormed((a + b)[i])
  {
  }

  lemma RunLast(p: Page, es: seq<Event>, dist: (Point, Point) -> real)
    requires Inv(p) && ZeroOnSelf(dist) && |es| > 0
    requires forall i :: 0 <= i < |es| ==> WellFormed(es[i])
    ensures Run(p, es, dist) == Step(Run(p, es[..|es| - 1], dist), es[|es| - 1], dist)
  {
  }

  /** Timer events before the clock runs out take one second each off the clock
      and leave the answers, the question on screen and the captured sheet alone. */
  lemma {:induction false} CountdownOnPage(p: Page, times: seq<int>, dist: (Point, Point) -> real)
    requires Inv(p) && ZeroOnSelf(dist) && Active(p.quiz)
    requires |times| < p.quiz.timeLeft
    ensures forall i :: 0 <= i < |Fires(times)| ==> WellFormed(Fires(times)[i])
    ensures var r := Run(p, Fires(times), dist);
      && Active(r.quiz) && r.quiz.timeLeft == p.quiz.timeLeft - |times|
      && r.quiz.questions == p.quiz.questions && r.quiz.answers == p.quiz.answers
      && r.quiz.current == p.quiz.current && r.timerAnswers == p.timerAnswers
  {
    if |times| > 0 {
      var k := |times| - 1;
      CountdownOnPage(p, times[..k], dist);
      assert Fires(times)[..k] == Fires(times[..k]);
      var before := Run(p, Fires(times[..k]), dist);
      TimerRunsOnQuizScreen(before.quiz);
      var r := Step(before, TimerFired(times[k]), dist);
      assert r.quiz.complete == before.quiz.complete;
    }
  }

  /** The one-question course of the counterexample below. */
  const RightFirst := Question(["right", "wrong"], 0)

  /** Mount, load the one-question course and pick the right option: the click
      is on the sheet, the interval still holds the unanswered one. */
  lemma LoadThenAnswer(dist: (Point, Point) -> real)
    requires ZeroOnSelf(dist)
    ensures var p := Run(Start(0), [CourseLoaded(Loaded([RightFirst])), OptionClicked("right")], dist);
      && Inv(p) && Active(p.quiz) && p.quiz.timeLeft == QuizSeconds
      && p.quiz.questions == [RightFirst] && p.quiz.current == 0
      && p.quiz.answers == [Chosen("right")] && p.timerAnswers == [Unanswered]
  {
    var a := [CourseLoaded(Loaded([RightFirst])), OptionClicked("right")];
    var p0 := Start(0);
    var p1 := Step(p0, a[0], dist);
    StepByEvent(p0, a[0], dist);
    assert Run(p0, a[..1], dist) == p1;
    RunLast(p0, a, dist);
    StepByEvent(p1, a[1], dist);
    AnswerKeepsTimerDeps(p1.quiz, "right", p1.timerAnswers);
  }

  /** The timer firing in the last second completes the quiz on the sheet the
      interval captured, keeping the live answers. */
  lemma TimeoutScoresCaptured(p: Page, nowMs: int, dist: (Point, Point) -> real)
    requires Inv(p) && ZeroOnSelf(dist) && Active(p.quiz) && p.quiz.timeLeft == 1
    ensures var r := Step(p, TimerFired(nowMs), dist);
      && r.quiz.complete && r.quiz.answers == p.quiz.answers && r.quiz.questions == p.quiz.questions
      && r.quiz.score == Score(CorrectCount(p.quiz.questions, p.timerAnswers), |p.quiz.questions|)
  {
    TimerRunsOnQuizScreen(p.quiz);
  }

  /** From mount: a one-question course, the right option picked, and the clock
      left to run its 600 ticks ends with the right answer on the sheet and a
      score of 0; scoring that sheet would give 100. */
  lemma StaleTimerFromMount(times: seq<int>, dist: (Point, Point) -> real)
    requires ZeroOnSelf(dist) && |times| == QuizSeconds
    ensures var events := [CourseLoaded(Loaded([RightFirst])), OptionClicked("right")] + Fires(times);
            (forall i :: 0 <= i < |events| ==> WellFormed(events[i])) &&
            var r := Run(Start(0), events, dist);
      && r.quiz.complete && r.quiz.answers == [Chosen("right")]
      && r.quiz.score == 0
      && Score(CorrectCount(r.quiz.questions, r.quiz.answers), |r.quiz.questions|) == 100
  {
    var a := [CourseLoaded(Loaded([RightFirst])), OptionClicked("right")];
    LoadThenAnswer(dist);
    var p2 := Run(Start(0), a, dist);
    RunAppend(Start(0), a, Fires(times), dist);
    var k := |times| - 1;
    assert Fires(times)[..k] == Fires(times[..k]);
    CountdownOnPage(p2, times[..k], dist);
    var last := Run(p2, Fires(times[..k]), dist);
    RunLast(p2, Fires(times), dist);
    TimeoutScoresCaptured(last, times[k], dist);
    assert CorrectCount([RightFirst], [Unanswered]) == 0;
    assert CorrectCount([RightFirst], [Chosen("right")]) == 1;
    ScoreExtremes(1);
  }
}
