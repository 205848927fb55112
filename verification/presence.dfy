/** The face-presence and multi-face part of the face-mesh result callback
    (src/pages/Quiz.jsx, `onResults`): a two-mode tracker (face seen / absence
    run in progress) with a one-second debounce, driven by the number of faces
    the detector reported and the wall-clock time in milliseconds. */
module Presence {

  /** Absence shorter than this many milliseconds is ignored. */
  const DebounceMs: int := 1000

  datatype Tracker = Tracker(
    lastFaceTime: int,       // ms timestamp of the last frame with a face (mount time before any)
    sessionActive: bool,     // an absence run has been counted and no face seen since
    noFaceSeconds: nat,      // whole seconds of the current absence, 0 while a face is seen
    noFaceTotal: nat,        // number of frames that qualified as absent (shown with an "s")
    longestNoFace: nat,      // largest noFaceSeconds so far
    noFaceSessions: nat,     // number of absence runs counted
    multiFaceCurrent: nat,   // faces beyond the first in the latest frame with a face
    multiFaceTotal: nat      // number of frames with more than one face
  )

  /** State when the capture effect starts at `mountMs`. */
  function Start(mountMs: int): (t: Tracker)
    ensures Inv(t)
    ensures t.lastFaceTime == mountMs && !t.sessionActive && t.noFaceSeconds == 0
    ensures t.noFaceTotal == 0 && t.noFaceSessions == 0 && t.longestNoFace == 0
    ensures t.multiFaceCurrent == 0 && t.multiFaceTotal == 0
  {
    Tracker(mountMs, false, 0, 0, 0, 0, 0, 0)
  }

  /** What every reachable tracker satisfies: the current absence never exceeds
      the longest, an absence run is in progress exactly when the current
      absence is non-zero, every counted run counted at least one absent frame. */
  ghost predicate Inv(t: Tracker)
  {
    && t.noFaceSeconds <= t.longestNoFace
    && (t.sessionActive <==> t.noFaceSeconds >= 1)
    && t.noFaceSessions <= t.noFaceTotal
    && (t.sessionActive ==> t.noFaceSessions >= 1)
  }

  /** An absent frame counts once at least a second has passed since the last face. */
  predicate Qualifies(t: Tracker, nowMs: int)
  {
    nowMs - t.lastFaceTime >= DebounceMs
  }

  /** One detector result with `faceCount` faces at time `nowMs`. */
  function Frame(t: Tracker, faceCount: nat, nowMs: int): (r: Tracker)
    // a face resets the absence run and refreshes the multi-face fields
    ensures faceCount >= 1 ==>
      && r.lastFaceTime == nowMs && r.noFaceSeconds == 0 && !r.sessionActive
      && r.multiFaceCurrent == faceCount - 1
      && (r.multiFaceTotal == t.multiFaceTotal + 1 <==> faceCount > 1)
      && (r.multiFaceTotal == t.multiFaceTotal <==> faceCount == 1)
      && r.noFaceTotal == t.noFaceTotal && r.noFaceSessions == t.noFaceSessions
      && r.longestNoFace == t.longestNoFace
    // a short absence changes nothing
    ensures faceCount == 0 && !Qualifies(t, nowMs) ==> r == t
    // a long absence counts the frame, opens a run at most once, tracks the longest
    ensures faceCount == 0 && Qualifies(t, nowMs) ==>
      && r.noFaceSeconds >= 1
      && (r.noFaceSeconds as int) * 1000 <= nowMs - t.lastFaceTime < (r.noFaceSeconds as int + 1) * 1000
      && r.noFaceTotal == t.noFaceTotal + 1
      && (r.noFaceSessions == t.noFaceSessions + 1 <==> !t.sessionActive)
      && (r.noFaceSessions == t.noFaceSessions <==> t.sessionActive)
      && r.sessionActive
      && r.longestNoFace >= r.noFaceSeconds && r.longestNoFace >= t.longestNoFace
      && (r.longestNoFace == r.noFaceSeconds || r.longestNoFace == t.longestNoFace)
      && r.lastFaceTime == t.lastFaceTime
    // multi-face fields only change on frames with a face
    ensures faceCount == 0 ==> r.multiFaceCurrent == t.multiFaceCurrent && r.multiFaceTotal == t.multiFaceTotal
    ensures Inv(t) ==> Inv(r)
  {
    if faceCount > 0 then
      t.(lastFaceTime := nowMs, noFaceSeconds := 0, sessionActive := false,
         multiFaceCurrent := if faceCount - 1 > 0 then faceCount - 1 else 0,
         multiFaceTotal := if faceCount > 1 then t.multiFaceTotal + 1 else t.multiFaceTotal)
    else
      var elapsed := nowMs - t.lastFaceTime;
      if elapsed >= DebounceMs then
        var secs := elapsed / 1000;
        var t1 := t.(noFaceSeconds := secs, noFaceTotal := t.noFaceTotal + 1);
        var t2 := if !t.sessionActive then t1.(noFaceSessions := t1.noFaceSessions + 1, sessionActive := true) else t1;
        if t2.noFaceSeconds > t2.longestNoFace then t2.(longestNoFace := t2.noFaceSeconds) else t2
      else
        t
  }

  /** A run of frames with no face at the given times. */
  function Absent(t: Tracker, times: seq<int>): Tracker
  {
    if |times| == 0 then t else Frame(Absent(t, times[..|times| - 1]), 0, times[|times| - 1])
  }

  /** How many of the times are at least a second after `since`. */
  function CountQualifying(times: seq<int>, since: int): nat
  {
    if |times| == 0 then 0
    else CountQualifying(times[..|times| - 1], since) + (if times[|times| - 1] - since >= DebounceMs then 1 else 0)
  }

  /** Over a run of absent frames the last-face time stays put, each qualifying
      frame is counted once, at most one absence session is opened (exactly one
      when the run was not already open and some frame qualified), and the
      longest absence covers every qualifying frame's whole seconds. */
  lemma {:induction false} AbsentRun(t: Tracker, times: seq<int>)
    ensures Absent(t, times).lastFaceTime == t.lastFaceTime
    ensures Absent(t, times).noFaceTotal == t.noFaceTotal + CountQualifying(times, t.lastFaceTime)
    ensures Absent(t, times).noFaceSessions ==
      t.noFaceSessions + (if !t.sessionActive && CountQualifying(times, t.lastFaceTime) > 0 then 1 else 0)
    ensures Absent(t, times).sessionActive <==> t.sessionActive || CountQualifying(times, t.lastFaceTime) > 0
    ensures Absent(t, times).longestNoFace >= t.longestNoFace
    ensures forall i :: 0 <= i < |times| && times[i] - t.lastFaceTime >= DebounceMs ==>
      Absent(t, times).longestNoFace >= (times[i] - t.lastFaceTime) / 1000
    ensures Absent(t, times).multiFaceCurrent == t.multiFaceCurrent
    ensures Absent(t, times).multiFaceTotal == t.multiFaceTotal
  {
    if |times| > 0 {
      var p := times[..|times| - 1];
      AbsentRun(t, p);
      assert forall i :: 0 <= i < |p| ==> p[i] == times[i];
    }
  }

  /** Inv holds after any run of absent frames. */
  lemma {:induction false} AbsentKeepsInv(t: Tracker, times: seq<int>)
    requires Inv(t)
    ensures Inv(Absent(t, times))
  {
    if |times| > 0 {
      AbsentKeepsInv(t, times[..|times| - 1]);
    }
  }

  /** Debounce: a face, then absent frames all within a second, then a face
      again leaves every absence statistic as it was. */
  lemma BriefMissIsIgnored(t: Tracker, seenMs: int, times: seq<int>, k: nat, againMs: int)
    requires k >= 1
    requires forall i :: 0 <= i < |times| ==> times[i] - seenMs < DebounceMs
    ensures var seen := Frame(t, k, seenMs);
            var back := Frame(Absent(seen, times), k, againMs);
            && back.noFaceSessions == t.noFaceSessions
            && back.noFaceTotal == t.noFaceTotal
            && back.longestNoFace == t.longestNoFace
            && back.noFaceSeconds == 0 && !back.sessionActive
  {
    var seen := Frame(t, k, seenMs);
    AbsentRun(seen, times);
    NoneQualify(times, seenMs);
  }

  lemma {:induction false} NoneQualify(times: seq<int>, since: int)
    requires forall i :: 0 <= i < |times| ==> times[i] - since < DebounceMs
    ensures CountQualifying(times, since) == 0
  {
    if |times| > 0 {
      NoneQualify(times[..|times| - 1], since);
    }
  }

  /** A long absence: a face at `seenMs`, absent frames whose last one is at
      least `gap` whole seconds later, then a face again. Exactly one absence
      session is added, the longest absence is at least `gap` seconds and the
      current absence is back to 0. */
  lemma LongAbsenceCountsOnce(t: Tracker, seenMs: int, times: seq<int>, gap: nat, againMs: int)
    requires gap >= 1
    requires |times| > 0 && times[|times| - 1] - seenMs >= gap * 1000
    ensures var seen := Frame(t, 1, seenMs);
            var back := Frame(Absent(seen, times), 1, againMs);
            && back.noFaceSessions == t.noFaceSessions + 1
            && back.longestNoFace >= gap
            && back.noFaceSeconds == 0 && !back.sessionActive
            && back.noFaceTotal >= t.noFaceTotal + 1
  {
    var seen := Frame(t, 1, seenMs);
    AbsentRun(seen, times);
    var i := |times| - 1;
    SomeQualifies(times, seenMs, i);
    assert (times[i] - seenMs) / 1000 >= gap;
  }

  lemma {:induction false} SomeQualifies(times: seq<int>, since: int, i: nat)
    requires i < |times| && times[i] - since >= DebounceMs
    ensures CountQualifying(times, since) > 0
  {
    if i < |times| - 1 {
      SomeQualifies(times[..|times| - 1], since, i);
    }
  }
}
