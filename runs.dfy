/** Runs of the verification session: any sequence of user submissions,
    timer callbacks coming due and window closings, and what holds over all
    of them. */
module Runs {
  import opened Ids
  import opened Matching
  import opened Session

  /** One thing that can happen to the session while Tk's main loop runs:
      the user presses "Start Verification", pending timer number `index`
      comes due (with `frame` as what the camera would give next), or the
      user closes verification window number `window`. */
  datatype Event =
    | SubmitId(entered: string, files: set<string>, load: ReferenceLoad, opens: bool, first: Frame)
    | TimerDue(index: nat, frame: Frame)
    | CloseWindow(window: nat)

  /** A timer event naming no pending timer, and a close naming no window,
      change nothing. */
  function Step(s: State, e: Event): (r: State)
    requires Inv(s)
    ensures Inv(r)
  {
    match e
    case SubmitId(entered, files, load, opens, first) => StartVerification(s, entered, files, load, opens, first).0
    case TimerDue(i, frame) => if i < |s.pending| then Fire(s, i, frame).0 else s
    case CloseWindow(w) => if 1 <= w <= s.window then Close(s, w) else s
  }

  /** A step only adds message boxes, and opens the camera only for a
      submission whose camera opens. */
  lemma StepGrows(s: State, e: Event)
    requires Inv(s)
    ensures var r := Step(s, e);
      && |s.notices| <= |r.notices| && r.notices[..|s.notices|] == s.notices
      && r.openCount <= s.openCount + (if e.SubmitId? && e.opens then 1 else 0)
  {
    match e
    case SubmitId(entered, files, load, opens, first) =>
      var r := StartVerification(s, entered, files, load, opens, first);
      assert r.1 == CameraUnavailable || r.0.notices == s.notices;
    case TimerDue(i, frame) =>
    case CloseWindow(w) =>
  }

  function Run(s: State, events: seq<Event>): (r: State)
    requires Inv(s)
    ensures Inv(r)
    decreases |events|
  {
    if events == [] then s else Run(Step(s, events[0]), events[1..])
  }

  /** The number of submissions in `events` whose camera opens. */
  function CameraSessions(events: seq<Event>): nat
    decreases |events|
  {
    if events == [] then 0
    else (if events[0].SubmitId? && events[0].opens then 1 else 0) + CameraSessions(events[1..])
  }

  /** The camera is opened only by a submission whose camera opens. */
  lemma {:induction false} OpenCountBound(s: State, events: seq<Event>)
    requires Inv(s)
    ensures Run(s, events).openCount <= s.openCount + CameraSessions(events)
    decreases |events|
  {
    if events != [] {
      StepGrows(s, events[0]);
      OpenCountBound(Step(s, events[0]), events[1..]);
    }
  }

  /** The gated action: over any run from the start, the exam is started at
      most as often as a camera session was begun, and never more often than
      the camera was released on a match. */
  lemma ExamStartsBounded(events: seq<Event>)
    ensures ExamsStarted(Run(Initial, events).notices) <= Run(Initial, events).releaseCount
    ensures ExamsStarted(Run(Initial, events).notices) <= CameraSessions(events)
  {
    OpenCountBound(Initial, events);
  }

  /** No re-poll is pending. */
  predicate Halted(s: State) {
    forall k :: 0 <= k < |s.pending| ==> s.pending[k].callback != VerifyFacesCall
  }

  predicate NoSubmission(events: seq<Event>) {
    forall k :: 0 <= k < |events| ==> !events[k].SubmitId?
  }

  /** Once no re-poll is pending, polling never resumes until the user submits
      an ID again: whatever timers come due and whatever the camera would
      give, no frame is shown, the status text and the camera stay as they
      are, and still no re-poll is pending. */
  lemma {:induction false} HaltIsFinal(s: State, events: seq<Event>)
    requires Inv(s) && Halted(s) && NoSubmission(events)
    ensures var r := Run(s, events);
      && Halted(r) && r.display == s.display && r.cap == s.cap
      && r.windowStatus == s.windowStatus && r.mainStatus == s.mainStatus
      && r.releaseCount == s.releaseCount
    decreases |events|
  {
    if events != [] {
      HaltedStep(s, events[0]);
      assert NoSubmission(events[1..]) by {
        forall k | 0 <= k < |events[1..]| ensures !events[1..][k].SubmitId? {
          assert events[1..][k] == events[k + 1];
        }
      }
      HaltIsFinal(Step(s, events[0]), events[1..]);
    }
  }

  /** One step of `HaltIsFinal`. */
  lemma HaltedStep(s: State, e: Event)
    requires Inv(s) && Halted(s) && !e.SubmitId?
    ensures var t := Step(s, e);
      && Halted(t) && t.display == s.display && t.cap == s.cap
      && t.windowStatus == s.windowStatus && t.mainStatus == s.mainStatus
      && t.releaseCount == s.releaseCount
  {
    if e.TimerDue? && e.index < |s.pending| {
      var i := e.index;
      assert s.pending[i].callback != VerifyFacesCall;
      var t := Fire(s, i, e.frame).0;
      assert forall k :: 0 <= k < |t.pending| ==> t.pending[k] in s.pending;
    }
  }

  /** A submission that passes every check of `start_verification`: the ID is
      not blank, its photo exists and holds at least one face. */
  predicate Admitted(entered: string, files: set<string>, load: ReferenceLoad) {
    !AllSpace(entered) && ReferencePath(Strip(entered)) in files && load.Decoded? && load.encodings != []
  }

  /** The state, from the start, after an admitted submission has opened the
      camera and the first verification window, just before the first tick. */
  function Opening(load: ReferenceLoad): (w: State)
    requires load.Decoded? && load.encodings != []
    ensures Inv(w) && w.window == 1 && w.destroyed == {} && w.pending == []
    ensures w.cap == Opened && w.releaseCount == 0 && w.notices == []
  {
    NewWindow(Initial.(encoding := Some(load.encodings[0]), reference := Some(load.size)))
  }

  lemma AdmittedOpens(entered: string, files: set<string>, load: ReferenceLoad, first: Frame)
    requires Admitted(entered, files, load)
    ensures StartVerification(Initial, entered, files, load, true, first) == (Tick(Opening(load), first).0, Polling)
  {
  }

  /** The trace of an admitted student whose first frame shows only other
      faces and whose second read fails: the first tick shows the retry text
      and schedules one re-poll; when it comes due the failed read ends
      polling with the camera still open, so no later frame, even one
      showing the student, is ever looked at, and the exam never starts,
      whatever timers come due or windows are closed. */
  lemma HiccupEndsPolling(entered: string, files: set<string>, load: ReferenceLoad, stranger: Frame, later: seq<Event>)
    requires Admitted(entered, files, load) && NoSubmission(later)
    requires stranger.Captured? && !AnyMatch(stranger.verdicts)
    ensures var s1 := StartVerification(Initial, entered, files, load, true, stranger).0;
      && s1.windowStatus == RetryText
      && s1.pending == [Timer(RetryDelay, VerifyFacesCall, 1)]
      && Fire(s1, 0, ReadFailed) == (s1.(pending := []), Ticked(ReadStopped))
      && s1.cap == Opened
      && ExamsStarted(Run(s1.(pending := []), later).notices) == 0
  {
    AdmittedOpens(entered, files, load, stranger);
    var s1 := Tick(Opening(load), stranger).0;
    assert s1.windowStatus == RetryText && s1.cap == Opened && s1.destroyed == {} && s1.releaseCount == 0
      && s1.pending == [Timer(RetryDelay, VerifyFacesCall, 1)];
    FailedReadDropsRepoll(s1, 0);
    assert Remove(s1.pending, 0) == [];
    HaltIsFinal(s1.(pending := []), later);
  }

  /** A re-poll that comes due through a live window and reads no frame only
      takes itself off the list. */
  lemma FailedReadDropsRepoll(s: State, i: nat)
    requires Inv(s) && i < |s.pending|
    requires s.pending[i].owner !in s.destroyed && s.pending[i].callback == VerifyFacesCall
    ensures Fire(s, i, ReadFailed) == (s.(pending := Remove(s.pending, i)), Ticked(ReadStopped))
  {
    var rest := s.(pending := Remove(s.pending, i));
    Unregister(s, i);
    assert Tick(rest, ReadFailed) == (rest, ReadStopped);
  }

  /** The trace of an admitted student some face of whose first frame
      matches: the camera is released at once, the exam start is the only
      thing scheduled, it runs exactly once when it comes due, and nothing
      afterwards starts it again short of a new submission. */
  lemma MatchStartsExamOnce(entered: string, files: set<string>, load: ReferenceLoad, first: Frame,
                            frame: Frame, later: seq<Event>)
    requires Admitted(entered, files, load) && NoSubmission(later)
    requires first.Captured? && AnyMatch(first.verdicts)
    ensures var s1 := StartVerification(Initial, entered, files, load, true, first).0;
      && s1.windowStatus == SuccessText && s1.cap == Closed
      && s1.pending == [Timer(ExamDelay, StartExamCall, 1)]
      && var (s2, f) := Fire(s1, 0, frame);
      && f == ExamBegun && s2.pending == [] && s2.notices == [ExamStarted] && 1 in s2.destroyed
      && ExamsStarted(Run(s2, later).notices) == 1
  {
    AdmittedOpens(entered, files, load, first);
    var s1 := Tick(Opening(load), first).0;
    assert s1.windowStatus == SuccessText && s1.cap == Closed && s1.destroyed == {} && s1.releaseCount == 1
      && s1.notices == [] && s1.pending == [Timer(ExamDelay, StartExamCall, 1)];
    var s2 := StartExam(s1.(pending := []));
    assert Fire(s1, 0, frame) == (s2, ExamBegun);
    ExamOnceAfter(s2, later);
  }

  /** From a state with one exam start, one release and nothing pending, no
      run without a new submission starts the exam again. */
  lemma ExamOnceAfter(s: State, later: seq<Event>)
    requires Inv(s) && s.pending == [] && s.notices == [ExamStarted] && s.releaseCount == 1
    requires NoSubmission(later)
    ensures ExamsStarted(Run(s, later).notices) == 1
  {
    HaltIsFinal(s, later);
    NoticesGrow(s, later);
    var r := Run(s, later);
    assert r.notices == [ExamStarted] + r.notices[1..];
    assert multiset(r.notices) == multiset([ExamStarted]) + multiset(r.notices[1..]);
  }

  /** Message boxes once shown stay in the record. */
  lemma {:induction false} NoticesGrow(s: State, events: seq<Event>)
    requires Inv(s)
    ensures |s.notices| <= |Run(s, events).notices|
    ensures Run(s, events).notices[..|s.notices|] == s.notices
    decreases |events|
  {
    if events != [] {
      StepGrows(s, events[0]);
      NoticesGrow(Step(s, events[0]), events[1..]);
    }
  }
}
