/** The verification session as a state machine over values. Each step
    function gives the state after one of the event handlers of the
    verification window runs: submitting a student ID (`start_verification`,
    which goes on into `start_webcam_verification` and the first
    `verify_faces`), one polling tick (`verify_faces`), the delayed exam start
    (`start_exam`), a timer callback coming due, and the user closing the
    verification window. The camera, the reference-photo loader and the face
    comparisons are inputs of the steps. */
module Session {
  import opened Ids
  import opened Geometry
  import opened Matching

  datatype Option<T> = None | Some(value: T)

  /** A face encoding as produced by the face-recognition engine. */
  datatype Encoding = Encoding(features: seq<real>)

  /** `self.cap`: no capture object yet, one that delivers frames, or one that
      does not (released after a match, or never opened). */
  datatype Capture = NoCapture | Opened | Closed

  /** The two callbacks the session hands to the window timer. */
  datatype Callback = VerifyFacesCall | StartExamCall

  /** A pending `after(delay, callback)` registration, made through the
      verification window numbered `owner`. */
  datatype Timer = Timer(delay: nat, callback: Callback, owner: nat)

  /** The blocking message boxes the session shows. */
  datatype Notice = WebcamError | ExamStarted

  /** One `cap.read()`: either no frame, or a frame of the given size in which
      each detected face, in detection order, was compared with the stored
      encoding with the given verdict. */
  datatype Frame = ReadFailed | Captured(size: Size, verdicts: seq<bool>)

  /** Loading the registered photo: the loader raised with the given message,
      or it decoded an image of the given size whose detected faces have the
      given encodings. */
  datatype ReferenceLoad = Unreadable(reason: string) | Decoded(size: Size, encodings: seq<Encoding>)

  /** How a submitted ID ended. */
  datatype Outcome = EmptyId | NotRegistered | LoadError | CameraUnavailable | Polling

  /** How a polling tick ended: the read gave no frame (and nothing was
      rescheduled), the view could not be shown because the current window is
      gone (Tk raised), a face matched, or no face matched. */
  datatype TickResult = ReadStopped | DisplayGone | Matched | Retrying

  /** What a timer coming due did: nothing (its window was destroyed, which
      deletes the callback), a polling tick, or the exam start. */
  datatype FireResult = Dropped | Ticked(tick: TickResult) | ExamBegun

  const EmptyIdText: string := "Please enter Student ID!"
  const NotRegisteredText: string := "No registration found for this ID!"
  const LoadErrorPrefix: string := "Error loading image: "
  /** The message of the IndexError raised by `face_encodings(...)[0]` on a
      photo with no face. */
  const NoFaceText: string := "list index out of range"
  const SuccessText: string := "Verification Successful! Starting exam..."
  const RetryText: string := "Face Not Recognized - Try Again"
  const RetryDelay: nat := 10
  const ExamDelay: nat := 2000

  /** Everything the handlers read or change.
      - `mainStatus`, `windowStatus`: the texts of the status label of the main
        window and of the current verification window;
      - `statusOnWindow`: `self.status_label` has been rebound to the current
        verification window's label;
      - `window`: the number of the current verification window (windows are
        numbered from 1 in order of creation; 0 means none yet);
      - `destroyed`: the verification windows that have been destroyed;
      - `display`: the comparison view shown in the current window;
      - `openCount`, `releaseCount`: how often the camera was opened
        successfully, and how often it was released. */
  datatype State = State(
    cap: Capture,
    encoding: Option<Encoding>,
    reference: Option<Size>,
    mainStatus: string,
    windowStatus: string,
    statusOnWindow: bool,
    window: nat,
    destroyed: set<nat>,
    display: Option<Composite>,
    pending: seq<Timer>,
    notices: seq<Notice>,
    openCount: nat,
    releaseCount: nat)

  /** The state right after the main window is built. */
  const Initial: State :=
    State(NoCapture, None, None, "", "", false, 0, {}, None, [], [], 0, 0)

  /** The number of pending exam starts. */
  function PendingExams(p: seq<Timer>): nat {
    if p == [] then 0
    else PendingExams(p[..|p| - 1]) + (if p[|p| - 1].callback == StartExamCall then 1 else 0)
  }

  function ExamsStarted(n: seq<Notice>): nat {
    multiset(n)[ExamStarted]
  }

  function Remove(p: seq<Timer>, i: nat): seq<Timer>
    requires i < |p|
  {
    p[..i] + p[i + 1..]
  }

  /** A timer the session can have registered: a re-poll after 10 ms or an
      exam start after 2000 ms, through a window that exists. */
  predicate WellFormed(t: Timer, window: nat) {
    && 1 <= t.owner <= window
    && (t.callback == VerifyFacesCall ==> t.delay == RetryDelay)
    && (t.callback == StartExamCall ==> t.delay == ExamDelay)
  }

  /** What holds between handlers:
      - a verification window exists only after the camera was assigned and a
        reference encoding and photo were stored, and from then on the status
        label is the window's (so a tick never reads an unset field);
      - every pending timer is one of the two the session registers;
      - every exam start, done or pending, follows its own camera release,
        and every release its own successful camera opening. */
  predicate Inv(s: State) {
    && (s.window > 0 ==> s.cap != NoCapture && s.encoding.Some? && s.reference.Some?)
    && (s.statusOnWindow <==> s.window > 0)
    && (s.display.Some? ==> s.window > 0)
    && (forall d :: d in s.destroyed ==> 1 <= d <= s.window)
    && (forall k :: 0 <= k < |s.pending| ==> WellFormed(s.pending[k], s.window))
    && ExamsStarted(s.notices) + PendingExams(s.pending) <= s.releaseCount
    && s.releaseCount + (if s.cap == Opened then 1 else 0) <= s.openCount
  }

  lemma {:induction false} PendingExamsAppend(a: seq<Timer>, b: seq<Timer>)
    ensures PendingExams(a + b) == PendingExams(a) + PendingExams(b)
  {
    if b == [] {
      assert a + b == a;
    } else {
      assert (a + b)[..|a + b| - 1] == a + b[..|b| - 1];
      PendingExamsAppend(a, b[..|b| - 1]);
    }
  }

  /** Taking timer `i` off the list takes its exam start, if it is one, off
      the count. */
  lemma {:induction false} PendingExamsRemove(p: seq<Timer>, i: nat)
    requires i < |p|
    ensures PendingExams(p) == PendingExams(Remove(p, i)) + (if p[i].callback == StartExamCall then 1 else 0)
    decreases |p|
  {
    var n := |p| - 1;
    if i < n {
      assert Remove(p, i) == Remove(p[..n], i) + [p[n]];
      assert Remove(p, i)[..n - 1] == Remove(p[..n], i);
      PendingExamsRemove(p[..n], i);
    } else {
      assert Remove(p, i) == p[..n];
    }
  }

  /** `self.status_label.config(text=...)`: the main window's label until the
      first verification window was built, that window's label afterwards;
      when that window has been destroyed Tk raises and no text changes. */
  function SetStatus(s: State, text: string): (r: State)
    ensures r.(mainStatus := s.mainStatus, windowStatus := s.windowStatus) == s
    ensures !s.statusOnWindow ==> r.mainStatus == text && r.windowStatus == s.windowStatus
    ensures s.statusOnWindow ==> r.mainStatus == s.mainStatus
    ensures s.statusOnWindow && s.window !in s.destroyed ==> r.windowStatus == text
    ensures s.statusOnWindow && s.window in s.destroyed ==> r == s
  {
    if !s.statusOnWindow then s.(mainStatus := text)
    else if s.window in s.destroyed then s
    else s.(windowStatus := text)
  }

  /** One call of `verify_faces`. When the capture yields no frame the tick
      returns at once: no view, no text, and no new timer, so this polling
      chain ends. Otherwise the comparison view is built first; if it can be
      shown, the outcome is decided by the first-positive search: a match
      shows the success text, releases the camera and schedules the exam start
      once after 2000 ms and no further tick; no match shows the retry text and
      schedules exactly one further tick after 10 ms. */
  function Tick(s: State, frame: Frame): (r: (State, TickResult))
    requires Inv(s) && s.window > 0
    ensures Inv(r.0)
    ensures r.1 == ReadStopped <==> s.cap != Opened || frame.ReadFailed?
    ensures r.1 == DisplayGone <==> s.cap == Opened && frame.Captured? && s.window in s.destroyed
    ensures r.1 in {ReadStopped, DisplayGone} ==> r.0 == s
    ensures r.1 == Matched <==> s.cap == Opened && frame.Captured? && s.window !in s.destroyed && AnyMatch(frame.verdicts)
    ensures r.1 in {Matched, Retrying} ==>
      && r.0.display == Some(Compose(frame.size, s.reference.value))
      && r.0.(display := s.display, windowStatus := s.windowStatus, cap := s.cap, releaseCount := s.releaseCount, pending := s.pending) == s
    ensures r.1 == Matched ==>
      && r.0.windowStatus == SuccessText
      && r.0.cap == Closed && r.0.releaseCount == s.releaseCount + 1
      && r.0.pending == s.pending + [Timer(ExamDelay, StartExamCall, s.window)]
    ensures r.1 == Retrying ==>
      && r.0.windowStatus == RetryText
      && r.0.cap == s.cap && r.0.releaseCount == s.releaseCount
      && r.0.pending == s.pending + [Timer(RetryDelay, VerifyFacesCall, s.window)]
  {
    if s.cap != Opened || frame.ReadFailed? then (s, ReadStopped)
    else
      var view := Compose(frame.size, s.reference.value);
      if s.window in s.destroyed then (s, DisplayGone)
      else
        Conclude(s.(display := Some(view)), AnyMatch(frame.verdicts))
  }

  /** The end of a tick whose view is shown, once the search over the faces
      of the frame has decided: a match shows the success text, releases the
      camera and schedules the exam start after 2000 ms; otherwise the retry
      text is shown and one further tick is scheduled after 10 ms. */
  function Conclude(s: State, matched: bool): (r: (State, TickResult))
    requires Inv(s) && s.window > 0 && s.cap == Opened && s.window !in s.destroyed
    ensures Inv(r.0)
    ensures r.1 == Matched <==> matched
    ensures r.1 == Retrying <==> !matched
    ensures r.0.(windowStatus := s.windowStatus, cap := s.cap, releaseCount := s.releaseCount, pending := s.pending) == s
    ensures matched ==>
      && r.0.windowStatus == SuccessText
      && r.0.cap == Closed && r.0.releaseCount == s.releaseCount + 1
      && r.0.pending == s.pending + [Timer(ExamDelay, StartExamCall, s.window)]
    ensures !matched ==>
      && r.0.windowStatus == RetryText
      && r.0.cap == s.cap && r.0.releaseCount == s.releaseCount
      && r.0.pending == s.pending + [Timer(RetryDelay, VerifyFacesCall, s.window)]
  {
    if matched then
      var t := Timer(ExamDelay, StartExamCall, s.window);
      PendingExamsAppend(s.pending, [t]);
      assert PendingExams([t]) == 1;
      (SetStatus(s, SuccessText).(cap := Closed, releaseCount := s.releaseCount + 1, pending := s.pending + [t]), Matched)
    else
      var t := Timer(RetryDelay, VerifyFacesCall, s.window);
      PendingExamsAppend(s.pending, [t]);
      assert PendingExams([t]) == 0;
      (SetStatus(s, RetryText).(pending := s.pending + [t]), Retrying)
  }

  /** The camera has opened: a new, empty verification window is built and
      the status label rebound to it. */
  function NewWindow(s: State): (r: State)
    requires Inv(s) && s.encoding.Some? && s.reference.Some?
    ensures Inv(r) && r.window == s.window + 1 && r.window !in r.destroyed
    ensures r.cap == Opened && r.openCount == s.openCount + 1
    ensures r.statusOnWindow && r.windowStatus == "" && r.display == None
    ensures r.(cap := s.cap, openCount := s.openCount, window := s.window, display := s.display,
               windowStatus := s.windowStatus, statusOnWindow := s.statusOnWindow) == s
  {
    s.(cap := Opened, openCount := s.openCount + 1, window := s.window + 1,
       display := None, windowStatus := "", statusOnWindow := true)
  }

  /** `start_webcam_verification`: assign a new capture; if it does not open,
      show the webcam error box and stop (no window, no tick); otherwise build
      a new verification window, rebind the status label to it and run the
      first tick right away. */
  function OpenCamera(s: State, opens: bool, first: Frame): (r: (State, Outcome))
    requires Inv(s) && s.encoding.Some? && s.reference.Some?
    ensures Inv(r.0)
    ensures r.1 == CameraUnavailable <==> !opens
    ensures r.1 == Polling <==> opens
    ensures !opens ==> r.0 == s.(cap := Closed, notices := s.notices + [WebcamError])
    ensures opens ==> r.0 == Tick(NewWindow(s), first).0
    ensures opens ==>
      && r.0.window == s.window + 1 && r.0.window !in r.0.destroyed
      && r.0.statusOnWindow && r.0.openCount == s.openCount + 1
      && r.0.encoding == s.encoding && r.0.reference == s.reference
      && r.0.mainStatus == s.mainStatus && r.0.notices == s.notices
      && |s.pending| <= |r.0.pending| <= |s.pending| + 1
      && r.0.pending[..|s.pending|] == s.pending
  {
    if !opens then
      assert multiset(s.notices + [WebcamError])[ExamStarted] == multiset(s.notices)[ExamStarted];
      (s.(cap := Closed, notices := s.notices + [WebcamError]), CameraUnavailable)
    else
      var t := Tick(NewWindow(s), first);
      assert t.0.pending[..|s.pending|] == s.pending;
      (t.0, Polling)
  }

  /** `start_verification` for the entered text `entered`, with `files` the
      paths that exist on disk, `load` what loading the photo gives, `opens`
      whether the camera opens and `first` the first frame. An ID that is
      empty after stripping, one whose photo path does not exist, and a photo
      that cannot be loaded or holds no face each only set a status text:
      nothing else changes, in particular the camera is not touched. Otherwise
      the first face's encoding and the photo are stored and the camera is
      opened. */
  function StartVerification(s: State, entered: string, files: set<string>, load: ReferenceLoad,
                             opens: bool, first: Frame): (r: (State, Outcome))
    requires Inv(s)
    ensures Inv(r.0)
    ensures r.1 == EmptyId <==> AllSpace(entered)
    ensures r.1 == NotRegistered <==> !AllSpace(entered) && ReferencePath(Strip(entered)) !in files
    ensures r.1 == LoadError <==>
      && !AllSpace(entered) && ReferencePath(Strip(entered)) in files
      && (load.Unreadable? || load.encodings == [])
    ensures r.1 == EmptyId ==> r.0 == SetStatus(s, EmptyIdText)
    ensures r.1 == NotRegistered ==> r.0 == SetStatus(s, NotRegisteredText)
    ensures r.1 == LoadError && load.Unreadable? ==> r.0 == SetStatus(s, LoadErrorPrefix + load.reason)
    ensures r.1 == LoadError && load.Decoded? ==> r.0 == SetStatus(s, LoadErrorPrefix + NoFaceText)
    ensures r.1 == Polling <==>
      && !AllSpace(entered) && ReferencePath(Strip(entered)) in files
      && load.Decoded? && load.encodings != [] && opens
    ensures r.1 == CameraUnavailable <==>
      && !AllSpace(entered) && ReferencePath(Strip(entered)) in files
      && load.Decoded? && load.encodings != [] && !opens
    ensures r.1 in {CameraUnavailable, Polling} ==>
      && load.Decoded? && load.encodings != []
      && r.0.encoding == Some(load.encodings[0]) && r.0.reference == Some(load.size)
      && r.0 == OpenCamera(s.(encoding := Some(load.encodings[0]), reference := Some(load.size)), opens, first).0
    ensures r.1 == CameraUnavailable ==>
      && r.0.window == s.window && r.0.pending == s.pending
      && r.0.cap == Closed && r.0.notices == s.notices + [WebcamError]
    ensures r.1 == Polling ==> r.0.window == s.window + 1 && r.0.openCount == s.openCount + 1
    ensures r.1 != CameraUnavailable ==> r.0.notices == s.notices
    ensures r.0.openCount == s.openCount + (if r.1 == Polling then 1 else 0)
    ensures r.1 == Polling ==> opens
  {
    var id := Strip(entered);
    if id == [] then (SetStatus(s, EmptyIdText), EmptyId)
    else if ReferencePath(id) !in files then (SetStatus(s, NotRegisteredText), NotRegistered)
    else match load
      case Unreadable(reason) => (SetStatus(s, LoadErrorPrefix + reason), LoadError)
      case Decoded(size, encodings) =>
        if encodings == [] then (SetStatus(s, LoadErrorPrefix + NoFaceText), LoadError)
        else OpenCamera(s.(encoding := Some(encodings[0]), reference := Some(size)), opens, first)
  }

  /** `start_exam`: destroy the current verification window (a no-op if it is
      already gone) and show the exam-started box. */
  function StartExam(s: State): (r: State)
    ensures r.notices == s.notices + [ExamStarted]
    ensures r.destroyed == s.destroyed + {s.window}
    ensures r.(notices := s.notices, destroyed := s.destroyed) == s
  {
    s.(destroyed := s.destroyed + {s.window}, notices := s.notices + [ExamStarted])
  }

  /** Pending timer `i` comes due with `frame` as what the camera would give
      next. The timer is taken off the list. If the window it was registered
      through has been destroyed, its callback is gone and nothing else
      happens; otherwise its callback runs. */
  function Fire(s: State, i: nat, frame: Frame): (r: (State, FireResult))
    requires Inv(s) && i < |s.pending|
    ensures Inv(r.0)
    ensures r.1 == Dropped <==> s.pending[i].owner in s.destroyed
    ensures r.1 == Dropped ==> r.0 == s.(pending := Remove(s.pending, i))
    ensures r.1 == ExamBegun <==> s.pending[i].owner !in s.destroyed && s.pending[i].callback == StartExamCall
    ensures r.1 == ExamBegun ==> r.0 == StartExam(s.(pending := Remove(s.pending, i)))
    ensures r.1.Ticked? <==> s.pending[i].owner !in s.destroyed && s.pending[i].callback == VerifyFacesCall
    ensures Inv(s.(pending := Remove(s.pending, i)))
    ensures r.1.Ticked? ==> (r.0, r.1.tick) == Tick(s.(pending := Remove(s.pending, i)), frame)
    ensures r.1.Ticked? ==> r.0.notices == s.notices
    ensures r.0.openCount == s.openCount
  {
    var t := s.pending[i];
    var rest := s.(pending := Remove(s.pending, i));
    Unregister(s, i);
    if t.owner in s.destroyed then (rest, Dropped)
    else if t.callback == VerifyFacesCall then
      var r := Tick(rest, frame);
      (r.0, Ticked(r.1))
    else
      assert multiset(rest.notices + [ExamStarted])[ExamStarted] == multiset(rest.notices)[ExamStarted] + 1;
      (StartExam(rest), ExamBegun)
  }

  /** Taking a timer off the list keeps the invariant, and takes its exam
      start, if it is one, off the pending count. */
  lemma Unregister(s: State, i: nat)
    requires Inv(s) && i < |s.pending|
    ensures Inv(s.(pending := Remove(s.pending, i)))
    ensures PendingExams(s.pending) == PendingExams(Remove(s.pending, i)) + (if s.pending[i].callback == StartExamCall then 1 else 0)
  {
    PendingExamsRemove(s.pending, i);
    var rest := Remove(s.pending, i);
    assert forall k :: 0 <= k < |rest| ==> rest[k] in s.pending;
  }

  /** The user closes verification window `w`, the current one or one left
      on screen by an earlier submission. No close handler is installed, so
      the window is simply destroyed: the camera stays as it is and no timer
      is cancelled (the ones registered through that window will find their
      callback gone). */
  function Close(s: State, w: nat): (r: State)
    requires Inv(s) && 1 <= w <= s.window
    ensures Inv(r)
    ensures r.cap == s.cap && r.pending == s.pending
    ensures r.destroyed == s.destroyed + {w}
    ensures r.(destroyed := s.destroyed) == s
  {
    s.(destroyed := s.destroyed + {w})
  }

  /** Once a verification window has been built, `self.status_label` is that
      window's label: an empty ID no longer changes the main window's text,
      and once that window is destroyed it changes no text at all. */
  lemma EmptyIdAfterWindow(s: State, entered: string, files: set<string>, load: ReferenceLoad, opens: bool, first: Frame)
    requires Inv(s) && s.window > 0 && AllSpace(entered)
    ensures StartVerification(s, entered, files, load, opens, first).0.mainStatus == s.mainStatus
    ensures s.window in s.destroyed ==> StartVerification(s, entered, files, load, opens, first).0 == s
  {
  }
}
