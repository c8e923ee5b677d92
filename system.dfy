/** The `VerificationSystem` object: the fields its handlers update in place,
    and one method per handler, each proved to leave the object in the state
    the matching step function of `Session` gives. Those functions keep
    `Session.Inv`, so every handler that starts from a `Valid()` object leaves
    a `Valid()` one. */
module Verification {
  import opened Ids
  import opened Geometry
  import opened Matching
  import opened Session

  class VerificationSystem {
    var cap: Capture
    var encoding: Option<Encoding>
    var reference: Option<Size>
    var mainStatus: string
    var windowStatus: string
    var statusOnWindow: bool
    var window: nat
    var destroyed: set<nat>
    var display: Option<Composite>
    var pending: seq<Timer>
    var notices: seq<Notice>
    ghost var openCount: nat
    ghost var releaseCount: nat

    ghost function Snapshot(): State
      reads this
    {
      State(cap, encoding, reference, mainStatus, windowStatus, statusOnWindow, window,
            destroyed, display, pending, notices, openCount, releaseCount)
    }

    ghost predicate Valid()
      reads this
    {
      Inv(Snapshot())
    }

    /** `__init__` up to the main loop: no capture, nothing loaded, an empty
        status label on the main window. */
    constructor ()
      ensures Valid() && Snapshot() == Initial
    {
      cap, encoding, reference := NoCapture, None, None;
      mainStatus, windowStatus, statusOnWindow := "", "", false;
      window, destroyed, display := 0, {}, None;
      pending, notices := [], [];
      openCount, releaseCount := 0, 0;
    }

    method ShowStatus(text: string)
      modifies this
      ensures Snapshot() == SetStatus(old(Snapshot()), text)
    {
      if !statusOnWindow {
        mainStatus := text;
      } else if window !in destroyed {
        windowStatus := text;
      }
    }

    /** `start_verification` (see `Session.StartVerification`). */
    method StartVerification(entered: string, files: set<string>, load: ReferenceLoad,
                             opens: bool, first: Frame) returns (outcome: Outcome)
      requires Valid()
      modifies this
      ensures (Snapshot(), outcome) == Session.StartVerification(old(Snapshot()), entered, files, load, opens, first)
    {
      ghost var pre := Snapshot();
      var id := Strip(entered);
      if id == [] {
        ShowStatus(EmptyIdText);
        return EmptyId;
      }
      var path := ReferencePath(id);
      if path !in files {
        ShowStatus(NotRegisteredText);
        return NotRegistered;
      }
      match load
      case Unreadable(reason) =>
        ShowStatus(LoadErrorPrefix + reason);
        return LoadError;
      case Decoded(size, encodings) =>
        if encodings == [] {
          ShowStatus(LoadErrorPrefix + NoFaceText);
          return LoadError;
        }
        encoding := Some(encodings[0]);
        reference := Some(size);
        assert Snapshot() == pre.(encoding := Some(encodings[0]), reference := Some(size));
        outcome := StartWebcamVerification(opens, first);
    }

    /** `start_webcam_verification` (see `Session.OpenCamera`). */
    method StartWebcamVerification(opens: bool, first: Frame) returns (outcome: Outcome)
      requires Valid() && encoding.Some? && reference.Some?
      modifies this
      ensures (Snapshot(), outcome) == OpenCamera(old(Snapshot()), opens, first)
    {
      if !opens {
        cap := Closed;
        notices := notices + [WebcamError];
        return CameraUnavailable;
      }
      OpenWindow();
      var _ := VerifyFaces(first);
      outcome := Polling;
    }

    /** The camera has opened: build the verification window (see
        `Session.NewWindow`). */
    method OpenWindow()
      requires Valid() && encoding.Some? && reference.Some?
      modifies this
      ensures Snapshot() == NewWindow(old(Snapshot()))
    {
      ghost var pre := Snapshot();
      cap, openCount, window := Opened, openCount + 1, window + 1;
      display, windowStatus, statusOnWindow := None, "", true;
      assert Snapshot() == pre.(cap := Opened, openCount := pre.openCount + 1, window := pre.window + 1,
                                display := None, windowStatus := "", statusOnWindow := true);
    }

    /** `verify_faces` (see `Session.Tick`); the match decision is the
        flag-and-break search of `FirstMatch`. */
    method VerifyFaces(frame: Frame) returns (result: TickResult)
      requires Valid() && window > 0
      modifies this
      ensures (Snapshot(), result) == Tick(old(Snapshot()), frame)
    {
      ghost var pre := Snapshot();
      if cap != Opened || frame.ReadFailed? {
        return ReadStopped;
      }
      var view := Compose(frame.size, reference.value);
      if window in destroyed {
        return DisplayGone;
      }
      display := Some(view);
      var matched, _ := FirstMatch(frame.verdicts);
      result := Conclude(matched);
    }

    /** The end of `verify_faces` (see `Session.Conclude`). */
    method Conclude(matched: bool) returns (result: TickResult)
      requires Valid() && window > 0 && cap == Opened && window !in destroyed
      modifies this
      ensures (Snapshot(), result) == Session.Conclude(old(Snapshot()), matched)
    {
      if matched {
        ShowStatus(SuccessText);
        cap := Closed;
        releaseCount := releaseCount + 1;
        pending := pending + [Timer(ExamDelay, StartExamCall, window)];
        return Matched;
      }
      ShowStatus(RetryText);
      pending := pending + [Timer(RetryDelay, VerifyFacesCall, window)];
      result := Retrying;
    }

    /** `start_exam` (see `Session.StartExam`). */
    method StartExam()
      modifies this
      ensures Snapshot() == Session.StartExam(old(Snapshot()))
    {
      destroyed := destroyed + {window};
      notices := notices + [ExamStarted];
    }

    /** Pending timer `i` comes due (see `Session.Fire`). */
    method FireTimer(i: nat, frame: Frame) returns (result: FireResult)
      requires Valid() && i < |pending|
      modifies this
      ensures (Snapshot(), result) == Fire(old(Snapshot()), i, frame)
    {
      ghost var pre := Snapshot();
      var t := pending[i];
      pending := Remove(pending, i);
      assert Fire(pre, i, frame).0 == Snapshot() || Fire(pre, i, frame).1 != Dropped;
      if t.owner in destroyed {
        return Dropped;
      }
      if t.callback == VerifyFacesCall {
        Unregister(pre, i);
        var tick := VerifyFaces(frame);
        result := Ticked(tick);
      } else {
        StartExam();
        result := ExamBegun;
      }
    }

    /** The user closes verification window `w` (see `Session.Close`). */
    method CloseWindow(w: nat)
      requires Valid() && 1 <= w <= window
      modifies this
      ensures Snapshot() == Close(old(Snapshot()), w)
    {
      destroyed := destroyed + {w};
    }
  }
}
