# Exam-entry face verification: a Dafny model of its control core

`verification.py` is a small Tk application that admits a candidate to an exam
once a live camera frame shows the face registered under the entered student
ID. Around the user interface and the camera, face-recognition and imaging
libraries sits a sequential control core, and that core is what this project
models and proves things about:

- **ID submission** (`start_verification`): the entry is stripped the way
  Python's `str.strip()` strips (the exact `str.isspace` code points). An empty
  ID is refused. Otherwise the reference path is
  `os.path.join("registered_users", id + ".jpg")` with POSIX rules, so an ID
  starting with `/` escapes the folder. A missing file, a loader error or a
  photo without a face is refused with a status text. Only then are the first
  face's encoding and the photo stored and the camera opened
  (`start_webcam_verification`).
- **Polling tick** (`verify_faces`): a failed read returns at once. Otherwise
  the live-vs-registered view is composed and shown, and the faces of the
  frame are searched with the flag-and-`break` loop. A match shows the
  success text, releases the camera and schedules `start_exam` after 2000 ms.
  No match shows the retry text and schedules one more tick after 10 ms.
- **Composite geometry**: the registered photo is resized to the live size,
  the canvas is twice the live width, the registered half sits at
  x = live width, and the captions are 10 px in from each half's corner.

The files:

- `ids.dfy` (module `Ids`): stripping and the reference path.
- `geometry.dfy` (module `Geometry`): the comparison view as integer sizes,
  offsets and captions.
- `matching.dfy` (module `Matching`): the first-positive search as a method
  with a loop.
- `session.dfy` (module `Session`): the whole object state as a value. It has
  one step function per handler (and per timer callback coming due, and per
  window close) and the invariant they all keep.
- `runs.dfy` (module `Runs`): arbitrary sequences of those events, and what
  holds over all of them.
- `system.dfy` (module `Verification`): the class `VerificationSystem`. Its
  fields mirror the Python instance attributes. Each of its methods is proved
  to leave the object in the state the matching `Session` step function
  gives.

Some behaviour of the code matters for the proofs and is modelled as written:

- `self.status_label` is rebound to the verification window's label
  (verification.py:72). After the first camera start, every later status text,
  an empty-ID message included, goes to that window. Once that window is
  destroyed, Tk raises on the write and no text changes.
- Callbacks registered with `verification_window.after` are deleted when that
  window is destroyed. A timer whose window is gone does nothing when it
  comes due.
- `cap.read()` on a released capture fails. So does a read on a capture that
  never opened.

In two places the code does not do what the system is meant to do. The model
follows the code:

- A failed frame read is meant to be a transient hiccup that skips one tick
  while polling goes on. The code returns without scheduling another tick
  (verification.py:79-81), so one failed read ends polling for good, with the
  camera still open. `Runs.HiccupEndsPolling` shows this on a three-frame
  run: a different face, then a failed read, then the registered face.
- Closing the verification window is meant to release the camera and stop the
  ticks. The code installs no close handler. Closing a window only destroys
  it: the camera stays open, and the pending callbacks registered through
  that window are dropped when they come due. Any window still on screen can
  be closed, including one left over from an earlier submission.

## Model

| member | source | states |
|---|---|---|
| Ids.Strip | verification.py:39-40 | The stripped ID is empty exactly when the entry is all whitespace; otherwise it neither starts nor ends with whitespace; it is never longer than the entry |
| Ids.SkipLeading | verification.py:39 | The front scan of `strip` stops at the first non-whitespace position, having passed only whitespace |
| Ids.SkipTrailing | verification.py:39 | The back scan of `strip` stops after the last non-whitespace position and never passes the front scan's position |
| Ids.StripUnique | verification.py:39 | For every split of the entry into whitespace, a middle that neither starts nor ends with whitespace, and whitespace, `Strip` returns that middle |
| Ids.StripDecomposes | verification.py:39 | The entry is whitespace, then the stripped ID, then whitespace |
| Ids.StripIdempotent | verification.py:39 | Stripping a stripped ID changes nothing |
| Ids.ReferencePath | verification.py:44 | The path ends with `<id>.jpg`; it lies under `registered_users/` exactly when the ID does not start with `/`; and its length is that of `<id>.jpg` plus the folder and one slash for a relative ID, so it is exactly `registered_users/<id>.jpg` or, for an absolute ID, `<id>.jpg` |
| Ids.ReferencePathInjective | verification.py:44-45 | Two IDs with the same reference path are equal |
| Geometry.Compose | verification.py:84-107 | The registered half takes the live size; the canvas is twice the live width and the live height; the live half is at the origin and the registered half at x = live width, ending at the canvas edge; both halves lie inside the canvas; the captions read "Live Camera" and "Registered Image" and sit at (10,10) and (live width + 10, 10) |
| Geometry.ComposeIgnoresRegisteredSize | verification.py:88 | The view depends only on the live frame's size, never on the stored photo's size |
| Matching.FirstMatch | verification.py:118-123 | The result is a match exactly when some face's verdict is positive, so no faces means no match; on a match the search stopped at the first positive verdict, having compared no face after it; otherwise every face was compared |
| Session.SetStatus | verification.py:72-74 | Before any verification window the text goes to the main window's label; afterwards to the current window's label, and to nothing once that window is destroyed; no other field changes |
| Session.Tick | verification.py:78-133 | A failed read, or a read from a released capture, changes nothing and schedules nothing. A shown frame displays the composite of the live size and the stored photo. The outcome is a match exactly when some face matched. A match sets the success text, releases the camera and adds exactly one exam start after 2000 ms and no re-poll; otherwise the retry text is set and exactly one re-poll after 10 ms is added. Nothing else changes, and the invariant is kept |
| Session.Conclude | verification.py:125-133 | The match branch and the retry branch of a tick: which text, which timer, whether the camera is released, and that nothing else changes |
| Session.NewWindow | verification.py:61-74 | The camera is open and counted as opened once more; a new verification window, numbered after the previous ones and not destroyed, holds an empty label and no view, and the status label is rebound to it; the encoding, the photo, the timers, the message boxes and the other windows stay as they were; the invariant is kept |
| Session.OpenCamera | verification.py:60-76 | A camera that does not open shows the webcam error and creates no window, runs no tick and schedules nothing; when it opens, the new state is the first tick (`Session.Tick` with the first frame) on the new window, which keeps the stored encoding and photo and adds at most one timer |
| Session.StartVerification | verification.py:38-58 | Each of the five outcomes is stated as an if-and-only-if over the entry, the existing files, the loader's result and whether the camera opens. The three refusals only set their status text, so the camera is not touched. An admitted ID stores the first face's encoding and the photo, and the new state is then what `Session.OpenCamera` gives, the first tick included. Message boxes appear only when the camera fails; the camera is opened only on the polling outcome |
| Session.StartExam | verification.py:135-137 | The current window is destroyed and the exam-started box is shown; nothing else changes |
| Session.Fire | verification.py:128-133 | A timer that comes due is taken off the list, which keeps the invariant. If its window is gone nothing else happens; a re-poll gives exactly the state and result of `Session.Tick` on the remaining state, without showing a box; an exam start runs `start_exam`; the camera is never opened |
| Session.Close | verification.py:66-67 | Closing any existing verification window destroys that window and nothing else: the camera and the pending timers stay as they are |
| Session.EmptyIdAfterWindow | verification.py:72-74 | Once a window exists, an empty ID no longer changes the main window's text, and changes no text once that window is destroyed |
| Runs.Step | verification.py:38-137 | Every handler, timer callback and window close keeps the invariant |
| Runs.Run | verification.py:21 | Any sequence of events under the main loop keeps the invariant |
| Runs.StepGrows | verification.py:61-64 | A step only adds message boxes, and opens the camera only for a submission whose camera opens |
| Runs.OpenCountBound | verification.py:61-62 | Over any run, the camera is opened at most once per submission whose camera opens |
| Runs.ExamStartsBounded | verification.py:125-137 | Over any run from the start, the exam starts at most as often as the camera was released on a match, and at most as often as a camera session began |
| Runs.FailedReadDropsRepoll | verification.py:79-81 | A re-poll that comes due through a live window and reads no frame only takes itself off the list, and schedules nothing |
| Runs.HaltIsFinal | verification.py:79-81 | Once no re-poll is pending, no run without a new submission shows a frame, changes a status text, changes the camera or schedules a re-poll |
| Runs.AdmittedOpens | verification.py:38-58 | From the start, an admitted submission whose camera opens is the first tick on a fresh first window |
| Runs.HiccupEndsPolling | verification.py:78-133 | A frame with only other faces, then a failed read, ends polling with the camera open, and the exam never starts in any later run without a new submission |
| Runs.MatchStartsExamOnce | verification.py:125-137 | A matching first frame releases the camera and schedules only the exam start; when it comes due the exam starts once and the window is destroyed; no later run without a new submission starts it again |
| Runs.ExamOnceAfter | verification.py:135-137 | After one exam start with nothing pending, no run without a new submission starts the exam again |
| Runs.NoticesGrow | verification.py:63 | Message boxes once shown stay in the record of any run |
| Verification.VerificationSystem.constructor | verification.py:11-14 | The object starts with no capture, nothing loaded and an empty status label on the main window |
| Verification.VerificationSystem.ShowStatus | verification.py:72-74 | The write to `self.status_label` changes the object as `Session.SetStatus` says |
| Verification.VerificationSystem.StartVerification | verification.py:38-58 | The handler leaves the object, and returns the outcome, as `Session.StartVerification` says |
| Verification.VerificationSystem.StartWebcamVerification | verification.py:60-76 | The handler leaves the object as `Session.OpenCamera` says |
| Verification.VerificationSystem.OpenWindow | verification.py:66-74 | Building the window changes the object as `Session.NewWindow` says |
| Verification.VerificationSystem.VerifyFaces | verification.py:78-133 | The tick, with its loop-based search, leaves the object as `Session.Tick` says |
| Verification.VerificationSystem.Conclude | verification.py:125-133 | The end of the tick changes the object as `Session.Conclude` says |
| Verification.VerificationSystem.StartExam | verification.py:135-137 | The handler changes the object as `Session.StartExam` says |
| Verification.VerificationSystem.FireTimer | verification.py:128-133 | A timer coming due changes the object as `Session.Fire` says |
| Verification.VerificationSystem.CloseWindow | verification.py:66-67 | Closing window `w` changes the object as `Session.Close` says |

## Left out

- Tk widgets, layout, window titles, fonts, label colours and `mainloop` are not modelled. Only the status texts, the window identities and the destruction of windows are kept.
- `messagebox` dialogs are only recorded as a notice (webcam error, exam started). Their titles and messages are not modelled, and neither is the fact that they block.
- cv2 camera access is an input: whether `cv2.VideoCapture(0)` opens, and what each `read()` gives. The BGR to RGB conversion is left out.
- face_recognition is an input. The reference photo's face encodings come from the loader, and each detected live face comes with its `compare_faces` verdict. Detection, embeddings and the distance threshold are floating-point library code.
- The loader's error message is an input string. The error text for a photo with no face is the message of Python's `IndexError` for `[0]` on an empty list.
- PIL pixels, resampling, the font and its fallback, text rendering and `ImageTk` conversion are left out. Only sizes, offsets and caption texts are kept.
- Timer delays are data on each pending callback. Real time and the order in which Tk dispatches due callbacks are not modelled: any pending timer may be the next to come due.
- `Image.fromarray` failing after the encoding was stored is not modelled. The loader either fails before anything is stored, or succeeds.
- Paths use POSIX rules. Windows drive letters and backslashes are not modelled.
- The old verification window is left on screen when the user submits again. It is kept only as a window number that still exists and can be closed; its widgets are not modelled.
