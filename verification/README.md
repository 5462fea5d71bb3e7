# Face recognition attendance: the decision and dedup core in Dafny

This project models the attendance core of a small face recognition attendance
system. That core has three parts:

- `app.py`, the PyQt window. A 30 ms timer calls `update_frame`. While
  detection is on, each call reads a camera frame and asks the face matcher for
  the closest reference images. It keeps the first candidate only when its
  distance is strictly below 0.40. It names the person after the directory
  that holds the matched image (`basename(dirname(identity))`). It appends a
  `Name,Date,Time` row to the CSV log at most once per person and day while
  the program runs, guarded by the in-memory set `marked_today`. Start and Stop buttons toggle the detection
  flag and their own enabled state.
- `deepface_attendance.py`, the console loop. It does the same work with no
  threshold. It names the person by the second piece of `identity.split('/')`.
  Everything inside the loop body's `try` sits under a bare `except: pass`.
- `train_model.py`, the training script. It walks the `dataset` directory,
  gives each person directory the next integer label, and pairs every entry
  listed inside it (files and sub-directories alike) with that label.

State is modelled in the form the source uses:
- The GUI's module globals (the set and the log file) are the class
  `AttendanceApp.AttendanceStore`.
- The window's flags and status line are the class `AttendanceApp.FaceAttendanceApp`.
- The console loop is the method `ConsoleAttendance.RunConsole`, which uses a
  `while` loop.
- The training script is the method `Training.BuildTrainingSet`, with its
  nested loops.

The methods that process frames and listing entries are proved against pure
functions:
- `AttendanceStore.Mark` against `AttendanceLog.Record`.
- `FaceAttendanceApp.UpdateFrame` and `MarkAttendance` against `AttendanceApp.AppTick` and `Record`.
- `TryBlock` and `RunConsole` against `ConsoleAttendance.ConsoleStep` and `ConsoleRun`.
- `BuildTrainingSet` against `Training.Walk`.
- Its inner loop, `AddPersonFaces`, against `PathsOf` and `Repeat`.

The Start/Stop handlers and the constructors state their new field values
directly. The properties the system promises are proved about those functions:
- Among the rows appended since launch, at most one per person per day, over
  any sequence of clicks and ticks.
- Every row appended since launch has its key marked.
- The strict threshold.
- Which inputs leave the log untouched.
- The two entry points derive the same name for `dataset/<name>/<file>`.
- The label map holds exactly labels `0..n-1`, and every face lies in the
  directory its label names.

Inputs from the outside world are parameters:
- The camera read (`frameRead`).
- The matcher's answer (`MatchResult`: result tables of candidates, or an exception).
- The clock (`today: Date`, `now: Time`).
- Whether the log append fails (`appendFails`).
- Whether `q` was pressed (`quitPressed`).
- The directory listing (`seq<Entry>`).

Paths use the POSIX separator `/`. The date field is `YYYY-MM-DD`, as `str(date)`
gives it, and the time field is `HH:MM:SS`. Both formats come with parsers and
round-trip lemmas, so two different dates never produce the same date field.

The model follows the code, which:
- Uses only the first candidate of the first result table, as the matcher
  returns it, with no search for the minimum distance.
- Draws "Detection Error" in the GUI on a matcher exception. The console
  swallows it like any other exception, and it is not a separate outcome.
- Adds the key to `marked_today` before the log is opened. A failed append
  therefore leaves the key marked, and that day's row is never retried
  (`AttendanceLog.FailedWriteIsNotRetried`).
- Starts `marked_today` empty at every launch and does not rebuild it from the
  existing log. A restart on the same day therefore appends a second row for a
  person who already has one (`AttendanceLog.RestartSameDayWritesAgain`).

## Model

| member | source | states |
|---|---|---|
| Clock.FormatTime | app.py:184 | the time field is eight characters, `HH:MM:SS`, with colons at positions 2 and 5 |
| Clock.FormatDate | app.py:183 | the date field is ten characters, `YYYY-MM-DD`, with dashes at positions 4 and 7 |
| Clock.TimeRoundTrip | app.py:184 | parsing the written time field gives back the time of day for every valid time |
| Clock.DateRoundTrip | app.py:183 | parsing the written date field gives back the date for every valid date |
| Clock.FormatDateInjective | app.py:181-185 | two valid dates with the same date field are the same date |
| Paths.Basename | app.py:173 | `os.path.basename`: the result has no separator, is a suffix of the path, and is preceded by a separator or the path's start |
| Paths.Dirname | app.py:173 | `os.path.dirname`: the result is a prefix of the path, and empty when the path has no separator; when everything up to the last separator is separators it is exactly that run of separators, and otherwise it is the path up to the last separator with the trailing separators stripped |
| Paths.BaseDir | app.py:173 | the GUI's derived name never contains a separator |
| Paths.BaseDirOfImagePath | app.py:172-173 | for `<prefix>/<name>/<file>` the GUI derives `<name>`, whatever the prefix |
| Paths.BaseDirWithoutDirectory | app.py:173 | an identity without a separator gives the empty name |
| Paths.Split | deepface_attendance.py:32 | `str.split('/')` gives at least one piece, and no piece contains the separator |
| Paths.SplitJoin | deepface_attendance.py:32 | joining the pieces with the separator gives back the string |
| Paths.SplitHasSecond | deepface_attendance.py:32 | there is a second piece exactly when the string contains a separator |
| Paths.SplitAfterComponent | deepface_attendance.py:32 | splitting `a/b` with separator-free `a` gives `a` followed by the pieces of `b` |
| Paths.SplitComponent | deepface_attendance.py:32 | a separator-free string splits into itself alone |
| Paths.SecondComponent | deepface_attendance.py:32 | `split('/')[1]` exists exactly when the identity has a separator, and it has no separator |
| Paths.SecondComponentOfImagePath | deepface_attendance.py:31-32 | for `<root>/<name>/<file>` with a one-piece root, the console derives `<name>` |
| Paths.NameDerivationsAgree | deepface_attendance.py:31-32 | on `<root>/<name>/<file>` the console's name and the GUI's name are both `<name>` |
| Matching.FirstCandidate | app.py:167-168 | there is no candidate exactly when the list or its first table is empty, and otherwise it is the first row of the first table |
| AttendanceLog.WithHeader | app.py:23-27 | after start-up the log exists, and an existing log is untouched, while a missing one holds only the header row |
| AttendanceLog.RecordRow | app.py:181-185 | a row has three fields, and the first is the name |
| AttendanceLog.RecordRowReadsBack | app.py:181-185 | the row's date and time fields parse back to the date and time recorded |
| AttendanceLog.Record | app.py:176-186 | the key is always marked afterwards; the outcome is already-marked iff the key was marked, and written iff it was new and the append succeeded; the file gains exactly that row iff it was written |
| AttendanceLog.RowsKeyedAtStart | app.py:24-29 | for the empty set and the initialised log, the attendance invariant holds from the log's end |
| AttendanceLog.RecordKeepsRowsKeyed | app.py:176-185 | recording keeps every written row's key marked and no two written rows sharing name and date; the set only grows; rows are only appended, at most one |
| AttendanceLog.FailedWriteIsNotRetried | app.py:177-185 | after a failed append the key is marked and the file is unchanged, and a later sighting that day records nothing |
| AttendanceLog.RestartSameDayWritesAgain | app.py:24-29 | the set starts empty and is not rebuilt from an existing log, so after a same-day restart a person who already has a row is written again, and the two rows share a name and a date |
| AttendanceLog.NewDayRecordsAgain | app.py:176-185 | first sighting written, a second the same day not, and the same person on a different day written again |
| AttendanceApp.Decide | app.py:167-174 | scanning iff there is no candidate; recognised iff the first candidate's distance is strictly below the threshold; the name is the identity's directory name |
| AttendanceApp.ThresholdIsStrict | app.py:171 | a distance of exactly 0.40 is an unknown face, and recognition happens iff the distance is below 0.40 |
| AttendanceApp.OnlyFirstCandidateMatters | app.py:167-169 | results with the same first candidate get the same decision |
| AttendanceApp.RecognisedNameIsImageDirectory | app.py:171-174 | a close enough match of `<prefix>/<name>/<file>` is recognised as `<name>` |
| AttendanceApp.AppTick | app.py:148-191 | a timer tick never removes a key; unless detection is on, a frame was read, the matcher answered and the first candidate is recognised, the ledger and status are unchanged; when it is recognised, the ledger is `Record`'s, "Detection Error" is drawn iff the append failed (otherwise "Recognized: name"), and the status is set iff a row was written; `UnknownOrErrorRecordsNothing` gives the text drawn for an unknown face and a matcher exception |
| AttendanceApp.AppStep | app.py:134-191 | Start sets the detection flag and Stop clears it, both leaving the ledger alone; a timer tick keeps the flag and never removes a key (the tick lemmas above give the rest) |
| AttendanceApp.AppRun | app.py:134-191 | a run of clicks and ticks never removes a key, and a run without ticks leaves the ledger unchanged; `RunKeepsRowsKeyed` gives the invariant |
| AttendanceApp.UnknownOrErrorRecordsNothing | app.py:187-191 | a matcher exception draws "Detection Error" and a first candidate at or above 0.40 draws "Unknown Face"; neither changes the ledger or the status |
| AttendanceApp.IdleTickChangesNothing | app.py:148-154 | with detection off or no frame read, a tick changes nothing and draws nothing |
| AttendanceApp.NoCandidateRecordsNothing | app.py:157-167 | with no candidate, "Scanning..." is drawn and nothing is recorded |
| AttendanceApp.TickChangesOnlyForNewRecognition | app.py:167-191 | the ledger changes only for a below-threshold first candidate whose key was new; then the key is marked, the file gains its one row unless the append fails, and a failed append draws "Detection Error" |
| AttendanceApp.NewRecognitionIsRecorded | app.py:171-186 | conversely: an active tick with a frame, a first candidate below the threshold and a new key marks the key, appends its row unless the append fails, draws "Recognized: name" (or "Detection Error" on a failed append), and sets the marked status only when the row is written |
| AttendanceApp.RecognitionOfNewKey | app.py:176-191 | proof step of `NewRecognitionIsRecorded`: its statement with the recognised name given as a premise |
| AttendanceApp.TickKeepsRowsKeyed | app.py:176-185 | a tick keeps the attendance invariant and only appends rows |
| AttendanceApp.RunKeepsRowsKeyed | app.py:134-191 | any sequence of Start, Stop and timer ticks keeps the invariant, only grows the set, and only appends rows |
| AttendanceApp.AtMostOneRowPerPersonPerDay | app.py:24-29 | among the rows appended since launch, every one has its key marked and no two share a name and a date (rows already in the log are not covered) |
| AttendanceApp.AttendanceStore.constructor | app.py:24-29 | the set starts empty and the log gets its header if missing |
| AttendanceApp.AttendanceStore.Mark | app.py:177-185 | the dedup check, mark and append change the store exactly as `Record` does, and return its outcome |
| AttendanceApp.FaceAttendanceApp.constructor | app.py:50-108 | detection is off, Start is enabled, Stop is disabled, and the status invites a click on Start |
| AttendanceApp.FaceAttendanceApp.StartDetection | app.py:134-138 | detection on, Start disabled, Stop enabled, running status |
| AttendanceApp.FaceAttendanceApp.StopDetection | app.py:141-145 | detection off, Start enabled, Stop disabled, stopped status; the ledger is kept |
| AttendanceApp.FaceAttendanceApp.UpdateFrame | app.py:148-191 | the store, the drawn text and the status line end up as `AppTick` says; the flags are untouched |
| AttendanceApp.FaceAttendanceApp.MarkAttendance | app.py:172-186 | the store changes as `Record` says; the text drawn is "Recognized: name" or "Detection Error" when the append fails; the status changes only when a row is written |
| ConsoleAttendance.AnyFirstMatchIsRecorded | deepface_attendance.py:30-58 | with no threshold, any first candidate whose identity has a separator gets its second piece's key marked; the row is appended iff the key was new and the append succeeds; the name is drawn unless a failed append raised |
| ConsoleAttendance.SeparatorlessIdentityRecordsNothing | deepface_attendance.py:30-58 | an identity without a separator raises inside the `try`; nothing is marked, written or drawn |
| ConsoleAttendance.NoMatchRecordsNothing | deepface_attendance.py:22-30 | a matcher exception or an empty result leaves the ledger unchanged and draws nothing |
| ConsoleAttendance.StepKeepsRowsKeyed | deepface_attendance.py:36-44 | one pass keeps the attendance invariant, only grows the set, and only appends rows |
| ConsoleAttendance.SameNameSameLedger | deepface_attendance.py:36-44 | when both entry points derive the same name, a tick and a console pass change the ledger alike |
| ConsoleAttendance.EntryPointsAgreeOnDatasetImages | deepface_attendance.py:31-32 | for a below-threshold match of `dataset/<name>/<file>`, the GUI and the console change the ledger identically |
| ConsoleAttendance.ConsoleStep | deepface_attendance.py:22-58 | one pass of the `try` block never removes a key and only appends rows, and it changes the ledger only when there is a first candidate; `AnyFirstMatchIsRecorded`, `SeparatorlessIdentityRecordsNothing`, `NoMatchRecordsNothing` and `StepKeepsRowsKeyed` state the rest |
| ConsoleAttendance.ConsoleRun | deepface_attendance.py:18-63 | the loop never removes a key and only appends rows, and it runs out of frames only when every frame was read and `q` was never pressed |
| ConsoleAttendance.TryBlock | deepface_attendance.py:22-58 | the loop body's `try` block updates the set and the log exactly as `ConsoleStep` says |
| ConsoleAttendance.RunConsole | deepface_attendance.py:9-63 | the script's result is `ConsoleRun` from the initialised log; rows are only appended after the initial ones, each with its key marked and no two sharing name and date |
| Training.PersonDirs | train_model.py:11-14 | only directories are kept, every directory entry is kept, and there are no more of them than listing entries |
| Training.PersonDirIsListed | train_model.py:11-14 | every person directory is an entry of the listing |
| Training.LabelBounds | train_model.py:16-25 | every label is between 0 and the number of person directories |
| Training.LabelMap | train_model.py:16 | the label map's keys are exactly `0..n-1`, and key k names the k-th person directory |
| Training.AddDirectory | train_model.py:18-25 | a new directory appends its faces, each labelled with the old count |
| Training.AddDirectoryLabel | train_model.py:16 | a new directory adds exactly the old count as a key, naming it |
| Training.Walk | train_model.py:11-25 | the walk, entry by entry: faces and labels pair up, the counter is the number of person directories, and the label map's keys are exactly `0..counter-1`; `WalkIsReference` gives its value |
| Training.WalkIsReference | train_model.py:11-25 | the walk builds exactly the faces, labels, label map and count of the person directories |
| Training.TrainingSetProperties | train_model.py:11-25 | faces and labels pair up; label-map keys are exactly `0..current_label-1`; every label is a key; every face is an image path of its label's directory |
| Training.AddPersonFaces | train_model.py:18-23 | the inner loop appends the directory's image paths and as many copies of its label |
| Training.BuildTrainingSet | train_model.py:11-25 | the nested loops build the walk's training set, with the pairing, key and label bounds above |
| Training.FaceInLabelledDirectory | train_model.py:18-23 | face n is one of the image paths of the directory that label n stands for |
| Training.FaceNameInDirectory | train_model.py:12-19 | a face read from a listed directory names that directory under either name derivation |
| Training.FaceNamesMatchLabelMap | train_model.py:16-19 | for single-component names, both entry points' name derivation on any face gives the name the label map gives its label |
| Training.FilesTakeNoLabel | train_model.py:13-14 | a plain file in the listing takes no label and adds nothing |
| Training.EmptyDirectoryStillLabelled | train_model.py:16-25 | a directory without images still gets the next label and moves the counter on, adding no faces or labels |
| Training.PathsOfAt | train_model.py:18-19 | the j-th face of a directory is the path of its j-th file |
| Training.RepeatAt | train_model.py:23 | every label appended by the inner loop is the directory's label |

## Left out

- Drawing and display are not modelled: the PyQt widgets, layout, styles, pixmaps, `cv2.putText` and `cv2.imshow`. Only the text that would be drawn and the status line are kept.
- The camera, resizing, colour conversion, `closeEvent` and the release of the capture are foreign code. A camera read is a boolean input.
- The face matcher (DeepFace `find` with Facenet) is foreign. Its answer is an input, and candidate order is taken as the matcher gives it.
- Distances are real numbers. Floating-point rounding and NaN distances are not modelled.
- The clock is not modelled. The date and the time of day are inputs. They come from two separate clock readings, so they can straddle midnight, just as in the source.
- CSV quoting, newline handling and the file system are not modelled. The log is a presence flag and a sequence of rows. An append that raises is atomic: either the whole row is written or none of it.
- Separators: only POSIX `/` is modelled. Windows paths (`\\` as `os.sep`, drive letters) are not.
- The QTimer's scheduling and any re-entrancy are not modelled. A tick is one whole call of `update_frame`, and runs are finite sequences of events.
- ConsoleAttendance.RunConsole: the script's infinite loop is modelled over a finite sequence of frames. Running out of frames is an extra exit that the script does not have.
- The console's `print` and the training script's final prints are not modelled.
- Training.BuildTrainingSet: `cv2.imread` is foreign, so a face is the path it is read from. An unreadable file still yields an entry, just as `imread` returns None and the source appends it.
- The LBPH recogniser's training and its model file are not modelled.
- The face collection script is not part of this model.
