/**
 * The console entry point: a loop that reads a camera frame, asks the
 * matcher, and records the first match's person once per day. It has no
 * distance threshold, takes the name as the second piece of the identity
 * path split on the separator, and swallows every exception raised inside
 * its `try` block.
 */
module ConsoleAttendance {
  import opened Optional
  import opened Clock
  import opened Paths
  import opened AttendanceLog
  import opened Matching
  import AttendanceApp

  /** One pass of the loop: the camera read, the matcher's answer, the clock, the log write, and the key pressed. */
  datatype ConsoleFrame = ConsoleFrame(
    frameRead: bool,
    matched: MatchResult,
    today: Date,
    now: Time,
    appendFails: bool,
    quitPressed: bool
  )

  predicate ValidFrames(frames: seq<ConsoleFrame>) {
    forall k | 0 <= k < |frames| :: ValidDate(frames[k].today) && ValidTime(frames[k].now)
  }

  /** Why the loop stopped: `q` was pressed, a failed camera read crashed the resize, or the modelled frames ran out. */
  datatype Exit = QuitPressed | CameraFailure | FramesExhausted

  /**
   * The `try` block of one pass: the new ledger, and the name drawn on the
   * frame (None when nothing is drawn, including when an exception was swallowed).
   */
  function ConsoleStep(l: Ledger, matched: MatchResult, today: Date, now: Time, appendFails: bool): (r: (Ledger, Option<string>))
    requires ValidDate(today) && ValidTime(now)
    ensures l.marked <= r.0.marked && l.file.rows <= r.0.file.rows
    ensures r.0 != l ==> matched.Tables? && FirstCandidate(matched.tables).Some?
  {
    match matched
    case MatcherRaised => (l, None)
    case Tables(results) =>
      match FirstCandidate(results)
      case None => (l, None)
      case Some(best) =>
        match SecondComponent(best.identity)
        case None => (l, None)
        case Some(name) =>
          var (l', outcome) := Record(l, name, today, now, appendFails);
          if outcome == WriteFailed then (l', None) else (l', Some(name))
  }

  /**
   * There is no threshold: whatever its distance, a first candidate whose
   * path has a separator is marked under the path's second piece, once per
   * day. The key is marked before the append, so a failed append leaves it
   * marked with no row written, and nothing is drawn.
   */
  lemma AnyFirstMatchIsRecorded(l: Ledger, results: seq<seq<Candidate>>, today: Date, now: Time, appendFails: bool)
    requires ValidDate(today) && ValidTime(now)
    requires |results| > 0 && |results[0]| > 0 && Sep in results[0][0].identity
    ensures var name := SecondComponent(results[0][0].identity).value;
      var key := (name, today);
      var r := ConsoleStep(l, Tables(results), today, now, appendFails);
      && r.0.marked == l.marked + {key}
      && r.0.file.rows == (if key in l.marked || appendFails then l.file.rows else l.file.rows + [RecordRow(name, today, now)])
      && r.1 == (if key !in l.marked && appendFails then None else Some(name))
  {
  }

  /**
   * An identity without a separator makes `split(...)[1]` raise; the bare
   * `except` swallows it, so nothing is marked, written or drawn.
   */
  lemma SeparatorlessIdentityRecordsNothing(l: Ledger, results: seq<seq<Candidate>>, today: Date, now: Time, appendFails: bool)
    requires ValidDate(today) && ValidTime(now)
    requires |results| > 0 && |results[0]| > 0 && Sep !in results[0][0].identity
    ensures ConsoleStep(l, Tables(results), today, now, appendFails) == (l, None)
  {
  }

  /** Empty results, or a matcher exception, leave the frame unlabelled and record nothing. */
  lemma NoMatchRecordsNothing(l: Ledger, matched: MatchResult, today: Date, now: Time, appendFails: bool)
    requires ValidDate(today) && ValidTime(now)
    requires matched.MatcherRaised? || FirstCandidate(matched.tables).None?
    ensures ConsoleStep(l, matched, today, now, appendFails) == (l, None)
  {
  }

  lemma StepKeepsRowsKeyed(start: nat, l: Ledger, matched: MatchResult, today: Date, now: Time, appendFails: bool)
    requires ValidDate(today) && ValidTime(now) && RowsKeyed(start, l)
    ensures var r := ConsoleStep(l, matched, today, now, appendFails).0;
      RowsKeyed(start, r) && l.marked <= r.marked && l.file.rows <= r.file.rows
  {
    if matched.Tables? && FirstCandidate(matched.tables).Some? {
      var name := SecondComponent(matched.tables[0][0].identity);
      if name.Some? {
        RecordKeepsRowsKeyed(start, l, name.value, today, now, appendFails);
      }
    }
  }

  /**
   * For the reference images `dataset/<name>/<file>` the two entry points
   * agree: a match below the threshold changes the ledger the same way in both.
   */
  lemma EntryPointsAgreeOnDatasetImages(l: Ledger, input: AttendanceApp.TickInput, name: string, file: string)
    requires AttendanceApp.ValidInput(input) && input.frameRead
    requires input.matched.Tables? && FirstCandidate(input.matched.tables).Some?
    requires input.matched.tables[0][0].identity == "dataset" + [Sep] + name + [Sep] + file
    requires input.matched.tables[0][0].distance < AttendanceApp.DistanceThreshold
    requires IsComponent(name) && Sep !in file
    ensures AttendanceApp.AppTick(true, l, input).ledger
         == ConsoleStep(l, input.matched, input.today, input.now, input.appendFails).0
  {
    NameDerivationsAgree("dataset", name, file);
    SameNameSameLedger(l, input, name);
  }

  /** When the GUI recognises a name and the console derives the same one, both ledgers agree. */
  lemma SameNameSameLedger(l: Ledger, input: AttendanceApp.TickInput, name: string)
    requires AttendanceApp.ValidInput(input) && input.frameRead && input.matched.Tables?
    requires AttendanceApp.Decide(input.matched.tables) == AttendanceApp.Recognized(name)
    requires SecondComponent(input.matched.tables[0][0].identity) == Some(name)
    ensures AttendanceApp.AppTick(true, l, input).ledger
         == ConsoleStep(l, input.matched, input.today, input.now, input.appendFails).0
  {
    var rec := Record(l, name, input.today, input.now, input.appendFails);
    assert FirstCandidate(input.matched.tables).Some?;
    assert AttendanceApp.AppTick(true, l, input).ledger == rec.0;
    assert ConsoleStep(l, input.matched, input.today, input.now, input.appendFails).0 == rec.0;
  }

  /** The loop over a finite run of frames, from a given ledger. */
  function ConsoleRun(l: Ledger, frames: seq<ConsoleFrame>): (r: (Ledger, Exit))
    requires ValidFrames(frames)
    decreases |frames|
    ensures l.marked <= r.0.marked && l.file.rows <= r.0.file.rows
    ensures r.1 == FramesExhausted ==> forall k | 0 <= k < |frames| :: frames[k].frameRead && !frames[k].quitPressed
  {
    if frames == [] then (l, FramesExhausted)
    else
      var f := frames[0];
      if !f.frameRead then (l, CameraFailure)
      else
        var l' := ConsoleStep(l, f.matched, f.today, f.now, f.appendFails).0;
        if f.quitPressed then (l', QuitPressed) else ConsoleRun(l', frames[1..])
  }

  /** The `try` block of one pass, updating the set and the log in place. */
  method TryBlock(marked: set<Key>, file: LogFile, matched: MatchResult, today: Date, now: Time, appendFails: bool)
    returns (marked': set<Key>, file': LogFile)
    requires ValidDate(today) && ValidTime(now)
    ensures Ledger(marked', file') == ConsoleStep(Ledger(marked, file), matched, today, now, appendFails).0
  {
    marked', file' := marked, file;
    match matched {
      case MatcherRaised =>
      case Tables(results) =>
        var first := FirstCandidate(results);
        if first.Some? {
          var name := SecondComponent(first.value.identity);
          if name.Some? {
            if (name.value, today) !in marked' {
              marked' := marked' + {(name.value, today)};
              if !appendFails {
                file' := Appended(file', RecordRow(name.value, today, now));
              }
            }
          }
        }
    }
  }

  /**
   * The whole script: header initialisation, an empty set, then the loop.
   * Its result is ConsoleRun's; rows are only appended after the initial
   * ones, and those never share a name and a date.
   */
  method RunConsole(onDisk: LogFile, frames: seq<ConsoleFrame>) returns (marked: set<Key>, file: LogFile, exit: Exit)
    requires ValidFrames(frames)
    ensures (Ledger(marked, file), exit) == ConsoleRun(Ledger({}, WithHeader(onDisk)), frames)
    ensures file.present && WithHeader(onDisk).rows <= file.rows
    ensures forall i | |WithHeader(onDisk).rows| <= i < |file.rows| :: RowMarked(file.rows[i], marked)
    ensures forall i, j | |WithHeader(onDisk).rows| <= i < j < |file.rows| :: !SameKey(file.rows[i], file.rows[j])
  {
    file := WithHeader(onDisk);
    marked := {};
    ghost var start := |file.rows|;
    var i := 0;
    while i < |frames|
      invariant 0 <= i <= |frames|
      invariant ConsoleRun(Ledger(marked, file), frames[i..]) == ConsoleRun(Ledger({}, WithHeader(onDisk)), frames)
      invariant file.present && WithHeader(onDisk).rows <= file.rows
      invariant RowsKeyed(start, Ledger(marked, file))
    {
      var f := frames[i];
      if !f.frameRead {
        return marked, file, CameraFailure;
      }
      ghost var before := Ledger(marked, file);
      marked, file := TryBlock(marked, file, f.matched, f.today, f.now, f.appendFails);
      StepKeepsRowsKeyed(start, before, f.matched, f.today, f.now, f.appendFails);
      if f.quitPressed {
        return marked, file, QuitPressed;
      }
      i := i + 1;
    }
    exit := FramesExhausted;
  }
}
