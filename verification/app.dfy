/**
 * The GUI entry point: a window whose Start and Stop buttons switch
 * detection on and off, and a timer that calls `update_frame` on every
 * tick. Camera, matcher and clock are inputs to a tick; the module-level
 * `marked_today` set and the CSV file are the `AttendanceStore` object.
 */
module AttendanceApp {
  import opened Optional
  import opened Clock
  import opened Paths
  import opened AttendanceLog
  import opened Matching

  /** A match counts only when its distance is strictly below this. */
  const DistanceThreshold: real := 0.40

  const ScanningLabel: string := "Scanning..."
  const UnknownLabel: string := "Unknown Face"
  const ErrorLabel: string := "Detection Error"
  const InitialStatus: string := "Status: Click Start to begin detection"
  const RunningStatus: string := "Status: Face detection running..."
  const StoppedStatus: string := "Status: Detection stopped"

  function RecognizedLabel(name: string): string {
    "Recognized: " + name
  }

  function MarkedStatus(name: string): string {
    "Attendance marked for " + name
  }

  /** The recognition decision for one frame's matcher output. */
  datatype Decision = Scanning | UnknownFace | Recognized(name: string)

  function Decide(results: seq<seq<Candidate>>): (d: Decision)
    ensures d == Scanning <==> FirstCandidate(results).None?
    ensures d.Recognized? <==> FirstCandidate(results).Some? && results[0][0].distance < DistanceThreshold
    ensures d.Recognized? ==> d.name == BaseDir(results[0][0].identity)
  {
    match FirstCandidate(results)
    case None => Scanning
    case Some(best) =>
      if best.distance < DistanceThreshold then Recognized(BaseDir(best.identity)) else UnknownFace
  }

  /**
   * The threshold is strict: a best match at exactly 0.40 is an unknown face,
   * and anything closer is recognised.
   */
  lemma ThresholdIsStrict(identity: string, distance: real, rest: seq<Candidate>, others: seq<seq<Candidate>>)
    ensures var results := [[Candidate(identity, distance)] + rest] + others;
      && (distance == DistanceThreshold ==> Decide(results) == UnknownFace)
      && (Decide(results).Recognized? <==> distance < 0.40)
  {
  }

  /** Only the first candidate of the first table is looked at. */
  lemma OnlyFirstCandidateMatters(r1: seq<seq<Candidate>>, r2: seq<seq<Candidate>>)
    requires FirstCandidate(r1) == FirstCandidate(r2)
    ensures Decide(r1) == Decide(r2)
  {
  }

  /**
   * For a matched reference image `<prefix>/<name>/<file>` the recognised
   * person is `<name>`, the directory that directly holds the image.
   */
  lemma RecognisedNameIsImageDirectory(results: seq<seq<Candidate>>, prefix: string, name: string, file: string)
    requires |results| > 0 && |results[0]| > 0
    requires results[0][0].identity == prefix + [Sep] + name + [Sep] + file
    requires IsComponent(name) && Sep !in file
    requires results[0][0].distance < DistanceThreshold
    ensures Decide(results) == Recognized(name)
  {
    BaseDirOfImagePath(prefix, name, file);
  }

  /** Everything one timer tick depends on besides the app's own state. */
  datatype TickInput = TickInput(
    frameRead: bool,       // whether the camera returned a frame
    matched: MatchResult,  // the matcher's answer for that frame
    today: Date,           // the date part of the clock reading
    now: Time,             // the time-of-day part of the second clock reading
    appendFails: bool      // whether opening or writing the log raises
  )

  predicate ValidInput(input: TickInput) {
    ValidDate(input.today) && ValidTime(input.now)
  }

  /** The ledger after a tick, the text drawn on the frame (None: nothing drawn), and a new status line if any. */
  datatype TickResult = TickResult(ledger: Ledger, drawn: Option<string>, status: Option<string>)

  /** One call of `update_frame`, as a function of the detection flag, the ledger and the inputs. */
  function AppTick(active: bool, l: Ledger, input: TickInput): (r: TickResult)
    requires ValidInput(input)
    ensures l.marked <= r.ledger.marked
    ensures !(active && input.frameRead && input.matched.Tables? && Decide(input.matched.tables).Recognized?) ==>
      r.ledger == l && r.status == None
    ensures active && input.frameRead && input.matched.Tables? && Decide(input.matched.tables).Recognized? ==>
      var name := Decide(input.matched.tables).name;
      var (l', outcome) := Record(l, name, input.today, input.now, input.appendFails);
      && r.ledger == l'
      && r.drawn == Some(if outcome == WriteFailed then ErrorLabel else RecognizedLabel(name))
      && r.status == (if outcome == Written then Some(MarkedStatus(name)) else None)
  {
    if !active || !input.frameRead then TickResult(l, None, None)
    else match input.matched
      case MatcherRaised => TickResult(l, Some(ErrorLabel), None)
      case Tables(results) =>
        match Decide(results)
        case Scanning => TickResult(l, Some(ScanningLabel), None)
        case UnknownFace => TickResult(l, Some(UnknownLabel), None)
        case Recognized(name) =>
          var (l', outcome) := Record(l, name, input.today, input.now, input.appendFails);
          match outcome
          case AlreadyMarked => TickResult(l', Some(RecognizedLabel(name)), None)
          case Written => TickResult(l', Some(RecognizedLabel(name)), Some(MarkedStatus(name)))
          case WriteFailed => TickResult(l', Some(ErrorLabel), None)
  }

  /** With detection stopped, or without a camera frame, a tick changes nothing and draws nothing. */
  lemma IdleTickChangesNothing(active: bool, l: Ledger, input: TickInput)
    requires ValidInput(input)
    requires !active || !input.frameRead
    ensures AppTick(active, l, input) == TickResult(l, None, None)
  {
  }

  /** An empty result list or an empty first table keeps "Scanning..." and records nothing. */
  lemma NoCandidateRecordsNothing(l: Ledger, input: TickInput)
    requires ValidInput(input) && input.frameRead
    requires input.matched.Tables? && FirstCandidate(input.matched.tables).None?
    ensures AppTick(true, l, input) == TickResult(l, Some(ScanningLabel), None)
  {
  }

  /**
   * A matcher exception draws "Detection Error", and a first candidate at or
   * above the threshold draws "Unknown Face"; neither records anything or
   * touches the status line.
   */
  lemma UnknownOrErrorRecordsNothing(l: Ledger, input: TickInput)
    requires ValidInput(input) && input.frameRead
    requires input.matched.MatcherRaised?
      || (FirstCandidate(input.matched.tables).Some? && input.matched.tables[0][0].distance >= DistanceThreshold)
    ensures AppTick(true, l, input) == TickResult(l, Some(if input.matched.MatcherRaised? then ErrorLabel else UnknownLabel), None)
  {
  }

  /**
   * A tick changes the ledger only for a strictly-below-threshold first
   * candidate whose (name, date) key was not yet marked; the key is then
   * marked, and at most the one row for it is appended.
   */
  lemma TickChangesOnlyForNewRecognition(active: bool, l: Ledger, input: TickInput)
    requires ValidInput(input)
    ensures var r := AppTick(active, l, input);
      r.ledger != l ==>
        && active && input.frameRead && input.matched.Tables?
        && FirstCandidate(input.matched.tables).Some?
        && var best := input.matched.tables[0][0];
        && best.distance < DistanceThreshold
        && var key := (BaseDir(best.identity), input.today);
        && key !in l.marked
        && r.ledger.marked == l.marked + {key}
        && (r.ledger.file == l.file <==> input.appendFails)
        && (!input.appendFails ==> r.ledger.file.rows == l.file.rows + [RecordRow(key.0, input.today, input.now)])
        && (input.appendFails ==> r.drawn == Some(ErrorLabel))
  {
    var r := AppTick(active, l, input);
    if r.ledger != l {
      var d := Decide(input.matched.tables);
      assert d.Recognized?;
      if !input.appendFails {
        assert r.ledger.file.rows == l.file.rows + [RecordRow(d.name, input.today, input.now)];
      }
    }
  }

  /**
   * Conversely, an active tick with a frame whose first candidate is below
   * the threshold and whose key is new marks the key, appends its row unless
   * the append fails, and draws "Recognized: name", or "Detection Error"
   * when the append fails.
   */
  lemma NewRecognitionIsRecorded(l: Ledger, input: TickInput)
    requires ValidInput(input) && input.frameRead && input.matched.Tables?
    requires FirstCandidate(input.matched.tables).Some?
    requires input.matched.tables[0][0].distance < DistanceThreshold
    requires (BaseDir(input.matched.tables[0][0].identity), input.today) !in l.marked
    ensures var name := BaseDir(input.matched.tables[0][0].identity);
      var r := AppTick(true, l, input);
      && r.ledger.marked == l.marked + {(name, input.today)}
      && r.ledger.file.rows == (if input.appendFails then l.file.rows else l.file.rows + [RecordRow(name, input.today, input.now)])
      && r.drawn == Some(if input.appendFails then ErrorLabel else RecognizedLabel(name))
      && r.status == (if input.appendFails then None else Some(MarkedStatus(name)))
  {
    RecognitionOfNewKey(l, input, BaseDir(input.matched.tables[0][0].identity));
  }

  /** The same, for a tick whose decision already names the person. */
  lemma RecognitionOfNewKey(l: Ledger, input: TickInput, name: string)
    requires ValidInput(input) && input.frameRead && input.matched.Tables?
    requires Decide(input.matched.tables) == Recognized(name)
    requires (name, input.today) !in l.marked
    ensures var r := AppTick(true, l, input);
      && r.ledger.marked == l.marked + {(name, input.today)}
      && r.ledger.file.rows == (if input.appendFails then l.file.rows else l.file.rows + [RecordRow(name, input.today, input.now)])
      && r.drawn == Some(if input.appendFails then ErrorLabel else RecognizedLabel(name))
      && r.status == (if input.appendFails then None else Some(MarkedStatus(name)))
  {
  }

  /** A tick keeps the attendance invariant and only appends rows. */
  lemma TickKeepsRowsKeyed(start: nat, active: bool, l: Ledger, input: TickInput)
    requires ValidInput(input) && RowsKeyed(start, l)
    ensures var r := AppTick(active, l, input).ledger;
      RowsKeyed(start, r) && l.file.rows <= r.file.rows
  {
    var r := AppTick(active, l, input).ledger;
    if active && input.frameRead && input.matched.Tables? && Decide(input.matched.tables).Recognized? {
      var name := Decide(input.matched.tables).name;
      RecordKeepsRowsKeyed(start, l, name, input.today, input.now, input.appendFails);
    }
  }

  /** What the user and the timer can do to the app. */
  datatype Event = StartClicked | StopClicked | TimerFired(input: TickInput)

  datatype AppState = AppState(active: bool, ledger: Ledger)

  predicate ValidEvents(events: seq<Event>) {
    forall k | 0 <= k < |events| :: events[k].TimerFired? ==> ValidInput(events[k].input)
  }

  function AppStep(s: AppState, e: Event): (t: AppState)
    requires e.TimerFired? ==> ValidInput(e.input)
    ensures t.active == (if e.StartClicked? then true else if e.StopClicked? then false else s.active)
    ensures !e.TimerFired? ==> t.ledger == s.ledger
    ensures s.ledger.marked <= t.ledger.marked
  {
    match e
    case StartClicked => AppState(true, s.ledger)
    case StopClicked => AppState(false, s.ledger)
    case TimerFired(input) => AppState(s.active, AppTick(s.active, s.ledger, input).ledger)
  }

  function AppRun(s: AppState, events: seq<Event>): (t: AppState)
    requires ValidEvents(events)
    decreases |events|
    ensures s.ledger.marked <= t.ledger.marked
    ensures (forall k | 0 <= k < |events| :: !events[k].TimerFired?) ==> t.ledger == s.ledger
  {
    if events == [] then s else AppRun(AppStep(s, events[0]), events[1..])
  }

  /**
   * Over any sequence of clicks and ticks: rows are only appended, the set
   * only grows, and no two rows written during the run share a name and a date.
   */
  lemma {:induction false} RunKeepsRowsKeyed(start: nat, s: AppState, events: seq<Event>)
    requires ValidEvents(events) && RowsKeyed(start, s.ledger)
    decreases |events|
    ensures var t := AppRun(s, events);
      && RowsKeyed(start, t.ledger)
      && s.ledger.marked <= t.ledger.marked
      && s.ledger.file.rows <= t.ledger.file.rows
  {
    if events != [] {
      var e := events[0];
      if e.TimerFired? {
        TickKeepsRowsKeyed(start, s.active, s.ledger, e.input);
      }
      var s' := AppStep(s, e);
      RunKeepsRowsKeyed(start, s', events[1..]);
    }
  }

  /**
   * From launch (empty set, log initialised): at most one attendance row per
   * (name, date) is ever appended, and each one's key is in the set.
   */
  lemma AtMostOneRowPerPersonPerDay(onDisk: LogFile, events: seq<Event>)
    requires ValidEvents(events)
    ensures var init := WithHeader(onDisk);
      var t := AppRun(AppState(false, Ledger({}, init)), events);
      && init.rows <= t.ledger.file.rows
      && (forall i | |init.rows| <= i < |t.ledger.file.rows| :: RowMarked(t.ledger.file.rows[i], t.ledger.marked))
      && (forall i, j | |init.rows| <= i < j < |t.ledger.file.rows| :: !SameKey(t.ledger.file.rows[i], t.ledger.file.rows[j]))
  {
    var init := WithHeader(onDisk);
    RowsKeyedAtStart(onDisk);
    RunKeepsRowsKeyed(|init.rows|, AppState(false, Ledger({}, init)), events);
  }

  /** The module-level state of the GUI program: `marked_today` and the log file. */
  class AttendanceStore {
    var marked: set<Key>
    var present: bool
    var rows: seq<Row>

    function State(): Ledger
      reads this
    {
      Ledger(marked, LogFile(present, rows))
    }

    /** Program start: the log gets its header if it is missing, and the set starts empty. */
    constructor (onDisk: LogFile)
      ensures State() == Ledger({}, WithHeader(onDisk))
    {
      marked := {};
      present := true;
      rows := if onDisk.present then onDisk.rows else [Header];
    }

    /** The dedup check, the mark, and the append of one attendance row. */
    method Mark(name: string, today: Date, now: Time, appendFails: bool) returns (outcome: RecordOutcome)
      requires ValidDate(today) && ValidTime(now)
      modifies this
      ensures (State(), outcome) == Record(old(State()), name, today, now, appendFails)
    {
      if (name, today) in marked {
        return AlreadyMarked;
      }
      marked := marked + {(name, today)};
      if appendFails {
        return WriteFailed;
      }
      present := true;
      rows := rows + [RecordRow(name, today, now)];
      outcome := Written;
    }
  }

  /** The window: its detection flag, the two buttons' enabled flags, and the status line. */
  class FaceAttendanceApp {
    var detectionActive: bool
    var startEnabled: bool
    var stopEnabled: bool
    var status: string
    const store: AttendanceStore

    /** Start is clickable exactly when detection is off, and Stop exactly when it is on. */
    predicate ButtonsMatch()
      reads this
    {
      startEnabled == !detectionActive && stopEnabled == detectionActive
    }

    constructor (store: AttendanceStore)
      ensures this.store == store
      ensures !detectionActive && startEnabled && !stopEnabled && ButtonsMatch()
      ensures status == InitialStatus
    {
      this.store := store;
      detectionActive := false;
      startEnabled := true;
      stopEnabled := false;
      status := InitialStatus;
    }

    method StartDetection()
      modifies this
      ensures detectionActive && !startEnabled && stopEnabled && ButtonsMatch()
      ensures status == RunningStatus
    {
      detectionActive := true;
      status := RunningStatus;
      startEnabled := false;
      stopEnabled := true;
    }

    method StopDetection()
      modifies this
      ensures !detectionActive && startEnabled && !stopEnabled && ButtonsMatch()
      ensures status == StoppedStatus
    {
      detectionActive := false;
      status := StoppedStatus;
      startEnabled := true;
      stopEnabled := false;
    }

    /** One timer tick; returns the text drawn on the frame, if a frame was processed. */
    method UpdateFrame(input: TickInput) returns (drawn: Option<string>)
      requires ValidInput(input)
      modifies this, store
      ensures var r := AppTick(old(detectionActive), old(store.State()), input);
        && store.State() == r.ledger
        && drawn == r.drawn
        && status == (if r.status.Some? then r.status.value else old(status))
      ensures detectionActive == old(detectionActive)
      ensures startEnabled == old(startEnabled) && stopEnabled == old(stopEnabled)
    {
      if !detectionActive {
        return None;
      }
      if !input.frameRead {
        return None;
      }
      drawn := Some(ScanningLabel);
      match input.matched {
        case MatcherRaised =>
          drawn := Some(ErrorLabel);
        case Tables(results) =>
          match Decide(results) {
            case Scanning =>
            case UnknownFace =>
              drawn := Some(UnknownLabel);
            case Recognized(name) =>
              drawn := MarkAttendance(name, input);
          }
      }
    }

    /** The recognised branch: the dedup-gated write, the status line, and the text drawn. */
    method MarkAttendance(name: string, input: TickInput) returns (drawn: Option<string>)
      requires ValidInput(input)
      modifies this, store
      ensures var (l, outcome) := Record(old(store.State()), name, input.today, input.now, input.appendFails);
        && store.State() == l
        && drawn == Some(if outcome == WriteFailed then ErrorLabel else RecognizedLabel(name))
        && status == (if outcome == Written then MarkedStatus(name) else old(status))
      ensures detectionActive == old(detectionActive)
      ensures startEnabled == old(startEnabled) && stopEnabled == old(stopEnabled)
    {
      drawn := Some(RecognizedLabel(name));
      var outcome := store.Mark(name, input.today, input.now, input.appendFails);
      if outcome == Written {
        status := MarkedStatus(name);
      } else if outcome == WriteFailed {
        drawn := Some(ErrorLabel);
      }
    }
  }
}
