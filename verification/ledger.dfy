/**
 * The state both attendance entry points share in the same shape: the
 * in-memory set `marked_today` of (name, date) keys, and the CSV log on
 * disk, kept as whether the file exists and the sequence of its rows.
 */
module AttendanceLog {
  import opened Optional
  import opened Clock

  /** One CSV row, as its list of fields. */
  type Row = seq<string>

  /** A dedup key: who was seen, and on which day. */
  type Key = (string, Date)

  const Header: Row := ["Name", "Date", "Time"]

  datatype LogFile = LogFile(present: bool, rows: seq<Row>)

  /** The in-memory dedup set together with the log file it guards. */
  datatype Ledger = Ledger(marked: set<Key>, file: LogFile)

  /** What happened to a sighting of a recognised person. */
  datatype RecordOutcome = AlreadyMarked | Written | WriteFailed

  /**
   * Start-up initialisation of the log: a missing file is created holding
   * only the header row; an existing file is not touched.
   */
  function WithHeader(f: LogFile): (g: LogFile)
    ensures g.present
    ensures f.present ==> g == f
    ensures !f.present ==> g.rows == [Header]
  {
    if f.present then f else LogFile(true, [Header])
  }

  /** An attendance row: the name, the date as `YYYY-MM-DD`, the time as `HH:MM:SS`. */
  function RecordRow(name: string, today: Date, now: Time): (row: Row)
    requires ValidDate(today) && ValidTime(now)
    ensures |row| == 3 && row[0] == name
  {
    [name, FormatDate(today), FormatTime(now)]
  }

  /** The date and time fields of an attendance row read back as the date and time written. */
  lemma RecordRowReadsBack(name: string, today: Date, now: Time)
    requires ValidDate(today) && ValidTime(now)
    ensures var row := RecordRow(name, today, now);
      ParseDate(row[1]) == Some(today) && ParseTime(row[2]) == Some(now)
  {
    DateRoundTrip(today);
    TimeRoundTrip(now);
  }

  /** Opening the log in append mode and writing one row (the file is created if missing). */
  function Appended(f: LogFile, row: Row): LogFile {
    LogFile(true, f.rows + [row])
  }

  /**
   * The dedup-gated write: a key not yet marked is added to the set first,
   * and only then is the row appended; when the append fails the key stays
   * marked and no row is written.
   */
  function Record(l: Ledger, name: string, today: Date, now: Time, appendFails: bool): (r: (Ledger, RecordOutcome))
    requires ValidDate(today) && ValidTime(now)
    ensures r.0.marked == l.marked + {(name, today)}
    ensures r.1 == AlreadyMarked <==> (name, today) in l.marked
    ensures r.1 == Written <==> (name, today) !in l.marked && !appendFails
    ensures r.0.file == if r.1 == Written then Appended(l.file, RecordRow(name, today, now)) else l.file
  {
    if (name, today) in l.marked then (l, AlreadyMarked)
    else
      var marked := l.marked + {(name, today)};
      if appendFails then (Ledger(marked, l.file), WriteFailed)
      else (Ledger(marked, Appended(l.file, RecordRow(name, today, now))), Written)
  }

  /** A well-formed attendance row whose (name, date) key is in `marked`. */
  predicate RowMarked(row: Row, marked: set<Key>) {
    |row| == 3 && ParseDate(row[1]).Some? && (row[0], ParseDate(row[1]).value) in marked
  }

  predicate SameKey(r1: Row, r2: Row) {
    |r1| >= 2 && |r2| >= 2 && r1[0] == r2[0] && r1[1] == r2[1]
  }

  /**
   * The attendance invariant over the rows written since row `start`: each is
   * an attendance row whose key is marked, and no two share name and date.
   */
  predicate RowsKeyed(start: nat, l: Ledger) {
    && start <= |l.file.rows|
    && (forall i | start <= i < |l.file.rows| :: RowMarked(l.file.rows[i], l.marked))
    && (forall i, j | start <= i < j < |l.file.rows| :: !SameKey(l.file.rows[i], l.file.rows[j]))
  }

  /**
   * At start-up the set is empty and nothing has been written since the
   * initialised log, so the invariant holds from its end.
   */
  lemma RowsKeyedAtStart(f: LogFile)
    ensures RowsKeyed(|WithHeader(f).rows|, Ledger({}, WithHeader(f)))
  {
  }

  /**
   * Recording keeps the invariant, only grows the set, and only appends:
   * at most one row per (name, date) however often the person is seen.
   */
  lemma RecordKeepsRowsKeyed(start: nat, l: Ledger, name: string, today: Date, now: Time, appendFails: bool)
    requires ValidDate(today) && ValidTime(now)
    requires RowsKeyed(start, l)
    ensures var r := Record(l, name, today, now, appendFails).0;
      && RowsKeyed(start, r)
      && l.marked <= r.marked
      && l.file.rows <= r.file.rows
      && |r.file.rows| <= |l.file.rows| + 1
  {
    var (r, outcome) := Record(l, name, today, now, appendFails);
    if outcome == Written {
      var rows, row := l.file.rows, RecordRow(name, today, now);
      RecordRowReadsBack(name, today, now);
      assert r.file.rows == rows + [row];
      forall i | start <= i < |rows|
        ensures !SameKey(rows[i], row)
      {
        assert RowMarked(rows[i], l.marked);
      }
    }
  }

  /**
   * A failed append loses that day's row for good: the key is marked, so a
   * later sighting of the same person on the same day writes nothing.
   */
  lemma FailedWriteIsNotRetried(l: Ledger, name: string, today: Date, now: Time, later: Time, laterFails: bool)
    requires ValidDate(today) && ValidTime(now) && ValidTime(later)
    requires (name, today) !in l.marked
    ensures var (l1, o1) := Record(l, name, today, now, true);
      && o1 == WriteFailed && l1.file == l.file && (name, today) in l1.marked
      && Record(l1, name, today, later, laterFails) == (l1, AlreadyMarked)
  {
  }

  /**
   * A first sighting is written, a second one the same day writes nothing,
   * and the same person on another day is written again.
   */
  lemma NewDayRecordsAgain(l: Ledger, name: string, day1: Date, day2: Date, t1: Time, t2: Time, t3: Time)
    requires ValidDate(day1) && ValidDate(day2) && ValidTime(t1) && ValidTime(t2) && ValidTime(t3)
    requires day1 != day2 && (name, day1) !in l.marked && (name, day2) !in l.marked
    ensures var (l1, o1) := Record(l, name, day1, t1, false);
      var (l2, o2) := Record(l1, name, day1, t2, false);
      var (l3, o3) := Record(l2, name, day2, t3, false);
      && o1 == Written && o2 == AlreadyMarked && l2 == l1 && o3 == Written
      && l3.file.rows == l.file.rows + [RecordRow(name, day1, t1), RecordRow(name, day2, t3)]
  {
  }

  /**
   * The set starts empty at every launch and is not rebuilt from the log, so
   * after a restart on the same day a person who already has a row gets a
   * second one.
   */
  lemma RestartSameDayWritesAgain(name: string, today: Date, t1: Time, t2: Time)
    requires ValidDate(today) && ValidTime(t1) && ValidTime(t2)
    ensures var onDisk := LogFile(true, [Header, RecordRow(name, today, t1)]);
      var (l, outcome) := Record(Ledger({}, WithHeader(onDisk)), name, today, t2, false);
      && outcome == Written
      && l.file.rows == [Header, RecordRow(name, today, t1), RecordRow(name, today, t2)]
      && SameKey(l.file.rows[1], l.file.rows[2])
  {
  }
}
