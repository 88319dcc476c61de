/** Ingestion of a directory of energy CSV files into one frame of readings: the per-file
    decision (skip with an issue, keep some rows, or crash), the row-drop rule, and the final
    concatenation sorted by timestamp. */
module EnergyIngest {
  import opened Wrappers
  import Text
  import Search
  import Sorting
  import opened EnergyColumns

  /** One row of the combined frame: an instant, a reading, a building label (possibly NaN). */
  datatype Reading = Reading(timestamp: int, kwh: real, building: Label)

  /** What `pd.read_csv` gave for one file: a table, or the text of the exception it raised. */
  datatype ReadResult = Parsed(table: Table) | ReadFailed(message: string)

  datatype CsvFile = CsvFile(name: string, content: ReadResult)

  /** One line of the issue log: the file name and the reason it was skipped. */
  datatype Issue = Issue(file: string, reason: string)

  /** Kept: the file's surviving rows. Skipped: the issue recorded for it. Crashed: the
      uncaught `IndexError` of `iloc[0]` on a label column without rows, which ends the run. */
  datatype FileOutcome = Kept(readings: seq<Reading>) | Skipped(issue: Issue) | Crashed

  const NoTimestamp: string := "NoTimestamp"
  const NoKwh: string := "NoKwh"

  /** One row after `pd.to_datetime(errors='coerce')`, `pd.to_numeric(errors='coerce')` and the
      two `dropna` calls: a reading when both cells parse, nothing otherwise. */
  function ParseRow(t: string, v: string, building: Label,
                    parseTime: string -> Option<int>, parseNum: string -> Option<real>): (r: Option<Reading>)
    ensures r.Some? <==> parseTime(t).Some? && parseNum(v).Some?
    ensures r.Some? ==> r == Some(Reading(parseTime(t).value, parseNum(v).value, building))
  {
    match parseTime(t)
    case None => None
    case Some(ts) =>
      match parseNum(v)
      case None => None
      case Some(x) => Some(Reading(ts, x, building))
  }

  function OptionToSeq<T>(o: Option<T>): (r: seq<T>)
    ensures o.Some? ==> r == [o.value]
    ensures o.None? ==> r == []
  {
    match o
    case Some(x) => [x]
    case None => []
  }

  /** The surviving rows of the (timestamp, reading) column pair, in row order. */
  function Extract(ts: seq<string>, vs: seq<string>, building: Label,
                   parseTime: string -> Option<int>, parseNum: string -> Option<real>): (r: seq<Reading>)
    requires |ts| == |vs|
    ensures |r| <= |ts|
    ensures forall x :: x in r ==> x.building == building
    decreases |ts|
  {
    if ts == [] then []
    else
      var n := |ts| - 1;
      Extract(ts[..n], vs[..n], building, parseTime, parseNum) + OptionToSeq(ParseRow(ts[n], vs[n], building, parseTime, parseNum))
  }

  /** Every surviving row comes from a row whose two cells parse. */
  lemma {:induction false} ExtractSound(ts: seq<string>, vs: seq<string>, building: Label,
                                        parseTime: string -> Option<int>, parseNum: string -> Option<real>, x: Reading)
    requires |ts| == |vs|
    requires x in Extract(ts, vs, building, parseTime, parseNum)
    ensures exists i :: 0 <= i < |ts| && ParseRow(ts[i], vs[i], building, parseTime, parseNum) == Some(x)
    decreases |ts|
  {
    var n := |ts| - 1;
    var init, last := ts[..n], vs[..n];
    var here := ParseRow(ts[n], vs[n], building, parseTime, parseNum);
    if x in Extract(init, last, building, parseTime, parseNum) {
      ExtractSound(init, last, building, parseTime, parseNum, x);
      var i :| 0 <= i < n && ParseRow(init[i], last[i], building, parseTime, parseNum) == Some(x);
      assert init[i] == ts[i] && last[i] == vs[i];
    } else {
      assert x in OptionToSeq(here);
      assert here == Some(x);
    }
  }

  /** Every row whose two cells parse survives. */
  lemma {:induction false} ExtractComplete(ts: seq<string>, vs: seq<string>, building: Label,
                                           parseTime: string -> Option<int>, parseNum: string -> Option<real>, i: nat)
    requires |ts| == |vs| && i < |ts|
    requires ParseRow(ts[i], vs[i], building, parseTime, parseNum).Some?
    ensures ParseRow(ts[i], vs[i], building, parseTime, parseNum).value in Extract(ts, vs, building, parseTime, parseNum)
    decreases |ts|
  {
    var n := |ts| - 1;
    var init, last := ts[..n], vs[..n];
    if i < n {
      assert init[i] == ts[i] && last[i] == vs[i];
      ExtractComplete(init, last, building, parseTime, parseNum, i);
    }
  }

  lemma {:induction false} ExtractSnoc(ts: seq<string>, vs: seq<string>, t: string, v: string, building: Label,
                                       parseTime: string -> Option<int>, parseNum: string -> Option<real>)
    requires |ts| == |vs|
    ensures Extract(ts + [t], vs + [v], building, parseTime, parseNum)
         == Extract(ts, vs, building, parseTime, parseNum) + OptionToSeq(ParseRow(t, v, building, parseTime, parseNum))
  {
    assert (ts + [t])[..|ts|] == ts;
    assert (vs + [v])[..|vs|] == vs;
  }

  /** Rows are dropped one at a time: the survivors of two blocks of rows are the survivors of
      each block, so a bad row never takes a sibling with it. */
  lemma {:induction false} ExtractAppend(ts1: seq<string>, vs1: seq<string>, ts2: seq<string>, vs2: seq<string>,
                                         building: Label, parseTime: string -> Option<int>, parseNum: string -> Option<real>)
    requires |ts1| == |vs1| && |ts2| == |vs2|
    ensures Extract(ts1 + ts2, vs1 + vs2, building, parseTime, parseNum)
         == Extract(ts1, vs1, building, parseTime, parseNum) + Extract(ts2, vs2, building, parseTime, parseNum)
    decreases |ts2|
  {
    if ts2 == [] {
      assert ts1 + ts2 == ts1 && vs1 + vs2 == vs1;
    } else {
      var n := |ts2| - 1;
      var ta, va, t, v := ts2[..n], vs2[..n], ts2[n], vs2[n];
      var here := OptionToSeq(ParseRow(t, v, building, parseTime, parseNum));
      var e1, ea := Extract(ts1, vs1, building, parseTime, parseNum), Extract(ta, va, building, parseTime, parseNum);
      assert Extract(ts1 + ts2, vs1 + vs2, building, parseTime, parseNum) == (e1 + ea) + here by {
        SplitLast(ts1, ts2);
        SplitLast(vs1, vs2);
        ExtractAppend(ts1, vs1, ta, va, building, parseTime, parseNum);
        ExtractSnoc(ts1 + ta, vs1 + va, t, v, building, parseTime, parseNum);
      }
      assert Extract(ts2, vs2, building, parseTime, parseNum) == ea + here by {
        SplitLast(ts1, ts2);
        SplitLast(vs1, vs2);
        ExtractSnoc(ta, va, t, v, building, parseTime, parseNum);
      }
    }
  }

  /** Splitting off the last element of a non-empty right operand. */
  lemma SplitLast<T>(a: seq<T>, b: seq<T>)
    requires b != []
    ensures a + b == (a + b[..|b| - 1]) + [b[|b| - 1]]
    ensures b == b[..|b| - 1] + [b[|b| - 1]]
  {
  }

  /** The per-file body of the ingest loop. */
  function Outcome(f: CsvFile, parseTime: string -> Option<int>, parseNum: string -> Option<real>): (r: FileOutcome)
    ensures r.Crashed? ==> f.content.Parsed? && RowCount(f.content.table) == 0
    ensures r.Kept? ==> f.content.Parsed?
  {
    match f.content
    case ReadFailed(msg) => Skipped(Issue(f.name, msg))
    case Parsed(t) =>
      match BuildingLabel(t, f.name)
      case None => Crashed
      case Some(building) =>
        match DetectTimestampCol(Names(t))
        case None => Skipped(Issue(f.name, NoTimestamp))
        case Some(tsCol) =>
          match DetectValueCol(t, tsCol)
          case None => Skipped(Issue(f.name, NoKwh))
          case Some(kwhCol) =>
            Kept(Extract(ColumnNamed(t, tsCol).cells, ColumnNamed(t, kwhCol).cells, building, parseTime, parseNum))
  }

  /** The decision table of the loop body: an unreadable file is skipped with the exception
      text; a label column without rows crashes; otherwise a file without a timestamp column
      is skipped as "NoTimestamp", one without a reading column as "NoKwh", and any other
      file is kept, every row carrying its building label. */
  lemma {:induction false} OutcomeDecision(f: CsvFile, parseTime: string -> Option<int>, parseNum: string -> Option<real>)
    ensures f.content.ReadFailed? ==> Outcome(f, parseTime, parseNum) == Skipped(Issue(f.name, f.content.message))
    ensures f.content.Parsed? ==> (Outcome(f, parseTime, parseNum).Crashed? <==> BuildingLabel(f.content.table, f.name).None?)
    ensures f.content.Parsed? && BuildingLabel(f.content.table, f.name).Some? ==>
      (DetectTimestampCol(Names(f.content.table)).None? <==> Outcome(f, parseTime, parseNum) == Skipped(Issue(f.name, NoTimestamp)))
    ensures f.content.Parsed? && BuildingLabel(f.content.table, f.name).Some? &&
            DetectTimestampCol(Names(f.content.table)).Some? ==>
      ((DetectValueCol(f.content.table, DetectTimestampCol(Names(f.content.table)).value).None?)
         <==> Outcome(f, parseTime, parseNum) == Skipped(Issue(f.name, NoKwh)))
    ensures Outcome(f, parseTime, parseNum).Kept? ==> f.content.Parsed? && BuildingLabel(f.content.table, f.name).Some?
    ensures Outcome(f, parseTime, parseNum).Kept? ==> forall x :: x in Outcome(f, parseTime, parseNum).readings ==> x.building == BuildingLabel(f.content.table, f.name).value
    ensures Outcome(f, parseTime, parseNum).Kept? ==> |Outcome(f, parseTime, parseNum).readings| <= RowCount(f.content.table)
  {
  }

  /** A file crashes exactly when it was read, has a label column, and has no rows. */
  lemma {:induction false} CrashCause(f: CsvFile, parseTime: string -> Option<int>, parseNum: string -> Option<real>)
    ensures Outcome(f, parseTime, parseNum).Crashed? <==>
      f.content.Parsed? && FirstPresent(LabelNames, Names(f.content.table)).Some? && RowCount(f.content.table) == 0
  {
    OutcomeDecision(f, parseTime, parseNum);
  }

  /** Every kept reading comes from one row of the file whose timestamp cell (in the resolved
      timestamp column) and reading cell (in the resolved reading column) both parsed to it. */
  lemma {:induction false} KeptReadingsParse(f: CsvFile, parseTime: string -> Option<int>, parseNum: string -> Option<real>, x: Reading)
    requires Outcome(f, parseTime, parseNum).Kept?
    requires x in Outcome(f, parseTime, parseNum).readings
    ensures f.content.Parsed?
    ensures var t := f.content.table;
      DetectTimestampCol(Names(t)).Some? &&
      DetectValueCol(t, DetectTimestampCol(Names(t)).value).Some? &&
      var tsCells := ColumnNamed(t, DetectTimestampCol(Names(t)).value).cells;
      var kwhCells := ColumnNamed(t, DetectValueCol(t, DetectTimestampCol(Names(t)).value).value).cells;
      exists i :: 0 <= i < RowCount(t) && parseTime(tsCells[i]) == Some(x.timestamp) && parseNum(kwhCells[i]) == Some(x.kwh)
  {
    KeptIsExtract(f, parseTime, parseNum);
    var t := f.content.table;
    var tsCol := DetectTimestampCol(Names(t)).value;
    var kwhCol := DetectValueCol(t, tsCol).value;
    var tsCells, kwhCells := ColumnNamed(t, tsCol).cells, ColumnNamed(t, kwhCol).cells;
    var building := BuildingLabel(t, f.name).value;
    ExtractSound(tsCells, kwhCells, building, parseTime, parseNum, x);
  }

  /** A kept file's readings are the surviving rows of its resolved column pair. */
  lemma {:induction false} KeptIsExtract(f: CsvFile, parseTime: string -> Option<int>, parseNum: string -> Option<real>)
    requires Outcome(f, parseTime, parseNum).Kept?
    ensures f.content.Parsed? && BuildingLabel(f.content.table, f.name).Some?
    ensures var t := f.content.table;
      DetectTimestampCol(Names(t)).Some? &&
      DetectValueCol(t, DetectTimestampCol(Names(t)).value).Some? &&
      var tsCol := DetectTimestampCol(Names(t)).value;
      var kwhCol := DetectValueCol(t, tsCol).value;
      Outcome(f, parseTime, parseNum).readings
        == Extract(ColumnNamed(t, tsCol).cells, ColumnNamed(t, kwhCol).cells, BuildingLabel(t, f.name).value, parseTime, parseNum)
  {
  }

  /** Python orders the `glob` results by path; within one directory that is by file name. */
  predicate NameLe(a: CsvFile, b: CsvFile)
  {
    Text.LexLe(a.name, b.name)
  }

  /** pandas' `sort_values('timestamp')`. */
  predicate TimeLe(a: Reading, b: Reading)
  {
    a.timestamp <= b.timestamp
  }

  lemma {:induction false} NameLeTotal()
    ensures Sorting.Total(NameLe)
  {
    forall a: CsvFile, b: CsvFile ensures NameLe(a, b) || NameLe(b, a) {
      Text.LexLeTotal(a.name, b.name);
    }
  }

  /** `sorted(data_dir.glob("*.csv"))`. */
  function SortedFiles(listing: seq<CsvFile>): (r: seq<CsvFile>)
    ensures multiset(r) == multiset(listing)
    ensures Sorting.Sorted(r, NameLe)
  {
    NameLeTotal();
    Sorting.InsertionSort(listing, NameLe)
  }

  /** The combined frame sorted by timestamp. */
  function SortByTime(rows: seq<Reading>): (r: seq<Reading>)
    ensures multiset(r) == multiset(rows)
    ensures Sorting.Sorted(r, TimeLe)
  {
    Sorting.InsertionSort(rows, TimeLe)
  }

  /** The outcome of every file, in order. */
  function Outcomes(files: seq<CsvFile>, parseTime: string -> Option<int>, parseNum: string -> Option<real>): (r: seq<FileOutcome>)
    ensures |r| == |files|
    ensures forall i :: 0 <= i < |files| ==> r[i] == Outcome(files[i], parseTime, parseNum)
  {
    seq(|files|, i requires 0 <= i < |files| => Outcome(files[i], parseTime, parseNum))
  }

  /** The kept rows, outcome after outcome, each file's rows in row order. */
  function KeptRows(os: seq<FileOutcome>): seq<Reading>
  {
    if os == [] then []
    else KeptRows(os[..|os| - 1]) + (match os[|os| - 1] case Kept(rs) => rs case _ => [])
  }

  /** The recorded issues, in file order. */
  function Issues(os: seq<FileOutcome>): seq<Issue>
  {
    if os == [] then []
    else Issues(os[..|os| - 1]) + (match os[|os| - 1] case Skipped(issue) => [issue] case _ => [])
  }

  lemma {:induction false} KeptRowsAppend(a: seq<FileOutcome>, b: seq<FileOutcome>)
    ensures KeptRows(a + b) == KeptRows(a) + KeptRows(b)
    ensures Issues(a + b) == Issues(a) + Issues(b)
    decreases |b|
  {
    if b == [] {
      assert a + b == a;
    } else {
      var n := |b| - 1;
      assert (a + b)[..|a + b| - 1] == a + b[..n];
      assert (a + b)[|a + b| - 1] == b[n];
      KeptRowsAppend(a, b[..n]);
    }
  }

  lemma {:induction false} KeptRowsSnoc(os: seq<FileOutcome>, o: FileOutcome)
    ensures KeptRows(os + [o]) == KeptRows(os) + (match o case Kept(rs) => rs case _ => [])
    ensures Issues(os + [o]) == Issues(os) + (match o case Skipped(issue) => [issue] case _ => [])
  {
    assert (os + [o])[..|os|] == os;
  }

  /** A skipped file contributes its issue and not a single row. */
  lemma {:induction false} SkippedFileContributesNoRows(os: seq<FileOutcome>, i: nat)
    requires i < |os| && os[i].Skipped?
    ensures KeptRows(os) == KeptRows(os[..i]) + KeptRows(os[i + 1..])
    ensures Issues(os) == Issues(os[..i]) + [os[i].issue] + Issues(os[i + 1..])
  {
    var o := os[i];
    assert os == (os[..i] + [o]) + os[i + 1..];
    KeptRowsAppend(os[..i] + [o], os[i + 1..]);
    KeptRowsSnoc(os[..i], o);
  }

  /** With no file kept, the combined frame is empty. */
  lemma {:induction false} NoKeptFilesNoRows(os: seq<FileOutcome>)
    requires forall i :: 0 <= i < |os| ==> !os[i].Kept?
    ensures KeptRows(os) == []
    decreases |os|
  {
    if os != [] {
      var n := |os| - 1;
      assert forall i :: 0 <= i < n ==> os[..n][i] == os[i];
      NoKeptFilesNoRows(os[..n]);
    }
  }

  /** Every combined row was kept from one outcome. */
  lemma {:induction false} KeptRowsFromOutcomes(os: seq<FileOutcome>, x: Reading)
    requires x in KeptRows(os)
    ensures exists i :: 0 <= i < |os| && os[i].Kept? && x in os[i].readings
    decreases |os|
  {
    var n := |os| - 1;
    if os[n].Kept? && x in os[n].readings {
    } else {
      KeptRowsFromOutcomes(os[..n], x);
      var i :| 0 <= i < n && os[..n][i].Kept? && x in os[..n][i].readings;
      assert os[..n][i] == os[i];
    }
  }

  /** Every combined row was kept from one of the files and carries that file's building label. */
  lemma {:induction false} KeptRowsCarryLabels(files: seq<CsvFile>, parseTime: string -> Option<int>,
                            parseNum: string -> Option<real>, x: Reading)
    requires x in KeptRows(Outcomes(files, parseTime, parseNum))
    ensures exists i :: (0 <= i < |files| && Outcome(files[i], parseTime, parseNum).Kept? &&
      x in Outcome(files[i], parseTime, parseNum).readings &&
      files[i].content.Parsed? && BuildingLabel(files[i].content.table, files[i].name) == Some(x.building))
  {
    var os := Outcomes(files, parseTime, parseNum);
    KeptRowsFromOutcomes(os, x);
    var i :| 0 <= i < |os| && os[i].Kept? && x in os[i].readings;
    assert os[i] == Outcome(files[i], parseTime, parseNum);
    OutcomeDecision(files[i], parseTime, parseNum);
  }

  /** The rows of the combined frame, or the name of the file whose `IndexError` ended the run. */
  datatype IngestResult = Combined(readings: seq<Reading>, issues: seq<Issue>) | CrashedOn(file: string)

  /** `pd.concat(frames)`: the frames' rows stacked in order; a row is in the result exactly
      when it is in one of the frames. */
  function Flatten(frames: seq<seq<Reading>>): (r: seq<Reading>)
    ensures forall x :: x in r <==> exists i :: 0 <= i < |frames| && x in frames[i]
  {
    if frames == [] then []
    else
      var init := frames[..|frames| - 1];
      assert forall i :: 0 <= i < |init| ==> init[i] == frames[i];
      Flatten(init) + frames[|frames| - 1]
  }

  /** `ingest_csvs`: the files in name order; a crash on the first file that crashes; otherwise
      the issues in file order and the kept rows, as a permutation sorted by timestamp. */
  method IngestCsvs(listing: seq<CsvFile>, parseTime: string -> Option<int>, parseNum: string -> Option<real>)
    returns (res: IngestResult)
    ensures var files := SortedFiles(listing);
      var os := Outcomes(files, parseTime, parseNum);
      match Search.FirstIndexWhere(os, IsCrash())
      case Some(i) => res == CrashedOn(files[i].name)
      case None =>
        res.Combined? && res.issues == Issues(os) &&
        multiset(res.readings) == multiset(KeptRows(os)) &&
        Sorting.Sorted(res.readings, TimeLe)
  {
    var files := SortedFiles(listing);
    var os := Outcomes(files, parseTime, parseNum);
    var frames: seq<seq<Reading>>, issues: seq<Issue>, crash: Option<nat>;
    frames, issues, crash := Collect(os);
    match crash
    case Some(i) =>
      res := CrashedOn(files[i].name);
    case None =>
      res := Combined(SortByTime(Flatten(frames)), issues);
  }

  function IsCrash(): FileOutcome -> bool
  {
    (o: FileOutcome) => o.Crashed?
  }

  /** The loop of `ingest_csvs` over the outcomes of the files: kept rows appended to `frames`,
      issues to `issues`, stopping at the first crash. */
  method Collect(os: seq<FileOutcome>) returns (frames: seq<seq<Reading>>, issues: seq<Issue>, crash: Option<nat>)
    ensures crash == Search.FirstIndexWhere(os, IsCrash())
    ensures crash.None? ==> Flatten(frames) == KeptRows(os) && issues == Issues(os)
  {
    frames, issues := [], [];
    for i := 0 to |os|
      invariant Flatten(frames) == KeptRows(os[..i])
      invariant issues == Issues(os[..i])
      invariant forall j :: 0 <= j < i ==> !os[j].Crashed?
    {
      var o := os[i];
      assert os[..i + 1] == os[..i] + [o];
      KeptRowsSnoc(os[..i], o);
      match o
      case Crashed =>
        Search.FirstIndexWhereUnique(os, IsCrash(), i);
        return frames, issues, Some(i);
      case Skipped(issue) =>
        issues := issues + [issue];
      case Kept(rows) =>
        FlattenSnoc(frames, rows);
        frames := frames + [rows];
    }
    assert os[..|os|] == os;
    crash := None;
  }

  lemma {:induction false} FlattenSnoc(frames: seq<seq<Reading>>, rows: seq<Reading>)
    ensures Flatten(frames + [rows]) == Flatten(frames) + rows
  {
    assert (frames + [rows])[..|frames|] == frames;
  }
}
