/** Column resolution for one energy CSV file: which column holds the timestamp, which the
    reading, and which building the file is about. */
module EnergyColumns {
  import opened Wrappers
  import Text
  import Search

  /** Exact names tried, in order, for the timestamp column. */
  const TimestampNames: seq<string> := ["timestamp", "datetime", "time", "date", "ts"]
  /** Exact names tried, in order, for the reading column. */
  const ValueNames: seq<string> := ["kwh", "kwh_consumed", "consumption", "energy", "value"]
  /** Exact names tried, in order, for the building label column. */
  const LabelNames: seq<string> := ["building", "site", "name"]

  /** One column as `pd.read_csv` produced it: its header, whether its inferred dtype is
      numeric, and its cells as text. */
  datatype Column = Column(name: string, numeric: bool, cells: seq<string>)

  datatype RawTable = RawTable(columns: seq<Column>)

  function RowCount(t: RawTable): nat
  {
    if t.columns == [] then 0 else |t.columns[0].cells|
  }

  /** A data frame is rectangular: every column has one cell per row. */
  type Table = t: RawTable | forall i :: 0 <= i < |t.columns| ==> |t.columns[i].cells| == RowCount(t)
    witness RawTable([])

  function Names(t: RawTable): (r: seq<string>)
    ensures |r| == |t.columns| && forall i :: 0 <= i < |r| ==> r[i] == t.columns[i].name
  {
    seq(|t.columns|, i requires 0 <= i < |t.columns| => t.columns[i].name)
  }

  function IsIn(cols: seq<string>): string -> bool
  {
    c => c in cols
  }

  /** `for c in cands: if c in cols: return c`: the first candidate that is a column. */
  function FirstPresent(cands: seq<string>, cols: seq<string>): (r: Option<string>)
    ensures r.None? <==> forall k :: 0 <= k < |cands| ==> cands[k] !in cols
    ensures r.Some? ==> r.value in cols
    ensures r.Some? ==> exists k :: 0 <= k < |cands| && cands[k] == r.value && forall j :: 0 <= j < k ==> cands[j] !in cols
  {
    match Search.FirstIndexWhere(cands, IsIn(cols))
    case Some(k) => Some(cands[k])
    case None => None
  }

  /** The fallback test: the lower-cased name mentions "time" or "date". */
  predicate TimeLike(c: string)
    ensures TimeLike(c) ==> |c| >= 4
  {
    assert |Text.Lower(c)| == |c|;
    Text.ContainsLength(Text.Lower(c), "time");
    Text.ContainsLength(Text.Lower(c), "date");
    Text.Contains(Text.Lower(c), "time") || Text.Contains(Text.Lower(c), "date")
  }

  function TimeLikeTest(): string -> bool
  {
    c => TimeLike(c)
  }

  /** `detect_timestamp_col`: the first priority name that is a column, wherever it sits;
      failing that the first column whose name looks like a time; None when neither exists. */
  function DetectTimestampCol(cols: seq<string>): (r: Option<string>)
    ensures r.Some? ==> r.value in cols
    ensures FirstPresent(TimestampNames, cols).Some? ==> r == FirstPresent(TimestampNames, cols)
    ensures FirstPresent(TimestampNames, cols).None? ==>
      (r.None? <==> forall i :: 0 <= i < |cols| ==> !TimeLike(cols[i]))
    ensures FirstPresent(TimestampNames, cols).None? && r.Some? ==>
      exists i :: 0 <= i < |cols| && cols[i] == r.value && TimeLike(cols[i]) &&
        forall j :: 0 <= j < i ==> !TimeLike(cols[j])
  {
    match FirstPresent(TimestampNames, cols)
    case Some(c) => Some(c)
    case None =>
      match Search.FirstIndexWhere(cols, TimeLikeTest())
      case Some(i) => Some(cols[i])
      case None => None
  }

  /** Which priority name wins depends only on which names are present, not on their
      order among the columns. */
  lemma {:induction false} FirstPresentIgnoresOrder(cands: seq<string>, cols1: seq<string>, cols2: seq<string>)
    requires forall c :: c in cols1 <==> c in cols2
    ensures FirstPresent(cands, cols1) == FirstPresent(cands, cols2)
  {
    Search.FirstIndexWhereAgree(cands, IsIn(cols1), IsIn(cols2));
  }

  /** When some priority timestamp name is a column, the choice is that name and the order
      of the columns plays no part. */
  lemma TimestampIgnoresColumnOrder(cols1: seq<string>, cols2: seq<string>)
    requires forall c :: c in cols1 <==> c in cols2
    requires exists k :: 0 <= k < |TimestampNames| && TimestampNames[k] in cols1
    ensures DetectTimestampCol(cols1) == DetectTimestampCol(cols2)
  {
    FirstPresentIgnoresOrder(TimestampNames, cols1, cols2);
  }

  function NumericOtherThan(ts: string): Column -> bool
  {
    (c: Column) => c.numeric && c.name != ts
  }

  /** The reading column: the first priority name that is a column; failing that the first
      numeric column other than the timestamp column; None when neither exists. */
  function DetectValueCol(t: RawTable, ts: string): (r: Option<string>)
    ensures r.Some? ==> r.value in Names(t)
    ensures FirstPresent(ValueNames, Names(t)).Some? ==> r == FirstPresent(ValueNames, Names(t))
    ensures FirstPresent(ValueNames, Names(t)).None? ==>
      (r.None? <==> forall i :: 0 <= i < |t.columns| ==> !(t.columns[i].numeric && t.columns[i].name != ts))
    ensures FirstPresent(ValueNames, Names(t)).None? && r.Some? ==>
      exists i :: 0 <= i < |t.columns| && t.columns[i].name == r.value && t.columns[i].numeric && r.value != ts &&
        forall j :: 0 <= j < i ==> !(t.columns[j].numeric && t.columns[j].name != ts)
  {
    match FirstPresent(ValueNames, Names(t))
    case Some(c) => Some(c)
    case None =>
      match Search.FirstIndexWhere(t.columns, NumericOtherThan(ts))
      case Some(i) => Some(t.columns[i].name)
      case None => None
  }

  /** No reading name is also a timestamp name. */
  lemma ValueNamesAreNotTimestampNames()
    ensures forall c :: c in ValueNames ==> c !in TimestampNames
  {
  }

  /** None of the reading names could be taken for a timestamp column. */
  lemma ValueNameIsNotTimeLike(k: nat)
    requires k < |ValueNames|
    ensures !TimeLike(ValueNames[k])
  {
    // "consumption" has a 't' but no 'e'; "kwh_consumed" has a 'd' but no 'a'.
    NotTimeLike(ValueNames[k], if k == 2 then 'e' else 't', if k == 1 then 'a' else 'd');
  }

  /** A name that avoids, in both cases, one letter of "time" and one of "date" looks like
      neither. */
  lemma NotTimeLike(c: string, t: char, d: char)
    requires t in "time" && t !in c && (t as int - 32) as char !in c
    requires d in "date" && d !in c && (d as int - 32) as char !in c
    ensures !TimeLike(c)
  {
    Text.LowerAvoids(c, t);
    Text.LowerAvoids(c, d);
    if Text.Contains(Text.Lower(c), "time") {
      Text.ContainsChar(Text.Lower(c), "time", t);
    }
    if Text.Contains(Text.Lower(c), "date") {
      Text.ContainsChar(Text.Lower(c), "date", d);
    }
  }

  /** The resolved reading column is never the resolved timestamp column. */
  lemma ValueColumnIsNotTimestamp(t: RawTable)
    requires DetectTimestampCol(Names(t)).Some?
    requires DetectValueCol(t, DetectTimestampCol(Names(t)).value).Some?
    ensures DetectValueCol(t, DetectTimestampCol(Names(t)).value).value != DetectTimestampCol(Names(t)).value
  {
    var ts := DetectTimestampCol(Names(t)).value;
    var v := DetectValueCol(t, ts).value;
    if FirstPresent(ValueNames, Names(t)).Some? {
      ValueNamesAreNotTimestampNames();
      var k :| 0 <= k < |ValueNames| && ValueNames[k] == v;
      ValueNameIsNotTimeLike(k);
      if FirstPresent(TimestampNames, Names(t)).Some? {
        assert ts in TimestampNames;
      } else {
        assert TimeLike(ts);
      }
    }
  }

  /** `f.stem` of a name `glob("*.csv")` returned: the name without its ".csv" suffix. */
  function Stem(fileName: string): (r: string)
    ensures |r| <= |fileName| && r == fileName[..|r|]
    ensures |fileName| > 4 && fileName[|fileName| - 4..] == ".csv" ==> fileName == r + ".csv"
    ensures !(|fileName| > 4 && fileName[|fileName| - 4..] == ".csv") ==> r == fileName
  {
    if |fileName| > 4 && fileName[|fileName| - 4..] == ".csv" then fileName[..|fileName| - 4] else fileName
  }

  function NameIs(name: string): Column -> bool
  {
    (c: Column) => c.name == name
  }

  /** `df[name]`: the column with that header. */
  function ColumnNamed(t: RawTable, name: string): (c: Column)
    requires name in Names(t)
    ensures c in t.columns && c.name == name
  {
    var k := Search.FirstIndexWhere(t.columns, NameIs(name));
    assert k.Some? by {
      var i :| 0 <= i < |Names(t)| && Names(t)[i] == name;
      assert NameIs(name)(t.columns[i]);
    }
    t.columns[k.value]
  }

  /** A building label as the frame holds it: a name, or the NaN that `read_csv` puts in a
      cell it reads as missing. */
  datatype Label = Name(name: string) | Missing

  /** The cell texts `read_csv` reads as NaN by default (its default `na_values` in pandas 1.x). */
  const NaStrings: seq<string> := ["", "#N/A", "#N/A N/A", "#NA", "-1.#IND", "-1.#QNAN", "-NaN", "-nan",
                                   "1.#IND", "1.#QNAN", "<NA>", "N/A", "NA", "NULL", "NaN", "n/a",
                                   "nan", "null"]

  /** The building label: the first-row cell of the first label column present, else the file
      stem up to its first underscore. A first cell that `read_csv` read as NaN gives the NaN
      label, which `building is None` lets through. None stands for the `IndexError` that
      `iloc[0]` raises when the label column has no rows. */
  function BuildingLabel(t: Table, fileName: string): (r: Option<Label>)
    ensures FirstPresent(LabelNames, Names(t)).None? ==> r == Some(Name(Text.BeforeFirst(Stem(fileName), '_')))
    ensures FirstPresent(LabelNames, Names(t)).Some? ==>
      (r.None? <==> RowCount(t) == 0) &&
      (r.Some? ==> var cell := ColumnNamed(t, FirstPresent(LabelNames, Names(t)).value).cells[0];
         (r.value.Missing? <==> cell in NaStrings) && (r.value.Name? ==> r.value.name == cell))
  {
    match FirstPresent(LabelNames, Names(t))
    case Some(col) =>
      var c := ColumnNamed(t, col);
      if |c.cells| == 0 then None
      else if c.cells[0] in NaStrings then Some(Missing)
      else Some(Name(c.cells[0]))
    case None => Some(Name(Text.BeforeFirst(Stem(fileName), '_')))
  }
}
