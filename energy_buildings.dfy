/** The object model over the combined frame: a `Building` holds its meter readings and a
    `BuildingManager` holds one `Building` per label, filled row by row. Unlike the group-by,
    the manager's dict keeps the rows whose label is NaN; the model files them under the one
    label `Missing`. */
module EnergyBuildings {
  import RealStats
  import Grouping
  import opened EnergyIngest
  import opened EnergyColumns
  import EnergyAggregate

  /** One reading of a meter: an instant and a value. */
  datatype MeterReading = MeterReading(timestamp: int, kwh: real)

  function MeterKwh(): MeterReading -> real
  {
    (m: MeterReading) => m.kwh
  }

  /** The meter readings of a sequence of frame rows, in row order. */
  function Meters(rows: seq<Reading>): (r: seq<MeterReading>)
    ensures |r| == |rows|
    ensures forall i :: 0 <= i < |rows| ==> r[i] == MeterReading(rows[i].timestamp, rows[i].kwh)
  {
    seq(|rows|, i requires 0 <= i < |rows| => MeterReading(rows[i].timestamp, rows[i].kwh))
  }

  lemma {:induction false} MetersSnoc(rows: seq<Reading>, x: Reading)
    ensures Meters(rows + [x]) == Meters(rows) + [MeterReading(x.timestamp, x.kwh)]
  {
  }

  class Building {
    const name: Label
    var meterReadings: seq<MeterReading>

    constructor (name: Label)
      ensures this.name == name && meterReadings == []
    {
      this.name := name;
      meterReadings := [];
    }

    /** `add_reading`: the new reading goes at the end. */
    method AddReading(timestamp: int, kwh: real)
      modifies this
      ensures meterReadings == old(meterReadings) + [MeterReading(timestamp, kwh)]
    {
      meterReadings := meterReadings + [MeterReading(timestamp, kwh)];
    }

    /** `calculate_total_consumption`: the sum of the readings' values (0 with none). */
    function TotalConsumption(): (total: real)
      reads this
      ensures meterReadings == [] ==> total == 0.0
    {
      RealStats.Sum(Grouping.Values(meterReadings, MeterKwh()))
    }
  }

  class BuildingManager {
    var buildings: map<Label, Building>

    /** Each building is filed under its own label, so distinct labels hold distinct objects. */
    ghost predicate Valid()
      reads this, buildings.Values
    {
      forall k :: k in buildings ==> buildings[k].name == k
    }

    constructor ()
      ensures buildings == map[] && Valid()
    {
      buildings := map[];
    }

    /** The reading list of every building, by label. */
    ghost function Readings(): (r: map<Label, seq<MeterReading>>)
      reads this, buildings.Values
    {
      map k | k in buildings :: buildings[k].meterReadings
    }

    /** One iteration of `ingest_dataframe`: create the building on first sight of its name,
        then append the reading to it. */
    method AddRow(row: Reading)
      requires Valid()
      modifies this, buildings.Values
      ensures Valid()
      ensures forall k :: k in old(buildings) ==> k in buildings && buildings[k] == old(buildings[k])
      ensures forall k :: k in buildings && k !in old(buildings) ==> fresh(buildings[k])
      ensures Readings() == Append(old(Readings()), row)
    {
      if row.building !in buildings {
        var nb := new Building(row.building);
        buildings := buildings[row.building := nb];
      }
      ghost var mid := Readings();
      var b := buildings[row.building];
      b.AddReading(row.timestamp, row.kwh);
      forall k | k in buildings && k != row.building ensures buildings[k].meterReadings == mid[k] {
        assert buildings[k].name != b.name;
      }
    }

    /** `ingest_dataframe`: every row's reading is appended, in row order, to the building of
        its name, which is created the first time the name is seen. Buildings already present
        stay the same objects; all new ones are fresh. */
    method IngestDataframe(rows: seq<Reading>)
      requires Valid()
      modifies this, buildings.Values
      ensures Valid()
      ensures forall k :: k in old(buildings) ==> k in buildings && buildings[k] == old(buildings[k])
      ensures forall k :: k in buildings && k !in old(buildings) ==> fresh(buildings[k])
      ensures Readings() == Expected(old(Readings()), rows)
    {
      ghost var oldB := buildings;
      ghost var prior := Readings();
      ExpectedNil(prior);
      for i := 0 to |rows|
        invariant Valid()
        invariant forall k :: k in oldB ==> k in buildings && buildings[k] == oldB[k]
        invariant forall k :: k in buildings && k !in oldB ==> fresh(buildings[k])
        invariant Readings() == Expected(prior, rows[..i])
      {
        ghost var before := Readings();
        AddRow(rows[i]);
        ExpectedSnoc(prior, rows[..i], rows[i]);
        assert rows[..i + 1] == rows[..i] + [rows[i]];
        assert Readings() == Append(before, rows[i]);
      }
      assert rows[..|rows|] == rows;
    }
  }

  /** The reading lists after one more row: the row's reading at the end of its building's list,
      a new list for a new label. */
  function Append(readings: map<Label, seq<MeterReading>>, row: Reading): map<Label, seq<MeterReading>>
  {
    readings[row.building := Prior(readings, row.building) + [MeterReading(row.timestamp, row.kwh)]]
  }

  function Prior(readings: map<Label, seq<MeterReading>>, k: Label): seq<MeterReading>
  {
    if k in readings then readings[k] else []
  }

  /** The labels the rows carry. */
  function LabelSet(rows: seq<Reading>): set<Label>
  {
    set i | 0 <= i < |rows| :: rows[i].building
  }

  /** The rows of one label in row order, NaN included: the dict of `ingest_dataframe` does not
      drop them as the group-by does. */
  function LabelRows(rows: seq<Reading>, k: Label): seq<Reading>
  {
    Grouping.Where(rows, EnergyAggregate.BuildingOf(), k)
  }

  /** Every label of the rows, each once, in order of first occurrence. */
  function AllLabels(rows: seq<Reading>): seq<Label>
  {
    Grouping.Distinct(rows, EnergyAggregate.BuildingOf())
  }

  /** What `ingest_dataframe` leaves behind, starting from `prior`: one list per label seen
      before or in `rows`, each the earlier list followed by the readings of that label's rows
      in row order. */
  function Expected(prior: map<Label, seq<MeterReading>>, rows: seq<Reading>): (r: map<Label, seq<MeterReading>>)
  {
    map k | k in prior.Keys + LabelSet(rows) :: Prior(prior, k) + Meters(LabelRows(rows, k))
  }

  lemma {:induction false} ExpectedNil(prior: map<Label, seq<MeterReading>>)
    ensures Expected(prior, []) == prior
  {
    assert LabelSet([]) == {};
    forall k | k in prior ensures Expected(prior, [])[k] == prior[k] {
      Grouping.WhereNone<Reading, Label>([], EnergyAggregate.BuildingOf(), k);
    }
  }

  lemma {:induction false} LabelSetSnoc(rows: seq<Reading>, row: Reading)
    ensures LabelSet(rows + [row]) == LabelSet(rows) + {row.building}
  {
    assert forall i :: 0 <= i < |rows| ==> (rows + [row])[i] == rows[i];
    assert (rows + [row])[|rows|] == row;
  }

  /** One list of `Expected` after one more row. */
  lemma {:induction false} ExpectedSnocAt(prior: map<Label, seq<MeterReading>>, rows: seq<Reading>, row: Reading, k: Label)
    requires k in prior.Keys + LabelSet(rows) + {row.building}
    ensures Prior(prior, k) + Meters(LabelRows(rows + [row], k)) == Append(Expected(prior, rows), row)[k]
  {
    var e := Expected(prior, rows);
    var m := MeterReading(row.timestamp, row.kwh);
    var g := LabelRows(rows, k);
    Grouping.WhereSnoc(rows, row, EnergyAggregate.BuildingOf(), k);
    if k == row.building {
      MetersSnoc(g, row);
      if k in e {
        assert Append(e, row)[k] == (Prior(prior, k) + Meters(g)) + [m];
      } else {
        NewLabelHasNoRows(rows, k);
        assert Append(e, row)[k] == [m];
      }
    } else {
      assert LabelRows(rows + [row], k) == g + [];
      assert g + [] == g;
      assert Append(e, row)[k] == e[k];
    }
  }

  lemma {:induction false} ExpectedSnoc(prior: map<Label, seq<MeterReading>>, rows: seq<Reading>, row: Reading)
    ensures Expected(prior, rows + [row]) == Append(Expected(prior, rows), row)
  {
    var e, e1 := Expected(prior, rows), Expected(prior, rows + [row]);
    LabelSetSnoc(rows, row);
    assert e1.Keys == Append(e, row).Keys;
    forall k | k in e1 ensures e1[k] == Append(e, row)[k] {
      ExpectedSnocAt(prior, rows, row, k);
    }
  }

  /** A label that no row carries has no rows. */
  lemma {:induction false} NewLabelHasNoRows(rows: seq<Reading>, k: Label)
    requires k !in LabelSet(rows)
    ensures LabelRows(rows, k) == []
  {
    forall j | 0 <= j < |rows| ensures EnergyAggregate.BuildingOf()(rows[j]) != k {
      assert rows[j].building in LabelSet(rows);
    }
    Grouping.WhereNone(rows, EnergyAggregate.BuildingOf(), k);
  }

  /** Ingesting a frame into an empty manager creates exactly one building per distinct label. */
  lemma {:induction false} FreshManagerNames(rows: seq<Reading>)
    ensures Expected(map[], rows).Keys == set k | k in AllLabels(rows)
  {
    var ks := AllLabels(rows);
    forall k | k in LabelSet(rows) ensures k in ks {
      var i :| 0 <= i < |rows| && rows[i].building == k;
      assert EnergyAggregate.BuildingOf()(rows[i]) in ks;
    }
    forall k | k in ks ensures k in LabelSet(rows) {
      var j :| 0 <= j < |ks| && ks[j] == k;
      var i :| 0 <= i < |rows| && EnergyAggregate.BuildingOf()(rows[i]) == ks[j];
      assert rows[i].building in LabelSet(rows);
    }
  }

  /** Filled from an empty manager, the list of a label holds exactly the readings of its rows. */
  lemma {:induction false} FreshListIsGroup(rows: seq<Reading>, b: Label)
    requires b in LabelSet(rows)
    ensures b in Expected(map[], rows) && Expected(map[], rows)[b] == Meters(LabelRows(rows, b))
  {
    var g := Meters(LabelRows(rows, b));
    assert Prior(map[], b) == [];
    assert [] + g == g;
  }

  /** For a named building the manager's rows and the group-by's rows are the same. */
  lemma {:induction false} NamedLabelRows(rows: seq<Reading>, b: Label)
    requires b in EnergyAggregate.Buildings(rows)
    ensures b in LabelSet(rows) && LabelRows(rows, b) == EnergyAggregate.RowsOf(rows, b)
  {
    EnergyAggregate.BuildingsAreNames(rows, b);
    var i :| 0 <= i < |rows| && rows[i].building == b;
    assert rows[i].building in LabelSet(rows);
    Grouping.WhereWithin(rows, EnergyAggregate.HasName(), true, EnergyAggregate.BuildingOf(), b);
  }

  lemma {:induction false} MetersKwhValues(g: seq<Reading>)
    ensures Grouping.Values(Meters(g), MeterKwh()) == Grouping.Values(g, EnergyAggregate.Kwh())
  {
    assert forall i :: 0 <= i < |g| ==> Grouping.Values(Meters(g), MeterKwh())[i] == Grouping.Values(g, EnergyAggregate.Kwh())[i];
  }

  /** After ingesting a frame into an empty manager, each building of the summary holds as many
      readings as the summary counts for it, and they sum to its `total_kwh`. */
  lemma {:induction false} FreshManagerMatchesSummary(rows: seq<Reading>, b: Label)
    requires b in EnergyAggregate.Buildings(rows)
    ensures b in Expected(map[], rows)
    ensures |Expected(map[], rows)[b]| == EnergyAggregate.GroupStats(rows, b).samples
    ensures RealStats.Sum(Grouping.Values(Expected(map[], rows)[b], MeterKwh())) == EnergyAggregate.GroupStats(rows, b).totalKwh
  {
    NamedLabelRows(rows, b);
    FreshListIsGroup(rows, b);
    MetersKwhValues(EnergyAggregate.RowsOf(rows, b));
  }

  /** `calculate_total_consumption` of a building filled from a frame by an empty manager is
      that building's `total_kwh` in the summary. */
  lemma {:induction false} TotalConsumptionMatchesSummary(m: BuildingManager, rows: seq<Reading>, b: Label)
    requires m.Readings() == Expected(map[], rows)
    requires b in EnergyAggregate.Buildings(rows)
    ensures b in m.buildings && m.buildings[b].TotalConsumption() == EnergyAggregate.GroupStats(rows, b).totalKwh
  {
    FreshManagerMatchesSummary(rows, b);
  }

  /** The lengths of the lists filed under `ks`, added up. */
  function ListSizes(readings: map<Label, seq<MeterReading>>, ks: seq<Label>): nat
    requires forall k :: k in ks ==> k in readings
  {
    if ks == [] then 0 else |readings[ks[0]]| + ListSizes(readings, ks[1..])
  }

  lemma {:induction false} FreshListSizes(rows: seq<Reading>, ks: seq<Label>)
    requires forall k :: k in ks ==> k in LabelSet(rows)
    ensures forall k :: k in ks ==> k in Expected(map[], rows)
    ensures ListSizes(Expected(map[], rows), ks) == Grouping.CountGroups(ks, rows, EnergyAggregate.BuildingOf())
  {
    if ks != [] {
      FreshListIsGroup(rows, ks[0]);
      assert forall k :: k in ks[1..] ==> k in ks;
      FreshListSizes(rows, ks[1..]);
    }
  }

  /** A manager filled from a frame, starting empty, has one list per label of the frame, and
      the lengths of all its lists add up to the number of rows: every row's reading is filed
      once. */
  lemma {:induction false} ManagerCountsMatchRows(m: BuildingManager, rows: seq<Reading>)
    requires m.Readings() == Expected(map[], rows)
    ensures m.buildings.Keys == set k | k in AllLabels(rows)
    ensures (forall k :: k in AllLabels(rows) ==> k in m.Readings()) && ListSizes(m.Readings(), AllLabels(rows)) == |rows|
  {
    var ks := AllLabels(rows);
    FreshManagerNames(rows);
    assert m.buildings.Keys == m.Readings().Keys;
    forall k | k in ks ensures k in LabelSet(rows) {
      assert k in Expected(map[], rows).Keys;
    }
    FreshListSizes(rows, ks);
    assert forall i :: 0 <= i < |rows| ==> EnergyAggregate.BuildingOf()(rows[i]) in ks;
    Grouping.PartitionCount(ks, rows, EnergyAggregate.BuildingOf());
  }
}
