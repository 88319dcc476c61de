/** Aggregation of the combined frame: per-building statistics, per-period (day, week, hour)
    totals, and the top-building and peak-hour rules of the campus summary. Period bucketing
    is an abstract function from an instant to the start of its period. `groupby('building')`
    drops the rows whose label is NaN, so every per-building figure is over the named rows,
    while the campus total and the hourly peak are over all rows. */
module EnergyAggregate {
  import RealStats
  import Grouping
  import Search
  import opened EnergyIngest
  import opened EnergyColumns

  function BuildingOf(): Reading -> Label
  {
    (x: Reading) => x.building
  }

  function HasName(): Reading -> bool
  {
    (x: Reading) => x.building.Name?
  }

  /** The rows `groupby('building')` keeps: those whose label is not NaN, in frame order. */
  function Named(rows: seq<Reading>): seq<Reading>
  {
    Grouping.Where(rows, HasName(), true)
  }

  /** The rows whose label is NaN. */
  function Unnamed(rows: seq<Reading>): seq<Reading>
  {
    Grouping.Where(rows, HasName(), false)
  }

  function Kwh(): Reading -> real
  {
    (x: Reading) => x.kwh
  }

  /** The group keys of `groupby('building')`, each building once. */
  function Buildings(rows: seq<Reading>): seq<Label>
  {
    Grouping.Distinct(Named(rows), BuildingOf())
  }

  /** The rows of one building, in frame order. */
  function RowsOf(rows: seq<Reading>, b: Label): seq<Reading>
  {
    Grouping.Where(Named(rows), BuildingOf(), b)
  }

  /** A row of `building_wise_summary`. */
  datatype BuildingStats = BuildingStats(building: Label, meanKwh: real, minKwh: real, maxKwh: real,
                                         totalKwh: real, samples: nat)

  /** The group keys are exactly the names that label some row; NaN is never one. */
  lemma {:induction false} BuildingsAreNames(rows: seq<Reading>, b: Label)
    ensures b in Buildings(rows) <==> b.Name? && exists i :: 0 <= i < |rows| && rows[i].building == b
  {
    var named := Named(rows);
    if b in Buildings(rows) {
      var j :| 0 <= j < |Buildings(rows)| && Buildings(rows)[j] == b;
      var i :| 0 <= i < |named| && BuildingOf()(named[i]) == b;
      assert named[i] in named;
      var i' :| 0 <= i' < |rows| && rows[i'] == named[i];
    }
    if b.Name? && exists i :: 0 <= i < |rows| && rows[i].building == b {
      var i :| 0 <= i < |rows| && rows[i].building == b;
      assert HasName()(rows[i]);
      assert rows[i] in named;
      var j :| 0 <= j < |named| && named[j] == rows[i];
      assert BuildingOf()(named[j]) in Buildings(rows);
    }
  }

  /** Every building of the frame has at least one row. */
  lemma {:induction false} RowsOfNonEmpty(rows: seq<Reading>, b: Label)
    requires b in Buildings(rows)
    ensures |RowsOf(rows, b)| > 0
  {
    var named := Named(rows);
    var j :| 0 <= j < |Buildings(rows)| && Buildings(rows)[j] == b;
    var i :| 0 <= i < |named| && BuildingOf()(named[i]) == b;
    assert named[i] in RowsOf(rows, b);
  }

  /** The `agg` of one non-empty group of readings: count, sum, extremes and mean. */
  function StatsOf(b: Label, g: seq<Reading>): (st: BuildingStats)
    requires |g| > 0
    ensures st.building == b
    ensures st.samples == |g|
    ensures st.totalKwh == RealStats.Sum(Grouping.Values(g, Kwh()))
    ensures st.meanKwh == st.totalKwh / (st.samples as real)
  {
    var vs := Grouping.Values(g, Kwh());
    BuildingStats(b, RealStats.Mean(vs), RealStats.Min(vs), RealStats.Max(vs), RealStats.Sum(vs), |g|)
  }

  /** `min_kwh` and `max_kwh` are readings of the group and bound all of them, with `mean_kwh`
      between the two. */
  lemma {:induction false} StatsBounds(b: Label, g: seq<Reading>)
    requires |g| > 0
    ensures var st := StatsOf(b, g);
      (forall x :: x in g ==> st.minKwh <= x.kwh <= st.maxKwh) &&
      (exists x :: x in g && x.kwh == st.minKwh) && (exists x :: x in g && x.kwh == st.maxKwh) &&
      st.minKwh <= st.meanKwh <= st.maxKwh
  {
    var vs := Grouping.Values(g, Kwh());
    var lo, hi := RealStats.Min(vs), RealStats.Max(vs);
    assert lo <= RealStats.Mean(vs) <= hi by { RealStats.MeanBetween(vs); }
    ValuesBetween(g, lo, hi);
    ValueAttained(g, lo);
    ValueAttained(g, hi);
  }

  lemma {:induction false} ValuesBetween(g: seq<Reading>, lo: real, hi: real)
    requires forall i :: 0 <= i < |g| ==> lo <= Grouping.Values(g, Kwh())[i] <= hi
    ensures forall x :: x in g ==> lo <= x.kwh <= hi
  {
    forall x | x in g ensures lo <= x.kwh <= hi {
      var i :| 0 <= i < |g| && g[i] == x;
      assert Grouping.Values(g, Kwh())[i] == x.kwh;
    }
  }

  lemma {:induction false} ValueAttained(g: seq<Reading>, v: real)
    requires v in Grouping.Values(g, Kwh())
    ensures exists x :: x in g && x.kwh == v
  {
    var i :| 0 <= i < |g| && Grouping.Values(g, Kwh())[i] == v;
    assert g[i] in g;
  }

  /** The `agg` row of building `b`. */
  function GroupStats(rows: seq<Reading>, b: Label): (st: BuildingStats)
    requires b in Buildings(rows)
    ensures |RowsOf(rows, b)| > 0 && st == StatsOf(b, RowsOf(rows, b))
  {
    RowsOfNonEmpty(rows, b);
    StatsOf(b, RowsOf(rows, b))
  }

  function StatsFor(rows: seq<Reading>, ks: seq<Label>): (r: seq<BuildingStats>)
    requires forall k :: k in ks ==> k in Buildings(rows)
    ensures |r| == |ks|
    ensures forall i :: 0 <= i < |ks| ==> r[i] == GroupStats(rows, ks[i])
  {
    if ks == [] then [] else [GroupStats(rows, ks[0])] + StatsFor(rows, ks[1..])
  }

  /** `building_wise_summary`: the `agg` row of every building, in key order; none for an
      empty frame, nor for one whose every label is NaN. */
  function BuildingWiseSummary(rows: seq<Reading>): (r: seq<BuildingStats>)
    ensures |r| == |Buildings(rows)|
    ensures forall j :: 0 <= j < |r| ==> r[j] == GroupStats(rows, Buildings(rows)[j])
    ensures r == [] <==> forall i :: 0 <= i < |rows| ==> rows[i].building.Missing?
  {
    var ks := Buildings(rows);
    assert ks == [] <==> forall i :: 0 <= i < |rows| ==> rows[i].building.Missing? by {
      forall i | 0 <= i < |rows| && rows[i].building.Name? ensures ks != [] {
        BuildingsAreNames(rows, rows[i].building);
      }
      if ks != [] {
        BuildingsAreNames(rows, ks[0]);
      }
    }
    if rows == [] then [] else StatsFor(rows, ks)
  }

  /** One summary row per building of the frame, each building once, each row the statistics
      of its own building's readings. */
  lemma {:induction false} BuildingWiseSummaryRows(rows: seq<Reading>)
    ensures var r := BuildingWiseSummary(rows);
      (forall i, j :: 0 <= i < j < |r| ==> r[i].building != r[j].building) &&
      (forall i :: 0 <= i < |rows| && rows[i].building.Name? ==>
         exists j :: 0 <= j < |r| && r[j].building == rows[i].building) &&
      (forall j :: 0 <= j < |r| ==>
         r[j].building.Name? && r[j].building in Buildings(rows) && r[j] == GroupStats(rows, r[j].building))
  {
    var ks := Buildings(rows);
    var r := BuildingWiseSummary(rows);
    forall j | 0 <= j < |r| ensures r[j].building == ks[j] && r[j].building.Name? {
      assert r[j] == GroupStats(rows, ks[j]);
      BuildingsAreNames(rows, ks[j]);
    }
    forall i | 0 <= i < |rows| && rows[i].building.Name?
      ensures exists j :: 0 <= j < |r| && r[j].building == rows[i].building
    {
      BuildingsAreNames(rows, rows[i].building);
      var j :| 0 <= j < |ks| && ks[j] == rows[i].building;
      assert r[j].building == rows[i].building;
    }
  }

  function TotalOf(): BuildingStats -> real
  {
    (st: BuildingStats) => st.totalKwh
  }

  function SamplesOf(): BuildingStats -> real
  {
    (st: BuildingStats) => st.samples as real
  }

  lemma {:induction false} StatsForTotals(rows: seq<Reading>, ks: seq<Label>)
    requires forall k :: k in ks ==> k in Buildings(rows)
    ensures RealStats.Sum(Grouping.Values(StatsFor(rows, ks), TotalOf())) == Grouping.SumGroups(ks, Named(rows), BuildingOf(), Kwh())
  {
    if ks != [] {
      var st := GroupStats(rows, ks[0]);
      var rest := StatsFor(rows, ks[1..]);
      assert StatsFor(rows, ks) == [st] + rest;
      StatsForTotals(rows, ks[1..]);
      Grouping.ValuesCons(st, rest, TotalOf());
      RealStats.SumCons(st.totalKwh, Grouping.Values(rest, TotalOf()));
    }
  }

  lemma {:induction false} StatsForSamples(rows: seq<Reading>, ks: seq<Label>)
    requires forall k :: k in ks ==> k in Buildings(rows)
    ensures RealStats.Sum(Grouping.Values(StatsFor(rows, ks), SamplesOf())) == Grouping.CountGroups(ks, Named(rows), BuildingOf()) as real
  {
    if ks != [] {
      var st := GroupStats(rows, ks[0]);
      var rest := StatsFor(rows, ks[1..]);
      assert StatsFor(rows, ks) == [st] + rest;
      StatsForSamples(rows, ks[1..]);
      Grouping.ValuesCons(st, rest, SamplesOf());
      RealStats.SumCons(st.samples as real, Grouping.Values(rest, SamplesOf()));
    }
  }

  /** The buildings' totals add up to the total of the named rows, and their sample counts to
      the number of named rows. */
  lemma {:induction false} SummaryCoversNamedRows(rows: seq<Reading>)
    ensures RealStats.Sum(Grouping.Values(BuildingWiseSummary(rows), TotalOf())) == RealStats.Sum(Grouping.Values(Named(rows), Kwh()))
    ensures RealStats.Sum(Grouping.Values(BuildingWiseSummary(rows), SamplesOf())) == |Named(rows)| as real
  {
    var ks := Buildings(rows);
    var named := Named(rows);
    if rows == [] {
      assert BuildingWiseSummary(rows) == [];
      assert named == [];
    } else {
      StatsForTotals(rows, ks);
      StatsForSamples(rows, ks);
    }
    assert forall i :: 0 <= i < |named| ==> BuildingOf()(named[i]) in ks;
    Grouping.PartitionSum(ks, named, BuildingOf(), Kwh());
    Grouping.PartitionCount(ks, named, BuildingOf());
  }

  /** The campus total (line 203's sum over every row) is the buildings' totals plus the
      readings whose label is NaN, and the row count is their samples plus those rows. When
      every row is named, the buildings' totals and samples are the campus total and the row
      count. */
  lemma {:induction false} SummaryPartitionsFrame(rows: seq<Reading>)
    ensures RealStats.Sum(Grouping.Values(BuildingWiseSummary(rows), TotalOf())) + RealStats.Sum(Grouping.Values(Unnamed(rows), Kwh()))
         == RealStats.Sum(Grouping.Values(rows, Kwh()))
    ensures RealStats.Sum(Grouping.Values(BuildingWiseSummary(rows), SamplesOf())) + |Unnamed(rows)| as real == |rows| as real
    ensures (forall i :: 0 <= i < |rows| ==> rows[i].building.Name?) ==>
      RealStats.Sum(Grouping.Values(BuildingWiseSummary(rows), TotalOf())) == RealStats.Sum(Grouping.Values(rows, Kwh())) &&
      RealStats.Sum(Grouping.Values(BuildingWiseSummary(rows), SamplesOf())) == |rows| as real
  {
    SummaryCoversNamedRows(rows);
    Grouping.SplitByTest(rows, HasName(), Kwh());
    if forall i :: 0 <= i < |rows| ==> rows[i].building.Name? {
      assert forall i :: 0 <= i < |rows| ==> HasName()(rows[i]) != false;
      Grouping.WhereNone(rows, HasName(), false);
      assert Grouping.Values(Unnamed(rows), Kwh()) == [];
    }
  }

  /** One period of a resample: its bucket, the sum of its readings and their count. */
  datatype PeriodSum = PeriodSum(period: int, total: real, samples: nat)

  function PeriodOf(bucket: int -> int): Reading -> int
  {
    (x: Reading) => bucket(x.timestamp)
  }

  /** The readings of `g` that fall in period `p`. */
  function InPeriod(g: seq<Reading>, bucket: int -> int, p: int): seq<Reading>
  {
    Grouping.Where(g, PeriodOf(bucket), p)
  }

  function Periodize(g: seq<Reading>, ps: seq<int>, bucket: int -> int): (r: seq<PeriodSum>)
    ensures |r| == |ps|
    ensures forall i :: 0 <= i < |ps| ==> (r[i].period == ps[i] &&
      r[i].total == RealStats.Sum(Grouping.Values(InPeriod(g, bucket, ps[i]), Kwh())) &&
      r[i].samples == |InPeriod(g, bucket, ps[i])|)
  {
    if ps == [] then []
    else
      var here := InPeriod(g, bucket, ps[0]);
      [PeriodSum(ps[0], RealStats.Sum(Grouping.Values(here, Kwh())), |here|)] + Periodize(g, ps[1..], bucket)
  }

  /** `resample(...).sum()` of one group: a total per occupied period. */
  function Resample(g: seq<Reading>, bucket: int -> int): (r: seq<PeriodSum>)
    ensures forall i, j :: 0 <= i < j < |r| ==> r[i].period != r[j].period
    ensures forall i :: 0 <= i < |g| ==> exists j :: 0 <= j < |r| && r[j].period == bucket(g[i].timestamp)
    ensures forall j :: 0 <= j < |r| ==> r[j].samples > 0
  {
    var ps := Grouping.Distinct(g, PeriodOf(bucket));
    var r := Periodize(g, ps, bucket);
    assert forall i :: 0 <= i < |g| ==> PeriodOf(bucket)(g[i]) in ps;
    assert forall j :: 0 <= j < |r| ==> r[j].samples > 0 by {
      forall j | 0 <= j < |r| ensures r[j].samples > 0 {
        var i :| 0 <= i < |g| && PeriodOf(bucket)(g[i]) == ps[j];
        assert g[i] in InPeriod(g, bucket, ps[j]);
      }
    }
    r
  }

  function PeriodTotal(): PeriodSum -> real
  {
    (p: PeriodSum) => p.total
  }

  lemma {:induction false} PeriodizeSums(g: seq<Reading>, ps: seq<int>, bucket: int -> int)
    ensures RealStats.Sum(Grouping.Values(Periodize(g, ps, bucket), PeriodTotal()))
         == Grouping.SumGroups(ps, g, PeriodOf(bucket), Kwh())
  {
    if ps != [] {
      var here := InPeriod(g, bucket, ps[0]);
      var p := PeriodSum(ps[0], RealStats.Sum(Grouping.Values(here, Kwh())), |here|);
      var rest := Periodize(g, ps[1..], bucket);
      PeriodizeSums(g, ps[1..], bucket);
      Grouping.ValuesCons(p, rest, PeriodTotal());
      RealStats.SumCons(p.total, Grouping.Values(rest, PeriodTotal()));
    }
  }

  /** Resampling a group loses and duplicates no reading: the period totals add up to the
      group's total. */
  lemma {:induction false} ResampleKeepsTotal(g: seq<Reading>, bucket: int -> int)
    ensures RealStats.Sum(Grouping.Values(Resample(g, bucket), PeriodTotal())) == RealStats.Sum(Grouping.Values(g, Kwh()))
  {
    var ps := Grouping.Distinct(g, PeriodOf(bucket));
    PeriodizeSums(g, ps, bucket);
    assert forall i :: 0 <= i < |g| ==> PeriodOf(bucket)(g[i]) in ps;
    Grouping.PartitionSum(ps, g, PeriodOf(bucket), Kwh());
  }

  /** The mean of a period's readings (`weekly_mean`) lies between their minimum and maximum. */
  lemma {:induction false} PeriodMeanBetween(g: seq<Reading>, bucket: int -> int, j: nat)
    requires j < |Resample(g, bucket)|
    ensures var p := Resample(g, bucket)[j];
      var vs := Grouping.Values(InPeriod(g, bucket, p.period), Kwh());
      |vs| == p.samples > 0 && p.total == RealStats.Sum(vs) &&
      RealStats.Min(vs) <= p.total / (p.samples as real) <= RealStats.Max(vs)
  {
    var p := Resample(g, bucket)[j];
    var vs := Grouping.Values(InPeriod(g, bucket, p.period), Kwh());
    RealStats.MeanBetween(vs);
  }

  /** A row of the daily or weekly frame: a building and one of its periods. */
  datatype BuildingPeriod = BuildingPeriod(building: Label, stats: PeriodSum)

  function Tag(b: Label, ps: seq<PeriodSum>): (r: seq<BuildingPeriod>)
    ensures |r| == |ps| && forall i :: 0 <= i < |ps| ==> r[i] == BuildingPeriod(b, ps[i])
  {
    seq(|ps|, i requires 0 <= i < |ps| => BuildingPeriod(b, ps[i]))
  }

  /** The periods of building `k`, tagged with its name. */
  function BlockOf(rows: seq<Reading>, bucket: int -> int): Label -> seq<BuildingPeriod>
  {
    k => Tag(k, Resample(RowsOf(rows, k), bucket))
  }

  /** `groupby('building').resample(bucket)`: each building's periods, building after
      building. `calculate_daily_totals` is this with a day bucket and reads `total`;
      `calculate_weekly_aggregates` is it with a week bucket and reads `total` as
      `weekly_sum` and `total / samples` as `weekly_mean`. Both are empty on an empty frame,
      and on a frame whose every label is NaN, since the group-by drops those rows. */
  function GroupResample(rows: seq<Reading>, bucket: int -> int): (r: seq<BuildingPeriod>)
    ensures (forall i :: 0 <= i < |rows| ==> rows[i].building.Missing?) ==> r == []
  {
    assert (forall i :: 0 <= i < |rows| ==> rows[i].building.Missing?) ==> Buildings(rows) == [] by {
      assert |BuildingWiseSummary(rows)| == |Buildings(rows)|;
    }
    Grouping.ConcatMap(Buildings(rows), BlockOf(rows, bucket))
  }

  function PeriodBuilding(): BuildingPeriod -> Label
  {
    (e: BuildingPeriod) => e.building
  }

  function EntryTotal(): BuildingPeriod -> real
  {
    (e: BuildingPeriod) => e.stats.total
  }

  lemma {:induction false} TagBuilding(b: Label, ps: seq<PeriodSum>)
    ensures forall i :: 0 <= i < |Tag(b, ps)| ==> PeriodBuilding()(Tag(b, ps)[i]) == b
    ensures Grouping.Values(Tag(b, ps), EntryTotal()) == Grouping.Values(ps, PeriodTotal())
  {
  }

  /** Every entry of the block of `k` is tagged `k`. */
  lemma {:induction false} BlockKeys(rows: seq<Reading>, bucket: int -> int, k: Label)
    ensures forall i :: 0 <= i < |BlockOf(rows, bucket)(k)| ==> PeriodBuilding()(BlockOf(rows, bucket)(k)[i]) == k
  {
    TagBuilding(k, Resample(RowsOf(rows, k), bucket));
  }

  /** Every block of the daily (or weekly) frame is tagged with its own key. */
  lemma {:induction false} BlocksTagged(rows: seq<Reading>, bucket: int -> int, ks: seq<Label>)
    ensures forall j, i :: 0 <= j < |ks| && 0 <= i < |BlockOf(rows, bucket)(ks[j])| ==>
      PeriodBuilding()(BlockOf(rows, bucket)(ks[j])[i]) == ks[j]
  {
    forall j | 0 <= j < |ks|
      ensures forall i :: 0 <= i < |BlockOf(rows, bucket)(ks[j])| ==> PeriodBuilding()(BlockOf(rows, bucket)(ks[j])[i]) == ks[j]
    {
      BlockKeys(rows, bucket, ks[j]);
    }
  }

  /** The periods of one building in the daily (or weekly) frame are exactly its own resample. */
  lemma {:induction false} BuildingPeriodsSelect(rows: seq<Reading>, bucket: int -> int, b: Label)
    requires b in Buildings(rows)
    ensures Grouping.Where(GroupResample(rows, bucket), PeriodBuilding(), b) == Tag(b, Resample(RowsOf(rows, b), bucket))
  {
    var ks, block := Buildings(rows), BlockOf(rows, bucket);
    BlocksTagged(rows, bucket, ks);
    Grouping.SelectBlock(ks, block, PeriodBuilding(), b);
    BlockOfIs(rows, bucket, b);
  }

  lemma {:induction false} BlockOfIs(rows: seq<Reading>, bucket: int -> int, b: Label)
    ensures BlockOf(rows, bucket)(b) == Tag(b, Resample(RowsOf(rows, b), bucket))
  {
  }

  /** The period totals of one building in the daily (or weekly) frame add up to that
      building's `total_kwh`. */
  lemma {:induction false} BuildingPeriodsSumToTotal(rows: seq<Reading>, bucket: int -> int, b: Label)
    requires b in Buildings(rows)
    ensures RealStats.Sum(Grouping.Values(Grouping.Where(GroupResample(rows, bucket), PeriodBuilding(), b), EntryTotal()))
         == GroupStats(rows, b).totalKwh
  {
    var ps := Resample(RowsOf(rows, b), bucket);
    BuildingPeriodsSelect(rows, bucket, b);
    TagBuilding(b, ps);
    ResampleKeepsTotal(RowsOf(rows, b), bucket);
  }

  /** What `compose_summary` reports, leaving out its text and clock. */
  datatype Summary = NoData | Report(total: real, top: BuildingStats, peak: PeriodSum)

  /** `compose_summary`: "No data available." when the frame or its building summary is empty,
      that is when no row has a named building; otherwise the campus total over every row, a
      building whose `total_kwh` no other building exceeds, and an hour whose total no other
      hour exceeds. */
  function ComposeSummary(rows: seq<Reading>, hour: int -> int): (s: Summary)
    ensures s.NoData? <==> forall i :: 0 <= i < |rows| ==> rows[i].building.Missing?
    ensures s.Report? ==> s.total == RealStats.Sum(Grouping.Values(rows, Kwh()))
    ensures s.Report? ==> (s.top in BuildingWiseSummary(rows) &&
      forall st :: st in BuildingWiseSummary(rows) ==> st.totalKwh <= s.top.totalKwh)
    ensures s.Report? ==> (s.peak in Resample(rows, hour) &&
      forall p :: p in Resample(rows, hour) ==> p.total <= s.peak.total)
  {
    if rows == [] || BuildingWiseSummary(rows) == [] then NoData
    else
      var summary := BuildingWiseSummary(rows);
      var hourly := Resample(rows, hour);
      assert |hourly| > 0 by {
        assert exists j :: 0 <= j < |hourly| && hourly[j].period == hour(rows[0].timestamp);
      }
      Report(RealStats.Sum(Grouping.Values(rows, Kwh())), Search.ArgMax(summary, TotalOf()), Search.ArgMax(hourly, PeriodTotal()))
  }

  /** The reported top building is a named building of the frame and its total is the sum of
      its own readings; the reported campus total is the sum of all buildings' totals plus the
      readings whose label is NaN. */
  lemma {:induction false} SummaryTopIsBuildingTotal(rows: seq<Reading>, hour: int -> int)
    requires ComposeSummary(rows, hour).Report?
    ensures var s := ComposeSummary(rows, hour);
      s.top.building.Name? && s.top.building in Buildings(rows) &&
      s.top.totalKwh == RealStats.Sum(Grouping.Values(RowsOf(rows, s.top.building), Kwh())) &&
      s.total == RealStats.Sum(Grouping.Values(BuildingWiseSummary(rows), TotalOf()))
               + RealStats.Sum(Grouping.Values(Unnamed(rows), Kwh()))
  {
    SummaryPartitionsFrame(rows);
    BuildingWiseSummaryRows(rows);
  }
}
