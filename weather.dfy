/** The weather script's two pieces of logic: the month-to-season labelling and the
    filling of missing rainfall with zero. */
module Weather {
  import opened Wrappers
  import RealStats

  const Winter := "Winter"
  const Summer := "Summer"
  const Monsoon := "Monsoon"
  const PostMonsoon := "Post-Monsoon"

  /** The four labels, indexed by quarter of the year counted from December. */
  const Seasons: seq<string> := [Winter, Summer, Monsoon, PostMonsoon]

  /** `season(x)`: a chain of membership tests on the month number; it is total, and
      every number outside the first three groups, 9 to 11 included, is "Post-Monsoon". */
  function Season(month: int): (r: string)
    ensures r in Seasons
    ensures r == Winter <==> month in {12, 1, 2}
    ensures r == Summer <==> month in {3, 4, 5}
    ensures r == Monsoon <==> month in {6, 7, 8}
  {
    if month in [12, 1, 2] then Winter
    else if month in [3, 4, 5] then Summer
    else if month in [6, 7, 8] then Monsoon
    else PostMonsoon
  }

  /** An independent description of the same mapping on calendar months: three consecutive
      months per season, starting with December. */
  lemma SeasonByQuarter(month: int)
    requires 1 <= month <= 12
    ensures Season(month) == Seasons[(month % 12) / 3]
  {
  }

  /** Numbers that are not months fall through every test. */
  lemma SeasonOutsideCalendar(month: int)
    requires month < 1 || month > 12
    ensures Season(month) == PostMonsoon
  {
  }

  /** `df["rainfall"].fillna(0)`: a missing reading becomes 0, a present one is kept. */
  function FillRainfall(rain: seq<Option<real>>): (r: seq<real>)
    ensures |r| == |rain|
    ensures forall i :: 0 <= i < |rain| && rain[i].None? ==> r[i] == 0.0
    ensures forall i :: 0 <= i < |rain| && rain[i].Some? ==> r[i] == rain[i].value
  {
    seq(|rain|, i requires 0 <= i < |rain| => if rain[i].Some? then rain[i].value else 0.0)
  }

  /** pandas' `sum` of a column with missing entries: the missing ones are skipped. */
  function SumPresent(rain: seq<Option<real>>): real
  {
    if rain == [] then 0.0
    else SumPresent(rain[..|rain| - 1]) + (if rain[|rain| - 1].Some? then rain[|rain| - 1].value else 0.0)
  }

  /** Filling with zero does not change the column's total, so the monthly rainfall sums
      are those of the readings that were present. */
  lemma {:induction false} FillRainfallKeepsTotal(rain: seq<Option<real>>)
    ensures RealStats.Sum(FillRainfall(rain)) == SumPresent(rain)
    decreases |rain|
  {
    if rain != [] {
      var init := rain[..|rain| - 1];
      FillRainfallKeepsTotal(init);
      assert FillRainfall(rain)[..|rain| - 1] == FillRainfall(init);
    }
  }

  /** Wraps every reading as present. */
  function AllPresent(xs: seq<real>): (r: seq<Option<real>>)
    ensures |r| == |xs| && forall i :: 0 <= i < |xs| ==> r[i] == Some(xs[i])
  {
    seq(|xs|, i requires 0 <= i < |xs| => Some(xs[i]))
  }

  /** Filling is idempotent: a filled column has nothing left to fill. */
  lemma FillRainfallIdempotent(rain: seq<Option<real>>)
    ensures FillRainfall(AllPresent(FillRainfall(rain))) == FillRainfall(rain)
  {
  }
}
