/**
 * The report writers and the run of the whole pipeline. Each writer selects
 * its entries from the table and then walks them in order, emitting one
 * structured line per entry; the text formatting of a line (one decimal and
 * a degree sign) and the writing of the report file are not modelled.
 */
module Report {
  import opened Util
  import opened Seasons
  import opened Load
  import opened Aggregate

  /** "<season>: <mean>": `None` is the NaN mean of a season without readings. */
  datatype SeasonLine = SeasonLine(season: Season, mean: Option<real>)

  /** "Station <name>: Range <range> (Max: <max>, Min: <min>)". */
  datatype RangeLine = RangeLine(station: string, range: real, max: real, min: real)

  datatype Verdict = MostStable | MostVariable

  /** "<verdict>: Station <name>: StdDev <value>". */
  datatype StabilityLine = StabilityLine(verdict: Verdict, station: string, stdDev: real)

  // ---------------------------------------------------------------------
  // Seasonal averages

  /**
   * The lines the seasonal report holds after its walk has passed the first
   * k seasons of the report order.
   */
  function SeasonLinesBelow(means: map<Season, Option<real>>, k: nat): seq<SeasonLine>
    requires k <= |ReportOrder|
  {
    if k == 0 then []
    else
      var season := ReportOrder[k - 1];
      SeasonLinesBelow(means, k - 1) + (if season in means then [SeasonLine(season, means[season])] else [])
  }

  /** The lines name seasons of the first k of the report order, in that order. */
  predicate InReportOrder(lines: seq<SeasonLine>, k: int)
  {
    && (forall i :: 0 <= i < |lines| ==> Rank(lines[i].season) < k)
    && (forall i, j :: 0 <= i < j < |lines| ==> Rank(lines[i].season) < Rank(lines[j].season))
  }

  /** Every line carries a season of the table of means, with its mean. */
  predicate MeansOf(lines: seq<SeasonLine>, means: map<Season, Option<real>>)
  {
    forall i :: 0 <= i < |lines| ==> lines[i].season in means && lines[i].mean == means[lines[i].season]
  }

  /** Every season of the table among the first k of the report order has a line. */
  predicate CoversMeans(lines: seq<SeasonLine>, means: map<Season, Option<real>>, k: int)
  {
    forall s :: s in means && Rank(s) < k ==> exists i :: 0 <= i < |lines| && lines[i].season == s
  }

  lemma {:induction false} SeasonLinesBelowInOrder(means: map<Season, Option<real>>, k: nat)
    requires k <= |ReportOrder|
    ensures InReportOrder(SeasonLinesBelow(means, k), k)
  {
    if k > 0 {
      SeasonLinesBelowInOrder(means, k - 1);
      RankOfReportOrder(k - 1);
    }
  }

  lemma {:induction false} SeasonLinesBelowMeans(means: map<Season, Option<real>>, k: nat)
    requires k <= |ReportOrder|
    ensures MeansOf(SeasonLinesBelow(means, k), means)
  {
    if k > 0 {
      SeasonLinesBelowMeans(means, k - 1);
    }
  }

  lemma {:induction false} SeasonLinesBelowComplete(means: map<Season, Option<real>>, k: nat)
    requires k <= |ReportOrder|
    ensures CoversMeans(SeasonLinesBelow(means, k), means, k)
  {
    if k > 0 {
      SeasonLinesBelowComplete(means, k - 1);
      RankOfReportOrder(k - 1);
      var prev, lines := SeasonLinesBelow(means, k - 1), SeasonLinesBelow(means, k);
      forall s | s in means && Rank(s) < k
        ensures exists i :: 0 <= i < |lines| && lines[i].season == s
      {
        if Rank(s) == k - 1 {
          assert lines[|lines| - 1].season == s;
        } else {
          var i :| 0 <= i < |prev| && prev[i].season == s;
          assert lines[i] == prev[i];
        }
      }
    }
  }

  /** Once every season of the first k has a mean, each of them has a line. */
  lemma {:induction false} SeasonLinesBelowFull(means: map<Season, Option<real>>, k: nat)
    requires k <= |ReportOrder|
    ensures (forall s :: s in means) ==> |SeasonLinesBelow(means, k)| == k
  {
    if k > 0 {
      SeasonLinesBelowFull(means, k - 1);
    }
  }

  /**
   * The writing loop of the seasonal report: walk Summer, Autumn, Winter,
   * Spring and emit a line for each season the table of means holds.
   */
  method WriteSeasonLines(means: map<Season, Option<real>>) returns (lines: seq<SeasonLine>)
    ensures forall i, j :: 0 <= i < j < |lines| ==> Rank(lines[i].season) < Rank(lines[j].season)
    ensures forall s :: s in means <==> exists i :: 0 <= i < |lines| && lines[i].season == s
    ensures forall i :: 0 <= i < |lines| ==> lines[i].season in means && lines[i].mean == means[lines[i].season]
    ensures (forall s :: s in means) ==> |lines| == |ReportOrder|
  {
    lines := [];
    for k := 0 to |ReportOrder|
      invariant lines == SeasonLinesBelow(means, k)
    {
      var season := ReportOrder[k];
      if season in means {
        lines := lines + [SeasonLine(season, means[season])];
      }
    }
    SeasonLinesBelowInOrder(means, |ReportOrder|);
    SeasonLinesBelowMeans(means, |ReportOrder|);
    SeasonLinesBelowComplete(means, |ReportOrder|);
    SeasonLinesBelowFull(means, |ReportOrder|);
  }

  /**
   * What the seasonal report of table t holds: seasons strictly in report
   * order, a line for exactly the seasons present in t, each with its
   * rounded mean.
   */
  ghost predicate SeasonalReport(t: seq<Record>, round: real -> real, lines: seq<SeasonLine>)
  {
    && (forall i, j :: 0 <= i < j < |lines| ==> Rank(lines[i].season) < Rank(lines[j].season))
    && (forall s :: HasSeason(t, s) <==> exists i :: 0 <= i < |lines| && lines[i].season == s)
    && (forall i :: 0 <= i < |lines| ==> lines[i].mean == SeasonMean(t, lines[i].season, round))
  }

  /**
   * The seasonal report: seasons in the order Summer, Autumn, Winter,
   * Spring, a season with no record left out, each with the rounded mean of
   * its records.
   */
  method CalculateSeasonalAverage(t: seq<Record>, round: real -> real) returns (lines: seq<SeasonLine>)
    ensures SeasonalReport(t, round, lines)
    ensures (forall s :: HasSeason(t, s)) ==> |lines| == |ReportOrder|
  {
    lines := WriteSeasonLines(SeasonMeans(t, round));
  }

  // ---------------------------------------------------------------------
  // Largest temperature range

  /**
   * The writing loop of the largest-range report: one line per given
   * station, with that station's range, maximum and minimum.
   */
  method WriteRangeLines(t: seq<Record>, round: real -> real, stations: seq<string>) returns (lines: seq<RangeLine>)
    requires forall st :: st in stations ==> StationRange(t, st, round).Some?
    ensures |lines| == |stations|
    ensures forall i :: 0 <= i < |lines| ==>
      && lines[i].station == stations[i]
      && StationRange(t, stations[i], round) == Some(RangeStat(lines[i].max, lines[i].min, lines[i].range))
  {
    lines := [];
    for k := 0 to |stations|
      invariant |lines| == k
      invariant forall i :: 0 <= i < k ==>
        && lines[i].station == stations[i]
        && StationRange(t, stations[i], round) == Some(RangeStat(lines[i].max, lines[i].min, lines[i].range))
    {
      assert stations[k] in stations;
      var stat := StationRange(t, stations[k], round).value;
      lines := lines + [RangeLine(stations[k], stat.range, stat.max, stat.min)];
    }
  }

  /**
   * What the largest-range report of table t holds: a line per selected
   * station, in selection order, with that station's statistics, and no
   * station with readings has a larger range than a listed one.
   */
  ghost predicate LargestRangeReport(t: seq<Record>, round: real -> real, lines: seq<RangeLine>)
  {
    && |lines| == |LargestRangeStations(t, round)|
    && (forall i :: 0 <= i < |lines| ==>
          && lines[i].station == LargestRangeStations(t, round)[i]
          && StationRange(t, lines[i].station, round) == Some(RangeStat(lines[i].max, lines[i].min, lines[i].range)))
    && (forall i, o :: 0 <= i < |lines| && StationRange(t, o, round).Some? ==>
          StationRange(t, o, round).value.range <= lines[i].range)
  }

  /**
   * The largest-range report: one line per station tied at the largest
   * rounded range, in the selection's order, each carrying that station's
   * statistics; no station with readings has a larger range than a reported
   * one.
   */
  method FindLargestTempRange(t: seq<Record>, round: real -> real) returns (lines: seq<RangeLine>)
    ensures LargestRangeReport(t, round, lines)
  {
    LargestRangeSelection(t, round);
    lines := WriteRangeLines(t, round, LargestRangeStations(t, round));
  }

  // ---------------------------------------------------------------------
  // Temperature stability

  /**
   * The writing loop of the stability report: a "most stable" line for each
   * stable station with the smallest deviation, then a "most variable" line
   * for each variable station with the largest. An extreme is only written
   * out when a station is listed under it, and it is then defined.
   */
  method WriteStabilityLines(stable: seq<string>, variable: seq<string>, minStd: Option<real>, maxStd: Option<real>)
    returns (lines: seq<StabilityLine>)
    requires |stable| > 0 ==> minStd.Some?
    requires |variable| > 0 ==> maxStd.Some?
    requires minStd.Some? && maxStd.Some? ==> minStd.value <= maxStd.value
    ensures |lines| == |stable| + |variable|
    ensures forall i :: 0 <= i < |stable| ==>
      lines[i].verdict == MostStable && lines[i].station == stable[i] && minStd == Some(lines[i].stdDev)
    ensures forall i :: |stable| <= i < |lines| ==>
      lines[i].verdict == MostVariable && lines[i].station == variable[i - |stable|] && maxStd == Some(lines[i].stdDev)
    ensures forall i, j :: 0 <= i < |stable| <= j < |lines| ==> lines[i].stdDev <= lines[j].stdDev
  {
    lines := [];
    for k := 0 to |stable|
      invariant |lines| == k
      invariant forall i :: 0 <= i < k ==> lines[i] == StabilityLine(MostStable, stable[i], minStd.value)
    {
      lines := lines + [StabilityLine(MostStable, stable[k], minStd.value)];
    }
    for k := 0 to |variable|
      invariant |lines| == |stable| + k
      invariant forall i :: 0 <= i < |stable| ==> lines[i] == StabilityLine(MostStable, stable[i], minStd.value)
      invariant forall i :: |stable| <= i < |lines| ==>
        lines[i] == StabilityLine(MostVariable, variable[i - |stable|], maxStd.value)
    {
      lines := lines + [StabilityLine(MostVariable, variable[k], maxStd.value)];
    }
  }

  /**
   * What the stability report of table t holds: the most stable stations in
   * selection order, each with the smallest rounded deviation, then the most
   * variable ones, each with the largest; every "most stable" value is at
   * most every "most variable" value.
   */
  ghost predicate StabilityReport(t: seq<Record>, round: real -> real, sd: seq<real> -> real, lines: seq<StabilityLine>)
  {
    var stable, variable := MostStableStations(t, round, sd), MostVariableStations(t, round, sd);
    && |lines| == |stable| + |variable|
    && (forall i :: 0 <= i < |stable| ==>
          && lines[i].verdict == MostStable
          && lines[i].station == stable[i]
          && MinStdDev(t, round, sd) == Some(lines[i].stdDev))
    && (forall i :: |stable| <= i < |lines| ==>
          && lines[i].verdict == MostVariable
          && lines[i].station == variable[i - |stable|]
          && MaxStdDev(t, round, sd) == Some(lines[i].stdDev))
    && (forall i, j :: 0 <= i < |stable| <= j < |lines| ==> lines[i].stdDev <= lines[j].stdDev)
  }

  /**
   * The stability report: the most stable stations (in selection order),
   * each with the smallest rounded deviation, then the most variable ones,
   * each with the largest; every "most stable" value is at most every
   * "most variable" value.
   */
  method FindTemperatureStability(t: seq<Record>, round: real -> real, sd: seq<real> -> real)
    returns (lines: seq<StabilityLine>)
    ensures StabilityReport(t, round, sd, lines)
  {
    StdDevExtremesOrdered(t, round, sd);
    lines := WriteStabilityLines(MostStableStations(t, round, sd), MostVariableStations(t, round, sd),
                                 MinStdDev(t, round, sd), MaxStdDev(t, round, sd));
  }

  // ---------------------------------------------------------------------
  // The run

  /** What a run ends with. */
  datatype Outcome =
    | LoadFailed(error: LoadError)
    | NoData
    | Analysed(seasonal: seq<SeasonLine>, largestRange: seq<RangeLine>, stability: seq<StabilityLine>)

  /**
   * The whole run: load every file, stop without any report when the table
   * is empty, and otherwise produce the three reports from the one table.
   */
  method Run(files: seq<WideFrame>, round: real -> real, sd: seq<real> -> real) returns (out: Outcome)
    ensures LoadSpec(files).Err? ==> out == LoadFailed(LoadSpec(files).error)
    ensures out.NoData? <==> LoadSpec(files) == Ok([])
    ensures out.Analysed? <==> LoadSpec(files).Ok? && |LoadSpec(files).value| > 0
    ensures out.Analysed? ==>
      && SeasonalReport(LoadSpec(files).value, round, out.seasonal)
      && LargestRangeReport(LoadSpec(files).value, round, out.largestRange)
      && StabilityReport(LoadSpec(files).value, round, sd, out.stability)
    ensures out.Analysed? ==> |out.seasonal| == |ReportOrder|
    ensures out.Analysed? ==>
      ((exists i :: 0 <= i < |LoadSpec(files).value| && LoadSpec(files).value[i].temperature.Some?)
       ==> |out.largestRange| > 0)
  {
    var loaded := LoadAllData(files);
    if loaded.Err? {
      return LoadFailed(loaded.error);
    }
    var t := loaded.value;
    if |t| == 0 {
      return NoData;
    }
    EverySeasonPresent(files);
    var seasonal := CalculateSeasonalAverage(t, round);
    var largestRange := FindLargestTempRange(t, round);
    if exists i :: 0 <= i < |t| && t[i].temperature.Some? {
      var i :| 0 <= i < |t| && t[i].temperature.Some?;
      LargestRangeNonEmpty(t, round, i);
    }
    var stability := FindTemperatureStability(t, round, sd);
    return Analysed(seasonal, largestRange, stability);
  }
}
