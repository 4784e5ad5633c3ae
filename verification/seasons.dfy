/**
 * The month-to-season classification. The labels group December, January and
 * February as "Summer" (a southern-hemisphere reading); the grouping is kept
 * exactly as the program defines it.
 */
module Seasons {
  import opened Util

  datatype Season = Summer | Autumn | Winter | Spring

  /** The fixed order in which the seasonal report lists the seasons. */
  const ReportOrder: seq<Season> := [Summer, Autumn, Winter, Spring]

  /** Position of a season in the report order. */
  function Rank(s: Season): (k: nat)
    ensures k < |ReportOrder| && ReportOrder[k] == s
  {
    match s
    case Summer => 0
    case Autumn => 1
    case Winter => 2
    case Spring => 3
  }

  lemma RankOfReportOrder(k: int)
    requires 0 <= k < |ReportOrder|
    ensures Rank(ReportOrder[k]) == k
  {
  }

  /** Season label of a month number; any value outside 1..12 gets no label. */
  function GetSeason(month: int): (r: Option<Season>)
    ensures r.Some? <==> 1 <= month <= 12
  {
    if month in [12, 1, 2] then Some(Summer)
    else if month in [3, 4, 5] then Some(Autumn)
    else if month in [6, 7, 8] then Some(Winter)
    else if month in [9, 10, 11] then Some(Spring)
    else None
  }

  /**
   * Counting months from December, each season is one quarter: the season of
   * month m is the ((m mod 12) div 3)-th season of the report order.
   */
  lemma SeasonIsQuarterFromDecember(month: int)
    requires 1 <= month <= 12
    ensures GetSeason(month) == Some(ReportOrder[(month % 12) / 3])
  {
  }

  /** The months that carry season s. */
  function MonthsOf(s: Season): set<int>
  {
    set m | 1 <= m <= 12 && GetSeason(m) == Some(s)
  }

  /** The three months of each season, written out. */
  function QuarterOf(s: Season): set<int>
  {
    match s
    case Summer => {12, 1, 2}
    case Autumn => {3, 4, 5}
    case Winter => {6, 7, 8}
    case Spring => {9, 10, 11}
  }

  lemma MonthsOfIsQuarter(s: Season)
    ensures MonthsOf(s) == QuarterOf(s)
  {
    forall m | m in QuarterOf(s) ensures m in MonthsOf(s) { }
    forall m | m in MonthsOf(s) ensures m in QuarterOf(s) { }
  }

  /** Each season is made of exactly three months. */
  lemma ThreeMonthsPerSeason(s: Season)
    ensures |MonthsOf(s)| == 3
  {
    MonthsOfIsQuarter(s);
  }

  /**
   * The month groups of two different seasons do not overlap, and together
   * the four groups are the whole year.
   */
  lemma SeasonsPartitionYear(s: Season, t: Season)
    ensures s != t ==> MonthsOf(s) !! MonthsOf(t)
    ensures MonthsOf(Summer) + MonthsOf(Autumn) + MonthsOf(Winter) + MonthsOf(Spring)
            == {1, 2, 3, 4, 5, 6, 7, 8, 9, 10, 11, 12}
  {
    MonthsOfIsQuarter(s);
    MonthsOfIsQuarter(t);
    MonthsOfIsQuarter(Summer);
    MonthsOfIsQuarter(Autumn);
    MonthsOfIsQuarter(Winter);
    MonthsOfIsQuarter(Spring);
  }
}
