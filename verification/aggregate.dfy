/**
 * The three aggregate views of the unified long table, as pure selections:
 * the mean temperature per season, the stations with the largest
 * temperature range, and the stations with the smallest and the largest
 * standard deviation. Empty cells are skipped by every aggregate; an
 * aggregate over no reading has no value (it is NaN) and never equals the
 * selected extreme.
 *
 * Rounding to one decimal and the sample standard deviation are numerics
 * the model keeps abstract: they are passed in as `round` and `sd`.
 */
module Aggregate {
  import opened Util
  import opened Seasons
  import opened Load

  /** The present temperatures of the records `keep` selects, in table order. */
  function Readings(t: seq<Record>, keep: Record -> bool): (r: seq<real>)
    ensures |r| <= |t|
  {
    if t == [] then []
    else
      var last := t[|t| - 1];
      Readings(t[..|t| - 1], keep) + (if keep(last) && last.temperature.Some? then [last.temperature.value] else [])
  }

  /**
   * The readings are exactly the present temperatures of the selected
   * records: nothing is invented and no present value is dropped.
   */
  lemma {:induction false} ReadingsMembership(t: seq<Record>, keep: Record -> bool)
    ensures forall x :: x in Readings(t, keep) <==>
      exists i :: 0 <= i < |t| && keep(t[i]) && t[i].temperature == Some(x)
  {
    if t != [] {
      var init := t[..|t| - 1];
      ReadingsMembership(init, keep);
      assert forall i :: 0 <= i < |init| ==> init[i] == t[i];
    }
  }

  /** The positions of the selected records whose temperature is x. */
  function Holding(t: seq<Record>, keep: Record -> bool, x: real): set<int>
  {
    set i | 0 <= i < |t| && keep(t[i]) && t[i].temperature == Some(x)
  }

  /** Dropping the last record drops at most its own position from `Holding`. */
  lemma HoldingOfInit(t: seq<Record>, keep: Record -> bool, x: real)
    requires t != []
    ensures var n := |t| - 1;
      && n !in Holding(t[..n], keep, x)
      && Holding(t, keep, x) ==
           Holding(t[..n], keep, x) + (if keep(t[n]) && t[n].temperature == Some(x) then {n} else {})
  {
    var n := |t| - 1;
    var init := t[..n];
    assert forall i :: 0 <= i < n ==> init[i] == t[i];
  }

  /**
   * Each value occurs in the readings once per selected record that holds
   * it: duplicates are kept, so means and deviations weigh every record.
   */
  lemma {:induction false} ReadingsCount(t: seq<Record>, keep: Record -> bool)
    ensures forall x :: multiset(Readings(t, keep))[x] == |Holding(t, keep, x)|
  {
    if t != [] {
      var n := |t| - 1;
      ReadingsCount(t[..n], keep);
      forall x ensures multiset(Readings(t, keep))[x] == |Holding(t, keep, x)| {
        HoldingOfInit(t, keep, x);
      }
    }
  }

  // ---------------------------------------------------------------------
  // Seasonal mean

  /** Some record of the table carries season s (so s is a group of the grouping by season). */
  predicate HasSeason(t: seq<Record>, s: Season)
  {
    exists i :: 0 <= i < |t| && t[i].season == Some(s)
  }

  /** A month column whose records carry season s. */
  lemma ColumnOfSeason(s: Season) returns (j: int)
    ensures 0 <= j < 12 && GetSeason(j + 1) == Some(s)
  {
    j := match s case Summer => 0 case Autumn => 2 case Winter => 5 case Spring => 8;
  }

  /** A record of the table tags the table with its season. */
  lemma RecordGivesSeason(t: seq<Record>, r: Record, s: Season)
    requires r in t && r.season == Some(s)
    ensures HasSeason(t, s)
  {
    var i :| 0 <= i < |t| && t[i] == r;
  }

  /**
   * A non-empty unified table holds every season: any wide row yields all
   * twelve months, and each season has a month among them.
   */
  lemma EverySeasonPresent(files: seq<WideFrame>)
    requires LoadSpec(files).Ok? && |LoadSpec(files).value| > 0
    ensures forall s :: HasSeason(LoadSpec(files).value, s)
  {
    var t := LoadSpec(files).value;
    SomeFileHasRow(files);
    var k :| 0 <= k < |files| && |files[k].rows| > 0;
    var row := files[k].rows[0];
    forall s ensures HasSeason(t, s) {
      var j := ColumnOfSeason(s);
      LoadSpecKeepsRecord(files, k, 0, j);
      assert MonthRecord(row, j).season == GetSeason(j + 1);
      RecordGivesSeason(t, MonthRecord(row, j), s);
    }
  }

  /** Selects the records of season s. */
  function InSeason(s: Season): Record -> bool
  {
    (r: Record) => r.season == Some(s)
  }

  /** The present temperatures of the records carrying season s. */
  function SeasonReadings(t: seq<Record>, s: Season): seq<real>
  {
    Readings(t, InSeason(s))
  }

  /**
   * Rounded mean temperature of season s's records; `None` stands for the
   * NaN mean of a season whose records all have empty cells.
   */
  function SeasonMean(t: seq<Record>, s: Season, round: real -> real): (r: Option<real>)
    ensures r.None? <==> forall i :: 0 <= i < |t| && t[i].season == Some(s) ==> t[i].temperature.None?
  {
    SeasonHasReading(t, s);
    var xs := SeasonReadings(t, s);
    if |xs| == 0 then None else Some(round(Mean(xs)))
  }

  /** A season has a reading exactly when one of its records has a present temperature. */
  lemma SeasonHasReading(t: seq<Record>, s: Season)
    ensures |SeasonReadings(t, s)| > 0 <==> exists i :: 0 <= i < |t| && t[i].season == Some(s) && t[i].temperature.Some?
  {
    var keep := InSeason(s);
    var xs := Readings(t, keep);
    ReadingsMembership(t, keep);
    if |xs| > 0 {
      var x := xs[0];
      assert x in xs;
      assert exists i :: 0 <= i < |t| && keep(t[i]) && t[i].temperature == Some(x);
      var i :| 0 <= i < |t| && keep(t[i]) && t[i].temperature == Some(x);
      assert t[i].season == Some(s);
    }
    if exists i :: 0 <= i < |t| && t[i].season == Some(s) && t[i].temperature.Some? {
      var i :| 0 <= i < |t| && t[i].season == Some(s) && t[i].temperature.Some?;
      var x := t[i].temperature.value;
      assert keep(t[i]) && t[i].temperature == Some(x);
      assert x in xs;
    }
  }

  /** The grouping by season: one rounded mean per season present in the table. */
  function SeasonMeans(t: seq<Record>, round: real -> real): (m: map<Season, Option<real>>)
    ensures forall s :: s in m <==> HasSeason(t, s)
    ensures forall s :: s in m ==> m[s] == SeasonMean(t, s, round)
  {
    assert forall s: Season :: s in ReportOrder by {
      forall s: Season ensures s in ReportOrder { assert ReportOrder[Rank(s)] == s; }
    }
    map s | s in ReportOrder && HasSeason(t, s) :: SeasonMean(t, s, round)
  }

  /**
   * A season's unrounded mean lies between its coldest and its warmest
   * reading, and every reading it averages is a present temperature of a
   * record of that season.
   */
  lemma SeasonMeanWithinReadings(t: seq<Record>, s: Season)
    requires |SeasonReadings(t, s)| > 0
    ensures var xs := SeasonReadings(t, s);
      MinOf(xs) <= Mean(xs) <= MaxOf(xs)
    ensures forall x :: x in SeasonReadings(t, s) <==>
      exists i :: 0 <= i < |t| && t[i].season == Some(s) && t[i].temperature == Some(x)
  {
    MeanBetweenExtremes(SeasonReadings(t, s));
    ReadingsMembership(t, InSeason(s));
  }

  // ---------------------------------------------------------------------
  // Grouping by station

  function StationColumnOf(t: seq<Record>): (r: seq<string>)
    ensures |r| == |t| && forall i :: 0 <= i < |t| ==> r[i] == t[i].station
  {
    seq(|t|, i requires 0 <= i < |t| => t[i].station)
  }

  /** The distinct stations of the table, in order of first appearance. */
  function StationsOf(t: seq<Record>): (r: seq<string>)
    ensures NoDuplicates(r)
    ensures forall st :: st in r <==> exists i :: 0 <= i < |t| && t[i].station == st
  {
    var column := StationColumnOf(t);
    assert forall st :: st in column <==> exists i :: 0 <= i < |t| && t[i].station == st by {
      forall st | st in column ensures exists i :: 0 <= i < |t| && t[i].station == st {
        var i :| 0 <= i < |column| && column[i] == st;
      }
    }
    Distinct(column)
  }

  /** Selects the records of station st. */
  function AtStation(st: string): Record -> bool
  {
    (r: Record) => r.station == st
  }

  /** The present temperatures of one station. */
  function StationReadings(t: seq<Record>, st: string): seq<real>
  {
    Readings(t, AtStation(st))
  }

  /** A record with a present temperature gives its station a reading. */
  lemma StationHasReading(t: seq<Record>, i: int)
    requires 0 <= i < |t| && t[i].temperature.Some?
    ensures |StationReadings(t, t[i].station)| > 0
  {
    var st := t[i].station;
    var x := t[i].temperature.value;
    ReadingsMembership(t, AtStation(st));
    assert AtStation(st)(t[i]) && t[i].temperature == Some(x);
    assert x in Readings(t, AtStation(st));
  }

  /** A station's reading lies in the table under that station. */
  lemma StationReadingIsStation(t: seq<Record>, st: string)
    requires |StationReadings(t, st)| > 0
    ensures st in StationsOf(t)
  {
    var x := StationReadings(t, st)[0];
    assert x in StationReadings(t, st);
    ReadingsMembership(t, AtStation(st));
  }

  /** Every station with a reading is one of the station groups. */
  lemma StationsHoldReadings(t: seq<Record>)
    ensures forall st :: |StationReadings(t, st)| > 0 ==> st in StationsOf(t)
  {
    forall st | |StationReadings(t, st)| > 0 ensures st in StationsOf(t) {
      StationReadingIsStation(t, st);
    }
  }

  // ---------------------------------------------------------------------
  // Selection of every key tied at an extreme score

  /** The defined scores of the keys, in key order. */
  function Scores(keys: seq<string>, score: string -> Option<real>): (r: seq<real>)
    ensures forall x :: x in r <==> exists k :: k in keys && score(k) == Some(x)
  {
    if keys == [] then []
    else
      var rest := Scores(keys[1..], score);
      assert forall k :: k in keys <==> k == keys[0] || k in keys[1..];
      (if score(keys[0]).Some? then [score(keys[0]).value] else []) + rest
  }

  /** The largest defined score (NaN-skipping `max`); `None` when no key has one. */
  function Highest(keys: seq<string>, score: string -> Option<real>): (r: Option<real>)
    ensures r.None? <==> forall k :: k in keys ==> score(k).None?
    ensures r.Some? ==> exists k :: k in keys && score(k) == r
    ensures r.Some? ==> forall k :: k in keys && score(k).Some? ==> score(k).value <= r.value
  {
    var xs := Scores(keys, score);
    if |xs| == 0 then None
    else
      assert MaxOf(xs) in xs;
      Some(MaxOf(xs))
  }

  /** The smallest defined score (NaN-skipping `min`); `None` when no key has one. */
  function Lowest(keys: seq<string>, score: string -> Option<real>): (r: Option<real>)
    ensures r.None? <==> forall k :: k in keys ==> score(k).None?
    ensures r.Some? ==> exists k :: k in keys && score(k) == r
    ensures r.Some? ==> forall k :: k in keys && score(k).Some? ==> r.value <= score(k).value
  {
    var xs := Scores(keys, score);
    if |xs| == 0 then None
    else
      assert MinOf(xs) in xs;
      Some(MinOf(xs))
  }

  /** The keys whose score equals `target`; a NaN target (`None`) matches nothing. */
  function Tied(keys: seq<string>, score: string -> Option<real>, target: Option<real>): (r: seq<string>)
    ensures NoDuplicates(keys) ==> NoDuplicates(r)
    ensures forall k :: k in r <==> k in keys && target.Some? && score(k) == target
  {
    Filter(keys, k => target.Some? && score(k) == target)
  }

  /**
   * Keys tied at a score `h` that bounds every score from above and is
   * reached by some key are exactly the keys with a score no other key
   * exceeds; there is one as soon as any key has a score.
   */
  lemma TiedAtUpperBound(keys: seq<string>, score: string -> Option<real>, h: Option<real>, top: seq<string>)
    requires h.None? <==> forall k :: k in keys ==> score(k).None?
    requires h.Some? ==> exists k :: k in keys && score(k) == h
    requires h.Some? ==> forall k :: k in keys && score(k).Some? ==> score(k).value <= h.value
    requires forall k :: k in top <==> k in keys && h.Some? && score(k) == h
    ensures forall k :: k in top <==>
      k in keys && score(k).Some? && forall o :: o in keys && score(o).Some? ==> score(o).value <= score(k).value
    ensures (exists k :: k in keys && score(k).Some?) ==> |top| > 0
  {
    forall k | k in keys && score(k).Some?
        && (forall o :: o in keys && score(o).Some? ==> score(o).value <= score(k).value)
      ensures k in top
    {
      var w :| w in keys && score(w) == h;
      assert score(w).value <= score(k).value;
    }
    if exists k :: k in keys && score(k).Some? {
      var w :| w in keys && score(w) == h;
      assert w in top;
    }
  }

  /**
   * Keys tied at a score `l` that bounds every score from below and is
   * reached by some key are exactly the keys with a score no other key
   * undercuts; there is one as soon as any key has a score.
   */
  lemma TiedAtLowerBound(keys: seq<string>, score: string -> Option<real>, l: Option<real>, low: seq<string>)
    requires l.None? <==> forall k :: k in keys ==> score(k).None?
    requires l.Some? ==> exists k :: k in keys && score(k) == l
    requires l.Some? ==> forall k :: k in keys && score(k).Some? ==> l.value <= score(k).value
    requires forall k :: k in low <==> k in keys && l.Some? && score(k) == l
    ensures forall k :: k in low <==>
      k in keys && score(k).Some? && forall o :: o in keys && score(o).Some? ==> score(k).value <= score(o).value
    ensures (exists k :: k in keys && score(k).Some?) ==> |low| > 0
  {
    forall k | k in keys && score(k).Some?
        && (forall o :: o in keys && score(o).Some? ==> score(k).value <= score(o).value)
      ensures k in low
    {
      var w :| w in keys && score(w) == l;
      assert score(k).value <= score(w).value;
    }
    if exists k :: k in keys && score(k).Some? {
      var w :| w in keys && score(w) == l;
      assert w in low;
    }
  }

  /**
   * The keys tied at the highest score are exactly the keys with a score
   * that no other key exceeds; there is one as soon as any key has a score.
   */
  lemma TiedAtHighest(keys: seq<string>, score: string -> Option<real>)
    ensures forall k :: k in Tied(keys, score, Highest(keys, score)) <==>
      k in keys && score(k).Some? && forall o :: o in keys && score(o).Some? ==> score(o).value <= score(k).value
    ensures (exists k :: k in keys && score(k).Some?) ==> |Tied(keys, score, Highest(keys, score))| > 0
  {
    TiedAtUpperBound(keys, score, Highest(keys, score), Tied(keys, score, Highest(keys, score)));
  }

  /**
   * The keys tied at the lowest score are exactly the keys with a score that
   * no other key undercuts; there is one as soon as any key has a score.
   */
  lemma TiedAtLowest(keys: seq<string>, score: string -> Option<real>)
    ensures forall k :: k in Tied(keys, score, Lowest(keys, score)) <==>
      k in keys && score(k).Some? && forall o :: o in keys && score(o).Some? ==> score(k).value <= score(o).value
    ensures (exists k :: k in keys && score(k).Some?) ==> |Tied(keys, score, Lowest(keys, score))| > 0
  {
    TiedAtLowerBound(keys, score, Lowest(keys, score), Tied(keys, score, Lowest(keys, score)));
  }

  // ---------------------------------------------------------------------
  // Largest temperature range

  /** Per-station maximum, minimum and rounded range of the present readings. */
  datatype RangeStat = RangeStat(max: real, min: real, range: real)

  /** The range statistics of one station; `None` when it has no reading (NaN). */
  function StationRange(t: seq<Record>, st: string, round: real -> real): (r: Option<RangeStat>)
    ensures r.Some? <==> |StationReadings(t, st)| > 0
  {
    var xs := StationReadings(t, st);
    if |xs| == 0 then None else Some(RangeStat(MaxOf(xs), MinOf(xs), round(MaxOf(xs) - MinOf(xs))))
  }

  /**
   * A station's maximum and minimum are readings of that station that bound
   * all its readings, so max - min is never negative, and the range is the
   * rounded difference.
   */
  lemma StationRangeBounds(t: seq<Record>, st: string, round: real -> real)
    requires StationRange(t, st, round).Some?
    ensures var r, xs := StationRange(t, st, round).value, StationReadings(t, st);
      && r.max in xs && r.min in xs
      && (forall x :: x in xs ==> r.min <= x <= r.max)
      && r.max - r.min >= 0.0
      && r.range == round(r.max - r.min)
  {
    var xs := StationReadings(t, st);
    assert xs[0] in xs;
  }

  /** The rounded range of a station as a score; `None` (NaN) without readings. */
  function RangeScore(t: seq<Record>, round: real -> real): (r: string -> Option<real>)
    ensures forall st :: r(st).Some? <==> |StationReadings(t, st)| > 0
  {
    st => if StationRange(t, st, round).Some? then Some(StationRange(t, st, round).value.range) else None
  }

  /** Every station whose rounded range equals the largest rounded range. */
  function LargestRangeStations(t: seq<Record>, round: real -> real): (r: seq<string>)
    ensures NoDuplicates(r)
    ensures forall st :: st in r ==> st in StationsOf(t) && StationRange(t, st, round).Some?
  {
    var stations, score := StationsOf(t), RangeScore(t, round);
    Tied(stations, score, Highest(stations, score))
  }

  /**
   * The reported stations are exactly the stations with readings whose
   * rounded range no station exceeds (ties are all kept), each once.
   */
  lemma LargestRangeSelection(t: seq<Record>, round: real -> real)
    ensures var top := LargestRangeStations(t, round);
      && NoDuplicates(top)
      && (forall st :: st in top <==>
            && StationRange(t, st, round).Some?
            && forall o :: StationRange(t, o, round).Some? ==>
                 StationRange(t, o, round).value.range <= StationRange(t, st, round).value.range)
  {
    var stations, score := StationsOf(t), RangeScore(t, round);
    var top := LargestRangeStations(t, round);
    TiedAtHighest(stations, score);
    forall o ensures score(o).Some? <==> StationRange(t, o, round).Some?
      ensures score(o).Some? ==> o in stations && score(o).value == StationRange(t, o, round).value.range
    {
      if StationRange(t, o, round).Some? {
        StationReadingIsStation(t, o);
      }
    }
  }

  /** A table with at least one reading reports at least one station. */
  lemma LargestRangeNonEmpty(t: seq<Record>, round: real -> real, i: int)
    requires 0 <= i < |t| && t[i].temperature.Some?
    ensures |LargestRangeStations(t, round)| > 0
  {
    var stations, score := StationsOf(t), RangeScore(t, round);
    var st := t[i].station;
    StationHasReading(t, i);
    StationReadingIsStation(t, st);
    assert st in stations && score(st).Some?;
    TiedAtHighest(stations, score);
  }

  // ---------------------------------------------------------------------
  // Temperature stability

  /**
   * The rounded sample standard deviation of a station as a score; `None`
   * (NaN) when the station has fewer than two readings.
   */
  function StdDevScore(t: seq<Record>, round: real -> real, sd: seq<real> -> real): (r: string -> Option<real>)
    ensures forall st :: r(st).Some? <==> |StationReadings(t, st)| >= 2
  {
    st => var xs := StationReadings(t, st); if |xs| >= 2 then Some(round(sd(xs))) else None
  }

  /** The smallest rounded standard deviation over the stations (NaN-skipping `min`). */
  function MinStdDev(t: seq<Record>, round: real -> real, sd: seq<real> -> real): (r: Option<real>)
    ensures r.None? <==> forall st :: |StationReadings(t, st)| < 2
  {
    StationsHoldReadings(t);
    Lowest(StationsOf(t), StdDevScore(t, round, sd))
  }

  /** The largest rounded standard deviation over the stations (NaN-skipping `max`). */
  function MaxStdDev(t: seq<Record>, round: real -> real, sd: seq<real> -> real): (r: Option<real>)
    ensures r.None? <==> forall st :: |StationReadings(t, st)| < 2
  {
    StationsHoldReadings(t);
    Highest(StationsOf(t), StdDevScore(t, round, sd))
  }

  /** Every station whose rounded standard deviation equals the smallest one. */
  function MostStableStations(t: seq<Record>, round: real -> real, sd: seq<real> -> real): (r: seq<string>)
    ensures NoDuplicates(r)
    ensures forall st :: st in r ==> st in StationsOf(t) && |StationReadings(t, st)| >= 2
  {
    Tied(StationsOf(t), StdDevScore(t, round, sd), MinStdDev(t, round, sd))
  }

  /** Every station whose rounded standard deviation equals the largest one. */
  function MostVariableStations(t: seq<Record>, round: real -> real, sd: seq<real> -> real): (r: seq<string>)
    ensures NoDuplicates(r)
    ensures forall st :: st in r ==> st in StationsOf(t) && |StationReadings(t, st)| >= 2
  {
    Tied(StationsOf(t), StdDevScore(t, round, sd), MaxStdDev(t, round, sd))
  }

  /**
   * The smallest deviation is defined exactly when the largest is, and is at
   * most the largest; a station listed as most stable has the smallest, one
   * listed as most variable the largest.
   */
  lemma StdDevExtremesOrdered(t: seq<Record>, round: real -> real, sd: seq<real> -> real)
    ensures MinStdDev(t, round, sd).Some? <==> MaxStdDev(t, round, sd).Some?
    ensures MinStdDev(t, round, sd).Some? ==> MinStdDev(t, round, sd).value <= MaxStdDev(t, round, sd).value
    ensures |MostStableStations(t, round, sd)| > 0 ==> MinStdDev(t, round, sd).Some?
    ensures |MostVariableStations(t, round, sd)| > 0 ==> MaxStdDev(t, round, sd).Some?
  {
    var stations, score := StationsOf(t), StdDevScore(t, round, sd);
    var lo := MinStdDev(t, round, sd);
    if lo.Some? {
      var k :| k in stations && score(k) == lo;
    }
    var stable := MostStableStations(t, round, sd);
    if |stable| > 0 {
      assert stable[0] in stable;
    }
    var variable := MostVariableStations(t, round, sd);
    if |variable| > 0 {
      assert variable[0] in variable;
    }
  }

  /**
   * "Most stable" holds exactly the stations with a defined deviation that
   * none undercuts, "most variable" exactly those that none exceeds; the
   * smallest is at most the largest; when every defined deviation is the
   * same, every such station is in both lists; and both lists are non-empty
   * as soon as one station has two readings.
   */
  lemma StabilitySelection(t: seq<Record>, round: real -> real, sd: seq<real> -> real)
    ensures var score := StdDevScore(t, round, sd);
      var stable, variable := MostStableStations(t, round, sd), MostVariableStations(t, round, sd);
      && NoDuplicates(stable) && NoDuplicates(variable)
      && (forall st :: st in stable <==>
            && score(st).Some?
            && forall o :: score(o).Some? ==> score(st).value <= score(o).value)
      && (forall st :: st in variable <==>
            && score(st).Some?
            && forall o :: score(o).Some? ==> score(o).value <= score(st).value)
      && (forall a, b :: a in stable && b in variable ==> score(a).value <= score(b).value)
      && ((forall a, b :: score(a).Some? && score(b).Some? ==> score(a) == score(b)) ==>
            forall st :: score(st).Some? ==> st in stable && st in variable)
      && ((exists st :: |StationReadings(t, st)| >= 2) ==> |stable| > 0 && |variable| > 0)
  {
    var stations, score := StationsOf(t), StdDevScore(t, round, sd);
    TiedAtLowest(stations, score);
    TiedAtHighest(stations, score);
    forall o | score(o).Some? ensures o in stations {
      StationReadingIsStation(t, o);
    }
    if exists st :: |StationReadings(t, st)| >= 2 {
      var st :| |StationReadings(t, st)| >= 2;
      StationReadingIsStation(t, st);
      assert score(st).Some?;
    }
  }
}
