/**
 * Loading: each parsed CSV file is reshaped from wide form (one row per
 * station, one column per month) to long form (one record per station and
 * month), every record is tagged with its month number and season, and the
 * long tables of all files are concatenated.
 */
module Load {
  import opened Util
  import opened Seasons

  /** The twelve month columns, in calendar order. */
  const MonthNames: seq<string> := ["January", "February", "March", "April", "May", "June",
    "July", "August", "September", "October", "November", "December"]

  /** The identifier column kept by the reshape. */
  const StationColumn: string := "STATION_NAME"

  /** One wide row: its station and the cells it holds, by column name. */
  datatype WideRow = WideRow(station: string, cells: map<string, real>)

  /** One parsed CSV file: its header and its rows. */
  datatype WideFrame = WideFrame(columns: set<string>, rows: seq<WideRow>)

  /** One long record; an empty cell has no temperature. */
  datatype Record = Record(
    station: string,
    month: string,
    temperature: Option<real>,
    monthNumber: int,
    season: Option<Season>)

  /** A required column absent from a file's header stops the load. */
  datatype LoadError = MissingColumns(names: set<string>)

  /** The columns the reshape reads. */
  function RequiredColumns(): set<string>
  {
    {StationColumn} + set m | m in MonthNames
  }

  lemma {:induction false} MonthNamesDistinct()
    ensures forall a, b :: 0 <= a < b < 12 ==> MonthNames[a] != MonthNames[b]
  {
    forall a, b | 0 <= a < b < 12 ensures MonthNames[a] != MonthNames[b] {
      assert MonthNames[a][0] != MonthNames[b][0] || |MonthNames[a]| != |MonthNames[b]|
        || MonthNames[a][1] != MonthNames[b][1] || MonthNames[a][2] != MonthNames[b][2];
    }
  }

  /** Search of the month table from position k on. */
  function FindMonth(name: string, k: nat): (r: Option<int>)
    requires k <= 12
    ensures r.Some? ==> k < r.value <= 12 && MonthNames[r.value - 1] == name
    ensures r.None? ==> forall j :: k <= j < 12 ==> MonthNames[j] != name
    decreases 12 - k
  {
    if k == 12 then None
    else if MonthNames[k] == name then Some(k + 1)
    else FindMonth(name, k + 1)
  }

  /**
   * Calendar number of an English month name, standing in for parsing the
   * name with the full-month-name date format.
   */
  function MonthNumber(name: string): (r: Option<int>)
    ensures r.Some? ==> 1 <= r.value <= 12 && MonthNames[r.value - 1] == name
    ensures r.None? <==> name !in MonthNames
  {
    FindMonth(name, 0)
  }

  /** Parsing the j-th month name gives back its 1-based position. */
  lemma MonthNumberOfName(j: int)
    requires 0 <= j < 12
    ensures MonthNumber(MonthNames[j]) == Some(j + 1)
  {
    MonthNamesDistinct();
  }

  /**
   * The record the reshape emits for one row and the j-th month column. Its
   * month number is the parse of the column's name, which is the column's
   * 1-based position (MonthNumberOfName).
   */
  function MonthRecord(row: WideRow, j: int): (r: Record)
    requires 0 <= j < 12
    ensures r.station == row.station && r.monthNumber == j + 1 && r.season.Some?
  {
    var name := MonthNames[j];
    Record(row.station, name,
      if name in row.cells then Some(row.cells[name]) else None,
      j + 1, GetSeason(j + 1))
  }

  /**
   * The reshaped record of row `row` and month column j carries the row's
   * station and that column's cell, its month number is what parsing the
   * month name gives, and its season is that of the month number.
   */
  lemma MonthRecordTagged(row: WideRow, j: int)
    requires 0 <= j < 12
    ensures var r := MonthRecord(row, j);
      && r.station == row.station
      && r.month == MonthNames[j]
      && (r.temperature.Some? <==> r.month in row.cells)
      && (r.temperature.Some? ==> r.temperature.value == row.cells[r.month])
      && MonthNumber(r.month) == Some(r.monthNumber)
      && r.monthNumber == j + 1
      && r.season == GetSeason(r.monthNumber) && r.season.Some?
  {
    MonthNumberOfName(j);
  }

  /** A record as the reshape builds it: month, number and season agree. */
  predicate WellFormed(r: Record)
  {
    && 1 <= r.monthNumber <= 12
    && r.month == MonthNames[r.monthNumber - 1]
    && r.season == GetSeason(r.monthNumber)
    && r.season.Some?
  }

  /** The records of the j-th month column, one per row in row order. */
  function MonthColumn(rows: seq<WideRow>, j: int): (r: seq<Record>)
    requires 0 <= j < 12
    ensures |r| == |rows|
  {
    seq(|rows|, i requires 0 <= i < |rows| => MonthRecord(rows[i], j))
  }

  /** The month columns j..12 stacked one after the other. */
  function MeltFrom(rows: seq<WideRow>, j: int): (r: seq<Record>)
    requires 0 <= j <= 12
    decreases 12 - j
  {
    if j == 12 then [] else MonthColumn(rows, j) + MeltFrom(rows, j + 1)
  }

  /** a * n, unfolded as repeated addition so that the index proofs stay linear. */
  function Stride(a: nat, n: nat): nat
  {
    if a == 0 then 0 else n + Stride(a - 1, n)
  }

  lemma {:induction false} StrideIsProduct(a: nat, n: nat)
    ensures Stride(a, n) == a * n
  {
    if a > 0 {
      StrideIsProduct(a - 1, n);
      assert a * n == n + (a - 1) * n;
    }
  }

  lemma {:induction false} MeltFromLength(rows: seq<WideRow>, j: int)
    requires 0 <= j <= 12
    ensures |MeltFrom(rows, j)| == Stride(12 - j, |rows|)
    decreases 12 - j
  {
    if j < 12 {
      MeltFromLength(rows, j + 1);
    }
  }

  lemma {:induction false} MeltFromAt(rows: seq<WideRow>, j: int, m: int, i: int)
    requires 0 <= j <= m < 12 && 0 <= i < |rows|
    ensures Stride(m - j, |rows|) + i < |MeltFrom(rows, j)|
    ensures MeltFrom(rows, j)[Stride(m - j, |rows|) + i] == MonthColumn(rows, m)[i]
    decreases 12 - j
  {
    var column, rest := MonthColumn(rows, j), MeltFrom(rows, j + 1);
    assert MeltFrom(rows, j) == column + rest;
    if j < m {
      MeltFromAt(rows, j + 1, m, i);
    }
  }

  lemma {:induction false} MeltFromWellFormed(rows: seq<WideRow>, j: int)
    requires 0 <= j <= 12
    ensures forall r :: r in MeltFrom(rows, j) ==> WellFormed(r)
    decreases 12 - j
  {
    if j < 12 {
      MeltFromWellFormed(rows, j + 1);
      forall r | r in MonthColumn(rows, j) ensures WellFormed(r) {
        var i :| 0 <= i < |rows| && MonthColumn(rows, j)[i] == r;
        MonthRecordTagged(rows[i], j);
      }
    }
  }

  /**
   * The wide-to-long reshape of the rows of one file, month column by month
   * column: twelve records per row.
   */
  function MeltRows(rows: seq<WideRow>): (r: seq<Record>)
    ensures |r| == 12 * |rows|
  {
    MeltFromLength(rows, 0);
    StrideIsProduct(12, |rows|);
    MeltFrom(rows, 0)
  }

  /**
   * The reshape keeps every (row, month) pair: the record for row i and month
   * column j sits at position j * |rows| + i.
   */
  lemma MeltRowsAt(rows: seq<WideRow>, i: int, j: int)
    requires 0 <= i < |rows| && 0 <= j < 12
    ensures j * |rows| + i < |MeltRows(rows)|
    ensures MeltRows(rows)[j * |rows| + i] == MonthRecord(rows[i], j)
  {
    MeltFromAt(rows, 0, j, i);
    StrideIsProduct(j, |rows|);
  }

  /** No (row, month) pair is lost by the reshape. */
  lemma MeltRowsContains(rows: seq<WideRow>, i: int, j: int)
    requires 0 <= i < |rows| && 0 <= j < 12
    ensures MonthRecord(rows[i], j) in MeltRows(rows)
  {
    MeltFromAt(rows, 0, j, i);
  }

  /** Reshaping one station row yields its twelve monthly records, January first. */
  lemma MeltOneRow(row: WideRow)
    ensures |MeltRows([row])| == 12
    ensures forall j :: 0 <= j < 12 ==> MeltRows([row])[j] == MonthRecord(row, j)
  {
    forall j | 0 <= j < 12 ensures MeltRows([row])[j] == MonthRecord(row, j) {
      MeltRowsAt([row], 0, j);
    }
  }

  /** Every record of a reshape is well formed. */
  lemma MeltRowsWellFormed(rows: seq<WideRow>)
    ensures forall r :: r in MeltRows(rows) ==> WellFormed(r)
  {
    MeltFromWellFormed(rows, 0);
  }

  /** The file's header has the station column and all twelve month columns. */
  predicate HasRequiredColumns(f: WideFrame)
  {
    RequiredColumns() <= f.columns
  }

  /** A header that lacks a required column lacks a nameable one. */
  lemma MissingColumnsNamed(f: WideFrame)
    requires !HasRequiredColumns(f)
    ensures RequiredColumns() - f.columns != {}
  {
    var c :| c in RequiredColumns() && c !in f.columns;
    assert c in RequiredColumns() - f.columns;
  }

  /**
   * Reshape of one file: fails, naming the absent columns, when the header
   * lacks a required column.
   */
  function Melt(f: WideFrame): (r: Result<seq<Record>, LoadError>)
    ensures r.Ok? <==> HasRequiredColumns(f)
    ensures r.Err? ==> r.error.names == RequiredColumns() - f.columns && r.error.names != {}
    ensures r.Ok? ==> |r.value| == 12 * |f.rows|
  {
    if HasRequiredColumns(f) then Ok(MeltRows(f.rows))
    else
      MissingColumnsNamed(f);
      Err(MissingColumns(RequiredColumns() - f.columns))
  }

  /** Concatenation of a list of long tables, in list order. */
  function Concat(tables: seq<seq<Record>>): seq<Record>
  {
    if tables == [] then [] else Concat(tables[..|tables| - 1]) + tables[|tables| - 1]
  }

  /** Number of wide rows over all files. */
  function TotalRows(files: seq<WideFrame>): nat
  {
    if files == [] then 0 else TotalRows(files[..|files| - 1]) + |files[|files| - 1].rows|
  }

  /** Some file has a row as soon as the files hold any row at all. */
  lemma {:induction false} SomeFileHasRow(files: seq<WideFrame>)
    requires TotalRows(files) > 0
    ensures exists k :: 0 <= k < |files| && |files[k].rows| > 0
  {
    var init := files[..|files| - 1];
    if |files[|files| - 1].rows| == 0 {
      SomeFileHasRow(init);
      var k :| 0 <= k < |init| && |init[k].rows| > 0;
      assert files[k] == init[k];
    }
  }

  /**
   * The unified table of a list of files, file by file: the first file whose
   * reshape fails stops the load with its error.
   */
  function LoadSpec(files: seq<WideFrame>): (r: Result<seq<Record>, LoadError>)
    ensures r.Ok? ==> |r.value| == 12 * TotalRows(files)
  {
    if files == [] then Ok([])
    else
      match LoadSpec(files[..|files| - 1])
      case Err(e) => Err(e)
      case Ok(t) =>
        match Melt(files[|files| - 1])
        case Err(e) => Err(e)
        case Ok(long) => Ok(t + long)
  }

  /** Once a prefix of the files fails, the whole load fails with that error. */
  lemma {:induction false} LoadSpecErrorSticks(files: seq<WideFrame>, k: int)
    requires 0 <= k <= |files|
    requires LoadSpec(files[..k]).Err?
    ensures LoadSpec(files) == LoadSpec(files[..k])
    decreases |files|
  {
    if k < |files| {
      var init := files[..|files| - 1];
      assert init[..k] == files[..k];
      LoadSpecErrorSticks(init, k);
    } else {
      assert files[..k] == files;
    }
  }

  /**
   * The load succeeds exactly when every file has all required columns, and
   * then the table has twelve records per wide row over all files: nothing is
   * dropped and nothing is deduplicated.
   */
  lemma LoadSpecCount(files: seq<WideFrame>)
    ensures LoadSpec(files).Ok? <==> forall k :: 0 <= k < |files| ==> Melt(files[k]).Ok?
    ensures LoadSpec(files).Ok? ==> |LoadSpec(files).value| == 12 * TotalRows(files)
  {
    if LoadSpec(files).Ok? {
      LoadSpecOkMeltsOk(files);
    } else {
      LoadSpecErrMeltErr(files);
    }
  }

  /** A successful load reshaped every file successfully. */
  lemma {:induction false} LoadSpecOkMeltsOk(files: seq<WideFrame>)
    requires LoadSpec(files).Ok?
    ensures forall k :: 0 <= k < |files| ==> Melt(files[k]).Ok?
  {
    if files != [] {
      var init := files[..|files| - 1];
      LoadSpecOkMeltsOk(init);
      forall k | 0 <= k < |files| - 1 ensures Melt(files[k]).Ok? {
        assert files[k] == init[k];
      }
    }
  }

  /** A failed load has a file whose reshape failed. */
  lemma {:induction false} LoadSpecErrMeltErr(files: seq<WideFrame>)
    requires LoadSpec(files).Err?
    ensures exists k :: 0 <= k < |files| && Melt(files[k]).Err?
  {
    var init := files[..|files| - 1];
    if LoadSpec(init).Err? {
      LoadSpecErrMeltErr(init);
      var k :| 0 <= k < |init| && Melt(init[k]).Err?;
      assert files[k] == init[k];
    } else {
      assert Melt(files[|files| - 1]).Err?;
    }
  }

  /**
   * Every record the reshape makes of every file is in the unified table:
   * for file k, row i and month column j.
   */
  lemma {:induction false} LoadSpecKeepsRecord(files: seq<WideFrame>, k: int, i: int, j: int)
    requires LoadSpec(files).Ok?
    requires 0 <= k < |files| && 0 <= i < |files[k].rows| && 0 <= j < 12
    ensures MonthRecord(files[k].rows[i], j) in LoadSpec(files).value
  {
    var init := files[..|files| - 1];
    var last := files[|files| - 1];
    var t, long := LoadSpec(init).value, Melt(last).value;
    assert LoadSpec(files).value == t + long;
    if k < |files| - 1 {
      assert init[k] == files[k];
      LoadSpecKeepsRecord(init, k, i, j);
    } else {
      MeltRowsContains(last.rows, i, j);
    }
  }

  /** Every record of the unified table is well formed. */
  lemma {:induction false} LoadSpecWellFormed(files: seq<WideFrame>)
    requires LoadSpec(files).Ok?
    ensures forall r :: r in LoadSpec(files).value ==> WellFormed(r)
  {
    if files != [] {
      var init := files[..|files| - 1];
      LoadSpecWellFormed(init);
      MeltRowsWellFormed(files[|files| - 1].rows);
    }
  }

  /**
   * Loads every file in turn, appending each reshaped table to a list and
   * concatenating the list at the end. An empty file list gives the empty table.
   */
  method LoadAllData(files: seq<WideFrame>) returns (r: Result<seq<Record>, LoadError>)
    ensures r == LoadSpec(files)
  {
    if |files| == 0 {
      return Ok([]);
    }
    var frames: seq<seq<Record>> := [];
    var i := 0;
    while i < |files|
      invariant 0 <= i <= |files|
      invariant LoadSpec(files[..i]) == Ok(Concat(frames))
    {
      var long := Melt(files[i]);
      assert files[..i + 1][..i] == files[..i];
      if long.Err? {
        LoadSpecErrorSticks(files, i + 1);
        return Err(long.error);
      }
      assert (frames + [long.value])[..|frames|] == frames;
      frames := frames + [long.value];
      i := i + 1;
    }
    assert files[..i] == files;
    return Ok(Concat(frames));
  }
}
