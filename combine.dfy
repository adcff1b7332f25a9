/**
 * `create_combined_borough_table` (main.py): the historical borough table and the ward
 * table, both wide (one column per month, named `YYYYMM`), are melted to one row per
 * (row, month), the ward rows are summed up to boroughs, both are kept where the count
 * is positive, the crime categories are title-cased and the minor ones renamed to a
 * single spelling, and everything is summed per (borough, major, minor, month), kept
 * where positive, and stripped of two pseudo-boroughs.
 */
module Combine {
  import opened Wrappers
  import opened Text
  import opened ColumnNames
  import opened Aggregation

  /** A value read back from SQLite: an integer, a text, or NULL. */
  datatype Cell = Num(n: int) | Str(s: string) | Missing

  datatype Table = Table(columns: seq<string>, rows: seq<seq<Cell>>)

  /** A DataFrame: every row has one cell per column. */
  type Frame = t: Table | forall r :: 0 <= r < |t.rows| ==> |t.rows[r]| == |t.columns|
    witness Table([], [])

  const HistoricalTable := "crime_borough_historical"
  const WardTable := "crime_ward"
  const CombinedTable := "crime_borough_combined"

  /** `boroughs_to_exclude`. */
  const ExcludedBoroughs: set<string> := {"London Heathrow and London City Airports", "Aviation Security (SO18)"}

  /** Each way `create_combined_borough_table` returns False before writing. */
  datatype CombineError =
    | MissingHistoricalTable
    | MissingWardTable
    | NoBoroughColumn
    | NoHistoricalMonthColumns
    | HistoricalIdColumnsMissing
    | InvalidHistoricalMonth
    | NoWardMonthColumns
    | WardIdColumnsMissing
    | InvalidWardMonth

  /** The position of the first column called `name`. */
  function IndexOf(cols: seq<string>, name: string): (r: Option<nat>)
    ensures r.Some? ==> r.value < |cols| && cols[r.value] == name
                        && forall j :: 0 <= j < r.value ==> cols[j] != name
    ensures r.None? <==> name !in cols
    decreases |cols|
  {
    if cols == [] then None
    else if cols[0] == name then Some(0)
    else match IndexOf(cols[1..], name)
      case None => None
      case Some(j) => Some(j + 1)
  }

  /** `re.match(r'^\d{6}$', col)`: six digits, after which `$` also admits one final newline. */
  predicate IsMonthColumn(col: string) {
    (|col| == 6 && AllDigits(col)) || (|col| == 7 && AllDigits(col[..6]) && col[6] == '\n')
  }

  /** On cleaned column names the test is just "six digits". */
  lemma CleanMonthColumn(col: string)
    requires IsClean(col)
    ensures IsMonthColumn(col) <==> |col| == 6 && AllDigits(col)
  {
    if |col| == 7 {
      assert IsCleanChar(col[6]);
    }
  }

  /** The positions of the month columns, in column order. */
  function MonthColumns(cols: seq<string>): (r: seq<nat>)
    ensures forall p :: 0 <= p < |r| ==> r[p] < |cols| && IsMonthColumn(cols[r[p]])
    ensures forall j :: 0 <= j < |cols| && IsMonthColumn(cols[j]) ==> j in r
    ensures forall p, q :: 0 <= p < q < |r| ==> r[p] < r[q]
    decreases |cols|
  {
    if cols == [] then []
    else
      var n := |cols| - 1;
      assert forall j :: 0 <= j < n ==> cols[..n][j] == cols[j];
      MonthColumns(cols[..n]) + (if IsMonthColumn(cols[n]) then [n] else [])
  }

  /** The first Timestamp of a month that pandas can hold (nanoseconds in 64 bits). */
  predicate InTimestampRange(m: Month) {
    (m.year > 1677 || (m.year == 1677 && m.month >= 10)) && (m.year < 2262 || (m.year == 2262 && m.month <= 4))
  }

  /**
   * `pd.to_datetime(label, format='%Y%m')`: four digits of year and two of month,
   * 01 to 12, nothing after, and inside the Timestamp range; None where it raises.
   */
  function ParseMonthLabel(name: string): (r: Option<Month>)
    ensures r.Some? ==> 1 <= r.value.month <= 12 && InTimestampRange(r.value)
  {
    if |name| != 6 || !AllDigits(name) then None
    else
      var m := Month(DecimalValue(name[..4]), DecimalValue(name[4..]));
      if 1 <= m.month <= 12 && InTimestampRange(m) then Some(m) else None
  }

  /** A month written as `YYYYMM`. */
  function MonthLabel(m: Month): string
    requires 0 <= m.year < 10000 && 1 <= m.month <= 12
  {
    Padded(m.year, 4) + Padded(m.month, 2)
  }

  /** A month column names exactly one month, and each month in range has exactly one label. */
  lemma MonthLabelRoundTrip(m: Month, name: string)
    ensures 1 <= m.month <= 12 && InTimestampRange(m) ==> ParseMonthLabel(MonthLabel(m)) == Some(m)
    ensures ParseMonthLabel(name) == Some(m) ==> MonthLabel(m) == name
  {
    if 1 <= m.month <= 12 && InTimestampRange(m) {
      MonthLabelParses(m);
    }
    if ParseMonthLabel(name) == Some(m) {
      LabelOfParsedMonth(name, m);
    }
  }

  lemma MonthLabelParses(m: Month)
    requires 1 <= m.month <= 12 && InTimestampRange(m)
    ensures ParseMonthLabel(MonthLabel(m)) == Some(m)
  {
    var l := MonthLabel(m);
    assert l[..4] == Padded(m.year, 4) && l[4..] == Padded(m.month, 2);
    assert m.year < Pow10(4) && m.month < Pow10(2);
    PaddedValue(m.year, 4);
    PaddedValue(m.month, 2);
  }

  lemma LabelOfParsedMonth(name: string, m: Month)
    requires ParseMonthLabel(name) == Some(m)
    ensures MonthLabel(m) == name
  {
    assert AllDigits(name[..4]) && AllDigits(name[4..]);
    PaddedOfDigits(name[..4]);
    PaddedOfDigits(name[4..]);
    assert name == name[..4] + name[4..];
  }

  /** The months of the given month columns, or None when one of them does not parse. */
  function ParseMonths(cols: seq<string>, idx: seq<nat>): (r: Option<seq<Month>>)
    requires forall p :: 0 <= p < |idx| ==> idx[p] < |cols|
    ensures r.Some? ==> |r.value| == |idx| && forall p :: 0 <= p < |idx| ==> ParseMonthLabel(cols[idx[p]]) == Some(r.value[p])
    ensures r.None? <==> exists p :: 0 <= p < |idx| && ParseMonthLabel(cols[idx[p]]).None?
    decreases |idx|
  {
    if idx == [] then Some([])
    else match (ParseMonthLabel(cols[idx[0]]), ParseMonths(cols, idx[1..]))
      case (Some(m), Some(ms)) =>
        assert forall p :: 1 <= p < |idx| ==> idx[p] == idx[1..][p - 1];
        Some([m] + ms)
      case (None, _) => None
      case (_, None) =>
        var p :| 0 <= p < |idx[1..]| && ParseMonthLabel(cols[idx[1..][p]]).None?;
        assert idx[1..][p] == idx[p + 1];
        None
  }

  /** A label cell: text, or missing (NaN) for anything else. */
  function Label(c: Cell): Option<string> {
    if c.Str? then Some(c.s) else None
  }

  /**
   * `pd.to_numeric(..., errors='coerce').fillna(0).astype(int)` of a count cell: an
   * integer, or a text of decimal digits, else 0.
   */
  function Count(c: Cell): int {
    match c
    case Num(n) => n
    case Str(s) => if s != [] && AllDigits(s) then DecimalValue(s) else 0
    case Missing => 0
  }

  /** A row of a long table: the three labels (None for NaN), the month and the count. */
  datatype LongRow = LongRow(borough: Option<string>, major: Option<string>, minor: Option<string>,
                             month: Month, count: int)

  /** The positions of the borough, major and minor label columns. */
  datatype Layout = Layout(borough: nat, major: nat, minor: nat)

  predicate Fits(t: Frame, lay: Layout) {
    lay.borough < |t.columns| && lay.major < |t.columns| && lay.minor < |t.columns|
  }

  function Melted(t: Frame, lay: Layout, r: nat, col: nat, m: Month): LongRow
    requires Fits(t, lay) && r < |t.rows| && col < |t.columns|
  {
    var row := t.rows[r];
    LongRow(Label(row[lay.borough]), Label(row[lay.major]), Label(row[lay.minor]), m, Count(row[col]))
  }

  /** `pd.melt` over the month columns `cols`, whose months are `months`: column by column, row by row. */
  function Melt(t: Frame, lay: Layout, cols: seq<nat>, months: seq<Month>): seq<LongRow>
    requires Fits(t, lay) && |cols| == |months| && forall p :: 0 <= p < |cols| ==> cols[p] < |t.columns|
    decreases |cols|
  {
    if cols == [] then []
    else seq(|t.rows|, r requires 0 <= r < |t.rows| => Melted(t, lay, r, cols[0], months[0]))
         + Melt(t, lay, cols[1..], months[1..])
  }

  lemma StrideBound(p: nat, r: nat, c: nat, n: nat)
    requires p < c && r < n
    ensures 0 <= p * n + r < c * n
  {
    assert p * n + n == (p + 1) * n;
    assert (p + 1) * n <= c * n;
  }

  lemma {:induction false} MeltLength(t: Frame, lay: Layout, cols: seq<nat>, months: seq<Month>)
    requires Fits(t, lay) && |cols| == |months| && forall p :: 0 <= p < |cols| ==> cols[p] < |t.columns|
    ensures |Melt(t, lay, cols, months)| == |cols| * |t.rows|
    decreases |cols|
  {
    if cols != [] {
      MeltLength(t, lay, cols[1..], months[1..]);
      assert |cols| * |t.rows| == |t.rows| + (|cols| - 1) * |t.rows|;
    }
  }

  /** Every cell of a month column becomes one long row, at row-count stride per column. */
  lemma {:induction false} MeltLayout(t: Frame, lay: Layout, cols: seq<nat>, months: seq<Month>, p: nat, r: nat)
    requires Fits(t, lay) && |cols| == |months| && forall q :: 0 <= q < |cols| ==> cols[q] < |t.columns|
    requires p < |cols| && r < |t.rows|
    ensures p * |t.rows| + r < |Melt(t, lay, cols, months)|
    ensures Melt(t, lay, cols, months)[p * |t.rows| + r] == Melted(t, lay, r, cols[p], months[p])
    decreases p
  {
    var n := |t.rows|;
    MeltLength(t, lay, cols, months);
    StrideBound(p, r, |cols|, n);
    if p > 0 {
      MeltLayout(t, lay, cols[1..], months[1..], p - 1, r);
      var i := (p - 1) * n + r;
      assert p * n + r == n + i by {
        assert p * n == (p - 1) * n + n;
      }
      assert cols[1..][p - 1] == cols[p] && months[1..][p - 1] == months[p];
    }
  }

  /**
   * The melted historical table: the borough column is `boroughname` if present, else
   * `lookup_boroughname`; melting needs `majortext` and `minortext` too; the month
   * labels are converted only when there is at least one row to convert.
   */
  function HistoricalBoroughColumn(cols: seq<string>): string {
    if "boroughname" in cols then "boroughname" else "lookup_boroughname"
  }

  function TransformHistorical(t: Frame): (r: Result<seq<LongRow>, CombineError>)
    ensures r == Failure(NoBoroughColumn) <==> "boroughname" !in t.columns && "lookup_boroughname" !in t.columns
    ensures r == Failure(NoHistoricalMonthColumns)
            <==> ("boroughname" in t.columns || "lookup_boroughname" in t.columns) && MonthColumns(t.columns) == []
    ensures r == Failure(HistoricalIdColumnsMissing)
            <==> ("boroughname" in t.columns || "lookup_boroughname" in t.columns) && MonthColumns(t.columns) != []
                 && ("majortext" !in t.columns || "minortext" !in t.columns)
    ensures r == Failure(InvalidHistoricalMonth)
            <==> ("boroughname" in t.columns || "lookup_boroughname" in t.columns) && MonthColumns(t.columns) != []
                 && "majortext" in t.columns && "minortext" in t.columns
                 && t.rows != [] && ParseMonths(t.columns, MonthColumns(t.columns)).None?
    ensures r.Failure? ==> r.error in {NoBoroughColumn, NoHistoricalMonthColumns, HistoricalIdColumnsMissing, InvalidHistoricalMonth}
  {
    var borough := IndexOf(t.columns, HistoricalBoroughColumn(t.columns));
    if borough.None? then Failure(NoBoroughColumn)
    else
      var cols := MonthColumns(t.columns);
      if cols == [] then Failure(NoHistoricalMonthColumns)
      else
        match (IndexOf(t.columns, "majortext"), IndexOf(t.columns, "minortext"))
        case (Some(major), Some(minor)) =>
          var lay := Layout(borough.value, major, minor);
          if t.rows == [] then Success([])
          else
            (match ParseMonths(t.columns, cols)
             case None => Failure(InvalidHistoricalMonth)
             case Some(months) => Success(Melt(t, lay, cols, months)))
        case _ => Failure(HistoricalIdColumnsMissing)
  }

  /** `id_vars_ward`: all five must exist for the melt. */
  const WardIdColumns: seq<string> := ["majortext", "minortext", "lookup_boroughname", "wardname", "wardcode"]

  /** The melted ward table, its borough being `lookup_boroughname`. */
  function TransformWard(t: Frame): (r: Result<seq<LongRow>, CombineError>)
    ensures r == Failure(NoWardMonthColumns) <==> MonthColumns(t.columns) == []
    ensures r == Failure(WardIdColumnsMissing)
            <==> MonthColumns(t.columns) != [] && exists c :: c in WardIdColumns && c !in t.columns
    ensures r == Failure(InvalidWardMonth)
            <==> MonthColumns(t.columns) != [] && (forall c :: c in WardIdColumns ==> c in t.columns)
                 && t.rows != [] && ParseMonths(t.columns, MonthColumns(t.columns)).None?
    ensures r.Failure? ==> r.error in {NoWardMonthColumns, WardIdColumnsMissing, InvalidWardMonth}
  {
    var cols := MonthColumns(t.columns);
    if cols == [] then Failure(NoWardMonthColumns)
    else if exists c :: c in WardIdColumns && c !in t.columns then Failure(WardIdColumnsMissing)
    else
      assert WardIdColumns[0] in t.columns && WardIdColumns[1] in t.columns && WardIdColumns[2] in t.columns;
      var lay := Layout(IndexOf(t.columns, "lookup_boroughname").value,
                        IndexOf(t.columns, "majortext").value, IndexOf(t.columns, "minortext").value);
      if t.rows == [] then Success([])
      else
        match ParseMonths(t.columns, cols)
        case None => Failure(InvalidWardMonth)
        case Some(months) => Success(Melt(t, lay, cols, months))
  }

  /** A successful transform has one row per (row, month column) pair. */
  lemma TransformShape(t: Frame)
    ensures TransformHistorical(t).Success? ==> |TransformHistorical(t).value| == |MonthColumns(t.columns)| * |t.rows|
    ensures TransformWard(t).Success? ==> |TransformWard(t).value| == |MonthColumns(t.columns)| * |t.rows|
  {
    if TransformHistorical(t).Success? {
      HistoricalShape(t, TransformHistorical(t).value);
    }
    if TransformWard(t).Success? {
      WardShape(t, TransformWard(t).value);
    }
  }

  lemma HistoricalShape(t: Frame, rows: seq<LongRow>)
    requires TransformHistorical(t) == Success(rows)
    ensures |rows| == |MonthColumns(t.columns)| * |t.rows|
  {
    var cols := MonthColumns(t.columns);
    if t.rows != [] {
      var months := ParseMonths(t.columns, cols).value;
      MeltLength(t, Layout(IndexOf(t.columns, HistoricalBoroughColumn(t.columns)).value,
                           IndexOf(t.columns, "majortext").value, IndexOf(t.columns, "minortext").value),
                 cols, months);
    }
  }

  lemma WardShape(t: Frame, rows: seq<LongRow>)
    requires TransformWard(t) == Success(rows)
    ensures |rows| == |MonthColumns(t.columns)| * |t.rows|
  {
    var cols := MonthColumns(t.columns);
    if t.rows != [] {
      var months := ParseMonths(t.columns, cols).value;
      assert WardIdColumns[0] in t.columns && WardIdColumns[1] in t.columns && WardIdColumns[2] in t.columns;
      MeltLength(t, Layout(IndexOf(t.columns, "lookup_boroughname").value,
                           IndexOf(t.columns, "majortext").value, IndexOf(t.columns, "minortext").value),
                 cols, months);
    }
  }

  /**
   * What a successful historical transform holds: the cell of row `i` under the `p`-th
   * month column becomes long row `p * |rows| + i`, carrying that row's borough label
   * (from `boroughname` if present, else `lookup_boroughname`), its `majortext` and
   * `minortext` labels, the month the column is named after, and the cell as a count.
   */
  lemma TransformHistoricalRows(t: Frame, rows: seq<LongRow>, p: nat, i: nat)
    requires TransformHistorical(t) == Success(rows) && p < |MonthColumns(t.columns)| && i < |t.rows|
    ensures HistoricalBoroughColumn(t.columns) in t.columns && "majortext" in t.columns && "minortext" in t.columns
    ensures ParseMonthLabel(t.columns[MonthColumns(t.columns)[p]]).Some?
    ensures 0 <= p * |t.rows| + i < |rows|
    ensures var lay := Layout(IndexOf(t.columns, HistoricalBoroughColumn(t.columns)).value,
                              IndexOf(t.columns, "majortext").value, IndexOf(t.columns, "minortext").value);
            var col := MonthColumns(t.columns)[p];
            rows[p * |t.rows| + i] == Melted(t, lay, i, col, ParseMonthLabel(t.columns[col]).value)
  {
    var cols := MonthColumns(t.columns);
    var months := ParseMonths(t.columns, cols).value;
    StrideBound(p, i, |cols|, |t.rows|);
    MeltLayout(t, Layout(IndexOf(t.columns, HistoricalBoroughColumn(t.columns)).value,
                         IndexOf(t.columns, "majortext").value, IndexOf(t.columns, "minortext").value),
               cols, months, p, i);
  }

  /**
   * What a successful ward transform holds: as for the historical table, with the
   * borough label taken from `lookup_boroughname`.
   */
  lemma TransformWardRows(t: Frame, rows: seq<LongRow>, p: nat, i: nat)
    requires TransformWard(t) == Success(rows) && p < |MonthColumns(t.columns)| && i < |t.rows|
    ensures "lookup_boroughname" in t.columns && "majortext" in t.columns && "minortext" in t.columns
    ensures "wardname" in t.columns && "wardcode" in t.columns
    ensures ParseMonthLabel(t.columns[MonthColumns(t.columns)[p]]).Some?
    ensures 0 <= p * |t.rows| + i < |rows|
    ensures var lay := Layout(IndexOf(t.columns, "lookup_boroughname").value,
                              IndexOf(t.columns, "majortext").value, IndexOf(t.columns, "minortext").value);
            var col := MonthColumns(t.columns)[p];
            rows[p * |t.rows| + i] == Melted(t, lay, i, col, ParseMonthLabel(t.columns[col]).value)
  {
    var cols := MonthColumns(t.columns);
    var months := ParseMonths(t.columns, cols).value;
    assert WardIdColumns[0] in t.columns && WardIdColumns[1] in t.columns && WardIdColumns[2] in t.columns;
    assert WardIdColumns[3] in t.columns && WardIdColumns[4] in t.columns;
    StrideBound(p, i, |cols|, |t.rows|);
    MeltLayout(t, Layout(IndexOf(t.columns, "lookup_boroughname").value,
                         IndexOf(t.columns, "majortext").value, IndexOf(t.columns, "minortext").value),
               cols, months, p, i);
  }

  /** The grouping key of a long row; None when a name is NaN, which `groupby` drops. */
  function KeyOf(r: LongRow): Option<Key> {
    if r.borough.Some? && r.major.Some? && r.minor.Some? then Some(Key(r.borough.value, r.major.value, r.minor.value, r.month))
    else None
  }

  /** The rows `groupby` sees, in order: the long rows whose three labels are all present. */
  function Keyed(rows: seq<LongRow>): (r: seq<Row>)
    ensures |r| <= |rows|
    decreases |rows|
  {
    if rows == [] then []
    else
      var last := rows[|rows| - 1];
      Keyed(rows[..|rows| - 1]) + (match KeyOf(last) case None => [] case Some(k) => [Row(k, last.count)])
  }

  /** Some long row has key `k`. */
  predicate HasKey(rows: seq<LongRow>, k: Key) {
    exists i :: 0 <= i < |rows| && KeyOf(rows[i]) == Some(k)
  }

  /** The total count of the long rows with key `k`. */
  function LongSum(rows: seq<LongRow>, k: Key): int
    decreases |rows|
  {
    if rows == [] then 0
    else LongSum(rows[..|rows| - 1], k) + (if KeyOf(rows[|rows| - 1]) == Some(k) then rows[|rows| - 1].count else 0)
  }

  /** The keys `groupby` sees are those of the long rows with no NaN label. */
  lemma {:induction false} KeyedKeys(rows: seq<LongRow>, k: Key)
    ensures k in KeysOf(Keyed(rows)) <==> HasKey(rows, k)
    decreases |rows|
  {
    if rows != [] {
      var n := |rows| - 1;
      var front := rows[..n];
      KeyedKeys(front, k);
      var tail := match KeyOf(rows[n]) case None => [] case Some(k') => [Row(k', rows[n].count)];
      if tail == [] {
        assert Keyed(rows) == Keyed(front);
      } else {
        KeysSnoc(Keyed(front), tail[0]);
      }
      if HasKey(front, k) {
        var i :| 0 <= i < n && KeyOf(front[i]) == Some(k);
        assert rows[i] == front[i];
      }
      if HasKey(rows, k) && KeyOf(rows[n]) != Some(k) {
        var i :| 0 <= i < |rows| && KeyOf(rows[i]) == Some(k);
        assert front[i] == rows[i];
      }
    }
  }

  /** The sum `groupby` forms under `k` is the total count of the long rows with that key. */
  lemma {:induction false} KeyedSum(rows: seq<LongRow>, k: Key)
    ensures SumFor(Keyed(rows), k) == LongSum(rows, k)
    decreases |rows|
  {
    if rows != [] {
      var n := |rows| - 1;
      var front := rows[..n];
      KeyedSum(front, k);
      var kept := Keyed(front);
      match KeyOf(rows[n])
      case None =>
        assert Keyed(rows) == kept + [] == kept;
        assert LongSum(rows, k) == LongSum(front, k);
      case Some(k') =>
        var x := Row(k', rows[n].count);
        assert Keyed(rows) == kept + [x];
        assert (kept + [x])[..|kept|] == kept;
    }
  }

  function Positive(r: Row): bool { r.count > 0 }

  /** `df_ward_long.groupby([...])['count'].sum()`, kept where the sum is positive. */
  function WardGroups(ward: seq<LongRow>): seq<Row> {
    Filter(GroupSum(Keyed(ward)), Positive)
  }

  /** A ward borough total is the sum over its wards, and is kept when positive. */
  lemma WardGroupsSpec(ward: seq<LongRow>, k: Key)
    ensures StrictlySorted(WardGroups(ward))
    ensures Lookup(WardGroups(ward), k) == if HasKey(ward, k) && LongSum(ward, k) > 0 then Some(LongSum(ward, k)) else None
  {
    KeyedKeys(ward, k);
    KeyedSum(ward, k);
    GroupSumSorted(Keyed(ward));
    GroupSumLookup(Keyed(ward), k);
    FilterSorted(GroupSum(Keyed(ward)), Positive, k);
  }

  /** `df_hist_long[df_hist_long['count'] > 0]`. */
  function PositiveRows(rows: seq<LongRow>): (r: seq<LongRow>)
    ensures forall i :: 0 <= i < |r| ==> r[i].count > 0
    ensures forall x :: x in r <==> x in rows && x.count > 0
    decreases |rows|
  {
    if rows == [] then []
    else if rows[0].count > 0 then [rows[0]] + PositiveRows(rows[1..])
    else PositiveRows(rows[1..])
  }

  /** The filter keeps every positive row as often as it occurs, in any position, and no other row. */
  lemma {:induction false} PositiveRowsMultiset(rows: seq<LongRow>)
    ensures forall x :: multiset(PositiveRows(rows))[x] == if x.count > 0 then multiset(rows)[x] else 0
    decreases |rows|
  {
    if rows != [] {
      var rest := rows[1..];
      PositiveRowsMultiset(rest);
      assert rows == [rows[0]] + rest;
      assert multiset(rows) == multiset{rows[0]} + multiset(rest);
      if rows[0].count > 0 {
        assert multiset(PositiveRows(rows)) == multiset{rows[0]} + multiset(PositiveRows(rest));
      }
    }
  }

  /** The ward groups as rows of the combined table. */
  function GroupRows(groups: seq<Row>): (r: seq<LongRow>)
    ensures |r| == |groups|
  {
    seq(|groups|, i requires 0 <= i < |groups| =>
      LongRow(Some(groups[i].key.borough), Some(groups[i].key.major), Some(groups[i].key.minor),
              groups[i].key.month, groups[i].count))
  }

  /** `minor_crime_mapping`, keyed by title-cased minor category. */
  const MinorMapping: map<string, string> := map[
    "Theft From The Person" := "Theft From Person",
    "Theft From A Vehicle" := "Theft From A Motor Vehicle",
    "Theft Or Unauth Taking Of A Motor Veh" := "Theft Or Taking Of A Motor Vehicle",
    "Burglary In A Dwelling" := "Domestic Burglary",
    "Burglary - Residential" := "Domestic Burglary",
    "Burglary Non-Dwelling" := "Burglary Business And Community",
    "Trafficking Of Drugs" := "Drug Trafficking",
    "Race Or Religious Agg Public Fear" := "Racially Or Religiously Aggravated Public Fear, Al",
    "Other Offences Public Order" := "Other Offences Against The State, Or Public Order"
  ]

  /** `.replace(minor_crime_mapping)` on one value. */
  function MapMinor(s: string): string {
    if s in MinorMapping then MinorMapping[s] else s
  }

  /** No renamed category is itself renamed, so the one-pass replacement is final. */
  lemma MinorMappingSettled(s: string)
    ensures MapMinor(s) !in MinorMapping
    ensures MapMinor(MapMinor(s)) == MapMinor(s)
  {
    assert forall v :: v in MinorMapping.Values ==> v !in MinorMapping;
  }

  /** The two spellings of household burglary end up as one category. */
  lemma BurglaryVariantsMerge()
    ensures MapMinor("Burglary In A Dwelling") == MapMinor("Burglary - Residential") == "Domestic Burglary"
  {
  }

  /** `.str.title()` on both categories, then the minor renaming; NaN stays NaN. */
  function Standardize(r: LongRow): LongRow {
    r.(major := if r.major.Some? then Some(Title(r.major.value)) else None,
       minor := if r.minor.Some? then Some(MapMinor(Title(r.minor.value))) else None)
  }

  function StandardizeAll(rows: seq<LongRow>): (r: seq<LongRow>)
    ensures |r| == |rows| && forall i :: 0 <= i < |rows| ==> r[i] == Standardize(rows[i])
  {
    seq(|rows|, i requires 0 <= i < |rows| => Standardize(rows[i]))
  }

  function NotExcluded(r: Row): bool { r.key.borough !in ExcludedBoroughs }

  /** Both sources, kept where positive, with standardized categories. */
  function FinalLong(hist: seq<LongRow>, ward: seq<LongRow>): seq<LongRow> {
    StandardizeAll(PositiveRows(hist) + GroupRows(WardGroups(ward)))
  }

  /** The rows the final `groupby` sees: NaN labels dropped. */
  function FinalInput(hist: seq<LongRow>, ward: seq<LongRow>): seq<Row> {
    Keyed(FinalLong(hist, ward))
  }

  /** `df_final` as written to `crime_borough_combined`. */
  function FinalTable(hist: seq<LongRow>, ward: seq<LongRow>): seq<Row> {
    Filter(Filter(GroupSum(FinalInput(hist, ward)), Positive), NotExcluded)
  }

  /**
   * The combined table is sorted by (borough, major, minor, month), and holds under a
   * key the total of the standardized rows with that key exactly when that total is
   * positive and the borough is not excluded.
   */
  lemma FinalTableSpec(hist: seq<LongRow>, ward: seq<LongRow>, k: Key)
    ensures StrictlySorted(FinalTable(hist, ward))
    ensures Lookup(FinalTable(hist, ward), k)
            == if HasKey(FinalLong(hist, ward), k) && LongSum(FinalLong(hist, ward), k) > 0 && k.borough !in ExcludedBoroughs
               then Some(LongSum(FinalLong(hist, ward), k)) else None
  {
    KeyedKeys(FinalLong(hist, ward), k);
    KeyedSum(FinalLong(hist, ward), k);
    var rows := FinalInput(hist, ward);
    GroupSumSorted(rows);
    GroupSumLookup(rows, k);
    FilterSorted(GroupSum(rows), Positive, k);
    FilterSorted(Filter(GroupSum(rows), Positive), NotExcluded, k);
  }

  /** The combined table is the one sorted table with those contents. */
  lemma FinalTableUnique(hist: seq<LongRow>, ward: seq<LongRow>, other: seq<Row>)
    requires StrictlySorted(other)
    requires forall k :: Lookup(other, k)
               == if HasKey(FinalLong(hist, ward), k) && LongSum(FinalLong(hist, ward), k) > 0 && k.borough !in ExcludedBoroughs
                  then Some(LongSum(FinalLong(hist, ward), k)) else None
    ensures other == FinalTable(hist, ward)
  {
    forall k ensures Lookup(other, k) == Lookup(FinalTable(hist, ward), k) {
      FinalTableSpec(hist, ward, k);
    }
    FinalTableSpec(hist, ward, Key("", "", "", Month(0, 0)));
    SortedDeterminedByLookup(other, FinalTable(hist, ward));
  }

  /** A standardized key has a title-cased major category and a settled minor category. */
  lemma StandardizedKeys(rows: seq<LongRow>, k: Key)
    requires HasKey(StandardizeAll(rows), k)
    ensures Title(k.major) == k.major && k.minor !in MinorMapping
  {
    var std := StandardizeAll(rows);
    var j :| 0 <= j < |std| && KeyOf(std[j]) == Some(k);
    TitleIdempotent(rows[j].major.value);
    MinorMappingSettled(Title(rows[j].minor.value));
  }

  /**
   * Every row of the combined table has a positive count, a borough that is not
   * excluded, a title-cased major category and a minor category in its settled spelling.
   */
  lemma FinalTableRows(hist: seq<LongRow>, ward: seq<LongRow>, i: nat)
    requires i < |FinalTable(hist, ward)|
    ensures FinalTable(hist, ward)[i].count > 0
    ensures FinalTable(hist, ward)[i].key.borough !in ExcludedBoroughs
    ensures Title(FinalTable(hist, ward)[i].key.major) == FinalTable(hist, ward)[i].key.major
    ensures FinalTable(hist, ward)[i].key.minor !in MinorMapping
  {
    var out := FinalTable(hist, ward);
    var k := out[i].key;
    assert k in KeysOf(out);
    FinalTableSpec(hist, ward, k);
    StandardizedKeys(PositiveRows(hist) + GroupRows(WardGroups(ward)), k);
    LookupAt(out, i);
  }

  /**
   * When the combination succeeds, the table written holds under each key the positive
   * total of the standardized rows of both sources, outside the excluded boroughs.
   */
  lemma CombinedTableContents(store: map<string, Frame>, k: Key)
    requires CombineTables(store).Success?
    ensures StrictlySorted(CombineTables(store).value)
    ensures var rows := FinalLong(TransformHistorical(store[HistoricalTable]).value, TransformWard(store[WardTable]).value);
            Lookup(CombineTables(store).value, k)
            == if HasKey(rows, k) && LongSum(rows, k) > 0 && k.borough !in ExcludedBoroughs then Some(LongSum(rows, k)) else None
  {
    FinalTableSpec(TransformHistorical(store[HistoricalTable]).value, TransformWard(store[WardTable]).value, k);
  }

  /**
   * `create_combined_borough_table` on the tables of the database: the two source
   * tables must exist, then each is transformed, historical first.
   */
  function CombineTables(store: map<string, Frame>): (r: Result<seq<Row>, CombineError>)
    ensures r == Failure(MissingHistoricalTable) <==> HistoricalTable !in store
    ensures r == Failure(MissingWardTable) <==> HistoricalTable in store && WardTable !in store
    ensures r.Success? <==> HistoricalTable in store && WardTable in store
                            && TransformHistorical(store[HistoricalTable]).Success?
                            && TransformWard(store[WardTable]).Success?
  {
    if HistoricalTable !in store then Failure(MissingHistoricalTable)
    else if WardTable !in store then Failure(MissingWardTable)
    else
      var hist :- TransformHistorical(store[HistoricalTable]);
      var ward :- TransformWard(store[WardTable]);
      Success(FinalTable(hist, ward))
  }
}
