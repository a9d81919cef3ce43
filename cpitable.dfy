/** The CPI table both analysis scripts load: one row per (period, region,
    category), with the numeric columns kept as opaque optional values (a
    missing value is pandas' NaN). Holds the operations the two scripts share:
    loading the period column, lower bounds and trailing windows on periods,
    the list of regions present, and `pivot_table(aggfunc='first')`. */
module CpiTable {

  import opened Wrappers
  import opened Sequences
  import opened Text
  import opened Periods

  /** A CSV row before the `Periodo` column is converted. */
  datatype RawRow = RawRow(period: string, region: string, code: Option<string>,
                           description: Option<string>, index: Option<real>,
                           monthly: Option<real>, yearly: Option<real>)

  /** A row after conversion: `Periodo` is a month. */
  datatype Row = Row(period: Period, region: string, code: Option<string>,
                     description: Option<string>, index: Option<real>,
                     monthly: Option<real>, yearly: Option<real>)

  /** The ways a run aborts. */
  datatype Error =
    | MalformedPeriod(text: string)
    | UnknownRegion(region: string, available: seq<string>)
    | EmptyRanking

  function WithPeriod(raw: RawRow, p: Period): Row {
    Row(p, raw.region, raw.code, raw.description, raw.index, raw.monthly, raw.yearly)
  }

  predicate FirstMalformed(raw: seq<RawRow>, i: int) {
    0 <= i < |raw| && ParsePeriod(raw[i].period).None? &&
    forall j :: 0 <= j < i ==> ParsePeriod(raw[j].period).Some?
  }

  /** The period column read as `%Y%m` months: either every entry converts
      or the load aborts on the first malformed one. */
  function LoadTable(raw: seq<RawRow>): (r: Result<seq<Row>, Error>)
    ensures r.Success? <==> forall i :: 0 <= i < |raw| ==> ParsePeriod(raw[i].period).Some?
    ensures r.Success? ==>
              (|r.value| == |raw| &&
               forall i :: 0 <= i < |raw| ==>
                 r.value[i] == WithPeriod(raw[i], ParsePeriod(raw[i].period).value))
    ensures r.Failure? ==> exists i :: FirstMalformed(raw, i) && r.error == MalformedPeriod(raw[i].period)
    decreases |raw|
  {
    if raw == [] then Success([])
    else
      match ParsePeriod(raw[0].period)
      case None =>
        assert FirstMalformed(raw, 0);
        Failure(MalformedPeriod(raw[0].period))
      case Some(p) =>
        match LoadTable(raw[1..])
        case Failure(e) =>
          var i :| FirstMalformed(raw[1..], i) && e == MalformedPeriod(raw[1..][i].period);
          assert FirstMalformed(raw, i + 1);
          Failure(e)
        case Success(rest) =>
          Success([WithPeriod(raw[0], p)] + rest)
  }

  /** `df['Periodo'].max()` of a non-empty table. */
  function LatestPeriod(rows: seq<Row>): (r: Period)
    requires rows != []
    ensures forall i :: 0 <= i < |rows| ==> rows[i].period <= r
    decreases |rows|
  {
    if |rows| == 1 then rows[0].period
    else
      var m := LatestPeriod(rows[1..]);
      if rows[0].period >= m then rows[0].period else m
  }

  /** The latest period bounds every row's period and is some row's period. */
  lemma {:induction false} LatestPeriodIsMax(rows: seq<Row>)
    requires rows != []
    ensures forall i :: 0 <= i < |rows| ==> rows[i].period <= LatestPeriod(rows)
    ensures exists i :: 0 <= i < |rows| && rows[i].period == LatestPeriod(rows)
    decreases |rows|
  {
    if |rows| == 1 {
      assert rows[0].period == LatestPeriod(rows);
    } else {
      LatestPeriodIsMax(rows[1..]);
      assert forall i :: 1 <= i < |rows| ==> rows[i].period == rows[1..][i - 1].period;
      if rows[0].period < LatestPeriod(rows[1..]) {
        var k :| 0 <= k < |rows[1..]| && rows[1..][k].period == LatestPeriod(rows[1..]);
        assert rows[k + 1].period == LatestPeriod(rows);
      } else {
        assert rows[0].period == LatestPeriod(rows);
      }
    }
  }

  /** `df[df['Periodo'] >= lo]`: the rows from period `lo` on, in table order. */
  function AtOrAfter(rows: seq<Row>, lo: int): (r: seq<Row>)
    ensures forall x :: x in r <==> x in rows && x.period >= lo
    ensures |r| <= |rows|
    decreases |rows|
  {
    if rows == [] then []
    else
      assert rows == [rows[0]] + rows[1..];
      (if rows[0].period >= lo then [rows[0]] else []) + AtOrAfter(rows[1..], lo)
  }

  /** The sort key of `sort_values('Periodo')`. */
  function PeriodKey(r: Row): real {
    r.period as real
  }

  /** `df[df['Region'] == region]`, in table order. */
  function OfRegion(rows: seq<Row>, region: string): (r: seq<Row>)
    ensures forall x :: x in r <==> x in rows && x.region == region
    ensures forall x :: multiset(r)[x] == if x.region == region then multiset(rows)[x] else 0
  {
    Filter(rows, (x: Row) => x.region == region)
  }

  /** A lower bound keeps every copy of a row at or after it and no other. */
  lemma {:induction false} AtOrAfterCount(rows: seq<Row>, lo: int)
    ensures forall x :: multiset(AtOrAfter(rows, lo))[x] ==
              if x.period >= lo then multiset(rows)[x] else 0
    decreases |rows|
  {
    if rows != [] {
      AtOrAfterCount(rows[1..], lo);
      assert rows == [rows[0]] + rows[1..];
    }
  }

  /** Bounding twice is bounding by the larger bound. */
  lemma {:induction false} AtOrAfterTwice(rows: seq<Row>, lo: int, hi: int)
    requires lo <= hi
    ensures AtOrAfter(AtOrAfter(rows, lo), hi) == AtOrAfter(rows, hi)
    decreases |rows|
  {
    if rows != [] {
      AtOrAfterTwice(rows[1..], lo, hi);
      AtOrAfterAppend((if rows[0].period >= lo then [rows[0]] else []), AtOrAfter(rows[1..], lo), hi);
    }
  }

  lemma {:induction false} AtOrAfterAppend(a: seq<Row>, b: seq<Row>, lo: int)
    ensures AtOrAfter(a + b, lo) == AtOrAfter(a, lo) + AtOrAfter(b, lo)
    decreases |a|
  {
    if a == [] {
      assert a + b == b;
    } else {
      assert (a + b)[1..] == a[1..] + b;
      AtOrAfterAppend(a[1..], b, lo);
    }
  }

  /** The trailing window ending at the latest period:
      `df[df['Periodo'] >= df['Periodo'].max() - pd.DateOffset(months=n-1)]`.
      An empty table has no latest period (NaT) and an empty window. */
  function Window(rows: seq<Row>, n: nat): (r: seq<Row>)
    ensures |r| <= |rows|
    ensures forall x :: x in r ==> x in rows
    ensures rows != [] ==> forall x :: x in r ==> x.period <= LatestPeriod(rows)
  {
    AtOrAfter(rows, WindowFrom(rows, n))
  }

  /** The first period of the trailing window of `n` months. */
  function WindowFrom(rows: seq<Row>, n: nat): int {
    if rows == [] then 0 else LatestPeriod(rows) - (n - 1)
  }

  /** The periods a table covers. */
  function PeriodsOf(rows: seq<Row>): set<int> {
    set i | 0 <= i < |rows| :: rows[i].period
  }

  /** The `n` consecutive months from `lo`. */
  function Range(lo: int, n: nat): set<int>
    decreases n
  {
    if n == 0 then {} else Range(lo, n - 1) + {lo + n - 1}
  }

  lemma {:induction false} RangeFacts(lo: int, n: nat)
    ensures |Range(lo, n)| == n
    ensures forall k :: k in Range(lo, n) <==> lo <= k < lo + n
    decreases n
  {
    if n > 0 {
      RangeFacts(lo, n - 1);
    }
  }

  lemma {:induction false} SubsetSize(a: set<int>, b: set<int>)
    requires a <= b
    ensures |a| <= |b|
  {
    assert b == a + (b - a);
    assert a * (b - a) == {};
  }

  /** A window of `n` months lies within the `n` months ending at the
      latest period. */
  lemma {:induction false} WindowBounds(rows: seq<Row>, n: nat)
    requires rows != [] && n >= 1
    ensures forall x :: x in Window(rows, n) <==>
              x in rows && LatestPeriod(rows) - (n - 1) <= x.period
    ensures forall x :: x in Window(rows, n) ==>
              LatestPeriod(rows) - (n - 1) <= x.period <= LatestPeriod(rows)
  {
    var m := LatestPeriod(rows);
    LatestPeriodIsMax(rows);
    forall x | x in Window(rows, n) ensures m - (n - 1) <= x.period <= m {
      var j :| 0 <= j < |rows| && rows[j] == x;
    }
  }

  /** A part of a table that holds a row of the latest period has the same
      latest period. */
  lemma {:induction false} LatestOfPart(rows: seq<Row>, part: seq<Row>, x: Row)
    requires rows != [] && forall y :: y in part ==> y in rows
    requires x in part && x.period == LatestPeriod(rows)
    ensures part != [] && LatestPeriod(part) == LatestPeriod(rows)
  {
    LatestPeriodIsMax(rows);
    LatestPeriodIsMax(part);
    var j :| 0 <= j < |part| && part[j].period == LatestPeriod(part);
    assert part[j] in rows;
    var k :| 0 <= k < |part| && part[k] == x;
  }

  /** A window of at least one month keeps the rows of the latest period,
      and so has the same latest period as the whole table. */
  lemma {:induction false} WindowLatest(rows: seq<Row>, n: nat)
    requires rows != [] && n >= 1
    ensures exists x :: x in Window(rows, n) && x.period == LatestPeriod(rows)
    ensures Window(rows, n) != []
    ensures LatestPeriod(Window(rows, n)) == LatestPeriod(rows)
  {
    var w := Window(rows, n);
    LatestPeriodIsMax(rows);
    var i :| 0 <= i < |rows| && rows[i].period == LatestPeriod(rows);
    assert rows[i] in w;
    LatestOfPart(rows, w, rows[i]);
  }

  /** The latest period is among the periods a window covers. */
  lemma {:induction false} WindowKeepsMax(rows: seq<Row>, n: nat)
    requires rows != [] && n >= 1
    ensures LatestPeriod(rows) in PeriodsOf(Window(rows, n))
  {
    var w := Window(rows, n);
    WindowLatest(rows, n);
    var x :| x in w && x.period == LatestPeriod(rows);
    var k :| 0 <= k < |w| && w[k] == x;
    assert w[k].period in PeriodsOf(w);
  }

  /** A window of `n` months contains the latest period, lies within the `n`
      months ending there, and so covers at most `n` distinct periods. */
  lemma {:induction false} WindowSpan(rows: seq<Row>, n: nat)
    requires rows != [] && n >= 1
    ensures forall x :: x in Window(rows, n) ==>
              LatestPeriod(rows) - (n - 1) <= x.period <= LatestPeriod(rows)
    ensures LatestPeriod(rows) in PeriodsOf(Window(rows, n))
    ensures |PeriodsOf(Window(rows, n))| <= n
  {
    var m := LatestPeriod(rows);
    var w := Window(rows, n);
    WindowBounds(rows, n);
    WindowKeepsMax(rows, n);
    RangeFacts(m - (n - 1), n);
    assert PeriodsOf(w) <= Range(m - (n - 1), n) by {
      forall p | p in PeriodsOf(w) ensures p in Range(m - (n - 1), n) {
        var j :| 0 <= j < |w| && w[j].period == p;
        assert w[j] in w;
      }
    }
    SubsetSize(PeriodsOf(w), Range(m - (n - 1), n));
  }

  /** The periods a window of `n` months covers are exactly the table's
      periods from `n - 1` months before the latest one on. */
  lemma {:induction false} WindowPeriods(rows: seq<Row>, n: nat)
    requires rows != [] && n >= 1
    ensures PeriodsOf(Window(rows, n)) ==
            set p | p in PeriodsOf(rows) && LatestPeriod(rows) - (n - 1) <= p
  {
    var w := Window(rows, n);
    var lo := LatestPeriod(rows) - (n - 1);
    WindowBounds(rows, n);
    forall p | p in PeriodsOf(w) ensures p in PeriodsOf(rows) && lo <= p {
      var j :| 0 <= j < |w| && w[j].period == p;
      assert w[j] in w;
      var k :| 0 <= k < |rows| && rows[k] == w[j];
    }
    forall p | p in PeriodsOf(rows) && lo <= p ensures p in PeriodsOf(w) {
      var k :| 0 <= k < |rows| && rows[k].period == p;
      assert rows[k] in rows;
      var j :| 0 <= j < |w| && w[j] == rows[k];
    }
  }

  /** When the table holds every one of the `n` months ending at its latest
      period, a window of `n` months covers exactly those `n` periods. */
  lemma {:induction false} WindowComplete(rows: seq<Row>, n: nat)
    requires rows != [] && n >= 1
    requires Range(LatestPeriod(rows) - (n - 1), n) <= PeriodsOf(rows)
    ensures PeriodsOf(Window(rows, n)) == Range(LatestPeriod(rows) - (n - 1), n)
    ensures |PeriodsOf(Window(rows, n))| == n
  {
    var lo := LatestPeriod(rows) - (n - 1);
    WindowPeriods(rows, n);
    RangeFacts(lo, n);
    forall p | p in PeriodsOf(rows) ensures p <= LatestPeriod(rows) {
      var k :| 0 <= k < |rows| && rows[k].period == p;
    }
  }

  /** A shorter window is the same window taken of a longer one: both are
      anchored at the same latest period. */
  lemma {:induction false} WindowNested(rows: seq<Row>, n: nat, m: nat)
    requires 1 <= n <= m
    ensures Window(Window(rows, m), n) == Window(rows, n)
  {
    if rows != [] {
      WindowLatest(rows, m);
      assert WindowFrom(Window(rows, m), n) == WindowFrom(rows, n);
      AtOrAfterTwice(rows, WindowFrom(rows, m), WindowFrom(rows, n));
    }
  }

  /** The `Region` column. */
  function RegionColumn(rows: seq<Row>): seq<string> {
    seq(|rows|, i requires 0 <= i < |rows| => rows[i].region)
  }

  /** `sorted(df['Region'].unique())`. */
  function AvailableRegions(rows: seq<Row>): (r: seq<string>)
    ensures StrictlyAscending(r)
    ensures forall y :: y in r <==> exists i :: 0 <= i < |rows| && rows[i].region == y
  {
    var names := RegionColumn(rows);
    assert forall y :: y in names <==> exists i :: 0 <= i < |rows| && rows[i].region == y by {
      forall y | y in names ensures exists i :: 0 <= i < |rows| && rows[i].region == y {
        var i :| 0 <= i < |names| && names[i] == y;
        assert rows[i].region == y;
      }
      forall y | exists i :: 0 <= i < |rows| && rows[i].region == y ensures y in names {
        var i :| 0 <= i < |rows| && rows[i].region == y;
        assert names[i] == y;
      }
    }
    SortedUnique(names)
  }

  // ---- pivot_table(values='v_m_IPC', index=..., columns='year_month', aggfunc='first')

  /** What a pivot is indexed by: `Descripcion` or `Region`. */
  datatype PivotIndex = ByDescription | ByRegion

  function KeyOf(r: Row, axis: PivotIndex): Option<string> {
    match axis
    case ByDescription => r.description
    case ByRegion => Some(r.region)
  }

  /** Row `r` offers a monthly change for cell (`key`, `col`). */
  predicate Feeds(r: Row, axis: PivotIndex, key: string, col: string) {
    KeyOf(r, axis) == Some(key) && Label(r.period) == col && r.monthly.Some?
  }

  /** Row `i`, at or after `k`, is the first from `k` on to offer a value
      for the cell. */
  predicate FirstFeederFrom(rows: seq<Row>, axis: PivotIndex, key: string, col: string, k: int, i: int) {
    0 <= k <= i < |rows| && Feeds(rows[i], axis, key, col) &&
    forall j :: k <= j < i ==> !Feeds(rows[j], axis, key, col)
  }

  /** Row `i` is the first, in table order, to offer a value for the cell. */
  predicate FirstFeeder(rows: seq<Row>, axis: PivotIndex, key: string, col: string, i: int) {
    FirstFeederFrom(rows, axis, key, col, 0, i)
  }

  /** The position of the first row from `k` on that offers a value for the
      cell, or `|rows|` when none does. */
  function FirstFeederIndex(rows: seq<Row>, axis: PivotIndex, key: string, col: string, k: nat): (i: nat)
    requires k <= |rows|
    ensures k <= i <= |rows|
    ensures forall j :: k <= j < i ==> !Feeds(rows[j], axis, key, col)
    ensures i < |rows| ==> Feeds(rows[i], axis, key, col)
    decreases |rows| - k
  {
    if k == |rows| || Feeds(rows[k], axis, key, col) then k
    else FirstFeederIndex(rows, axis, key, col, k + 1)
  }

  /** The first value offered for the cell from row `k` on. */
  function FirstValueFrom(rows: seq<Row>, axis: PivotIndex, key: string, col: string, k: nat): (v: Option<real>)
    requires k <= |rows|
    ensures v.None? <==> forall i :: k <= i < |rows| ==> !Feeds(rows[i], axis, key, col)
    ensures v.Some? ==> exists i :: FirstFeederFrom(rows, axis, key, col, k, i) && v == rows[i].monthly
  {
    var i := FirstFeederIndex(rows, axis, key, col, k);
    if i == |rows| then None
    else
      assert FirstFeederFrom(rows, axis, key, col, k, i);
      rows[i].monthly
  }

  /** `GroupBy.first()`: the first non-missing monthly change of the group
      (`None` when the group has none). */
  function FirstValue(rows: seq<Row>, axis: PivotIndex, key: string, col: string): (v: Option<real>)
    ensures v.None? <==> forall i :: 0 <= i < |rows| ==> !Feeds(rows[i], axis, key, col)
    ensures v.Some? ==> exists i :: FirstFeeder(rows, axis, key, col, i) && v == rows[i].monthly
  {
    FirstValueFrom(rows, axis, key, col, 0)
  }

  /** First wins: the cell holds the value of the first row that offers one. */
  lemma {:induction false} FirstWins(rows: seq<Row>, axis: PivotIndex, key: string, col: string, i: int)
    requires FirstFeeder(rows, axis, key, col, i)
    ensures FirstValue(rows, axis, key, col) == rows[i].monthly
  {
    var v := FirstValue(rows, axis, key, col);
    var k :| FirstFeeder(rows, axis, key, col, k) && v == rows[k].monthly;
    assert !(k < i) && !(i < k);
  }

  /** Rows after the first offer never overwrite a filled cell. */
  lemma {:induction false} LaterRowsIgnored(rows: seq<Row>, more: seq<Row>, axis: PivotIndex, key: string, col: string)
    requires FirstValue(rows, axis, key, col).Some?
    ensures FirstValue(rows + more, axis, key, col) == FirstValue(rows, axis, key, col)
  {
    var i :| FirstFeeder(rows, axis, key, col, i) && FirstValue(rows, axis, key, col) == rows[i].monthly;
    assert FirstFeeder(rows + more, axis, key, col, i);
    FirstWins(rows + more, axis, key, col, i);
  }

  /** Row `r` carries key `key` and a monthly value. */
  predicate OffersKey(r: Row, axis: PivotIndex, key: string) {
    KeyOf(r, axis) == Some(key) && r.monthly.Some?
  }

  /** Row `r` carries some key and a monthly value for column `col`. */
  predicate OffersColumn(r: Row, axis: PivotIndex, col: string) {
    KeyOf(r, axis).Some? && r.monthly.Some? && Label(r.period) == col
  }

  /** The keys of the rows, from row `k` on, that carry a value. */
  function FedKeys(rows: seq<Row>, axis: PivotIndex, k: nat): (r: seq<string>)
    requires k <= |rows|
    ensures forall key :: key in r <==> exists i :: k <= i < |rows| && OffersKey(rows[i], axis, key)
    decreases |rows| - k
  {
    if k == |rows| then []
    else
      var rest := FedKeys(rows, axis, k + 1);
      if OffersKey(rows[k], axis, KeyOf(rows[k], axis).GetOr("")) && KeyOf(rows[k], axis).Some?
      then [KeyOf(rows[k], axis).value] + rest
      else rest
  }

  /** The labels of the rows, from row `k` on, that carry a key and a value. */
  function FedColumns(rows: seq<Row>, axis: PivotIndex, k: nat): (r: seq<string>)
    requires k <= |rows|
    ensures forall col :: col in r <==> exists i :: k <= i < |rows| && OffersColumn(rows[i], axis, col)
    decreases |rows| - k
  {
    if k == |rows| then []
    else
      var rest := FedColumns(rows, axis, k + 1);
      var c := Label(rows[k].period);
      ColumnFedFrom(rows, axis, k);
      if KeyOf(rows[k], axis).Some? && rows[k].monthly.Some? then
        assert OffersColumn(rows[k], axis, c);
        [c] + rest
      else
        assert forall col :: !OffersColumn(rows[k], axis, col);
        rest
  }

  /** A column is fed from row `k` on when row `k` or a later row feeds it. */
  lemma {:induction false} ColumnFedFrom(rows: seq<Row>, axis: PivotIndex, k: nat)
    requires k < |rows|
    ensures forall col :: (exists i :: k <= i < |rows| && OffersColumn(rows[i], axis, col)) <==>
      OffersColumn(rows[k], axis, col) || exists i :: k + 1 <= i < |rows| && OffersColumn(rows[i], axis, col)
  {
    forall col | exists i :: k <= i < |rows| && OffersColumn(rows[i], axis, col)
      ensures OffersColumn(rows[k], axis, col) || exists i :: k + 1 <= i < |rows| && OffersColumn(rows[i], axis, col)
    {
      var i :| k <= i < |rows| && OffersColumn(rows[i], axis, col);
      if i > k {
        assert k + 1 <= i < |rows| && OffersColumn(rows[i], axis, col);
      }
    }
  }

  /** A pivot table: sorted row keys, sorted column labels, and one cell per
      pair (`None` for NaN). */
  datatype Pivot = Pivot(rowKeys: seq<string>, columns: seq<string>, cells: seq<seq<Option<real>>>)

  predicate WellFormed(pv: Pivot) {
    |pv.cells| == |pv.rowKeys| &&
    forall i :: 0 <= i < |pv.cells| ==> |pv.cells[i]| == |pv.columns|
  }

  /** `pivot_table(..., aggfunc='first')` with pandas' defaults: groups with a
      missing key are dropped, groups whose values are all missing are
      dropped (so a row key or a column exists only if some row offers a
      value for it), keys and labels come out sorted, and each cell holds
      the first value offered for it. */
  function PivotFirst(rows: seq<Row>, axis: PivotIndex): (pv: Pivot)
    ensures WellFormed(pv)
    ensures StrictlyAscending(pv.rowKeys) && StrictlyAscending(pv.columns)
    ensures forall k :: k in pv.rowKeys <==> exists i :: 0 <= i < |rows| && OffersKey(rows[i], axis, k)
    ensures forall c :: c in pv.columns <==> exists i :: 0 <= i < |rows| && OffersColumn(rows[i], axis, c)
    ensures forall i, j :: 0 <= i < |pv.rowKeys| && 0 <= j < |pv.columns| ==>
              pv.cells[i][j] == FirstValue(rows, axis, pv.rowKeys[i], pv.columns[j])
  {
    var keys := SortedUnique(FedKeys(rows, axis, 0));
    var cols := SortedUnique(FedColumns(rows, axis, 0));
    Pivot(keys, cols,
          seq(|keys|, i requires 0 <= i < |keys| =>
            seq(|cols|, j requires 0 <= j < |cols| => FirstValue(rows, axis, keys[i], cols[j]))))
  }

  /** Column labels that each name a month, in chronological order. */
  predicate Chronological(cols: seq<string>) {
    (forall j :: 0 <= j < |cols| ==> IsLabel(cols[j])) &&
    forall i, j, p: Period, q: Period ::
      0 <= i < j < |cols| && cols[i] == Label(p) && cols[j] == Label(q) ==> p < q
  }

  /** Every label names one of the `n` months from `lo`. */
  predicate LabelsWithin(cols: seq<string>, lo: int, n: nat) {
    forall j :: 0 <= j < |cols| ==> IsLabelWithin(cols[j], lo, n)
  }

  /** When every row lies in the `n` months from `lo`, so does every column
      of the pivot, and there are at most `n` columns. */
  lemma {:induction false} PivotColumnsWithin(rows: seq<Row>, axis: PivotIndex, lo: int, n: nat)
    requires forall x :: x in rows ==> lo <= x.period < lo + n
    ensures LabelsWithin(PivotFirst(rows, axis).columns, lo, n)
    ensures |PivotFirst(rows, axis).columns| <= n
  {
    var cols := PivotFirst(rows, axis).columns;
    forall j | 0 <= j < |cols| ensures IsLabelWithin(cols[j], lo, n) {
      assert cols[j] in cols;
      var i :| 0 <= i < |rows| && OffersColumn(rows[i], axis, cols[j]);
      assert rows[i] in rows;
      assert cols[j] == Label(rows[i].period);
    }
    PivotColumnsChronological(rows, axis);
    ChronologicalBound(cols, lo, n);
  }

  /** Every column of a pivot is the label of a month, and the columns run in
      chronological order. */
  lemma {:induction false} PivotColumnsChronological(rows: seq<Row>, axis: PivotIndex)
    ensures Chronological(PivotFirst(rows, axis).columns)
  {
    var cols := PivotFirst(rows, axis).columns;
    forall j | 0 <= j < |cols|
      ensures IsLabel(cols[j])
    {
      assert cols[j] in cols;
      var i :| 0 <= i < |rows| && OffersColumn(rows[i], axis, cols[j]);
      assert cols[j] == Label(rows[i].period);
    }
    forall i, j, p: Period, q: Period |
      0 <= i < j < |cols| && cols[i] == Label(p) && cols[j] == Label(q)
      ensures p < q
    {
      LabelOrder(p, q);
    }
  }

  /** Dropping leading columns keeps them chronological. */
  lemma {:induction false} ChronologicalSuffix(cols: seq<string>, d: nat)
    requires Chronological(cols) && d <= |cols|
    ensures Chronological(cols[d..])
  {
    var t := cols[d..];
    forall j | 0 <= j < |t| ensures IsLabel(t[j]) {
      assert t[j] == cols[j + d];
    }
    forall i, j, p: Period, q: Period |
      0 <= i < j < |t| && t[i] == Label(p) && t[j] == Label(q)
      ensures p < q
    {
      assert t[i] == cols[i + d] && t[j] == cols[j + d];
    }
  }

  /** Chronological labels of months among the `n` months from `lo` number
      at most `n`. */
  lemma {:induction false} ChronologicalBound(cols: seq<string>, lo: int, n: nat)
    requires Chronological(cols) && LabelsWithin(cols, lo, n)
    ensures |cols| <= n
    decreases n
  {
    if cols != [] {
      var p0: Period :| lo <= p0 < lo + n && cols[0] == Label(p0);
      var rest := cols[1..];
      ChronologicalSuffix(cols, 1);
      forall j | 0 <= j < |rest|
        ensures IsLabelWithin(rest[j], p0 + 1, lo + n - p0 - 1)
      {
        assert rest[j] == cols[j + 1];
        var p: Period :| lo <= p < lo + n && cols[j + 1] == Label(p);
        assert p0 < p;
      }
      assert LabelsWithin(rest, p0 + 1, lo + n - p0 - 1);
      ChronologicalBound(rest, p0 + 1, lo + n - p0 - 1);
    }
  }

  /** `pivot.iloc[:, -n:]`: keep the last `n` columns (all of them when
      there are fewer). */
  function LastColumns(pv: Pivot, n: nat): (t: Pivot)
    requires WellFormed(pv)
    ensures WellFormed(t)
    ensures t.rowKeys == pv.rowKeys
    ensures |t.columns| == if |pv.columns| < n then |pv.columns| else n
    ensures t.columns == pv.columns[|pv.columns| - |t.columns|..]
    ensures forall i, j :: 0 <= i < |t.rowKeys| && 0 <= j < |t.columns| ==>
              t.cells[i][j] == pv.cells[i][j + |pv.columns| - |t.columns|]
  {
    var drop := if |pv.columns| < n then 0 else |pv.columns| - n;
    Pivot(pv.rowKeys, pv.columns[drop..], seq(|pv.cells|, i requires 0 <= i < |pv.cells| => pv.cells[i][drop..]))
  }

  /** The last `n` columns of a pivot still run in chronological order. */
  lemma {:induction false} LastColumnsChronological(rows: seq<Row>, axis: PivotIndex, n: nat)
    ensures Chronological(LastColumns(PivotFirst(rows, axis), n).columns)
  {
    var full := PivotFirst(rows, axis).columns;
    var cols := LastColumns(PivotFirst(rows, axis), n).columns;
    PivotColumnsChronological(rows, axis);
    ChronologicalSuffix(full, |full| - |cols|);
  }
}
