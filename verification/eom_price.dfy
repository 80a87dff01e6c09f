/** `get_eomonth_price`: from a daily price frame, keep the row of the last
    observed trading day of every month whose "YYYY-MM" key lies in an
    inclusive range of month keys. */
module EomPrice {
  import opened Strings
  import opened Dates

  /** One row of the caller's frame: its Timestamp index and its column values. */
  datatype DailyRow<V> = DailyRow(date: Date, values: map<string, V>)

  /** The caller's frame: its column names and its rows, in index order. */
  datatype Frame<V> = Frame(columns: set<string>, rows: seq<DailyRow<V>>)

  /** A row reduced to its index and the selected price column. */
  datatype PriceRow<V> = PriceRow(date: Date, price: V)

  /** A result row: the ISO date string, the price, and the month key. */
  datatype EomRow<V> = EomRow(date: string, price: V, yearMo: string)

  /** A value of the selected price column: a value from the caller's frame,
      or the text of a column the function derives itself (`year`, `month`). */
  datatype Cell<V> = Given(v: V) | Text(text: string)

  /** The exceptions the extraction raises. */
  datatype Error =
    | KeyError(column: string)     // the column is not in the working copy
    | GrouperNotOneDimensional     // `year_mo` selected twice: the group-by key is a frame
    | NoStrAccessor                // `day` selected twice: the maxima are a frame, not a series
    | SuffixClash                  // a `day_x` price column clashes with the merge's `_x` suffix

  datatype Result<T> = Ok(value: T) | Err(error: Error)

  /** What a pandas frame with a Timestamp index guarantees: every index value
      is a calendar date and every row has a value in every column. */
  ghost predicate WellFormed<V>(f: Frame<V>)
  {
    forall r <- f.rows :: ValidDate(r.date) && r.values.Keys == f.columns
  }

  ghost predicate ValidRows<V>(rows: seq<PriceRow<V>>)
  {
    forall r <- rows :: ValidDate(r.date)
  }

  /** No two rows share a trading date. */
  ghost predicate DistinctDates<V>(rows: seq<PriceRow<V>>)
  {
    forall i, j :: 0 <= i < j < |rows| ==> rows[i].date != rows[j].date
  }

  /** No two result rows share a date string. */
  ghost predicate DistinctOut<V>(out: seq<EomRow<V>>)
  {
    forall i, j :: 0 <= i < j < |out| ==> out[i].date != out[j].date
  }

  /** `d1` is strictly earlier than `d2` on the calendar. */
  predicate Before(d1: Date, d2: Date)
  {
    || d1.year < d2.year
    || (d1.year == d2.year && d1.month < d2.month)
    || (d1.year == d2.year && d1.month == d2.month && d1.day < d2.day)
  }

  /** The rows are in strictly ascending date order, as a daily history is. */
  ghost predicate Ascending<V>(rows: seq<PriceRow<V>>)
  {
    forall i, j :: 0 <= i < j < |rows| ==> Before(rows[i].date, rows[j].date)
  }

  /** Month keys never decrease along the result. */
  ghost predicate KeysAscending<V>(out: seq<EomRow<V>>)
  {
    forall i, j :: 0 <= i < j < |out| ==> LexLe(out[i].yearMo, out[j].yearMo)
  }

  // ---------------------------------------------------------------------------
  // The steps of the extraction

  /** The working copy has `column` once the index is rebuilt: one of the
      caller's columns or the derived `year`, `month`, `year_mo` and `day`,
      but not `date`, which is moved into the index and dropped. */
  predicate InWorkingCopy<V>(f: Frame<V>, column: string)
  {
    column != "date"
    && (column in f.columns || column == "year" || column == "month" || column == "year_mo" || column == "day")
  }

  /** The value of `column` in the working copy's row built from `d`: the
      derived year text, the derived zero-padded month text, or the caller's
      value. */
  function ColumnValue<V>(d: DailyRow<V>, column: string): Cell<V>
    requires column == "year" || column == "month" || column in d.values
  {
    if column == "year" then Text(Str(d.date.year))
    else if column == "month" then Text(Padded(d.date.month, 2))
    else Given(d.values[column])
  }

  /** A price column the whole pipeline accepts: present in the working copy,
      not one of the columns the selection takes anyway, and not the name the
      merge gives the left `day` column. */
  predicate Selectable<V>(f: Frame<V>, column: string)
  {
    InWorkingCopy(f, column) && column != "day" && column != "year_mo" && column != "day_x"
  }

  /** `df_return[[price_col, 'day', 'year_mo']]`: every row, in place, with
      its index and its value in the chosen price column. */
  function SelectPrice<V>(rows: seq<DailyRow<V>>, column: string): (out: seq<PriceRow<Cell<V>>>)
    requires forall d <- rows :: column == "year" || column == "month" || column in d.values
    ensures |out| == |rows|
    ensures forall i :: 0 <= i < |rows| ==> out[i] == PriceRow(rows[i].date, ColumnValue(rows[i], column))
    ensures forall r <- out :: exists d <- rows :: r == PriceRow(d.date, ColumnValue(d, column))
    decreases |rows|
  {
    if rows == [] then []
    else [PriceRow(rows[0].date, ColumnValue(rows[0], column))] + SelectPrice(rows[1..], column)
  }

  /** `groupby('year_mo')['day'].max()`: for every month key present, the
      largest day of month observed in it. */
  function LastDays<V>(rows: seq<PriceRow<V>>): (g: map<string, nat>)
    ensures forall r <- rows :: MonthKey(r.date) in g && r.date.day <= g[MonthKey(r.date)]
    ensures forall k <- g.Keys :: exists r <- rows :: MonthKey(r.date) == k && r.date.day == g[k]
    decreases |rows|
  {
    if rows == [] then map[]
    else
      var g := LastDays(rows[1..]);
      LastDaysStep(rows, g);
      KeepMax(g, MonthKey(rows[0].date), rows[0].date.day)
  }

  /** Folds one observed day of month `k` into the running maxima. */
  function KeepMax(g: map<string, nat>, k: string, day: nat): map<string, nat>
  {
    if k in g && day <= g[k] then g else g[k := day]
  }

  /** One step of the group-by-max: folding the first row into the maxima of
      the remaining rows gives the maxima of all rows. */
  lemma LastDaysStep<V>(rows: seq<PriceRow<V>>, g: map<string, nat>)
    requires rows != []
    requires forall r <- rows[1..] :: MonthKey(r.date) in g && r.date.day <= g[MonthKey(r.date)]
    requires forall k <- g.Keys :: exists r <- rows[1..] :: MonthKey(r.date) == k && r.date.day == g[k]
    ensures var g' := KeepMax(g, MonthKey(rows[0].date), rows[0].date.day);
      forall r <- rows :: MonthKey(r.date) in g' && r.date.day <= g'[MonthKey(r.date)]
    ensures var g' := KeepMax(g, MonthKey(rows[0].date), rows[0].date.day);
      forall k <- g'.Keys :: exists r <- rows :: MonthKey(r.date) == k && r.date.day == g'[k]
  {
    var k, day := MonthKey(rows[0].date), rows[0].date.day;
    var g' := KeepMax(g, k, day);
    forall r <- rows ensures MonthKey(r.date) in g' && r.date.day <= g'[MonthKey(r.date)] {
      if r != rows[0] {
        assert r in rows[1..];
      }
    }
    forall k' <- g'.Keys ensures exists r <- rows :: MonthKey(r.date) == k' && r.date.day == g'[k'] {
      if k' == k && g'[k'] == day {
        assert rows[0] in rows;
      } else {
        var r :| r in rows[1..] && MonthKey(r.date) == k' && r.date.day == g[k'];
        assert r in rows;
      }
    }
  }

  /** The `date` column of the grouped frame: month key, a dash, and the last
      day zero-padded to two digits, one per month key. */
  function EomDates(g: map<string, nat>): map<string, string>
  {
    map k | k in g :: JoinDate(k, g[k])
  }

  /** The result row built from an input row. */
  function Render<V>(r: PriceRow<V>): EomRow<V>
  {
    EomRow(IsoDate(r.date), r.price, MonthKey(r.date))
  }

  /** `df_price.merge(df_id_eom, on='date')`, keeping the input order: a row
      survives when its ISO date is one of the rebuilt month-end dates. */
  function Merge<V>(rows: seq<PriceRow<V>>, eom: map<string, string>): (out: seq<EomRow<V>>)
    ensures |out| <= |rows|
    ensures forall o <- out :: exists r <- rows :: o == Render(r) && IsoDate(r.date) in eom.Values
    decreases |rows|
  {
    if rows == [] then []
    else
      var rest := Merge(rows[1..], eom);
      if IsoDate(rows[0].date) in eom.Values then [Render(rows[0])] + rest else rest
  }

  /** `(year_mo >= start_month) & (year_mo <= end_month)`: the inclusive range
      filter, comparing month keys as strings. */
  function InRange<V>(rows: seq<EomRow<V>>, startMonth: string, endMonth: string): (out: seq<EomRow<V>>)
    ensures |out| <= |rows|
    ensures forall o <- out :: o in rows && LexLe(startMonth, o.yearMo) && LexLe(o.yearMo, endMonth)
    decreases |rows|
  {
    if rows == [] then []
    else
      var rest := InRange(rows[1..], startMonth, endMonth);
      if LexLe(startMonth, rows[0].yearMo) && LexLe(rows[0].yearMo, endMonth) then [rows[0]] + rest
      else rest
  }

  /** The join keeps every row whose ISO date is a month-end date. */
  lemma {:induction false} MergeKeeps<V>(rows: seq<PriceRow<V>>, eom: map<string, string>, r: PriceRow<V>)
    requires r in rows && IsoDate(r.date) in eom.Values
    ensures Render(r) in Merge(rows, eom)
    decreases |rows|
  {
    if r != rows[0] {
      assert r in rows[1..];
      MergeKeeps(rows[1..], eom, r);
    }
  }

  /** The range filter keeps every row whose month key is in the range. */
  lemma {:induction false} InRangeKeeps<V>(rows: seq<EomRow<V>>, startMonth: string, endMonth: string, o: EomRow<V>)
    requires o in rows && LexLe(startMonth, o.yearMo) && LexLe(o.yearMo, endMonth)
    ensures o in InRange(rows, startMonth, endMonth)
    decreases |rows|
  {
    if o != rows[0] {
      assert o in rows[1..];
      InRangeKeeps(rows[1..], startMonth, endMonth, o);
    }
  }

  /** The upper bound actually used: "prior" becomes `str(year) + '-' +
      str(month - 1).zfill(2)` of the reference date; anything else is kept. */
  function ResolveEnd(endMonth: string, today: Date): string
    requires ValidDate(today)
  {
    if endMonth == "prior" then YearMonth(today.year, today.month - 1) else endMonth
  }

  /** The extraction proper, on the selected price column and a resolved
      upper bound. */
  function EomPrices<V>(rows: seq<PriceRow<V>>, startMonth: string, endMonth: string): seq<EomRow<V>>
  {
    InRange(Merge(rows, EomDates(LastDays(rows))), startMonth, endMonth)
  }

  /** `get_eomonth_price(df, start_month, end_month, price_col)`, with the
      reference date `today` standing for the wall-clock read. */
  function GetEomonthPrice<V>(f: Frame<V>, startMonth: string, endMonth: string, priceCol: string, today: Date)
    : (r: Result<seq<EomRow<Cell<V>>>>)
    requires WellFormed(f) && ValidDate(today)
    ensures r.Err? <==> !InWorkingCopy(f, priceCol) || priceCol == "day" || priceCol == "year_mo" || priceCol == "day_x"
    ensures !InWorkingCopy(f, priceCol) ==> r == Err(KeyError(priceCol))
    ensures priceCol == "date" ==> r == Err(KeyError("date"))
    ensures priceCol == "day" ==> r == Err(NoStrAccessor)
    ensures priceCol == "year_mo" ==> r == Err(GrouperNotOneDimensional)
    ensures priceCol == "day_x" && InWorkingCopy(f, priceCol) ==> r == Err(SuffixClash)
    ensures r.Ok? ==> forall o <- r.value ::
      && LexLe(startMonth, o.yearMo) && LexLe(o.yearMo, ResolveEnd(endMonth, today))
      && exists d <- f.rows :: o == EomRow(IsoDate(d.date), ColumnValue(d, priceCol), MonthKey(d.date))
  {
    if !InWorkingCopy(f, priceCol) then Err(KeyError(priceCol))
    else if priceCol == "year_mo" then Err(GrouperNotOneDimensional)
    else if priceCol == "day" then Err(NoStrAccessor)
    else if priceCol == "day_x" then Err(SuffixClash)
    else
      SelectableInRows(f, priceCol);
      var rows := SelectPrice(f.rows, priceCol);
      var out := EomPrices(rows, startMonth, ResolveEnd(endMonth, today));
      SelectedFromFrame(f.rows, priceCol, out);
      Ok(out)
  }

  /** A selectable column has a value in every row of a well-formed frame. */
  lemma SelectableInRows<V>(f: Frame<V>, column: string)
    requires WellFormed(f) && Selectable(f, column)
    ensures forall d <- f.rows :: column == "year" || column == "month" || column in d.values
  {
  }

  /** Every row built from the selected column is built from a row of the frame. */
  lemma SelectedFromFrame<V>(rows: seq<DailyRow<V>>, column: string, out: seq<EomRow<Cell<V>>>)
    requires forall d <- rows :: column == "year" || column == "month" || column in d.values
    requires forall o <- out :: exists r <- SelectPrice(rows, column) :: o == Render(r)
    ensures forall o <- out :: exists d <- rows :: o == EomRow(IsoDate(d.date), ColumnValue(d, column), MonthKey(d.date))
  {
    forall o <- out ensures exists d <- rows :: o == EomRow(IsoDate(d.date), ColumnValue(d, column), MonthKey(d.date)) {
      var r :| r in SelectPrice(rows, column) && o == Render(r);
      var d :| d in rows && r == PriceRow(d.date, ColumnValue(d, column));
    }
  }
}
