/** What `get_eomonth_price` guarantees about its result: month-end selection,
    provenance, one row per month, the inclusive range, the "prior" bound,
    independence from input order, and chronological output for a sorted
    history. */
module EomProperties {
  import opened Strings
  import opened Dates
  import opened EomPrice

  // ---------------------------------------------------------------------------
  // The join back onto the input rows

  /** Every rebuilt month-end date is the ISO date of an input row of that
      month, on its last observed day. */
  lemma EomDatesAreInputDates<V>(rows: seq<PriceRow<V>>)
    requires ValidRows(rows)
    ensures var g := LastDays(rows);
      forall k <- g.Keys :: exists r <- rows ::
        MonthKey(r.date) == k && r.date.day == g[k] && IsoDate(r.date) == EomDates(g)[k]
  {
    var g := LastDays(rows);
    forall k <- g.Keys
      ensures exists r <- rows :: MonthKey(r.date) == k && r.date.day == g[k] && IsoDate(r.date) == EomDates(g)[k]
    {
      var r :| r in rows && MonthKey(r.date) == k && r.date.day == g[k];
      JoinOfMonthKey(r.date);
    }
  }

  /** An input row survives the join exactly when it lies on the last observed
      day of its month. */
  lemma JoinKeepsLastDay<V>(rows: seq<PriceRow<V>>, r: PriceRow<V>)
    requires ValidRows(rows) && r in rows
    ensures var g := LastDays(rows);
      IsoDate(r.date) in EomDates(g).Values <==> r.date.day == g[MonthKey(r.date)]
  {
    var g := LastDays(rows);
    if r.date.day == g[MonthKey(r.date)] {
      LastDayJoins(rows, r);
    }
    if IsoDate(r.date) in EomDates(g).Values {
      JoinedIsLastDay(rows, r);
    }
  }

  lemma LastDayJoins<V>(rows: seq<PriceRow<V>>, r: PriceRow<V>)
    requires ValidRows(rows) && r in rows && r.date.day == LastDays(rows)[MonthKey(r.date)]
    ensures IsoDate(r.date) in EomDates(LastDays(rows)).Values
  {
    var eom := EomDates(LastDays(rows));
    JoinOfMonthKey(r.date);
    assert eom[MonthKey(r.date)] == IsoDate(r.date);
  }

  lemma JoinedIsLastDay<V>(rows: seq<PriceRow<V>>, r: PriceRow<V>)
    requires ValidRows(rows) && r in rows && IsoDate(r.date) in EomDates(LastDays(rows)).Values
    ensures r.date.day == LastDays(rows)[MonthKey(r.date)]
  {
    var g := LastDays(rows);
    var eom := EomDates(g);
    var k' :| k' in eom && eom[k'] == IsoDate(r.date);
    var w :| w in rows && MonthKey(w.date) == k' && w.date.day == g[k'];
    JoinDateMatch(w.date, g[k'], r.date);
  }

  /** No two month keys rebuild the same date, so the join matches an input
      row against at most one month. */
  lemma EachRowJoinsOneMonth<V>(rows: seq<PriceRow<V>>)
    requires ValidRows(rows)
    ensures var eom := EomDates(LastDays(rows));
      forall k1 <- eom.Keys, k2 <- eom.Keys :: eom[k1] == eom[k2] ==> k1 == k2
  {
    var eom := EomDates(LastDays(rows));
    forall k1 <- eom.Keys, k2 <- eom.Keys | eom[k1] == eom[k2] ensures k1 == k2 {
      SameDateSameKey(rows, k1, k2);
    }
  }

  lemma SameDateSameKey<V>(rows: seq<PriceRow<V>>, k1: string, k2: string)
    requires ValidRows(rows) && k1 in LastDays(rows) && k2 in LastDays(rows)
    requires EomDates(LastDays(rows))[k1] == EomDates(LastDays(rows))[k2]
    ensures k1 == k2
  {
    var g := LastDays(rows);
    var r1 :| r1 in rows && MonthKey(r1.date) == k1 && r1.date.day == g[k1];
    var r2 :| r2 in rows && MonthKey(r2.date) == k2 && r2.date.day == g[k2];
    JoinOfMonthKey(r1.date);
    JoinOfMonthKey(r2.date);
    assert IsoDate(r1.date) == IsoDate(r2.date);
    IsoDateInjective(r1.date, r2.date);
  }

  // ---------------------------------------------------------------------------
  // The result, row by row

  /** Every result row is an input row, with its own date and price, that lies
      on the last observed day of its month and whose month key is in the
      inclusive range. */
  lemma ResultRowIsLastDay<V>(rows: seq<PriceRow<V>>, startMonth: string, endMonth: string, o: EomRow<V>)
    requires ValidRows(rows) && o in EomPrices(rows, startMonth, endMonth)
    ensures exists r <- rows ::
      && o == Render(r) && r.date.day == LastDays(rows)[MonthKey(r.date)]
      && LexLe(startMonth, o.yearMo) && LexLe(o.yearMo, endMonth)
  {
    var g := LastDays(rows);
    var r :| r in rows && o == Render(r) && IsoDate(r.date) in EomDates(g).Values;
    JoinKeepsLastDay(rows, r);
  }

  /** Conversely, every input row on the last observed day of its month whose
      month key is in the inclusive range appears in the result. */
  lemma LastDayInResult<V>(rows: seq<PriceRow<V>>, startMonth: string, endMonth: string, r: PriceRow<V>)
    requires ValidRows(rows) && r in rows
    requires r.date.day == LastDays(rows)[MonthKey(r.date)]
    requires LexLe(startMonth, MonthKey(r.date)) && LexLe(MonthKey(r.date), endMonth)
    ensures Render(r) in EomPrices(rows, startMonth, endMonth)
  {
    JoinKeepsLastDay(rows, r);
    MergeKeeps(rows, EomDates(LastDays(rows)), r);
    InRangeKeeps(Merge(rows, EomDates(LastDays(rows))), startMonth, endMonth, Render(r));
  }

  /** With distinct input dates the result has exactly one row for every month
      key of the input inside the range, and no row for any other month. */
  lemma OneRowPerMonth<V>(rows: seq<PriceRow<V>>, startMonth: string, endMonth: string)
    requires ValidRows(rows) && DistinctDates(rows)
    ensures var out := EomPrices(rows, startMonth, endMonth);
      && (forall i, j :: 0 <= i < j < |out| ==> out[i].yearMo != out[j].yearMo)
      && (forall r <- rows :: LexLe(startMonth, MonthKey(r.date)) && LexLe(MonthKey(r.date), endMonth)
            ==> exists o <- out :: o.yearMo == MonthKey(r.date))
      && (forall o <- out :: exists r <- rows :: o.yearMo == MonthKey(r.date))
  {
    MonthsDistinct(rows, startMonth, endMonth);
    forall r <- rows | LexLe(startMonth, MonthKey(r.date)) && LexLe(MonthKey(r.date), endMonth)
      ensures exists o <- EomPrices(rows, startMonth, endMonth) :: o.yearMo == MonthKey(r.date)
    {
      MonthRepresented(rows, startMonth, endMonth, r);
    }
    MonthsFromInput(rows, startMonth, endMonth);
  }

  /** The range is inclusive at both ends, and a start month above the end
      month (or no input) gives an empty result. */
  lemma EmptyResults<V>(rows: seq<PriceRow<V>>, startMonth: string, endMonth: string)
    ensures rows == [] ==> EomPrices(rows, startMonth, endMonth) == []
    ensures !LexLe(startMonth, endMonth) ==> EomPrices(rows, startMonth, endMonth) == []
  {
    var out := EomPrices(rows, startMonth, endMonth);
    if !LexLe(startMonth, endMonth) && out != [] {
      assert out[0] in out;
      LexLeTransitive(startMonth, out[0].yearMo, endMonth);
    }
  }

  // ---------------------------------------------------------------------------
  // The "prior" upper bound

  /** "prior" names the month before the reference month; in January the
      source's `str(year) + '-00'` bound selects exactly what the
      calendar-correct `(year-1)-12` bound selects. */
  lemma PriorResolution<V>(f: Frame<V>, startMonth: string, priceCol: string, today: Date)
    requires WellFormed(f) && ValidDate(today) && today.year >= 1001
    ensures today.month == 1 ==> ResolveEnd("prior", today) == Str(today.year) + "-00"
    ensures today.month > 1 ==> ResolveEnd("prior", today) == PriorMonth(today)
    ensures GetEomonthPrice(f, startMonth, "prior", priceCol, today)
         == GetEomonthPrice(f, startMonth, PriorMonth(today), priceCol, today)
  {
    PriorKey(today);
    if Selectable(f, priceCol) {
      SelectableInRows(f, priceCol);
      var rows := SelectPrice(f.rows, priceCol);
      if today.month == 1 {
        SelectedRowsValid(f, priceCol);
        JanuaryEnd(rows, startMonth, today);
      }
      CallSelectable(f, startMonth, "prior", priceCol, today);
      CallSelectable(f, startMonth, PriorMonth(today), priceCol, today);
    } else {
      CallNotSelectable(f, startMonth, "prior", PriorMonth(today), priceCol, today);
    }
  }

  /** With a selectable price column the call returns the extraction on that
      column. */
  lemma CallSelectable<V>(f: Frame<V>, startMonth: string, endMonth: string, priceCol: string, today: Date)
    requires WellFormed(f) && ValidDate(today) && Selectable(f, priceCol)
    ensures GetEomonthPrice(f, startMonth, endMonth, priceCol, today)
         == Ok(EomPrices(SelectPrice(f.rows, priceCol), startMonth, ResolveEnd(endMonth, today)))
  {
  }

  /** Without a selectable price column the call fails whatever the bounds. */
  lemma CallNotSelectable<V>(f: Frame<V>, startMonth: string, end1: string, end2: string, priceCol: string, today: Date)
    requires WellFormed(f) && ValidDate(today) && !Selectable(f, priceCol)
    ensures GetEomonthPrice(f, startMonth, end1, priceCol, today) == GetEomonthPrice(f, startMonth, end2, priceCol, today)
  {
  }

  /** The key "prior" resolves to, and the calendar-correct key, which is
      never the literal "prior". */
  lemma PriorKey(today: Date)
    requires ValidDate(today) && today.year >= 1001
    ensures today.month == 1 ==> ResolveEnd("prior", today) == Str(today.year) + "-00" == YearMonth(today.year, 0)
    ensures today.month > 1 ==> ResolveEnd("prior", today) == PriorMonth(today)
    ensures PriorMonth(today) != "prior"
  {
    MonthKeyFormat(if today.month == 1 then today.year - 1 else today.year, if today.month == 1 then 12 else today.month - 1);
    assert Padded(0, 2) == "00" by {
      assert Str(0) == "0";
    }
  }

  /** In January the bound `"Y-00"` and the calendar-correct bound select the
      same rows. */
  lemma JanuaryEnd<V>(rows: seq<PriceRow<V>>, startMonth: string, today: Date)
    requires ValidRows(rows) && ValidDate(today) && today.year >= 1001 && today.month == 1
    ensures EomPrices(rows, startMonth, YearMonth(today.year, 0)) == EomPrices(rows, startMonth, PriorMonth(today))
  {
    var merged := Merge(rows, EomDates(LastDays(rows)));
    var e1, e2 := YearMonth(today.year, 0), PriorMonth(today);
    assert e2 == YearMonth(today.year - 1, 12);
    forall o <- merged ensures LexLe(o.yearMo, e1) == LexLe(o.yearMo, e2) {
      JanuaryRow(rows, o, today);
    }
    InRangeSameBound(merged, startMonth, e1, e2);
  }

  /** One row of the join compares alike against both January bounds. */
  lemma JanuaryRow<V>(rows: seq<PriceRow<V>>, o: EomRow<V>, today: Date)
    requires ValidRows(rows) && ValidDate(today) && today.year >= 1001
    requires exists r <- rows :: o == Render(r)
    ensures LexLe(o.yearMo, YearMonth(today.year, 0)) == LexLe(o.yearMo, YearMonth(today.year - 1, 12))
  {
    var r :| r in rows && o == Render(r);
    JanuaryBound(today.year, r.date.year, r.date.month);
  }

  // ---------------------------------------------------------------------------
  // Input order

  /** Reordering the input rows reorders the result and changes nothing else. */
  lemma OrderIndependent<V>(rows1: seq<PriceRow<V>>, rows2: seq<PriceRow<V>>, startMonth: string, endMonth: string)
    requires multiset(rows1) == multiset(rows2)
    ensures multiset(EomPrices(rows1, startMonth, endMonth)) == multiset(EomPrices(rows2, startMonth, endMonth))
  {
    assert forall r <- rows1 :: r in multiset(rows2);
    assert forall r <- rows2 :: r in multiset(rows1);
    LastDaysSameRows(rows1, rows2);
    var eom := EomDates(LastDays(rows1));
    MergePermutation(rows1, rows2, eom);
    InRangePermutation(Merge(rows1, eom), Merge(rows2, eom), startMonth, endMonth);
  }

  /** When the input is a daily history in ascending date order, the result's
      month keys strictly increase. */
  lemma ChronologicalWhenAscending<V>(rows: seq<PriceRow<V>>, startMonth: string, endMonth: string)
    requires ValidRows(rows) && Ascending(rows)
    ensures var out := EomPrices(rows, startMonth, endMonth);
      forall i, j :: 0 <= i < j < |out| ==> LexLe(out[i].yearMo, out[j].yearMo) && out[i].yearMo != out[j].yearMo
  {
    var eom := EomDates(LastDays(rows));
    assert DistinctDates(rows);
    OneRowPerMonth(rows, startMonth, endMonth);
    MergeKeysAscending(rows, eom);
    InRangeKeysAscending(Merge(rows, eom), startMonth, endMonth);
  }

  // ---------------------------------------------------------------------------
  // Helpers

  lemma SelectedRowsValid<V>(f: Frame<V>, column: string)
    requires WellFormed(f)
    requires forall d <- f.rows :: column == "year" || column == "month" || column in d.values
    ensures ValidRows(SelectPrice(f.rows, column))
  {
    forall r <- SelectPrice(f.rows, column) ensures ValidDate(r.date) {
      var d :| d in f.rows && r == PriceRow(d.date, ColumnValue(d, column));
    }
  }

  /** Two result rows of one month carry the same date. */
  lemma SameMonthSameDate<V>(rows: seq<PriceRow<V>>, startMonth: string, endMonth: string, o1: EomRow<V>, o2: EomRow<V>)
    requires ValidRows(rows)
    requires o1 in EomPrices(rows, startMonth, endMonth) && o2 in EomPrices(rows, startMonth, endMonth)
    requires o1.yearMo == o2.yearMo
    ensures o1.date == o2.date
  {
    var g := LastDays(rows);
    var eom := EomDates(g);
    var r1 :| r1 in rows && o1 == Render(r1) && IsoDate(r1.date) in eom.Values;
    var r2 :| r2 in rows && o2 == Render(r2) && IsoDate(r2.date) in eom.Values;
    JoinKeepsLastDay(rows, r1);
    JoinKeepsLastDay(rows, r2);
    MonthKeyOrder(r1.date.year, r1.date.month, r2.date.year, r2.date.month);
    assert r1.date == r2.date;
  }

  /** No month key occurs twice in the result of a history with distinct dates. */
  lemma MonthsDistinct<V>(rows: seq<PriceRow<V>>, startMonth: string, endMonth: string)
    requires ValidRows(rows) && DistinctDates(rows)
    ensures var out := EomPrices(rows, startMonth, endMonth);
      forall i, j :: 0 <= i < j < |out| ==> out[i].yearMo != out[j].yearMo
  {
    var eom := EomDates(LastDays(rows));
    var out := EomPrices(rows, startMonth, endMonth);
    MergeDistinct(rows, eom);
    InRangeDistinct(Merge(rows, eom), startMonth, endMonth);
    forall i, j | 0 <= i < j < |out| ensures out[i].yearMo != out[j].yearMo {
      assert out[i] in out && out[j] in out;
      if out[i].yearMo == out[j].yearMo {
        SameMonthSameDate(rows, startMonth, endMonth, out[i], out[j]);
      }
    }
  }

  /** Every month key of the result is the month key of an input row. */
  lemma MonthsFromInput<V>(rows: seq<PriceRow<V>>, startMonth: string, endMonth: string)
    ensures forall o <- EomPrices(rows, startMonth, endMonth) :: exists r <- rows :: o.yearMo == MonthKey(r.date)
  {
    forall o <- EomPrices(rows, startMonth, endMonth) ensures exists r <- rows :: o.yearMo == MonthKey(r.date) {
      var r :| r in rows && o == Render(r);
    }
  }

  /** A month of the input inside the range has a row in the result. */
  lemma MonthRepresented<V>(rows: seq<PriceRow<V>>, startMonth: string, endMonth: string, r: PriceRow<V>)
    requires ValidRows(rows) && r in rows
    requires LexLe(startMonth, MonthKey(r.date)) && LexLe(MonthKey(r.date), endMonth)
    ensures exists o <- EomPrices(rows, startMonth, endMonth) :: o.yearMo == MonthKey(r.date)
  {
    var g := LastDays(rows);
    var k := MonthKey(r.date);
    var w :| w in rows && MonthKey(w.date) == k && w.date.day == g[k];
    JoinKeepsLastDay(rows, w);
    MergeKeeps(rows, EomDates(g), w);
    InRangeKeeps(Merge(rows, EomDates(g)), startMonth, endMonth, Render(w));
  }

  lemma LastDayAgrees<V>(rows1: seq<PriceRow<V>>, rows2: seq<PriceRow<V>>, k: string)
    requires forall r <- rows1 :: r in rows2
    requires forall r <- rows2 :: r in rows1
    requires k in LastDays(rows1)
    ensures k in LastDays(rows2) && LastDays(rows1)[k] == LastDays(rows2)[k]
  {
    var g1, g2 := LastDays(rows1), LastDays(rows2);
    var r :| r in rows1 && MonthKey(r.date) == k && r.date.day == g1[k];
    assert r in rows2;
    assert k in g2 && g1[k] <= g2[k];
    var w :| w in rows2 && MonthKey(w.date) == k && w.date.day == g2[k];
    assert w in rows1;
    assert g2[k] <= g1[k];
  }

  lemma LastDaysSameRows<V>(rows1: seq<PriceRow<V>>, rows2: seq<PriceRow<V>>)
    requires forall r <- rows1 :: r in rows2
    requires forall r <- rows2 :: r in rows1
    ensures LastDays(rows1) == LastDays(rows2)
  {
    var g1, g2 := LastDays(rows1), LastDays(rows2);
    forall k <- g1.Keys ensures k in g2 && g1[k] == g2[k] {
      LastDayAgrees(rows1, rows2, k);
    }
    forall k <- g2.Keys ensures k in g1 {
      LastDayAgrees(rows2, rows1, k);
    }
    MapsEqual(g1, g2);
  }

  lemma MapsEqual(g1: map<string, nat>, g2: map<string, nat>)
    requires forall k <- g1.Keys :: k in g2 && g1[k] == g2[k]
    requires forall k <- g2.Keys :: k in g1
    ensures g1 == g2
  {
    assert g1.Keys == g2.Keys;
  }

  lemma {:induction false} MergeConcat<V>(a: seq<PriceRow<V>>, b: seq<PriceRow<V>>, eom: map<string, string>)
    ensures Merge(a + b, eom) == Merge(a, eom) + Merge(b, eom)
    decreases |a|
  {
    if a == [] {
      assert a + b == b;
    } else {
      assert (a + b)[0] == a[0] && (a + b)[1..] == a[1..] + b;
      MergeConcat(a[1..], b, eom);
    }
  }

  lemma {:induction false} InRangeConcat<V>(a: seq<EomRow<V>>, b: seq<EomRow<V>>, startMonth: string, endMonth: string)
    ensures InRange(a + b, startMonth, endMonth) == InRange(a, startMonth, endMonth) + InRange(b, startMonth, endMonth)
    decreases |a|
  {
    if a == [] {
      assert a + b == b;
    } else {
      assert (a + b)[0] == a[0] && (a + b)[1..] == a[1..] + b;
      InRangeConcat(a[1..], b, startMonth, endMonth);
    }
  }

  /** A permutation `t` of a non-empty `s` splits around an occurrence of
      `s[0]` into two parts that together are a permutation of the rest of `s`. */
  lemma PermutationSplit<T>(s: seq<T>, t: seq<T>) returns (left: seq<T>, right: seq<T>)
    requires s != [] && multiset(s) == multiset(t)
    ensures t == left + ([s[0]] + right)
    ensures multiset(s[1..]) == multiset(left + right)
  {
    assert s[0] in multiset(t);
    var i :| 0 <= i < |t| && t[i] == s[0];
    left, right := t[..i], t[i + 1..];
    assert t == left + ([s[0]] + right);
    assert s == [s[0]] + s[1..];
    MultisetCancel(s[0], multiset(s[1..]), multiset(left) + multiset(right));
  }

  /** Removing one occurrence of `x` from two equal multisets keeps them equal. */
  lemma MultisetCancel<T>(x: T, a: multiset<T>, b: multiset<T>)
    requires multiset{x} + a == multiset{x} + b
    ensures a == b
  {
    forall y ensures a[y] == b[y] {
      assert (multiset{x} + a)[y] == (multiset{x} + b)[y];
    }
  }

  /** Moving a middle block to the front keeps the multiset. */
  lemma MultisetRotate<T>(l: seq<T>, m: seq<T>, r: seq<T>, tail: seq<T>)
    requires multiset(tail) == multiset(l + r)
    ensures multiset(m + tail) == multiset(l + (m + r))
  {
    calc {
      multiset(m + tail);
      multiset(m) + multiset(l + r);
      multiset(m) + multiset(l) + multiset(r);
      multiset(l) + multiset(m + r);
      multiset(l + (m + r));
    }
  }

  lemma {:induction false} MergePermutation<V>(rows1: seq<PriceRow<V>>, rows2: seq<PriceRow<V>>, eom: map<string, string>)
    requires multiset(rows1) == multiset(rows2)
    ensures multiset(Merge(rows1, eom)) == multiset(Merge(rows2, eom))
    decreases |rows1|
  {
    if rows1 == [] {
      assert |rows2| == |multiset(rows2)| == 0;
    } else {
      var x := rows1[0];
      var left, right := PermutationSplit(rows1, rows2);
      MergePermutation(rows1[1..], left + right, eom);
      MergeConcat(left, [x] + right, eom);
      MergeConcat([x], right, eom);
      MergeConcat(left, right, eom);
      assert rows1 == [x] + rows1[1..];
      MergeConcat([x], rows1[1..], eom);
      MultisetRotate(Merge(left, eom), Merge([x], eom), Merge(right, eom), Merge(rows1[1..], eom));
    }
  }

  lemma {:induction false} InRangePermutation<V>(rows1: seq<EomRow<V>>, rows2: seq<EomRow<V>>, startMonth: string, endMonth: string)
    requires multiset(rows1) == multiset(rows2)
    ensures multiset(InRange(rows1, startMonth, endMonth)) == multiset(InRange(rows2, startMonth, endMonth))
    decreases |rows1|
  {
    if rows1 == [] {
      assert |rows2| == |multiset(rows2)| == 0;
    } else {
      var x := rows1[0];
      var left, right := PermutationSplit(rows1, rows2);
      InRangePermutation(rows1[1..], left + right, startMonth, endMonth);
      InRangeConcat(left, [x] + right, startMonth, endMonth);
      InRangeConcat([x], right, startMonth, endMonth);
      InRangeConcat(left, right, startMonth, endMonth);
      assert rows1 == [x] + rows1[1..];
      InRangeConcat([x], rows1[1..], startMonth, endMonth);
      MultisetRotate(InRange(left, startMonth, endMonth), InRange([x], startMonth, endMonth), InRange(right, startMonth, endMonth), InRange(rows1[1..], startMonth, endMonth));
    }
  }

  lemma {:induction false} InRangeSameBound<V>(rows: seq<EomRow<V>>, startMonth: string, end1: string, end2: string)
    requires forall o <- rows :: LexLe(o.yearMo, end1) == LexLe(o.yearMo, end2)
    ensures InRange(rows, startMonth, end1) == InRange(rows, startMonth, end2)
    decreases |rows|
  {
    if rows != [] {
      assert rows[0] in rows;
      InRangeSameBound(rows[1..], startMonth, end1, end2);
    }
  }

  /** Every row the join keeps from the tail comes from a tail row. */
  lemma MergeTailFrom<V>(rows: seq<PriceRow<V>>, eom: map<string, string>, j: nat)
    requires rows != [] && j < |Merge(rows[1..], eom)|
    ensures exists k :: 1 <= k < |rows| && Merge(rows[1..], eom)[j] == Render(rows[k])
  {
    var rest := Merge(rows[1..], eom);
    assert rest[j] in rest;
    var r :| r in rows[1..] && rest[j] == Render(r);
    var k :| 0 <= k < |rows| - 1 && rows[1..][k] == r;
    assert rows[k + 1] == r;
  }

  /** Every row the range filter keeps from the tail is a tail row. */
  lemma InRangeTailFrom<V>(rows: seq<EomRow<V>>, startMonth: string, endMonth: string, j: nat)
    requires rows != [] && j < |InRange(rows[1..], startMonth, endMonth)|
    ensures exists k :: 1 <= k < |rows| && InRange(rows[1..], startMonth, endMonth)[j] == rows[k]
  {
    var rest := InRange(rows[1..], startMonth, endMonth);
    assert rest[j] in rest;
    var k :| 0 <= k < |rows| - 1 && rows[1..][k] == rest[j];
    assert rows[k + 1] == rest[j];
  }

  lemma ConsDistinct<V>(h: EomRow<V>, rest: seq<EomRow<V>>)
    requires DistinctOut(rest)
    requires forall j :: 0 <= j < |rest| ==> rest[j].date != h.date
    ensures DistinctOut([h] + rest)
  {
    var out := [h] + rest;
    forall i, j | 0 <= i < j < |out| ensures out[i].date != out[j].date {
      assert out[j] == rest[j - 1];
      if i > 0 {
        assert out[i] == rest[i - 1];
      }
    }
  }

  lemma ConsAscending<V>(h: EomRow<V>, rest: seq<EomRow<V>>)
    requires KeysAscending(rest)
    requires forall j :: 0 <= j < |rest| ==> LexLe(h.yearMo, rest[j].yearMo)
    ensures KeysAscending([h] + rest)
  {
    var out := [h] + rest;
    forall i, j | 0 <= i < j < |out| ensures LexLe(out[i].yearMo, out[j].yearMo) {
      assert out[j] == rest[j - 1];
      if i > 0 {
        assert out[i] == rest[i - 1];
      }
    }
  }

  lemma {:induction false} MergeDistinct<V>(rows: seq<PriceRow<V>>, eom: map<string, string>)
    requires ValidRows(rows) && DistinctDates(rows)
    ensures DistinctOut(Merge(rows, eom))
    decreases |rows|
  {
    if rows != [] {
      var rest := Merge(rows[1..], eom);
      MergeDistinct(rows[1..], eom);
      if IsoDate(rows[0].date) in eom.Values {
        forall j | 0 <= j < |rest| ensures rest[j].date != IsoDate(rows[0].date) {
          MergeTailFrom(rows, eom, j);
          var k :| 1 <= k < |rows| && rest[j] == Render(rows[k]);
          IsoDateInjective(rows[0].date, rows[k].date);
        }
        ConsDistinct(Render(rows[0]), rest);
      }
    }
  }

  lemma {:induction false} InRangeDistinct<V>(rows: seq<EomRow<V>>, startMonth: string, endMonth: string)
    requires DistinctOut(rows)
    ensures DistinctOut(InRange(rows, startMonth, endMonth))
    decreases |rows|
  {
    if rows != [] {
      var rest := InRange(rows[1..], startMonth, endMonth);
      InRangeDistinct(rows[1..], startMonth, endMonth);
      if LexLe(startMonth, rows[0].yearMo) && LexLe(rows[0].yearMo, endMonth) {
        forall j | 0 <= j < |rest| ensures rest[j].date != rows[0].date {
          InRangeTailFrom(rows, startMonth, endMonth, j);
        }
        ConsDistinct(rows[0], rest);
      }
    }
  }

  /** In an ascending history the first row's month key is at most that of
      any row the join keeps from the tail. */
  lemma HeadKeyLeast<V>(rows: seq<PriceRow<V>>, eom: map<string, string>, j: nat)
    requires ValidRows(rows) && Ascending(rows)
    requires rows != [] && j < |Merge(rows[1..], eom)|
    ensures LexLe(MonthKey(rows[0].date), Merge(rows[1..], eom)[j].yearMo)
  {
    MergeTailFrom(rows, eom, j);
    var k :| 1 <= k < |rows| && Merge(rows[1..], eom)[j] == Render(rows[k]);
    assert rows[0] in rows && rows[k] in rows;
    MonthKeyOrder(rows[0].date.year, rows[0].date.month, rows[k].date.year, rows[k].date.month);
  }

  lemma {:induction false} MergeKeysAscending<V>(rows: seq<PriceRow<V>>, eom: map<string, string>)
    requires ValidRows(rows) && Ascending(rows)
    ensures KeysAscending(Merge(rows, eom))
    decreases |rows|
  {
    if rows != [] {
      var rest := Merge(rows[1..], eom);
      MergeKeysAscending(rows[1..], eom);
      if IsoDate(rows[0].date) in eom.Values {
        forall j | 0 <= j < |rest| ensures LexLe(MonthKey(rows[0].date), rest[j].yearMo) {
          HeadKeyLeast(rows, eom, j);
        }
        ConsAscending(Render(rows[0]), rest);
      }
    }
  }

  lemma {:induction false} InRangeKeysAscending<V>(rows: seq<EomRow<V>>, startMonth: string, endMonth: string)
    requires KeysAscending(rows)
    ensures KeysAscending(InRange(rows, startMonth, endMonth))
    decreases |rows|
  {
    if rows != [] {
      var rest := InRange(rows[1..], startMonth, endMonth);
      InRangeKeysAscending(rows[1..], startMonth, endMonth);
      if LexLe(startMonth, rows[0].yearMo) && LexLe(rows[0].yearMo, endMonth) {
        forall j | 0 <= j < |rest| ensures LexLe(rows[0].yearMo, rest[j].yearMo) {
          InRangeTailFrom(rows, startMonth, endMonth, j);
        }
        ConsAscending(rows[0], rest);
      }
    }
  }
}
