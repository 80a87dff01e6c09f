/** Calendar dates as a pandas Timestamp index carries them, the zero-padded
    "YYYY-MM" month key built from them, and their ISO "YYYY-MM-DD" rendering. */
module Dates {
  import opened Strings

  datatype Date = Date(year: nat, month: nat, day: nat)

  /** A date with a four-digit year, a month 1..12 and a day 1..31. A
      nanosecond-resolution pandas index lies in 1677..2262, so every date it
      can hold is one of these; month lengths play no part in the extraction. */
  predicate ValidDate(d: Date)
  {
    && 1000 <= d.year <= 9999
    && 1 <= d.month <= 12
    && 1 <= d.day <= 31
  }

  /** `str(year) + '-' + str(month).zfill(2)`: the month key. */
  function YearMonth(year: nat, month: nat): string
  {
    Str(year) + "-" + Padded(month, 2)
  }

  /** The month key of a date. */
  function MonthKey(d: Date): string
  {
    YearMonth(d.year, d.month)
  }

  /** `str(date)` of a Python `date`: four-digit year, two-digit month and day. */
  function IsoDate(d: Date): string
  {
    Padded(d.year, 4) + "-" + Padded(d.month, 2) + "-" + Padded(d.day, 2)
  }

  /** A date rebuilt from a month key and a day of month:
      `key + '-' + str(day).zfill(2)`. */
  function JoinDate(yearMo: string, day: nat): string
  {
    yearMo + "-" + Padded(day, 2)
  }

  /** A four-digit year renders as four digits, with or without zfill(4). */
  lemma FourDigitYear(y: nat)
    requires 1000 <= y <= 9999
    ensures |Str(y)| == 4 && Padded(y, 4) == Str(y)
  {
    assert Pow10(3) == 1000 && Pow10(4) == 10000;
    var p := Padded(y, 4);
    assert |p| == 4;
  }

  /** The month key is the four-digit year, a dash, and the month as two digits. */
  lemma MonthKeyFormat(y: nat, m: nat)
    requires 1000 <= y <= 9999 && m <= 99
    ensures var k := YearMonth(y, m);
      && |k| == 7 && k[4] == '-'
      && IsDigits(k[..4]) && Value(k[..4]) == y
      && IsDigits(k[5..]) && Value(k[5..]) == m
  {
    FourDigitYear(y);
    assert Pow10(2) == 100;
    var k := YearMonth(y, m);
    assert k[..4] == Str(y);
    assert k[5..] == Padded(m, 2);
  }

  /** For four-digit years and two-digit months, Python's string order on
      month keys is chronological (year, then month) order, and a key names
      exactly one (year, month). */
  lemma {:induction false} MonthKeyOrder(y1: nat, m1: nat, y2: nat, m2: nat)
    requires 1000 <= y1 <= 9999 && 1000 <= y2 <= 9999 && m1 <= 99 && m2 <= 99
    ensures LexLe(YearMonth(y1, m1), YearMonth(y2, m2)) <==> y1 < y2 || (y1 == y2 && m1 <= m2)
    ensures YearMonth(y1, m1) == YearMonth(y2, m2) <==> y1 == y2 && m1 == m2
  {
    FourDigitYear(y1);
    FourDigitYear(y2);
    assert Pow10(2) == 100;
    var a, b := Str(y1), Str(y2);
    var u, v := Padded(m1, 2), Padded(m2, 2);
    assert YearMonth(y1, m1) == a + ("-" + u);
    assert YearMonth(y2, m2) == b + ("-" + v);
    DigitsOrder(a, b);
    DigitsOrder(u, v);
    LexLeConcat(a, "-" + u, b, "-" + v);
    LexLeConcat("-", u, "-", v);
    SplitEqual(a, "-" + u, b, "-" + v);
    SplitEqual("-", u, "-", v);
    if y1 != y2 && LexLe(a, b) {
      assert Value(a) <= Value(b);
    }
  }

  /** The date rebuilt from a date's own month key and day is its ISO date. */
  lemma JoinOfMonthKey(d: Date)
    requires ValidDate(d)
    ensures JoinDate(MonthKey(d), d.day) == IsoDate(d)
  {
    FourDigitYear(d.year);
  }

  /** ISO dates of valid dates are equal exactly when the dates are. */
  lemma IsoDateInjective(d1: Date, d2: Date)
    requires ValidDate(d1) && ValidDate(d2)
    ensures IsoDate(d1) == IsoDate(d2) <==> d1 == d2
  {
    JoinOfMonthKey(d1);
    JoinOfMonthKey(d2);
    JoinDateMatch(d1, d1.day, d2);
    MonthKeyOrder(d1.year, d1.month, d2.year, d2.month);
  }

  /** The date rebuilt from the month key of `d` and day `k` is the ISO date
      of `e` exactly when `e` lies in the month of `d` and on day `k`. */
  lemma JoinDateMatch(d: Date, k: nat, e: Date)
    requires ValidDate(d) && ValidDate(e) && k <= 99
    ensures JoinDate(MonthKey(d), k) == IsoDate(e) <==> MonthKey(d) == MonthKey(e) && e.day == k
  {
    JoinOfMonthKey(e);
    MonthKeyFormat(d.year, d.month);
    MonthKeyFormat(e.year, e.month);
    assert Pow10(2) == 100;
    var p, q := Padded(k, 2), Padded(e.day, 2);
    assert JoinDate(MonthKey(d), k) == MonthKey(d) + ("-" + p);
    assert IsoDate(e) == MonthKey(e) + ("-" + q);
    SplitEqual(MonthKey(d), "-" + p, MonthKey(e), "-" + q);
    SplitEqual("-", p, "-", q);
    DigitsOrder(p, q);
  }

  /** The month before the month of `today`, with the year rolled back in
      January: the month that "prior" is meant to name. */
  function PriorMonth(today: Date): (k: string)
    requires ValidDate(today) && today.year >= 1001
    ensures LexLe(k, MonthKey(today)) && k != MonthKey(today)
  {
    var y: nat := if today.month == 1 then today.year - 1 else today.year;
    var m: nat := if today.month == 1 then 12 else today.month - 1;
    MonthKeyOrder(y, m, today.year, today.month);
    YearMonth(y, m)
  }

  /** The key is the month immediately before today's: a valid month key is
      at most `PriorMonth(today)` exactly when it sorts strictly before
      today's month key. */
  lemma PriorMonthImmediate(today: Date, y: nat, m: nat)
    requires ValidDate(today) && today.year >= 1001
    requires 1000 <= y <= 9999 && 1 <= m <= 12
    ensures LexLe(YearMonth(y, m), PriorMonth(today))
        <==> LexLe(YearMonth(y, m), MonthKey(today)) && YearMonth(y, m) != MonthKey(today)
  {
    var py: nat := if today.month == 1 then today.year - 1 else today.year;
    var pm: nat := if today.month == 1 then 12 else today.month - 1;
    assert PriorMonth(today) == YearMonth(py, pm);
    MonthKeyOrder(y, m, py, pm);
    MonthKeyOrder(y, m, today.year, today.month);
  }

  /** In January the naive "month minus one" key `Y-00` bounds the valid month
      keys from above exactly as the calendar-correct key `(Y-1)-12` does,
      because no valid key has month 00. */
  lemma JanuaryBound(year: nat, y: nat, m: nat)
    requires 1001 <= year <= 9999 && 1000 <= y <= 9999 && 1 <= m <= 12
    ensures LexLe(YearMonth(y, m), YearMonth(year, 0)) <==> LexLe(YearMonth(y, m), YearMonth(year - 1, 12))
  {
    MonthKeyOrder(y, m, year, 0);
    MonthKeyOrder(y, m, year - 1, 12);
  }
}
