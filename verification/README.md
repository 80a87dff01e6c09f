# End-of-month price extraction (FinEval `get_eomonth_price`)

This project models `get_eomonth_price` from FinEval's `fineval.py`. The
function takes a frame of daily prices indexed by trading date. For every
calendar month in the frame it finds the last trading day that was observed,
and it returns that day's row. Only months whose `"YYYY-MM"` key lies in an
inclusive range are kept. The upper bound may be the sentinel `"prior"`,
which names the month before the current one.

The model follows the steps of the Python code:

- the month key `str(year) + '-' + str(month).zfill(2)`;
- the ISO date string `str(date)` that becomes the frame's index;
- the selection of the price column, with the four ways a bad column name makes the call fail;
- `groupby('year_mo')['day'].max('day')` (the argument only sets `numeric_only`, which does not matter for an integer `day`);
- the rebuilt month-end date `key + '-' + str(day).zfill(2)`;
- the inner merge on `date`;
- the resolution of `"prior"`;
- the inclusive range filter, which compares month keys as Python strings.

Python's `str(n)`, `str.zfill` and string order are modelled from scratch in
`strings.dfy`. Dates, month keys and ISO dates are in `dates.dfy`. The
pipeline is in `eom_price.dfy`, and the properties of its result are in
`eom_properties.dfy`. The function is pure apart from its read of the clock,
so it is modelled as functions on values. The clock read becomes an explicit
reference date `today`. Prices are a type parameter `V`, because the code
only carries them through.

Where the intended behaviour and the code differ, the model follows the code:

- **Output order.** The code never sorts. The result keeps the order of the
  input rows, because a pandas inner merge keeps the left frame's order.
  `OrderIndependent` shows that shuffling the input changes only the order
  of the result rows. `ChronologicalWhenAscending` shows that a history in
  date order gives month keys in ascending order.
- **`"prior"` in January.** The code produces the key `"Y-00"` rather than
  `"(Y-1)-12"`. No month key of a real date has month `00`. So this bound
  selects exactly the rows that the calendar-correct bound selects
  (`PriorResolution`). The result is therefore correct as written.
- **No range validation.** A malformed `start_month` or `end_month` is not
  rejected. It is simply compared as a string.
- **No tie-break.** Two input rows on the same date are both kept when that
  date is the month's last day. Their prices may differ.

## Model

| member | source | states |
|---|---|---|
| Strings.Str | fineval.py:78-79 | `str(n)` of a non-negative integer is a non-empty string of decimal digits that denotes `n`, with no leading zero, and `0` renders as `"0"` |
| Strings.Padded | fineval.py:80 | `str(n).zfill(w)` is exactly `w` digits denoting `n` when `n < 10^w`, and is `str(n)` unchanged when `n` already has at least `w` digits |
| Strings.DigitsOrder | fineval.py:108-109 | on digit strings of equal length, Python's string order agrees with numeric order, and equal values mean equal strings |
| Strings.LexLeTransitive | fineval.py:108-109 | Python's `<=` on `str` is transitive |
| Strings.LexLeAntisymmetric | fineval.py:108-109 | Python's `<=` on `str` is antisymmetric |
| Dates.FourDigitYear | fineval.py:78-90 | for four-digit years, the unpadded `str(year)` of the month key and the `%04d` year of the ISO date coincide |
| Dates.MonthKeyFormat | fineval.py:78-81 | a month key is four year digits, a dash and two month digits, and those digits denote the year and month |
| Dates.MonthKeyOrder | fineval.py:108-109 | string order on month keys is (year, month) order, and a key names exactly one (year, month) |
| Dates.JoinOfMonthKey | fineval.py:85-96 | the date rebuilt from a row's own month key and day equals that row's ISO index string |
| Dates.IsoDateInjective | fineval.py:85-90 | two valid dates have the same ISO index string exactly when they are the same date |
| Dates.JoinDateMatch | fineval.py:96-99 | the date rebuilt from a month key and day `k` matches a row's index exactly when the row is in that month and on day `k` |
| Dates.PriorMonth | fineval.py:103-106 | the calendar-correct "month before today" key sorts strictly before today's month key |
| Dates.PriorMonthImmediate | fineval.py:103-106 | a valid month key is `<=` the calendar-correct previous month exactly when it sorts strictly before today's month key, so no month lies between the two |
| Dates.JanuaryBound | fineval.py:105-106 | for every valid month key, being `<=` the January bound `"Y-00"` is the same as being `<=` `"(Y-1)-12"` |
| EomPrice.SelectPrice | fineval.py:78-91 | the selection `df_return[[price_col, 'day', 'year_mo']]` keeps every input row, in place and in order: output row `i` carries the date of input row `i` and that row's value in the selected column (the derived text for `year` and `month`) |
| EomPrice.LastDays | fineval.py:93-95 | every month of the input is grouped, no month's maximum is below any of its days, and every maximum is the day of some input row in that month |
| EomPrice.Merge | fineval.py:99-100 | the join yields no more rows than the input, and each row it yields is an input row whose ISO date is a month-end date |
| EomPrice.MergeKeeps | fineval.py:99-100 | every input row whose ISO date is a month-end date is kept by the join |
| EomPrice.InRange | fineval.py:107-109 | the filter yields only rows of its input whose month key is between the bounds, both ends included |
| EomPrice.InRangeKeeps | fineval.py:107-109 | every row whose month key is between the bounds is kept by the filter |
| EomPrice.GetEomonthPrice | fineval.py:53-111 | the call fails exactly in four cases: `KeyError` at line 91 when `price_col` is neither a caller column nor one of `year`, `month`, `day`, `year_mo` (always for `date`, dropped at line 87); for `year_mo`, selected twice at line 91, a grouper that is not one-dimensional at line 94; for `day`, selected twice at line 91, a missing `.str` accessor at line 96; for a caller column `day_x`, a clash with the merge's `_x` suffix at line 99; otherwise every result row is a frame row (its ISO date, its value in the selected column, its month key) with a month key in the resolved inclusive range |
| EomProperties.EomDatesAreInputDates | fineval.py:93-96 | every rebuilt month-end date is the ISO date of an input row of that month on its last observed day |
| EomProperties.JoinKeepsLastDay | fineval.py:93-100 | an input row survives the join exactly when it lies on the last observed day of its month |
| EomProperties.EachRowJoinsOneMonth | fineval.py:96-99 | no two month keys rebuild the same date, so an input row joins at most one month |
| EomProperties.ResultRowIsLastDay | fineval.py:93-109 | every result row is an input row on the last observed day of its month, with its month key in range |
| EomProperties.LastDayInResult | fineval.py:93-109 | every input row on the last observed day of its month, with its month key in range, is in the result |
| EomProperties.OneRowPerMonth | fineval.py:93-109 | with distinct input dates, no month key repeats in the result, every input month in range appears, and no other month does |
| EomProperties.EmptyResults | fineval.py:107-109 | an empty input, or a start month above the end month, gives an empty result |
| EomProperties.PriorResolution | fineval.py:103-106 | `"prior"` resolves to `"Y-00"` in January and to the previous month otherwise, and the call with `"prior"` returns what the call with the calendar-correct previous month returns |
| EomProperties.PriorKey | fineval.py:103-106 | the key `"prior"` resolves to, in January and in other months, and the calendar-correct key is never the sentinel itself |
| EomProperties.JanuaryEnd | fineval.py:105-109 | in January, filtering with `"Y-00"` and with `"(Y-1)-12"` gives the same result |
| EomProperties.JanuaryRow | fineval.py:105-109 | in January, the month key of any rendered input row is `<=` `"Y-00"` exactly when it is `<=` `"(Y-1)-12"` |
| EomProperties.OrderIndependent | fineval.py:93-109 | two orderings of the same input rows give results that are permutations of each other |
| EomProperties.LastDaysSameRows | fineval.py:93-95 | the month maxima depend only on which rows are present, not on their order or repetition |
| EomProperties.MergePermutation | fineval.py:99-100 | permuting the input permutes the rows the join keeps |
| EomProperties.InRangePermutation | fineval.py:107-109 | permuting the filter's input permutes its output |
| EomProperties.ChronologicalWhenAscending | fineval.py:99-109 | for a history in strictly ascending date order, the result's month keys strictly increase |

## Left out

- `parse_vang_pdf`, `get_eomonth_sp500` and the rest of `fineval.py` and `imaneval.py` are not part of this model: they do document conversion and price download, not the extraction.
- The clock read `dt.today()` is the parameter `today`. The code reads the clock twice, the year first and then the month (fineval.py:105-106). Within one year the month is read once, so nothing mixes. A call that crosses midnight from 31 December into 1 January can combine the old year `Y-1` with month 1 and give the bound `"(Y-1)-00"`, which selects months only up to `(Y-2)-12`, a full year earlier than intended. That race is not modelled: both reads see the same `today`.
- Prices are an opaque type `V`. No floating-point arithmetic happens in the extraction, so none is modelled.
- The caller's frame is not changed (`df.copy()`). Every member is a pure function, so that holds by construction.
- EomPrice.GetEomonthPrice: the error cases are named by kind (`KeyError`, a grouper that is not one-dimensional, a missing `.str` accessor); the exact pandas exception classes and messages are not modelled. A caller column named `year`, `month`, `day` or `year_mo` is overwritten by the derived value, as in the code, and the caller's own values for it are lost.
- The default arguments `start_month='2019-01'`, `end_month='prior'` and `price_col='Close'` (fineval.py:53) are not modelled: every caller of the model passes all arguments.
- EomPrice.GetEomonthPrice: the merge at line 99 renames the two `day` columns to `day_x` and `day_y`. For every `price_col` except `day_y`, the selection at line 100 drops them, and the result rows carry only `date`, the price and `year_mo`. A caller column named `day_y` is not modelled as written: the merged frame then holds two `day_y` columns, and line 100 returns the month's last day beside the price. The model returns one value per row, the caller's `day_y`. For a caller column `day_x`, the model follows pandas 2, which raises on the duplicate suffixed label; pandas 1.x only warns and returns two `day_x` columns.
- Dates are valid when the year has four digits and month and day are in 1..12 and 1..31. Month lengths play no part in the extraction. A nanosecond-resolution index lies in 1677..2262, so every date it holds is valid.
- Two index edge cases are not modelled, because a well-formed frame has neither. A year above 9999 in an index coarser than nanoseconds makes line 85's `index.date` raise, because Python's `date` ends at year 9999. A `NaT` in the index turns year, month and day into floats, so the month keys and rebuilt dates carry `.0` and the join at line 99 silently matches nothing.
- Years below 1000 are not modelled. An index of second, millisecond or microsecond resolution can hold them; then line 78 renders the year with three digits while line 90 pads it to four, so the rebuilt month-end date never matches the index and the join at line 99 drops every row of such a year.
- Dates.PriorMonth and EomProperties.PriorResolution: the equivalence with the calendar-correct bound is stated for years from 1001, so that the previous December has a four-digit year.
- EomProperties.OneRowPerMonth: the uniqueness of month keys assumes distinct input dates. With duplicate dates the code keeps every duplicate on a month's last day, and the model does the same.
- The pandas index, dtypes and column labels of the returned frame are not modelled. The result is a sequence of rows with the three named fields.
