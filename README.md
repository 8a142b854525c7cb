# tempo: trace durations and size parsing, in Dafny

This project models two utilities for Nextflow pipeline traces:

- `tempo/calc_time.py` finds the total execution time of a pipeline. It reads each task's `status`, `submit` and `complete` columns from `trace.txt`. It collects the distinct (submit, complete) intervals of each status. It sorts the intervals by start and sweeps them into contiguous busy spans. It then reports each status's summed busy time, plus an overall total and interval count.
- `tempo/mem_convert.py` turns human-readable sizes such as `4 GB`, `1MB` and `10.5 KB` into a number of bytes, using a table of decimal units.

The project has four modules:

- `Wrappers` (wrappers.dfy) holds `Option` and `Result`.
- `Intervals` (intervals.dfy) holds the interval data and the sweep as a function, `SweepOver`.
  - `IsCoalescing` describes the maximal busy spans of a set of intervals on its own, without the sweep: gapped, covering, each span built from the intervals.
  - The module proves that the sweep builds exactly those spans, that they are unique, and that the loop reports all of them except the last.
- `CalcTime` (calc_time.dfy) has the imperative parts of `calc_time.py`:
  - the row loop of `load_intervals`;
  - the sort;
  - the sweep loop of `calculate_interval_durations`;
  - the three dictionary loops of `calculate_trace_duration`.

  Each method is proved against the functions of `Intervals` and the loader function `Loaded`.
- `MemConvert` (mem_convert.dfy) has `parse_size` as a pure function, in these steps:
  1. upper-casing;
  2. the leading-space test;
  3. the unit-splitting substitution;
  4. the whitespace split;
  5. a decimal reader for `float()`;
  6. truncation for `int()`.

The sweep keeps the source's exact quirks: the sentinel start `datetime(1969, 12, 1, 23, 59, 59)`, the strict `submit > current_complete` test (touching intervals merge) and the skipped append at `i == 0`.

Time is an integer count of microseconds, which is the resolution of `datetime`. A duration is a difference of two such counts.

## Model

| member | source | states |
|---|---|---|
| Intervals.SweepCoalesces | tempo/calc_time.py:41-61 | For intervals sorted by start, all after the sentinel and each with submit <= complete, the closed spans plus the span still open at the end are the maximal busy spans of the set. |
| Intervals.CoalescingUnique | tempo/calc_time.py:43-61 | A set of well-formed intervals has only one list of maximal busy spans, so the answer the sweep aims at does not depend on the order among equal starts. |
| Intervals.SweepDropsOnlyLastSpan | tempo/calc_time.py:50-61 | For any start order of a regular set, the spans the loop appends to `merged` are every maximal busy span but the last one. |
| Intervals.CoalescingIdempotent | tempo/calc_time.py:50-61 | Sweeping the spans the sweep built gives the same spans back. |
| Intervals.BusyTimeAtMostNaiveSum | tempo/calc_time.py:68-72 | The summed durations of the reported spans, and of all spans, are at most the sum of the interval lengths. |
| Intervals.GappedIntervalsKeepTheirLength | tempo/calc_time.py:50-72 | When no two intervals overlap or touch, each interval is a span of its own. The busy time of all spans then equals the sum of the interval lengths, and the loop reports every interval but the last. |
| Intervals.DurationsSumToTotalLength | tempo/calc_time.py:68-72 | The durations of a list of intervals add up to the sum of their lengths. |
| Intervals.OpenSpanEndNeverShrinks | tempo/calc_time.py:54-61 | One more interval either opens a new span that is exactly that interval, or keeps the closed spans and the open span's start while the open span's end grows to at least the interval's end. |
| Intervals.EarlyFirstIntervalJoinsSentinelSpan | tempo/calc_time.py:45-47 | A first interval starting at or before 1969-12-01 23:59:59 does not open a span of its own: the open span keeps the sentinel start and nothing is closed. |
| Intervals.TouchingIntervalsMerge | tempo/calc_time.py:54 | Two intervals where one ends exactly when the next starts form a single span, because the test is strict. |
| Intervals.OverlappingIntervalsMerge | tempo/calc_time.py:54-61 | Two overlapping intervals form a single span from the first start to the later end. |
| Intervals.ExampleDropsLastSpan | tempo/calc_time.py:50-72 | Intervals 00:00-01:00, 00:30-02:00 and 03:00-04:00 have three hours of busy time in two spans, but the loop closes only the first span and reports two hours. |
| Intervals.CoalescingEmpty | tempo/calc_time.py:41-61 | The list of spans is empty exactly when there are no intervals. |
| Intervals.GappedIsSorted | tempo/calc_time.py:41 | Spans separated by gaps are sorted by start and distinct. |
| CalcTime.LoadIntervals | tempo/calc_time.py:15-35 | The loader loop computes `Loaded`. A status is a key exactly when some row has that status. An interval is in a status's set exactly when some row has that status and both of its timestamps parse to that interval. |
| CalcTime.LoadedCharacterized | tempo/calc_time.py:24-34 | The same two if-and-only-if statements, for the loader function. |
| CalcTime.LoadedDependsOnRowsOnly | tempo/calc_time.py:18-32 | The loaded sets depend only on which rows occur, not on their order or how often they occur, since they are sets. |
| CalcTime.DoublingRowsChangesNothing | tempo/calc_time.py:18-32 | Listing every row twice loads the same sets. |
| CalcTime.MalformedRowAddsOnlyItsStatus | tempo/calc_time.py:26-34 | A row whose timestamps fail to parse still adds its status, with an empty set if the status is new. No other status changes. |
| CalcTime.SortByStart | tempo/calc_time.py:41 | The result lists every interval of the set exactly once, in ascending order of start. |
| CalcTime.CalculateIntervalDurations | tempo/calc_time.py:37-72 | The durations are those of the sweep over some start order of the set. For regular intervals they are the durations of every maximal busy span except the last. |
| CalcTime.EmptyGroupTotalsZero | tempo/calc_time.py:103-106 | A status with no interval (all of its rows failed to parse) totals zero. |
| CalcTime.RegularGroupTotal | tempo/calc_time.py:103-106 | For regular intervals, a status's total is the busy time of all of its maximal spans but the last. It is at most the naive sum of the interval lengths, taken in any start order. |
| CalcTime.DurationsPerStatus | tempo/calc_time.py:97-100 | There is one duration list per loaded status, each the sweep's durations for that status's set. |
| CalcTime.TotalsPerStatus | tempo/calc_time.py:103-106 | There is one total per status, equal to the sum of that status's durations. Each total is therefore the sweep's total for that status's set. |
| CalcTime.StatusLines | tempo/calc_time.py:109-112 | There is one message line for each status, with no status repeated. Each line shows that status's total and its number of distinct intervals. |
| CalcTime.CalculateTraceDuration | tempo/calc_time.py:74-118 | The totals map has a key for every status of the trace, each holding the sweep total of that status. The report lists each status once, with its total and interval count. The Total line is the sum of the per-status totals and of the per-status interval counts. |
| MemConvert.UnitsAreDecimalPowers | tempo/mem_convert.py:14-20 | The unit table holds B, KB, MB, GB and TB, at 10^0, 10^3, 10^6, 10^9 and 10^12. |
| MemConvert.Truncate | tempo/mem_convert.py:53 | `int()` of a real drops the fraction toward zero, for both signs. |
| MemConvert.TruncateOdd | tempo/mem_convert.py:53 | Truncating a value's negation gives the negation of its truncation. |
| MemConvert.Unpack | tempo/mem_convert.py:52-53 | Unpacking fails with ValueError exactly when the split does not give two tokens. A success means the second token is a unit in the table and the first reads as a number. |
| MemConvert.ParseNumberSign | tempo/mem_convert.py:53 | A leading minus negates the number, and a leading plus changes nothing. |
| MemConvert.NumberOfDecimal | tempo/mem_convert.py:53 | `float()` of digits `a`, a point, digits `b` and an exponent part reads the digits of `a` and `b` as one integer. That integer is scaled by ten to the exponent minus the number of digits in `b`. Either `a` or `b` may be empty, but not both. The value of a digit run is defined positionally in `DigitsValue`. |
| MemConvert.NumberOfInteger | tempo/mem_convert.py:53 | `float()` of a non-empty digit run followed by an exponent part is the run's value times ten to the exponent. |
| MemConvert.NumberOfDigits | tempo/mem_convert.py:53 | A non-empty digit run alone reads as its decimal value. |
| MemConvert.NumberOfFraction | tempo/mem_convert.py:53 | `a.b` with no exponent reads as the value of `a` plus the value of `b` divided by ten to the number of digits in `b`. |
| MemConvert.ReadMantissaDigits | tempo/mem_convert.py:53 | Reading a run of digits shifts their value into the number read so far, and counts them as fraction digits once the point has been read. |
| MemConvert.ParseSizeIgnoresCase | tempo/mem_convert.py:48 | Upper-casing the input first does not change the result. |
| MemConvert.ParseSizeGluedOrSpaced | tempo/mem_convert.py:49-52 | A number and a unit give the same result whether glued (`1MB`) or separated by a space (`1 MB`). |
| MemConvert.ParseSizeOfNumberAndUnit | tempo/mem_convert.py:48-53 | When the number reads as x, both forms give the truncation of x times the unit's multiplier. |
| MemConvert.ParseSizeRejectsBadNumber | tempo/mem_convert.py:52-53 | When the number does not read, both forms fail as `float()` does. |
| MemConvert.ParseSizeLeadingSpace | tempo/mem_convert.py:49-52 | With a leading space, units are not split off: ` 1MB` fails with ValueError, while ` 1 MB` gives the same as `1 MB`. |
| MemConvert.ParseSizeNeedsUnit | tempo/mem_convert.py:52 | A number with no unit is a single token, which is a ValueError. |
| MemConvert.ParseSizeUnknownUnit | tempo/mem_convert.py:52-53 | A second word with no B that is not in the table is a KeyError. |
| MemConvert.ParseSizeOtherPrefixSplits | tempo/mem_convert.py:51-52 | A letter other than K, M, G or T before B is split from the B, so `4 PB` is three tokens and a ValueError rather than a KeyError. |
| MemConvert.NumberTenAndAHalf | tempo/mem_convert.py:45-46 | The text `10.5` reads as exactly 10.5. |
| MemConvert.ParseSizeOneDigitSpaced | tempo/mem_convert.py:39-40 | A digit, a space and a unit give the digit times the unit's multiplier. |
| MemConvert.ParseSizeOneDigitGlued | tempo/mem_convert.py:42-43 | A digit glued to a unit gives the digit times the unit's multiplier. |
| MemConvert.ParseSizeFourGigabytes | tempo/mem_convert.py:39-40 | `4 GB` is 4000000000 bytes. |
| MemConvert.ParseSizeOneMegabyte | tempo/mem_convert.py:42-43 | `1MB` is 1000000 bytes. |
| MemConvert.ParseSizeTenAndAHalfKilobytes | tempo/mem_convert.py:45-46 | `10.5 KB` is 10500 bytes. |

## Left out

- Opening and reading `trace.txt` with `csv.DictReader`, and both `main` functions, are left out. This is I/O. The model takes the rows already split into columns, and a column the row lacks is `None`.
- `datetime.strptime` with `%Y-%m-%d %H:%M:%S.%f` is a parameter `parse` from text to an optional microsecond count. The calendar is not modelled.
- The text of the message is left out. Each line is modelled as data (status, total, interval count), not as rendered `timedelta` text.
- The order of statuses and of the message lines is left out. Python dictionary order is not modelled: each loop takes the keys in an unspecified order.
- The particular algorithm behind `sorted` is left out. Only its result is specified: every interval once, by start, with equal starts in any order.
- A row shorter than the header, which `DictReader` gives a `None` status, is left out. The model skips such a row, treating it like a row without the column.
- MemConvert.ParseNumber reads the number as an exact rational, not a binary float. `int(float(n) * m)` can differ from the exact result for numbers like `0.1`, whose float value is not exact.
- MemConvert.ParseSize: a number beyond the double range (about 1.8e308), such as `1E400`, or a product beyond it, such as `1E300 TB`, makes the source's `int()` raise OverflowError on an infinity. The model instead returns the exact product.
- MemConvert.ParseNumber does not accept `inf`, `nan`, `infinity` or digit-group underscores. Any of these gives `NotANumber`. For inf and nan the source also fails, with OverflowError or ValueError from `int()`.
- MemConvert.Upper is the upper-casing of byte strings: only `a`-`z` change. Unicode case mapping is not modelled.
- `tempo/message.py` and `tempo/config.py` are not part of this model.
- CalcTime.CalculateIntervalDurations: the link to the maximal spans is stated only for regular intervals. A regular interval has submit <= complete and starts after the sentinel. Intervals.SweepCoalesces and Intervals.SweepDropsOnlyLastSpan carry the same restriction. For other input the loop is still modelled exactly as written, and the method's first ensures still holds.

## Findings

| source | as written | input that shows it | evidently intended | confidence | as-written member | corrected member |
|---|---|---|---|---|---|---|
| tempo/calc_time.py:50-72 | A span is appended to `merged_intervals` only when a later interval starts after it. The span still open when the loop ends is never appended, so its duration is missing from every total. | Intervals 00:00-01:00, 00:30-02:00 and 03:00-04:00 report 2 hours instead of 3. A status with a single interval reports 0. | The durations of all contiguous spans, the last one included. | not executed | Intervals.ExampleDropsLastSpan | Intervals.SweepCoalesces |

The durations of all spans are `Intervals.Spans`, which is the closed spans plus the final open span. `Intervals.SweepCoalesces` proves that these are exactly the maximal busy spans. `Intervals.CoalescingIdempotent` and `Intervals.BusyTimeAtMostNaiveSum` state further properties of them.

`CalcTime` still reports what the program reports: the spans closed during the loop. Its contract on `CalculateIntervalDurations` relates that output to the corrected spans, so each status's figure is the correct busy time less its last span.
