# Binance historical candle series: a Dafny model

This project models the retrieval and assembly pipeline of `Sol_Demo`. The
pipeline builds a five-minute (or other interval) candle series for a symbol
over a range of dates, working one day at a time:

1. `DateRange.GetDateRange` lists the dates from `startDate` to `endDate`, one
   `AddDays(1)` step at a time. When `endDate < startDate` it throws an
   `ArgumentException` before it yields anything.
2. `GetHistoricalKLineDataAsync` makes one `GetKlinesAsync` request per date.
   The window of each request is `[d, d + 1 day]` and its limit is 1000.
3. For each day it drops the last kline (`SkipLast(1)`). It maps the other
   klines to `KLineCandleSeriesDataModel`. The open time becomes whole seconds
   since 1970-01-01, truncated toward zero. Open, close, high and low are
   copied unchanged.
4. It flattens the days (`SelectMany`) and sorts them by `time` (`OrderBy`).
   `OrderBy` is stable.

Modules, one per component of the source:

- `Wrappers` (`wrappers.dfy`): `Option` and `Result`.
- `DateRange` (`daterange.dfy`): dates are `DateTime.Ticks` (100 ns since
  0001-01-01), and `AddDays(1)` adds `TicksPerDay`. `GetDateRange` is a method
  with a `while` loop. It is proved equal to the specification function
  `DateRangeOf`, and the lemmas state what that function yields.
- `Candles` (`candles.dfy`): `Kline` (the fields of `IBinanceKline` that the
  mapping reads), `Candle` (`KLineCandleSeriesDataModel`), the truncation of
  ticks to seconds, and the per-record and per-day mappings.
- `Linq` (`linq.dfy`): `SkipLast(1)`, `SelectMany` with the identity selector
  (`Flatten`), and a stable `OrderBy` with its stable-sort specification.
- `KLineHistoricalData` (`historical.dfy`): request construction, trimming,
  assembly, all-or-nothing collection of the responses, and the whole
  `GetHistoricalKLineData` operation.

The Binance client is a parameter, `client: KlineRequest -> Option<seq<Kline>>`.
It gives the `Data` of the `WebCallResult` for a request, or `None` when `Data`
is null. The method returns the requests it hands to the client, in order,
together with the outcome. This makes "one request per date" and "no request
for an invalid range" statements about its result.

## Model

| member | source | states |
|---|---|---|
| `DateRange.GetDateRange` | Sol_Demo/Sol_Demo/Program.cs:42-52 | The loop yields exactly `DateRangeOf(startDate, endDate)`. It fails if and only if `endDate < startDate`, and then it has yielded nothing. |
| `DateRange.DatesShape` | Sol_Demo/Sol_Demo/Program.cs:47-51 | For `startDate <= endDate` there are `floor((endDate - startDate) / 1 day) + 1` dates. The first is `startDate`. Each is one day after the one before. The last is at or before `endDate`, and one more day would pass it. |
| `DateRange.DatesMembership` | Sol_Demo/Sol_Demo/Program.cs:47-51 | A time is yielded exactly when it lies in `[startDate, endDate]` and is a whole number of days after `startDate`. |
| `DateRange.DatesOfWholeDays` | Sol_Demo/Sol_Demo/Program.cs:44-51 | For dates at midnight given as day numbers, there are `endDay - startDay + 1` dates and the last is `endDate` itself. |
| `Candles.TruncatedSeconds` | Sol_Demo/Sol_Demo/Program.cs:107 | The result is the offset in whole seconds, truncated toward zero. For a non-negative offset it is the largest `s` with `s` seconds not past the offset. For a negative offset it is the smallest `s` with `s` seconds not before it. |
| `Candles.MapCandle` | Sol_Demo/Sol_Demo/Program.cs:105-112 | `time` is the truncated seconds of the open time since 1970-01-01 and fits in Int32. `open`, `close`, `high` and `low` are the kline's own values, so an absent value stays absent. |
| `Candles.MapCandleMonotone` | Sol_Demo/Sol_Demo/Program.cs:107 | A later or equal open time never gives an earlier candle time. |
| `Candles.MapCandleWholeSecond` | Sol_Demo/Sol_Demo/Program.cs:107 | For an open time on a whole second, epoch plus `time` seconds gives back the open time exactly. |
| `Candles.MapKlines` | Sol_Demo/Sol_Demo/Program.cs:98-118 | One candle per kline, at the same position. This is the order that `Task.WhenAll` keeps. |
| `Candles.MapKlinesOrdered` | Sol_Demo/Sol_Demo/Program.cs:100-117 | Klines in open-time order map to candles in time order. |
| `Linq.SkipLast` | Sol_Demo/Sol_Demo/Program.cs:144 | The result is a prefix of the input, one element shorter, and empty for an empty input. |
| `Linq.Flatten` | Sol_Demo/Sol_Demo/Program.cs:152 | The flattened length is the sum of the parts' lengths (`TotalLength`). |
| `Linq.FlattenAppend` | Sol_Demo/Sol_Demo/Program.cs:152 | Flattening two lists of parts one after the other gives the two flattenings one after the other. |
| `Linq.FlattenParts` | Sol_Demo/Sol_Demo/Program.cs:152 | Each part appears whole and in place: after the flattening of the parts before it and before the flattening of the parts after it. So the days' lists are concatenated in day order. |
| `Linq.FlattenMembership` | Sol_Demo/Sol_Demo/Program.cs:152 | An element is in the flattened sequence exactly when it is in one of the parts. |
| `Linq.OrderBy` | Sol_Demo/Sol_Demo/Program.cs:153 | The result has the input's length and is a permutation of it (multiset). Keys never decrease. For every key, the elements with that key keep their input order (stability). |
| `Linq.StableSortUnique` | Sol_Demo/Sol_Demo/Program.cs:153 | Two sequences both sorted by key that agree on every key's subsequence are equal. |
| `Linq.OrderByIsTheStableSort` | Sol_Demo/Sol_Demo/Program.cs:153 | A sequence is a stable sort of the input exactly when it equals `OrderBy` of it. |
| `Linq.DistinctKeysByWithKey` | Sol_Demo/Sol_Demo/Program.cs:153 | No two elements share a key exactly when no key has more than one element. |
| `Linq.StableSortStrict` | Sol_Demo/Sol_Demo/Program.cs:153 | A stable sort strictly increases by key exactly when no two elements of its input share a key, whatever the input's order. |
| `Linq.OrderBySorted` | Sol_Demo/Sol_Demo/Program.cs:153 | `OrderBy` leaves an already sorted sequence unchanged. |
| `KLineHistoricalData.CallKLineDataApi` | Sol_Demo/Sol_Demo/Program.cs:92-95 | The request carries the symbol and interval. Its window starts at `d` and ends one day later (`AddDays(1)`). Its limit is 1000. |
| `KLineHistoricalData.TrimAndMap` | Sol_Demo/Sol_Demo/Program.cs:142-146 | There is one list per day, in day order. Day `d`'s list is the mapping of all its klines except the last. |
| `KLineHistoricalData.TrimmedLength` | Sol_Demo/Sol_Demo/Program.cs:144-152 | The flattened trimmed days hold `KeptCount(days)` candles: each day's length minus one, and zero for an empty day. The final day is trimmed too. |
| `KLineHistoricalData.Assemble` | Sol_Demo/Sol_Demo/Program.cs:142-155 | The output has `KeptCount(days)` candles and is non-decreasing by `time`. It is a permutation of the concatenated trimmed days. Candles with equal `time` keep their concatenation order. |
| `KLineHistoricalData.AssembleMembership` | Sol_Demo/Sol_Demo/Program.cs:142-153 | A candle is in the output exactly when it is the mapping of a kline that is not the last of its day. Nothing is added. |
| `KLineHistoricalData.DayMembership` | Sol_Demo/Sol_Demo/Program.cs:144 | A day's candles are exactly the mappings of the klines `SkipLast(1)` keeps. |
| `KLineHistoricalData.UniformDaysCount` | Sol_Demo/Sol_Demo/Program.cs:144-152 | When each of `m` days has `n >= 1` klines, there are `m * (n - 1)` candles. So 3 days give `3N - 3`. |
| `KLineHistoricalData.FiveMinuteTwoDayExample` | Sol_Demo/Sol_Demo/Program.cs:128-153 | The range 2021-01-01 to 2021-01-02 has two dates. With 288 klines each day the output has 574 candles. |
| `KLineHistoricalData.AssembleOfOrderedDays` | Sol_Demo/Sol_Demo/Program.cs:151-153 | When the concatenated trimmed days are already in time order, the output is that concatenation. |
| `KLineHistoricalData.AssembleStrictlyIncreasing` | Sol_Demo/Sol_Demo/Program.cs:151-153 | The output strictly increases by `time` exactly when no two candles of the concatenated trimmed days share a `time`, whatever order the days return them in. |
| `KLineHistoricalData.DuplicateTimesKept` | Sol_Demo/Sol_Demo/Program.cs:151-153 | Equal times are not removed: a day `[k, k, last]` gives two candles with the same `time`. |
| `KLineHistoricalData.CollectAll` | Sol_Demo/Sol_Demo/Program.cs:138-146 | All days are collected, in order, if and only if every response has data. If any response lacks data, nothing is collected. |
| `KLineHistoricalData.AssembleResponses` | Sol_Demo/Sol_Demo/Program.cs:142-155 | The call fails with `NoKlineData` exactly when some day's `Data` is null. Otherwise it is the assembly of all days. |
| `KLineHistoricalData.GetHistoricalKLineData` | Sol_Demo/Sol_Demo/Program.cs:92-156 | For `endDate < startDate`: no request, and the range `ArgumentException`. Otherwise there is one request per date, in date order. Request `i` has window `[startDate + i days, startDate + (i + 1) days]` and limit 1000. The call fails exactly when some response lacks data. Otherwise the outcome is the assembly of the responses in request order. |

## Left out

- `Main` (Program.cs:16-35) is left out. It holds credentials, console output and the row count: I/O and presentation.
- The Binance client, `GetKlinesAsync` and `WebCallResult` are foreign library calls. The client is a function parameter. What it answers, including how the server applies the 1000 limit, is up to that parameter.
- A failed call is only modelled as a null `Data`. Applying `SkipLast` to it fails the whole call (`NoKlineData`). Which exception type results, and exceptions thrown by `GetKlinesAsync` itself, are not modelled.
- `Task.Run` and `Task.WhenAll` concurrency is modelled sequentially. `Task.WhenAll` returns results in task order, so the model keeps that order.
- `TotalSeconds` is a `double`. The model divides ticks exactly with truncation toward zero, so any rounding of large tick counts to a `double` is not modelled.
- `Candles.MapCandle`: requires the truncated seconds to fit in Int32, because C# leaves an out-of-range `(Int32)` cast of a `double` unspecified. This cast overflows after January 2038.
- `KLineHistoricalData.GetHistoricalKLineData`: requires the client's klines to pass the Int32 condition above. This applies only to the klines the call keeps. The last kline of each day is never mapped, so the condition does not apply to it.
- `DateTime` bounds are not modelled, and ticks are unbounded integers. `AddDays(1)` past `DateTime.MaxValue` throws `ArgumentOutOfRangeException` in the middle of the loop. `DateTimeKind` is ignored, as `DateTime` comparison and subtraction ignore it.
- `GetDateRange` is a C# iterator, so its range check runs when the enumeration starts, inside `Task.WhenAll` (line 138). The model runs the check when the method is called. The outcome is the same either way: the exception comes before any date is yielded, so no request is made.
- `decimal` values are only copied. They are modelled as a mantissa and scale with no arithmetic.

What the code guarantees about the output order:

- The code sorts but never removes candles with equal times (`DuplicateTimesKept`). The output strictly increases by `time` exactly when no two kept candles share a time (`AssembleStrictlyIncreasing`).
- Each request's window is `[d, d.AddDays(1)]`, with both ends as the code passes them, and the last kline of each response is dropped. How the server treats the end of the window is up to the client parameter.
