/** DateRange.GetDateRange: the days from a start date up to an end date,
    one DateTime per step of AddDays(1). */
module DateRange {
  import opened Wrappers

  /** A DateTime, as its Ticks: 100-nanosecond intervals since 0001-01-01. */
  type DateTime = int

  const TicksPerDay: int := 864_000_000_000

  /** AddDays(1). */
  function AddDay(d: DateTime): DateTime
  {
    d + TicksPerDay
  }

  /** The ArgumentException thrown when endDate < startDate. */
  datatype RangeError = EndDateBeforeStartDate

  /** How many steps of one day, starting at startDate, stay at or before endDate. */
  function DayCount(startDate: DateTime, endDate: DateTime): nat
    requires startDate <= endDate
  {
    (endDate - startDate) / TicksPerDay + 1
  }

  /** The dates the generator yields; empty for an invalid range. */
  function Dates(startDate: DateTime, endDate: DateTime): seq<DateTime>
  {
    if endDate < startDate then []
    else seq(DayCount(startDate, endDate), i => startDate + i * TicksPerDay)
  }

  /** The outcome of enumerating GetDateRange(startDate, endDate) to the end. */
  function DateRangeOf(startDate: DateTime, endDate: DateTime): Result<seq<DateTime>, RangeError>
  {
    if endDate < startDate then Failure(EndDateBeforeStartDate) else Success(Dates(startDate, endDate))
  }

  /** The generator: the range check comes before the loop, so nothing is
      yielded for an invalid range; the loop yields startDate and steps it by
      one day while it is not past endDate. */
  method GetDateRange(startDate: DateTime, endDate: DateTime) returns (r: Result<seq<DateTime>, RangeError>)
    ensures r.Failure? <==> endDate < startDate
    ensures r == DateRangeOf(startDate, endDate)
  {
    if endDate < startDate {
      return Failure(EndDateBeforeStartDate);
    }
    var yielded: seq<DateTime> := [];
    var d := startDate;
    while d <= endDate
      invariant d == startDate + |yielded| * TicksPerDay
      invariant d - TicksPerDay <= endDate
      invariant forall i :: 0 <= i < |yielded| ==> yielded[i] == startDate + i * TicksPerDay
      decreases endDate - d
    {
      yielded := yielded + [d];
      d := AddDay(d);
    }
    assert |yielded| == DayCount(startDate, endDate);
    assert yielded == Dates(startDate, endDate);
    r := Success(yielded);
  }

  /** For a valid range: exactly floor((endDate - startDate) / 1 day) + 1 dates,
      the first is startDate, consecutive dates are one day apart, and the last
      is the latest such date not after endDate. */
  lemma DatesShape(startDate: DateTime, endDate: DateTime)
    requires startDate <= endDate
    ensures var ds := Dates(startDate, endDate);
      && |ds| == (endDate - startDate) / TicksPerDay + 1
      && ds[0] == startDate
      && (forall i :: 0 <= i < |ds| - 1 ==> ds[i + 1] == AddDay(ds[i]))
      && ds[|ds| - 1] <= endDate < AddDay(ds[|ds| - 1])
  {
  }

  /** The dates are exactly the whole-day offsets of startDate that lie in
      [startDate, endDate]. */
  lemma DatesMembership(startDate: DateTime, endDate: DateTime, t: DateTime)
    ensures t in Dates(startDate, endDate) <==>
      startDate <= t <= endDate && (t - startDate) % TicksPerDay == 0
  {
    var ds := Dates(startDate, endDate);
    if startDate <= t <= endDate && (t - startDate) % TicksPerDay == 0 {
      var i := (t - startDate) / TicksPerDay;
      assert ds[i] == t;
    }
  }

  /** With dates given as whole days (midnight to midnight) the last date is
      endDate itself, and there are endDate - startDate + 1 of them in days. */
  lemma DatesOfWholeDays(startDay: int, endDay: int)
    requires startDay <= endDay
    ensures var ds := Dates(startDay * TicksPerDay, endDay * TicksPerDay);
      && |ds| == endDay - startDay + 1
      && ds[|ds| - 1] == endDay * TicksPerDay
  {
    var ds := Dates(startDay * TicksPerDay, endDay * TicksPerDay);
    assert endDay * TicksPerDay - startDay * TicksPerDay == (endDay - startDay) * TicksPerDay;
    DatesShape(startDay * TicksPerDay, endDay * TicksPerDay);
  }
}
