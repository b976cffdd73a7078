/** KLineHistoricalData.GetHistoricalKLineDataAsync: one kline request per date,
    each day's last kline dropped, the rest mapped, flattened and ordered by
    time. The Binance client is a parameter: a function from a request to the
    klines of its WebCallResult.Data, None when Data is null. */
module KLineHistoricalData {
  import opened Wrappers
  import opened DateRange
  import opened Candles
  import opened Linq

  /** A KlineInterval, passed through to the client unchanged. */
  datatype KlineInterval = KlineInterval(name: string)

  /** The arguments of one GetKlinesAsync call. */
  datatype KlineRequest = KlineRequest(
    symbol: string,
    interval: KlineInterval,
    startTime: DateTime,
    endTime: DateTime,
    limit: int)

  const RequestLimit: int := 1000

  /** How GetHistoricalKLineDataAsync can fail: the ArgumentException of
      GetDateRange, or a day whose Data is null when SkipLast is applied to it. */
  datatype HistoricalError = InvalidRange(reason: RangeError) | NoKlineData

  /** CallKLineDataApi: the window [d, d + 1 day] with at most 1000 klines. */
  function CallKLineDataApi(symbol: string, interval: KlineInterval, d: DateTime): (q: KlineRequest)
    ensures q.symbol == symbol && q.interval == interval
    ensures q.startTime == d && q.endTime - q.startTime == TicksPerDay
    ensures q.limit == 1000
  {
    KlineRequest(symbol, interval, d, AddDay(d), RequestLimit)
  }

  /** The candle key used by OrderBy. */
  function TimeOf(c: Candle): int
  {
    c.time
  }

  /** The klines of every day that survive SkipLast(1) can be mapped. */
  predicate DaysMappable(days: seq<seq<Kline>>)
  {
    forall d :: 0 <= d < |days| ==> AllMappable(SkipLast(days[d]))
  }

  /** Step 3 for every day: drop the last kline and map the others. */
  function TrimAndMap(days: seq<seq<Kline>>): (r: seq<seq<Candle>>)
    requires DaysMappable(days)
    ensures |r| == |days|
    ensures forall d :: 0 <= d < |days| ==> r[d] == MapKlines(SkipLast(days[d]))
  {
    if days == [] then [] else [MapKlines(SkipLast(days[0]))] + TrimAndMap(days[1..])
  }

  /** The reference count: each day contributes its length minus one, and an
      empty day contributes nothing. */
  function KeptCount(days: seq<seq<Kline>>): nat
  {
    if days == [] then 0
    else (if |days[0]| == 0 then 0 else |days[0]| - 1) + KeptCount(days[1..])
  }

  /** Step 4: SelectMany over the trimmed, mapped days, then OrderBy(time). */
  function Assemble(days: seq<seq<Kline>>): (r: seq<Candle>)
    requires DaysMappable(days)
    ensures |r| == KeptCount(days)
    ensures SortedBy(r, TimeOf)
    ensures multiset(r) == multiset(Flatten(TrimAndMap(days)))
    ensures forall t :: WithKey(r, TimeOf, t) == WithKey(Flatten(TrimAndMap(days)), TimeOf, t)
  {
    TrimmedLength(days);
    OrderBy(Flatten(TrimAndMap(days)), TimeOf)
  }

  lemma {:induction false} TrimmedLength(days: seq<seq<Kline>>)
    requires DaysMappable(days)
    ensures |Flatten(TrimAndMap(days))| == KeptCount(days)
  {
    if days != [] {
      var rest := days[1..];
      assert forall d :: 0 <= d < |rest| ==> rest[d] == days[d + 1];
      TrimmedLength(rest);
      assert TrimAndMap(days)[1..] == TrimAndMap(rest);
    }
  }

  /** c is the candle of a kline of day that SkipLast(1) keeps. */
  predicate KeptFrom(day: seq<Kline>, c: Candle)
  {
    exists i :: 0 <= i < |day| - 1 && Mappable(day[i]) && c == MapCandle(day[i])
  }

  /** Nothing is added and nothing is lost beyond the trim: a candle is in the
      output exactly when it maps a kline that is not the last of its day. */
  lemma AssembleMembership(days: seq<seq<Kline>>, c: Candle)
    requires DaysMappable(days)
    ensures c in Assemble(days) <==> exists d :: 0 <= d < |days| && KeptFrom(days[d], c)
  {
    var parts := TrimAndMap(days);
    var r := Assemble(days);
    assert c in r <==> c in multiset(r);
    assert c in Flatten(parts) <==> c in multiset(Flatten(parts));
    FlattenMembership(parts, c);
    forall d | 0 <= d < |days|
      ensures c in parts[d] <==> KeptFrom(days[d], c)
    {
      DayMembership(days[d], c);
    }
  }

  /** The candles of one day are the images of the klines SkipLast keeps. */
  lemma DayMembership(day: seq<Kline>, c: Candle)
    requires AllMappable(SkipLast(day))
    ensures c in MapKlines(SkipLast(day)) <==> KeptFrom(day, c)
  {
    var kept := SkipLast(day);
    var cs := MapKlines(kept);
    if c in cs {
      var i :| 0 <= i < |cs| && cs[i] == c;
      assert kept[i] == day[i];
    }
    if KeptFrom(day, c) {
      var i :| 0 <= i < |day| - 1 && Mappable(day[i]) && c == MapCandle(day[i]);
      assert kept[i] == day[i];
      assert cs[i] == c;
    }
  }

  /** When every day holds n >= 1 klines, m days give m * (n - 1) candles. */
  lemma {:induction false} UniformDaysCount(days: seq<seq<Kline>>, n: nat)
    requires n >= 1
    requires forall d :: 0 <= d < |days| ==> |days[d]| == n
    ensures KeptCount(days) == |days| * (n - 1)
  {
    if days != [] {
      UniformDaysCount(days[1..], n);
    }
  }

  /** 2021-01-01 and 2021-01-02 with 288 five-minute klines a day give
      2 * 288 - 2 = 574 candles. */
  lemma FiveMinuteTwoDayExample(days: seq<seq<Kline>>)
    requires |days| == |Dates(637_450_560_000_000_000, 637_451_424_000_000_000)|
    requires DaysMappable(days)
    requires forall d :: 0 <= d < |days| ==> |days[d]| == 288
    ensures |days| == 2
    ensures |Assemble(days)| == 574
  {
    UniformDaysCount(days, 288);
  }

  /** The output is strictly increasing in time exactly when no two kept
      candles share a time, in whatever order the days deliver them. */
  lemma AssembleStrictlyIncreasing(days: seq<seq<Kline>>)
    requires DaysMappable(days)
    ensures StrictlySortedBy(Assemble(days), TimeOf) <==> DistinctKeys(Flatten(TrimAndMap(days)), TimeOf)
  {
    StableSortStrict(Assemble(days), Flatten(TrimAndMap(days)), TimeOf);
  }

  /** When the trimmed days already come in time order, OrderBy keeps that order. */
  lemma AssembleOfOrderedDays(days: seq<seq<Kline>>)
    requires DaysMappable(days)
    requires SortedBy(Flatten(TrimAndMap(days)), TimeOf)
    ensures Assemble(days) == Flatten(TrimAndMap(days))
  {
    OrderBySorted(Flatten(TrimAndMap(days)), TimeOf);
  }

  /** The code keeps equal times: one day with two klines of the same second
      and a third one yields two candles with one time. */
  lemma DuplicateTimesKept(k: Kline, last: Kline)
    requires Mappable(k)
    ensures var r := Assemble([[k, k, last]]);
      |r| == 2 && r[0].time == r[1].time
  {
    var days := [[k, k, last]];
    var c := MapCandle(k);
    assert SkipLast(days[0]) == [k, k];
    assert MapKlines([k, k]) == [c, c];
    assert TrimAndMap(days) == [[c, c]];
    assert Flatten([[c, c]]) == [c, c] by {
      assert [[c, c]][1..] == [];
    }
    AssembleOfOrderedDays(days);
  }

  /** The kept klines of every present response can be mapped. */
  predicate ResponsesFit(responses: seq<Option<seq<Kline>>>)
  {
    forall i :: 0 <= i < |responses| && responses[i].Some? ==> AllMappable(SkipLast(responses[i].value))
  }

  /** Task.WhenAll followed by reading every Data: all days present, or none. */
  function CollectAll(responses: seq<Option<seq<Kline>>>): (r: Option<seq<seq<Kline>>>)
    ensures r.Some? <==> forall i :: 0 <= i < |responses| ==> responses[i].Some?
    ensures r.Some? ==> |r.value| == |responses|
    ensures r.Some? ==> forall i :: 0 <= i < |responses| ==> r.value[i] == responses[i].value
    ensures r.Some? && ResponsesFit(responses) ==> DaysMappable(r.value)
  {
    if responses == [] then Some([])
    else
      match responses[0]
      case None => None
      case Some(day) =>
        match CollectAll(responses[1..])
        case None => None
        case Some(rest) => Some([day] + rest)
  }

  /** The client's answers to the requests of one call keep the kept klines' times within Int32. */
  predicate ClientTimesFit(client: KlineRequest -> Option<seq<Kline>>, symbol: string, interval: KlineInterval,
                           startDate: DateTime, endDate: DateTime)
  {
    forall d :: d in Dates(startDate, endDate) && client(CallKLineDataApi(symbol, interval, d)).Some? ==>
      AllMappable(SkipLast(client(CallKLineDataApi(symbol, interval, d)).value))
  }

  /** Steps 3 and 4 on the responses of step 2. */
  function AssembleResponses(responses: seq<Option<seq<Kline>>>): (r: Result<seq<Candle>, HistoricalError>)
    requires ResponsesFit(responses)
    ensures r.Failure? <==> exists i :: 0 <= i < |responses| && responses[i].None?
    ensures r.Failure? ==> r.error == NoKlineData
    ensures r.Success? ==> CollectAll(responses).Some? && r.value == Assemble(CollectAll(responses).value)
  {
    match CollectAll(responses)
    case None => Failure(NoKlineData)
    case Some(days) => Success(Assemble(days))
  }

  /** What the client answers to each request, in request order. */
  function Responses(client: KlineRequest -> Option<seq<Kline>>, requests: seq<KlineRequest>): (r: seq<Option<seq<Kline>>>)
    ensures |r| == |requests| && forall i :: 0 <= i < |requests| ==> r[i] == client(requests[i])
  {
    seq(|requests|, i requires 0 <= i < |requests| => client(requests[i]))
  }

  /** GetHistoricalKLineDataAsync. Returns the requests handed to the client,
      in the order they are made, with the outcome. */
  method GetHistoricalKLineData(symbol: string, interval: KlineInterval, startDate: DateTime, endDate: DateTime,
                                client: KlineRequest -> Option<seq<Kline>>)
    returns (requests: seq<KlineRequest>, result: Result<seq<Candle>, HistoricalError>)
    requires ClientTimesFit(client, symbol, interval, startDate, endDate)
    ensures endDate < startDate ==> requests == [] && result == Failure(InvalidRange(EndDateBeforeStartDate))
    ensures startDate <= endDate ==> |requests| == DayCount(startDate, endDate)
    ensures forall i :: 0 <= i < |requests| ==>
      requests[i] == KlineRequest(symbol, interval, startDate + i * TicksPerDay, startDate + (i + 1) * TicksPerDay, 1000)
    ensures startDate <= endDate ==> (result.Failure? <==> exists i :: 0 <= i < |requests| && client(requests[i]).None?)
    ensures startDate <= endDate && result.Failure? ==> result.error == NoKlineData
    ensures startDate <= endDate ==>
      ResponsesFit(Responses(client, requests)) && result == AssembleResponses(Responses(client, requests))
  {
    var range := GetDateRange(startDate, endDate);
    if range.Failure? {
      return [], Failure(InvalidRange(range.error));
    }
    var dates := range.value;
    assert dates == Dates(startDate, endDate);
    requests := seq(|dates|, i requires 0 <= i < |dates| => CallKLineDataApi(symbol, interval, dates[i]));
    var responses := Responses(client, requests);
    assert ResponsesFit(responses) by {
      forall i | 0 <= i < |responses| && responses[i].Some?
        ensures AllMappable(SkipLast(responses[i].value))
      {
        assert dates[i] in Dates(startDate, endDate);
      }
    }
    result := AssembleResponses(responses);
  }
}
