/** KLineCandleSeriesDataModel and the mapping of one raw kline into it. */
module Candles {
  import opened Wrappers
  import opened DateRange

  /** A System.Decimal: an integer mantissa scaled by 10^-scale (in .NET the
      mantissa has 96 bits and the scale is 0 to 28; these bounds are not
      modelled). The pipeline only copies decimals, so nothing here depends on
      their value. */
  datatype Decimal = Decimal(mantissa: int, scale: nat)

  /** The fields of a raw kline (IBinanceKline) that the mapping reads. */
  datatype Kline = Kline(
    openTime: DateTime,
    open: Option<Decimal>,
    high: Option<Decimal>,
    low: Option<Decimal>,
    close: Option<Decimal>)

  /** KLineCandleSeriesDataModel: time in whole seconds since 1970-01-01. */
  datatype Candle = Candle(
    time: int,
    open: Option<Decimal>,
    close: Option<Decimal>,
    high: Option<Decimal>,
    low: Option<Decimal>)

  const TicksPerSecond: int := 10_000_000

  /** new DateTime(1970, 1, 1), as ticks. */
  const UnixEpoch: DateTime := 621_355_968_000_000_000

  const Int32Min: int := -0x8000_0000
  const Int32Max: int := 0x7FFF_FFFF

  /** The seconds of a tick offset, with the fraction dropped toward zero as
      the (Int32) cast of TotalSeconds does. */
  function TruncatedSeconds(ticks: int): (s: int)
    ensures 0 <= ticks ==> 0 <= s && s * TicksPerSecond <= ticks < s * TicksPerSecond + TicksPerSecond
    ensures ticks < 0 ==> s <= 0 && s * TicksPerSecond - TicksPerSecond < ticks <= s * TicksPerSecond
  {
    if 0 <= ticks then ticks / TicksPerSecond else -((-ticks) / TicksPerSecond)
  }

  /** The offset of a kline's open time from 1970-01-01, in truncated seconds. */
  function EpochSeconds(k: Kline): int
  {
    TruncatedSeconds(k.openTime - UnixEpoch)
  }

  /** The (Int32) cast is only defined by C# when the value fits. */
  predicate Mappable(k: Kline)
  {
    Int32Min <= EpochSeconds(k) <= Int32Max
  }

  /** The mapping lambda of MapKLineCandleSeriesDataAsync. */
  function MapCandle(k: Kline): (c: Candle)
    requires Mappable(k)
    ensures Int32Min <= c.time <= Int32Max
    ensures c.time == EpochSeconds(k)
    ensures c.open == k.open && c.close == k.close && c.high == k.high && c.low == k.low
  {
    Candle(EpochSeconds(k), k.open, k.close, k.high, k.low)
  }

  /** Later open times never map to earlier candle times. */
  lemma MapCandleMonotone(k1: Kline, k2: Kline)
    requires Mappable(k1) && Mappable(k2)
    requires k1.openTime <= k2.openTime
    ensures MapCandle(k1).time <= MapCandle(k2).time
  {
    var t1, t2 := k1.openTime - UnixEpoch, k2.openTime - UnixEpoch;
    var s1, s2 := TruncatedSeconds(t1), TruncatedSeconds(t2);
    if t2 < 0 {
      assert s1 * TicksPerSecond - TicksPerSecond < t1 <= t2 <= s2 * TicksPerSecond;
    } else if 0 <= t1 {
      assert s1 * TicksPerSecond <= t1 <= t2 < s2 * TicksPerSecond + TicksPerSecond;
    }
  }

  /** An open time on a whole second is recovered exactly from the candle. */
  lemma MapCandleWholeSecond(k: Kline)
    requires Mappable(k)
    requires (k.openTime - UnixEpoch) % TicksPerSecond == 0
    ensures UnixEpoch + MapCandle(k).time * TicksPerSecond == k.openTime
  {
    var t := k.openTime - UnixEpoch;
    var s := TruncatedSeconds(t);
    if t < 0 {
      assert (-t) % TicksPerSecond == 0;
      assert -t == ((-t) / TicksPerSecond) * TicksPerSecond;
    }
  }

  /** Every kline of a list can be mapped. */
  predicate AllMappable(ks: seq<Kline>)
  {
    forall i :: 0 <= i < |ks| ==> Mappable(ks[i])
  }

  /** MapKLineCandleSeriesDataAsync: one candle per kline, in the klines' order
      (Task.WhenAll returns the results in the order of its tasks). */
  function MapKlines(ks: seq<Kline>): (cs: seq<Candle>)
    requires AllMappable(ks)
    ensures |cs| == |ks|
    ensures forall i :: 0 <= i < |ks| ==> cs[i] == MapCandle(ks[i])
  {
    if ks == [] then [] else [MapCandle(ks[0])] + MapKlines(ks[1..])
  }

  /** Mapping klines in open-time order gives candles in time order. */
  lemma {:induction false} MapKlinesOrdered(ks: seq<Kline>)
    requires AllMappable(ks)
    requires forall i, j :: 0 <= i < j < |ks| ==> ks[i].openTime <= ks[j].openTime
    ensures forall i, j :: 0 <= i < j < |ks| ==> MapKlines(ks)[i].time <= MapKlines(ks)[j].time
  {
    var cs := MapKlines(ks);
    forall i, j | 0 <= i < j < |ks| ensures cs[i].time <= cs[j].time {
      MapCandleMonotone(ks[i], ks[j]);
    }
  }
}
