/**
 * Volume bars: each tick's volume is added to a running total; whenever the
 * total reaches the threshold T, bars are closed one per T units of volume,
 * all stamped with the current tick's time, and the excess carries over. The
 * bar after such a close starts at the close price, unless the excess is
 * exactly zero, in which case the next tick starts a fresh bar.
 */
module VolumeBars {
  import opened Ohlc
  import Arith

  /** The rows closed by one tick, and the bar and residual volume left after them. */
  datatype Burst = Burst(bars: seq<Bar>, acc: Acc, volume: nat)

  /**
   * The inner loop of `VolumeBars.make_bars`: while at least T units of
   * volume remain, emit the open bar at time t, take T off, and reopen the
   * bar at its close price. It closes volume / T bars, all stamped t, and
   * leaves volume mod T.
   */
  function Split(acc: Acc, volume: nat, T: nat, t: Time): (r: Burst)
    requires T > 0 && acc.Open?
    ensures Arith.Times(|r.bars|, T) + r.volume == volume && r.volume < T
    ensures r.acc.Open?
    ensures forall j :: 0 <= j < |r.bars| ==> r.bars[j].time == t
    decreases volume
  {
    if volume >= T then
      var rest := Split(Seed(acc.close), volume - T, T, t);
      Burst([Emit(acc, t)] + rest.bars, rest.acc, rest.volume)
    else
      Burst([], acc, volume)
  }

  /**
   * The shape of a burst: below the threshold nothing happens; otherwise the
   * first row is the open bar, every later row is the flat bar of its close
   * price, and the bar left open is that flat bar.
   */
  lemma {:induction false} SplitShape(acc: Acc, volume: nat, T: nat, t: Time)
    requires T > 0 && acc.Open?
    ensures volume < T ==> Split(acc, volume, T, t) == Burst([], acc, volume)
    ensures volume >= T ==>
              var r := Split(acc, volume, T, t);
              && |r.bars| > 0
              && r.bars[0] == Emit(acc, t)
              && (forall j :: 0 < j < |r.bars| ==>
                    r.bars[j] == Bar(t, acc.close, acc.close, acc.close, acc.close))
              && r.acc == Seed(acc.close)
    decreases volume
  {
    if volume >= T {
      var rest := Split(Seed(acc.close), volume - T, T, t);
      SplitShape(Seed(acc.close), volume - T, T, t);
      var r := Split(acc, volume, T, t);
      forall j | 0 < j < |r.bars|
        ensures r.bars[j] == Bar(t, acc.close, acc.close, acc.close, acc.close)
      {
        assert r.bars[j] == rest.bars[j - 1];
      }
    }
  }

  /** A burst closes exactly volume / T bars and leaves volume mod T. */
  lemma SplitCount(acc: Acc, volume: nat, T: nat, t: Time)
    requires T > 0 && acc.Open?
    ensures |Split(acc, volume, T, t).bars| == volume / T
    ensures Split(acc, volume, T, t).volume == volume % T
  {
    var r := Split(acc, volume, T, t);
    Arith.TimesIsProduct(|r.bars|, T);
    Arith.ModUnique(volume, T, |r.bars|);
  }

  /** The loop state of `VolumeBars.make_bars`: the open bar, the residual volume and the rows so far. */
  datatype Meter = Meter(acc: Acc, volume: nat, bars: seq<Bar>)

  /**
   * One iteration of the tick loop: fold the price in and add the volume;
   * if the threshold is reached, run the burst, and drop the open bar when
   * no volume is left over.
   */
  function Step(m: Meter, tick: Tick, T: nat): Meter
    requires T > 0
  {
    var acc := Update(m.acc, tick.price);
    var volume := m.volume + tick.volume;
    if volume >= T then
      var b := Split(acc, volume, T, tick.time);
      Meter(if b.volume == 0 then Empty else b.acc, b.volume, m.bars + b.bars)
    else
      Meter(acc, volume, m.bars)
  }

  /** The loop state after the first n ticks. */
  function Run(ticks: seq<Tick>, n: nat, T: nat): Meter
    requires T > 0 && n <= |ticks|
  {
    if n == 0 then Meter(Empty, 0, []) else Step(Run(ticks, n - 1, T), ticks[n - 1], T)
  }

  /** What `VolumeBars.make_bars` returns for threshold T. */
  function VolumeBarsSpec(ticks: seq<Tick>, T: nat): seq<Bar>
  {
    if T == 0 then [] else Run(ticks, |ticks|, T).bars
  }

  /** `VolumeBars.make_bars`: one pass over the ticks with the burst as an inner loop. */
  method MakeBars(ticks: seq<Tick>, T: nat) returns (bars: seq<Bar>)
    ensures bars == VolumeBarsSpec(ticks, T)
    ensures T == 0 ==> bars == []
  {
    if T == 0 {
      return [];
    }
    bars := [];
    var acc := Empty;
    var volume: nat := 0;
    for i := 0 to |ticks|
      invariant Meter(acc, volume, bars) == Run(ticks, i, T)
    {
      var tick := ticks[i];
      assert Run(ticks, i + 1, T) == Step(Meter(acc, volume, bars), tick, T);
      acc := Update(acc, tick.price);
      var timestamp := tick.time;
      volume := volume + tick.volume;
      if volume >= T {
        ghost var burst := Split(acc, volume, T, timestamp);
        ghost var before := bars;
        while volume >= T
          invariant acc.Open?
          invariant before + burst.bars == bars + Split(acc, volume, T, timestamp).bars
          invariant burst.acc == Split(acc, volume, T, timestamp).acc
          invariant burst.volume == Split(acc, volume, T, timestamp).volume
          decreases volume
        {
          ghost var rest := Split(Seed(acc.close), volume - T, T, timestamp);
          assert Split(acc, volume, T, timestamp) == Burst([Emit(acc, timestamp)] + rest.bars, rest.acc, rest.volume);
          assert bars + ([Emit(acc, timestamp)] + rest.bars) == bars + [Emit(acc, timestamp)] + rest.bars;
          bars := bars + [Emit(acc, timestamp)];
          volume := volume - T;
          acc := Seed(acc.close);
        }
        assert Split(acc, volume, T, timestamp) == Burst([], acc, volume);
        assert bars == before + burst.bars && acc == burst.acc && volume == burst.volume;
        if volume == 0 {
          acc := Empty;
        }
      }
    }
  }

  /**
   * The open bar is dropped only when no volume is carried over: an empty
   * open bar never holds a residual.
   */
  lemma RunEmptyCarriesNothing(ticks: seq<Tick>, n: nat, T: nat)
    requires T > 0 && n <= |ticks|
    ensures Run(ticks, n, T).acc.Empty? ==> Run(ticks, n, T).volume == 0
  {
  }

  /** The total volume of the first n ticks. */
  function TotalVolume(ticks: seq<Tick>, n: nat): nat
    requires n <= |ticks|
  {
    if n == 0 then 0 else TotalVolume(ticks, n - 1) + ticks[n - 1].volume
  }

  /**
   * Volume is conserved: after n ticks, T units for each emitted bar plus the
   * residual make up the cumulative volume, and the residual is below T.
   */
  lemma {:induction false} RunConserves(ticks: seq<Tick>, n: nat, T: nat)
    requires T > 0 && n <= |ticks|
    ensures Arith.Times(|Run(ticks, n, T).bars|, T) + Run(ticks, n, T).volume == TotalVolume(ticks, n)
    ensures Run(ticks, n, T).volume < T
  {
    if n > 0 {
      RunConserves(ticks, n - 1, T);
      var m := Run(ticks, n - 1, T);
      var tick := ticks[n - 1];
      var volume := m.volume + tick.volume;
      if volume >= T {
        var b := Split(Update(m.acc, tick.price), volume, T, tick.time);
        Arith.TimesAdd(|m.bars|, |b.bars|, T);
      }
    }
  }

  /** After n ticks, exactly TotalVolume / T bars have been emitted and TotalVolume mod T is carried. */
  lemma RunCount(ticks: seq<Tick>, n: nat, T: nat)
    requires T > 0 && n <= |ticks|
    ensures |Run(ticks, n, T).bars| == TotalVolume(ticks, n) / T
    ensures Run(ticks, n, T).volume == TotalVolume(ticks, n) % T
  {
    var m := Run(ticks, n, T);
    RunConserves(ticks, n, T);
    Arith.TimesIsProduct(|m.bars|, T);
    Arith.ModUnique(TotalVolume(ticks, n), T, |m.bars|);
  }

  /** Volume mode emits (total volume) / T bars; a zero threshold emits none. */
  lemma VolumeBarsCount(ticks: seq<Tick>, T: nat)
    ensures T == 0 ==> VolumeBarsSpec(ticks, T) == []
    ensures T > 0 ==> |VolumeBarsSpec(ticks, T)| == TotalVolume(ticks, |ticks|) / T
  {
    if T > 0 {
      RunCount(ticks, |ticks|, T);
    }
  }

  /**
   * What tick n does: the rows before it are kept, and the rows it adds are
   * all stamped with its time; if it reaches the threshold, the first of them
   * is the bar it completes and every later one is flat at its price; the
   * bar left open is empty when no volume is left over and otherwise the
   * flat bar at its price; if it does not reach the threshold, it only
   * extends the open bar.
   */
  lemma StepShape(m: Meter, tick: Tick, T: nat)
    requires T > 0
    ensures var m' := Step(m, tick, T);
            && |m'.bars| >= |m.bars|
            && m'.bars[..|m.bars|] == m.bars
            && (forall j :: |m.bars| <= j < |m'.bars| ==> m'.bars[j].time == tick.time)
    ensures var m' := Step(m, tick, T);
            var p := tick.price;
            m.volume + tick.volume >= T ==>
              && m'.bars[|m.bars|] == Emit(Update(m.acc, p), tick.time)
              && (forall j :: |m.bars| < j < |m'.bars| ==> m'.bars[j] == Bar(tick.time, p, p, p, p))
              && (m'.volume == 0 ==> m'.acc == Empty)
              && (m'.volume > 0 ==> m'.acc == Seed(p))
    ensures var m' := Step(m, tick, T);
            m.volume + tick.volume < T ==> m' == Meter(Update(m.acc, tick.price), m.volume + tick.volume, m.bars)
  {
    var acc := Update(m.acc, tick.price);
    var volume := m.volume + tick.volume;
    var m' := Step(m, tick, T);
    if volume >= T {
      var b := Split(acc, volume, T, tick.time);
      SplitShape(acc, volume, T, tick.time);
      assert m'.bars == m.bars + b.bars;
      forall j | |m.bars| <= j < |m'.bars|
        ensures m'.bars[j] == b.bars[j - |m.bars|]
      {
      }
    }
  }

  /**
   * Bar j of volume mode is stamped with the time of the tick i whose volume
   * carries the cumulative total across the (j+1)-th multiple of T, that is
   * TotalVolume(i) / T <= j < TotalVolume(i + 1) / T.
   */
  lemma RunStamps(ticks: seq<Tick>, n: nat, T: nat, i: nat, j: nat)
    requires T > 0 && i < n <= |ticks|
    requires TotalVolume(ticks, i) / T <= j < TotalVolume(ticks, i + 1) / T
    ensures j < |Run(ticks, n, T).bars| && Run(ticks, n, T).bars[j].time == ticks[i].time
  {
    RunCount(ticks, i, T);
    RunCount(ticks, i + 1, T);
    RunStampsAt(ticks, n, T, i, j);
  }

  /**
   * The rows tick i adds, those from index |Run(i).bars| up to
   * |Run(i + 1).bars|, stay in place and keep its time after any later tick.
   */
  lemma {:induction false} RunStampsAt(ticks: seq<Tick>, n: nat, T: nat, i: nat, j: nat)
    requires T > 0 && i < n <= |ticks|
    requires |Run(ticks, i, T).bars| <= j < |Run(ticks, i + 1, T).bars|
    ensures j < |Run(ticks, n, T).bars| && Run(ticks, n, T).bars[j].time == ticks[i].time
    decreases n
  {
    if i < n - 1 {
      RunStampsAt(ticks, n - 1, T, i, j);
      StepKeeps(Run(ticks, n - 1, T), ticks[n - 1], T, j);
    } else {
      StepStamps(Run(ticks, n - 1, T), ticks[n - 1], T, j);
    }
  }

  /** A step leaves the rows already emitted in place. */
  lemma StepKeeps(m: Meter, tick: Tick, T: nat, j: nat)
    requires T > 0 && j < |m.bars|
    ensures j < |Step(m, tick, T).bars| && Step(m, tick, T).bars[j] == m.bars[j]
  {
    StepShape(m, tick, T);
    var m' := Step(m, tick, T);
    assert m'.bars[j] == m'.bars[..|m.bars|][j];
  }

  /** Every row a step adds carries the tick's time. */
  lemma StepStamps(m: Meter, tick: Tick, T: nat, j: nat)
    requires T > 0 && |m.bars| <= j < |Step(m, tick, T).bars|
    ensures Step(m, tick, T).bars[j].time == tick.time
  {
    StepShape(m, tick, T);
  }

  /** Cumulative volume never decreases along the input. */
  lemma {:induction false} TotalVolumeMono(ticks: seq<Tick>, i: nat, n: nat)
    requires i <= n <= |ticks|
    ensures TotalVolume(ticks, i) <= TotalVolume(ticks, n)
    decreases n
  {
    if i < n {
      TotalVolumeMono(ticks, i, n - 1);
    }
  }

  /** The stamp of every volume bar, in terms of the cumulative volume of the input. */
  lemma VolumeBarsStamps(ticks: seq<Tick>, T: nat, i: nat, j: nat)
    requires T > 0 && i < |ticks|
    requires TotalVolume(ticks, i) / T <= j < TotalVolume(ticks, i + 1) / T
    ensures j < |VolumeBarsSpec(ticks, T)| && VolumeBarsSpec(ticks, T)[j].time == ticks[i].time
  {
    RunStamps(ticks, |ticks|, T, i, j);
  }

  /**
   * Every row volume mode emits is a real bar (never a gap), and it and the
   * bar left open satisfy the OHLC invariant.
   */
  lemma {:induction false} RunWellFormed(ticks: seq<Tick>, n: nat, T: nat)
    requires T > 0 && n <= |ticks|
    ensures Run(ticks, n, T).acc.WellFormed()
    ensures forall j :: 0 <= j < |Run(ticks, n, T).bars| ==>
              Run(ticks, n, T).bars[j].Bar? && Run(ticks, n, T).bars[j].WellFormed()
  {
    if n > 0 {
      RunWellFormed(ticks, n - 1, T);
      var m := Run(ticks, n - 1, T);
      var tick := ticks[n - 1];
      UpdateSpec(m.acc, tick.price);
      StepShape(m, tick, T);
      var m' := Run(ticks, n, T);
      forall j | 0 <= j < |m'.bars|
        ensures m'.bars[j].Bar? && m'.bars[j].WellFormed()
      {
        if j < |m.bars| {
          assert m'.bars[j] == m'.bars[..|m.bars|][j];
        }
      }
    }
  }

  /** Every bar that volume mode emits is a real bar satisfying the OHLC invariant. */
  lemma VolumeBarsWellFormed(ticks: seq<Tick>, T: nat)
    ensures forall j :: 0 <= j < |VolumeBarsSpec(ticks, T)| ==>
              VolumeBarsSpec(ticks, T)[j].Bar? && VolumeBarsSpec(ticks, T)[j].WellFormed()
  {
    if T > 0 {
      RunWellFormed(ticks, |ticks|, T);
    }
  }
}
