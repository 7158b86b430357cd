/**
 * The expected outputs of the repository's unit tests, restated for the
 * model: the five-tick sample with prices in whole units and timestamps in
 * seconds from its first tick.
 */
module BarExamples {
  import opened Ohlc
  import TickBars
  import TimeBars
  import VolumeBars

  /** The sample ticks shared by the tick, time and volume tests. */
  function Sample(): seq<Tick>
  {
    [Tick(0, 10, 1), Tick(1, 11, 5), Tick(3, 13, 3), Tick(4, 9, 2), Tick(9, 12, 3)]
  }

  lemma TickBarsSampleTwo()
    ensures TickBars.TickBarsSpec(Sample(), 2) == [Bar(1, 10, 11, 10, 11), Bar(4, 13, 13, 9, 9)]
  {
  }

  lemma TimeBarsSampleTwo()
    ensures TimeBars.TimeBarsSpec(Sample(), 2) ==
              [Bar(2, 10, 11, 10, 11), Bar(4, 13, 13, 13, 13), Bar(6, 9, 9, 9, 9), Gap(8), Bar(10, 12, 12, 12, 12)]
  {
  }

  lemma VolumeBarsSampleThree()
    ensures VolumeBars.VolumeBarsSpec(Sample(), 3) ==
              [Bar(1, 10, 11, 10, 11), Bar(1, 11, 11, 11, 11), Bar(3, 13, 13, 13, 13), Bar(9, 9, 12, 9, 12)]
  {
  }

  lemma TickBarsSampleOthers()
    ensures TickBars.TickBarsSpec(Sample(), 0) == []
    ensures TickBars.TickBarsSpec(Sample(), 1) ==
              [Bar(0, 10, 10, 10, 10), Bar(1, 11, 11, 11, 11), Bar(3, 13, 13, 13, 13),
               Bar(4, 9, 9, 9, 9), Bar(9, 12, 12, 12, 12)]
    ensures TickBars.TickBarsSpec(Sample(), 3) == [Bar(3, 10, 13, 10, 13)]
    ensures TickBars.TickBarsSpec(Sample(), 4) == [Bar(4, 10, 13, 9, 9)]
    ensures TickBars.TickBarsSpec(Sample(), 5) == [Bar(9, 10, 13, 9, 12)]
    ensures TickBars.TickBarsSpec(Sample(), 6) == []
  {
  }

  /** One-second bars: ticks on a boundary open the next bar, and empty seconds are gaps. */
  lemma TimeBarsSampleOne()
    ensures TimeBars.TimeBarsSpec(Sample(), 1) ==
              [Bar(1, 10, 10, 10, 10), Bar(2, 11, 11, 11, 11), Gap(3), Bar(4, 13, 13, 13, 13),
               Bar(5, 9, 9, 9, 9), Gap(6), Gap(7), Gap(8), Gap(9), Bar(10, 12, 12, 12, 12)]
  {
    assert TimeBars.Run(Sample(), 4, 0, 1) ==
           TimeBars.Clock(Seed(9), 5, [Bar(1, 10, 10, 10, 10), Bar(2, 11, 11, 11, 11), Gap(3), Bar(4, 13, 13, 13, 13)]);
    assert TimeBars.Gaps(6, 9, 1) == [Gap(6), Gap(7), Gap(8), Gap(9)];
    assert TimeBars.Advance(6, 9, 1) == 10;
  }

  lemma TimeBarsSampleOthers()
    ensures TimeBars.TimeBarsSpec(Sample(), 0) == []
    ensures TimeBars.TimeBarsSpec(Sample(), 4) ==
              [Bar(4, 10, 13, 10, 13), Bar(8, 9, 9, 9, 9), Bar(12, 12, 12, 12, 12)]
    ensures TimeBars.TimeBarsSpec(Sample(), 5) == [Bar(5, 10, 13, 9, 9), Bar(10, 12, 12, 12, 12)]
    ensures TimeBars.TimeBarsSpec(Sample(), 9) == [Bar(9, 10, 13, 9, 9), Bar(18, 12, 12, 12, 12)]
    ensures TimeBars.TimeBarsSpec(Sample(), 10) == [Bar(10, 10, 13, 9, 12)]
  {
  }

  /** Ten-millisecond bars over microsecond timestamps, prices in cents. */
  lemma TimeBarsMicroseconds()
    ensures TimeBars.TimeBarsSpec(
              [Tick(17479, 11657, 90), Tick(27445, 11665, 2), Tick(46033, 11657, 7), Tick(46723, 11669, 7)],
              10000) ==
            [Bar(27479, 11657, 11665, 11657, 11665), Gap(37479), Bar(47479, 11657, 11669, 11657, 11669)]
  {
    var ticks := [Tick(17479, 11657, 90), Tick(27445, 11665, 2), Tick(46033, 11657, 7), Tick(46723, 11669, 7)];
    assert TimeBars.Run(ticks, 2, 17479, 10000) == TimeBars.Clock(Open(11657, 11665, 11657, 11665), 27479, []);
    assert TimeBars.Advance(37479, 46033, 10000) == 47479;
    assert TimeBars.Gaps(37479, 46033, 10000) == [Gap(37479)];
    assert TimeBars.Run(ticks, 3, 17479, 10000) ==
           TimeBars.Clock(Seed(11657), 47479, [Bar(27479, 11657, 11665, 11657, 11665), Gap(37479)]);
  }

  /** Thirty-minute bars over millisecond timestamps, prices in cents. */
  lemma TimeBarsMinutes()
    ensures TimeBars.TimeBarsSpec(
              [Tick(0, 11657, 90), Tick(930000, 11665, 2), Tick(1800001, 11652, 3),
               Tick(2700000, 11650, 7), Tick(5400000, 11669, 7)],
              1800000) ==
            [Bar(1800000, 11657, 11665, 11657, 11665), Bar(3600000, 11652, 11652, 11650, 11650),
             Gap(5400000), Bar(7200000, 11669, 11669, 11669, 11669)]
  {
    var ticks := [Tick(0, 11657, 90), Tick(930000, 11665, 2), Tick(1800001, 11652, 3),
                  Tick(2700000, 11650, 7), Tick(5400000, 11669, 7)];
    assert TimeBars.Advance(3600000, 1800001, 1800000) == 3600000;
    assert TimeBars.Gaps(3600000, 1800001, 1800000) == [];
    assert TimeBars.Run(ticks, 3, 0, 1800000) ==
           TimeBars.Clock(Seed(11652), 3600000, [Bar(1800000, 11657, 11665, 11657, 11665)]);
    assert TimeBars.Run(ticks, 4, 0, 1800000) ==
           TimeBars.Clock(Open(11652, 11652, 11650, 11650), 3600000, [Bar(1800000, 11657, 11665, 11657, 11665)]);
    assert TimeBars.Advance(5400000, 5400000, 1800000) == 7200000;
    assert TimeBars.Gaps(5400000, 5400000, 1800000) == [Gap(5400000)];
    assert TimeBars.Run(ticks, 5, 0, 1800000) ==
           TimeBars.Clock(Seed(11669), 7200000,
                          [Bar(1800000, 11657, 11665, 11657, 11665), Bar(3600000, 11652, 11652, 11650, 11650),
                           Gap(5400000)]);
  }

  lemma VolumeBarsSampleZero()
    ensures VolumeBars.VolumeBarsSpec(Sample(), 0) == []
  {
  }

  /** A threshold above the whole volume never closes a bar. */
  lemma VolumeBarsSampleAboveTotal()
    ensures VolumeBars.VolumeBarsSpec(Sample(), 15) == []
  {
  }

  /** With threshold 1 every unit of volume is a bar. */
  lemma VolumeBarsSampleOne()
    ensures VolumeBars.VolumeBarsSpec([Tick(0, 10, 1), Tick(1, 11, 5)], 1) ==
              [Bar(0, 10, 10, 10, 10), Bar(1, 11, 11, 11, 11), Bar(1, 11, 11, 11, 11),
               Bar(1, 11, 11, 11, 11), Bar(1, 11, 11, 11, 11), Bar(1, 11, 11, 11, 11)]
  {
    var ticks := [Tick(0, 10, 1), Tick(1, 11, 5)];
    assert VolumeBars.Run(ticks, 1, 1) == VolumeBars.Meter(Empty, 0, [Bar(0, 10, 10, 10, 10)]);
    FlatBurst();
  }

  /** The five units of the second sample tick at threshold 1: five flat bars, nothing left. */
  lemma FlatBurst()
    ensures var bar := Bar(1, 11, 11, 11, 11);
            VolumeBars.Split(Seed(11), 5, 1, 1) == VolumeBars.Burst([bar, bar, bar, bar, bar], Seed(11), 0)
  {
    var flat := Seed(11);
    var bar := Bar(1, 11, 11, 11, 11);
    assert VolumeBars.Split(flat, 0, 1, 1) == VolumeBars.Burst([], flat, 0);
    assert VolumeBars.Split(flat, 1, 1, 1) == VolumeBars.Burst([bar], flat, 0);
    assert VolumeBars.Split(flat, 2, 1, 1) == VolumeBars.Burst([bar, bar], flat, 0);
    assert VolumeBars.Split(flat, 3, 1, 1) == VolumeBars.Burst([bar, bar, bar], flat, 0);
    assert VolumeBars.Split(flat, 4, 1, 1) == VolumeBars.Burst([bar, bar, bar, bar], flat, 0);
  }

  lemma VolumeBarsSampleFour()
    ensures VolumeBars.VolumeBarsSpec(Sample(), 4) ==
              [Bar(1, 10, 11, 10, 11), Bar(3, 11, 13, 11, 13), Bar(9, 13, 13, 9, 12)]
  {
  }

  lemma VolumeBarsSampleFive()
    ensures VolumeBars.VolumeBarsSpec(Sample(), 5) == [Bar(1, 10, 11, 10, 11), Bar(4, 11, 13, 9, 9)]
  {
  }

  /** A tick that completes a bar exactly leaves no bar open, so the next tick starts afresh. */
  lemma VolumeBarsExactClose()
    ensures VolumeBars.VolumeBarsSpec([Tick(0, 10, 2), Tick(1, 11, 3), Tick(3, 13, 5)], 5) ==
              [Bar(1, 10, 11, 10, 11), Bar(3, 13, 13, 13, 13)]
  {
  }

  /** One large tick closes several bars, all at its time and flat at its price after the first. */
  lemma VolumeBarsLargeTick()
    ensures VolumeBars.VolumeBarsSpec([Tick(0, 10, 2), Tick(1, 11, 18), Tick(3, 13, 5)], 4) ==
              [Bar(1, 10, 11, 10, 11), Bar(1, 11, 11, 11, 11), Bar(1, 11, 11, 11, 11),
               Bar(1, 11, 11, 11, 11), Bar(1, 11, 11, 11, 11), Bar(3, 13, 13, 13, 13)]
  {
  }
}
