/**
 * Time bars: bars close on the fixed boundaries t0 + dt, t0 + 2dt, ...,
 * anchored at the first tick's time t0. A tick strictly before the current
 * boundary is folded into the open bar; any other tick closes it, opens the
 * next bar, and every boundary the tick has jumped over yields a gap row.
 * After the last tick one final bar is emitted at the current boundary.
 */
module TimeBars {
  import opened Ohlc
  import Arith

  /**
   * The loop state of `TimeBars.make_bars`: the bar under construction, the
   * boundary that will close it (`bar_t`), and the rows emitted so far.
   */
  datatype Clock = Clock(acc: Acc, boundary: Time, bars: seq<Bar>)

  /** Gap rows for the boundaries b, b+dt, b+2dt, ... that do not exceed t. */
  function Gaps(b: Time, t: Time, dt: nat): (r: seq<Bar>)
    requires dt > 0
    ensures forall j :: 0 <= j < |r| ==> r[j].Gap?
    decreases t - b
  {
    if b <= t then [Gap(b)] + Gaps(b + dt, t, dt) else []
  }

  /** The first of b, b+dt, b+2dt, ... that lies strictly after t. */
  function Advance(b: Time, t: Time, dt: nat): (r: Time)
    requires dt > 0
    ensures r > t && r >= b
    decreases t - b
  {
    if b <= t then Advance(b + dt, t, dt) else b
  }

  /**
   * One iteration of the tick loop. A tick before the boundary is folded in;
   * otherwise the open bar is emitted at the boundary, the tick seeds the
   * next bar, the boundary moves on by dt, and a gap row is emitted for each
   * further boundary up to and including the tick's time. Rows are only
   * ever appended, the tick always ends up in the open bar as its close, and
   * the new boundary lies strictly after the tick.
   */
  function Step(c: Clock, tick: Tick, dt: nat): (r: Clock)
    requires dt > 0
    ensures c.bars <= r.bars
    ensures r.acc.Open? && r.acc.close == tick.price
    ensures r.boundary > tick.time
  {
    if tick.time < c.boundary then
      Clock(Update(c.acc, tick.price), c.boundary, c.bars)
    else
      var b := c.boundary + dt;
      Clock(Seed(tick.price), Advance(b, tick.time, dt),
            c.bars + [Emit(c.acc, c.boundary)] + Gaps(b, tick.time, dt))
  }

  /**
   * The loop state after the first n ticks, starting from an empty bar that
   * closes at t0 + dt. Once a tick has been seen the open bar is never empty
   * and its close is the latest tick's price.
   */
  function Run(ticks: seq<Tick>, n: nat, t0: Time, dt: nat): (r: Clock)
    requires dt > 0 && n <= |ticks|
    ensures n > 0 ==> r.acc.Open? && r.acc.close == ticks[n - 1].price
  {
    if n == 0 then Clock(Empty, t0 + dt, [])
    else Step(Run(ticks, n - 1, t0, dt), ticks[n - 1], dt)
  }

  /**
   * What `TimeBars.make_bars` returns for the duration dt: nothing when dt is
   * 0; otherwise the rows of the loop followed by the final bar at the
   * current boundary, whose close is the last tick's price. The source reads
   * the first tick's time, so a positive duration needs at least one tick.
   */
  function TimeBarsSpec(ticks: seq<Tick>, dt: nat): seq<Bar>
    requires dt == 0 || |ticks| > 0
  {
    if dt == 0 then []
    else
      var c := Run(ticks, |ticks|, ticks[0].time, dt);
      c.bars + [Bar(c.boundary, c.acc.open, c.acc.high, c.acc.low, ticks[|ticks| - 1].price)]
  }

  /**
   * `TimeBars.make_bars`: one pass over the ticks with an inner loop that
   * emits the gap rows, then the final bar.
   */
  method MakeBars(ticks: seq<Tick>, dt: nat) returns (bars: seq<Bar>)
    requires dt == 0 || |ticks| > 0
    ensures bars == TimeBarsSpec(ticks, dt)
    ensures dt == 0 ==> bars == []
  {
    if dt == 0 {
      return [];
    }
    bars := [];
    var acc := Empty;
    var boundary := ticks[0].time + dt;
    for i := 0 to |ticks|
      invariant Clock(acc, boundary, bars) == Run(ticks, i, ticks[0].time, dt)
    {
      var tick := ticks[i];
      if tick.time < boundary {
        acc := Update(acc, tick.price);
      } else {
        bars := bars + [Emit(acc, boundary)];
        acc := Seed(tick.price);
        boundary := boundary + dt;
        ghost var first := boundary;
        ghost var closed := bars;
        while boundary <= tick.time
          invariant bars + Gaps(boundary, tick.time, dt) == closed + Gaps(first, tick.time, dt)
          invariant Advance(boundary, tick.time, dt) == Advance(first, tick.time, dt)
          decreases tick.time - boundary
        {
          bars := bars + [Gap(boundary)];
          boundary := boundary + dt;
        }
        assert bars == closed + Gaps(first, tick.time, dt);
      }
    }
    var last := ticks[|ticks| - 1];
    bars := bars + [Bar(boundary, acc.open, acc.high, acc.low, last.price)];
  }

  // ---------------------------------------------------------------------
  // Well-formedness, on any input

  /** Every row the loop has emitted, and the open bar, satisfy the OHLC invariant. */
  lemma {:induction false} RunWellFormed(ticks: seq<Tick>, n: nat, t0: Time, dt: nat)
    requires dt > 0 && n <= |ticks|
    ensures Run(ticks, n, t0, dt).acc.WellFormed()
    ensures forall j :: 0 <= j < |Run(ticks, n, t0, dt).bars| ==> Run(ticks, n, t0, dt).bars[j].WellFormed()
  {
    if n > 0 {
      RunWellFormed(ticks, n - 1, t0, dt);
      var c := Run(ticks, n - 1, t0, dt);
      var tick := ticks[n - 1];
      UpdateSpec(c.acc, tick.price);
      if tick.time >= c.boundary {
        var b := c.boundary + dt;
        var e := Emit(c.acc, c.boundary);
        var g := Gaps(b, tick.time, dt);
        GapsShape(b, tick.time, dt);
        var r := c.bars + [e] + g;
        assert Run(ticks, n, t0, dt).bars == r;
        forall j | 0 <= j < |r|
          ensures r[j].WellFormed()
        {
          if j < |c.bars| {
            assert r[j] == c.bars[j];
          } else if j > |c.bars| {
            assert r[j] == g[j - |c.bars| - 1];
          }
        }
      }
    }
  }

  /** Every bar that time mode emits satisfies the OHLC invariant; the final one is never a gap. */
  lemma TimeBarsWellFormed(ticks: seq<Tick>, dt: nat)
    requires dt > 0 && |ticks| > 0
    ensures forall j :: 0 <= j < |TimeBarsSpec(ticks, dt)| ==> TimeBarsSpec(ticks, dt)[j].WellFormed()
    ensures TimeBarsSpec(ticks, dt)[|TimeBarsSpec(ticks, dt)| - 1].Bar?
    ensures TimeBarsSpec(ticks, dt)[|TimeBarsSpec(ticks, dt)| - 1].close == ticks[|ticks| - 1].price
  {
    var c := Run(ticks, |ticks|, ticks[0].time, dt);
    RunWellFormed(ticks, |ticks|, ticks[0].time, dt);
    var r := TimeBarsSpec(ticks, dt);
    assert r[|r| - 1] == Emit(c.acc, c.boundary);
    forall j | 0 <= j < |r|
      ensures r[j].WellFormed()
    {
      if j < |c.bars| {
        assert r[j] == c.bars[j];
      }
    }
  }

  // ---------------------------------------------------------------------
  // Which ticks a bar covers, on input sorted by time

  /** Timestamps never decrease along the input. */
  ghost predicate Sorted(ticks: seq<Tick>) {
    forall i, j :: 0 <= i <= j < |ticks| ==> ticks[i].time <= ticks[j].time
  }

  /** The index of the first tick from index i on whose time is at least x, or |ticks|. */
  function FirstFrom(ticks: seq<Tick>, x: Time, i: nat): (r: nat)
    requires i <= |ticks|
    ensures i <= r <= |ticks|
    decreases |ticks| - i
  {
    if i == |ticks| || ticks[i].time >= x then i else FirstFrom(ticks, x, i + 1)
  }

  /** FirstFrom skips only ticks before x and stops at one at or after x. */
  lemma {:induction false} FirstFromSpec(ticks: seq<Tick>, x: Time, i: nat)
    requires i <= |ticks|
    ensures forall j :: i <= j < FirstFrom(ticks, x, i) ==> ticks[j].time < x
    ensures FirstFrom(ticks, x, i) < |ticks| ==> ticks[FirstFrom(ticks, x, i)].time >= x
    decreases |ticks| - i
  {
    if i < |ticks| && ticks[i].time < x {
      FirstFromSpec(ticks, x, i + 1);
    }
  }

  /** The number of leading ticks whose time is before x. */
  function Cut(ticks: seq<Tick>, x: Time): nat
  {
    FirstFrom(ticks, x, 0)
  }

  /** On sorted input the ticks before time x are exactly the first Cut(ticks, x). */
  lemma CutSpec(ticks: seq<Tick>, x: Time)
    requires Sorted(ticks)
    ensures Cut(ticks, x) <= |ticks|
    ensures forall i :: 0 <= i < |ticks| ==> (i < Cut(ticks, x) <==> ticks[i].time < x)
  {
    FirstFromSpec(ticks, x, 0);
    var c := Cut(ticks, x);
    forall i | 0 <= i < |ticks| && i >= c
      ensures ticks[i].time >= x
    {
      assert ticks[c].time <= ticks[i].time;
    }
  }

  /** On sorted input, the index where the ticks cross time x pins down Cut. */
  lemma CutAt(ticks: seq<Tick>, x: Time, n: nat)
    requires Sorted(ticks) && n <= |ticks|
    requires n > 0 ==> ticks[n - 1].time < x
    requires n < |ticks| ==> ticks[n].time >= x
    ensures Cut(ticks, x) == n
  {
    CutSpec(ticks, x);
  }

  /** A later time never has fewer ticks before it. */
  lemma CutMono(ticks: seq<Tick>, x: Time, y: Time)
    requires x <= y
    ensures Cut(ticks, x) <= Cut(ticks, y)
  {
    FirstFromSpec(ticks, x, 0);
    FirstFromSpec(ticks, y, 0);
  }

  /**
   * The reference bar stamped b: the summary of the ticks whose time lies in
   * the half-open interval [b - dt, b), a gap when there are none.
   */
  function IntervalBar(ticks: seq<Tick>, b: Time, dt: nat): Bar
  {
    CutMono(ticks, b - dt, b);
    Summary(ticks, Cut(ticks, b - dt), Cut(ticks, b), b)
  }

  /** The rows of bs are stamped b, b + dt, b + 2dt, ... in order. */
  ghost predicate Chain(bs: seq<Bar>, b: Time, dt: nat) {
    forall j :: 0 <= j < |bs| ==> bs[j].time == b + Arith.Times(j, dt)
  }

  /** The stamp that follows a chain bs starting at b. */
  function Next(bs: seq<Bar>, b: Time, dt: nat): Time {
    b + Arith.Times(|bs|, dt)
  }

  /** Two chains, the second starting where the first ends, join into one. */
  lemma ChainConcat(xs: seq<Bar>, ys: seq<Bar>, b: Time, dt: nat)
    requires Chain(xs, b, dt) && Chain(ys, Next(xs, b, dt), dt)
    ensures Chain(xs + ys, b, dt)
    ensures Next(xs + ys, b, dt) == Next(ys, Next(xs, b, dt), dt)
  {
    var zs := xs + ys;
    forall j | 0 <= j < |zs|
      ensures zs[j].time == b + Arith.Times(j, dt)
    {
      if j < |xs| {
        assert zs[j] == xs[j];
      } else {
        assert zs[j] == ys[j - |xs|];
        Arith.TimesAdd(|xs|, j - |xs|, dt);
      }
    }
    Arith.TimesAdd(|xs|, |ys|, dt);
  }

  /**
   * The gap rows from b are gaps stamped b, b + dt, ..., each at most t, and
   * the stamp after them is the first boundary past t.
   */
  lemma {:induction false} GapsShape(b: Time, t: Time, dt: nat)
    requires dt > 0
    ensures Chain(Gaps(b, t, dt), b, dt)
    ensures Next(Gaps(b, t, dt), b, dt) == Advance(b, t, dt)
    ensures forall j :: 0 <= j < |Gaps(b, t, dt)| ==>
              var g := Gaps(b, t, dt)[j]; g == Gap(g.time) && b <= g.time <= t
    decreases t - b
  {
    if b <= t {
      GapsShape(b + dt, t, dt);
      var g := Gaps(b, t, dt);
      var g' := Gaps(b + dt, t, dt);
      assert g == [Gap(b)] + g';
      ChainConcat([Gap(b)], g', b, dt);
    }
  }

  /** If the boundary before b is not past t, the first boundary past t is at most dt past it. */
  lemma {:induction false} AdvanceBracket(b: Time, t: Time, dt: nat)
    requires dt > 0 && b - dt <= t
    ensures Advance(b, t, dt) - dt <= t
    decreases t - b
  {
    if b <= t {
      AdvanceBracket(b + dt, t, dt);
    }
  }

  /**
   * What the loop state after n sorted ticks means: the open bar's boundary is
   * the first one past the latest tick, the rows emitted so far are stamped
   * t0 + dt, t0 + 2dt, ... up to just before that boundary and each is the
   * reference bar of its interval, and the open bar holds exactly the ticks
   * of the interval [boundary - dt, boundary).
   */
  ghost predicate Tracks(ticks: seq<Tick>, dt: nat, n: nat, c: Clock)
    requires 0 < n <= |ticks|
  {
    OpenTracks(ticks, dt, n, c.acc, c.boundary) && RowsTrack(ticks, dt, c.bars, c.boundary)
  }

  /** The open bar closing at boundary holds exactly the ticks of [boundary - dt, boundary) among the first n. */
  ghost predicate OpenTracks(ticks: seq<Tick>, dt: nat, n: nat, acc: Acc, boundary: Time)
    requires 0 < n <= |ticks|
  {
    && boundary - dt <= ticks[n - 1].time < boundary
    && Cut(ticks, boundary - dt) < n
    && acc == Accumulate(ticks, Cut(ticks, boundary - dt), n)
  }

  /** The rows are the reference bars stamped t0 + dt, t0 + 2dt, ... up to just before boundary. */
  ghost predicate RowsTrack(ticks: seq<Tick>, dt: nat, bars: seq<Bar>, boundary: Time)
    requires 0 < |ticks|
  {
    && Chain(bars, ticks[0].time + dt, dt)
    && Next(bars, ticks[0].time + dt, dt) == boundary
    && Faithful(ticks, dt, bars)
  }

  /** A tick before the boundary extends the open bar's interval. */
  lemma StepFold(ticks: seq<Tick>, dt: nat, n: nat, c: Clock)
    requires Sorted(ticks) && dt > 0 && 0 < n < |ticks| && Tracks(ticks, dt, n, c)
    requires ticks[n].time < c.boundary
    ensures Tracks(ticks, dt, n + 1, Step(c, ticks[n], dt))
  {
    assert ticks[n - 1].time <= ticks[n].time;
  }

  /** Every row of bs is the reference bar of the interval ending at its stamp. */
  ghost predicate Faithful(ticks: seq<Tick>, dt: nat, bs: seq<Bar>) {
    forall j :: 0 <= j < |bs| ==> bs[j] == IntervalBar(ticks, bs[j].time, dt)
  }

  /** Joining faithful rows gives faithful rows. */
  lemma FaithfulConcat(ticks: seq<Tick>, dt: nat, xs: seq<Bar>, ys: seq<Bar>)
    requires Faithful(ticks, dt, xs) && Faithful(ticks, dt, ys)
    ensures Faithful(ticks, dt, xs + ys)
  {
    var zs := xs + ys;
    forall j | 0 <= j < |zs|
      ensures zs[j] == IntervalBar(ticks, zs[j].time, dt)
    {
      if j < |xs| {
        assert zs[j] == xs[j];
      } else {
        assert zs[j] == ys[j - |xs|];
      }
    }
  }

  /**
   * When tick n jumps from before b - dt to time t, every boundary from b up
   * to t closes an interval holding no tick, so its gap row is the reference bar.
   */
  lemma GapsFaithful(ticks: seq<Tick>, dt: nat, n: nat, b: Time)
    requires Sorted(ticks) && dt > 0 && 0 < n < |ticks|
    requires ticks[n - 1].time < b - dt
    ensures Faithful(ticks, dt, Gaps(b, ticks[n].time, dt))
  {
    var g := Gaps(b, ticks[n].time, dt);
    GapsShape(b, ticks[n].time, dt);
    forall j | 0 <= j < |g|
      ensures g[j] == IntervalBar(ticks, g[j].time, dt)
    {
      var s := g[j].time;
      CutAt(ticks, s, n);
      CutAt(ticks, s - dt, n);
    }
  }

  /**
   * A tick at or after the boundary closes the open bar, whose interval is
   * then complete, emits gaps for the empty intervals it jumped over, and
   * opens the interval containing it.
   */
  lemma StepClose(ticks: seq<Tick>, dt: nat, n: nat, c: Clock)
    requires Sorted(ticks) && dt > 0 && 0 < n < |ticks| && Tracks(ticks, dt, n, c)
    requires ticks[n].time >= c.boundary
    ensures Tracks(ticks, dt, n + 1, Step(c, ticks[n], dt))
  {
    CloseRowsTrack(ticks, dt, n, c.bars, c.acc, c.boundary);
    NextOpen(ticks, dt, n, c.boundary);
    StepCloses(c, ticks[n], dt);
  }

  /** The rows after tick n closes the bar ending at big: that bar, then the gaps it jumped over. */
  lemma CloseRowsTrack(ticks: seq<Tick>, dt: nat, n: nat, bars: seq<Bar>, acc: Acc, big: Time)
    requires Sorted(ticks) && dt > 0 && 0 < n < |ticks|
    requires ticks[n - 1].time < big <= ticks[n].time
    requires Cut(ticks, big - dt) < n && acc == Accumulate(ticks, Cut(ticks, big - dt), n)
    requires RowsTrack(ticks, dt, bars, big)
    ensures RowsTrack(ticks, dt, bars + [Emit(acc, big)] + Gaps(big + dt, ticks[n].time, dt),
                      Advance(big + dt, ticks[n].time, dt))
  {
    var t := ticks[n].time;
    ClosedBar(ticks, dt, n, acc, big);
    GapsShape(big + dt, t, dt);
    GapsFaithful(ticks, dt, n, big + dt);
    CloseRows(ticks, dt, ticks[0].time + dt, bars, Emit(acc, big), Gaps(big + dt, t, dt));
  }

  /** How a closing tick changes the loop state, spelled out. */
  lemma StepCloses(c: Clock, tick: Tick, dt: nat)
    requires dt > 0 && tick.time >= c.boundary
    ensures Step(c, tick, dt) == Clock(Seed(tick.price), Advance(c.boundary + dt, tick.time, dt),
                                       c.bars + [Emit(c.acc, c.boundary)] + Gaps(c.boundary + dt, tick.time, dt))
  {
  }

  /** The bar closed by tick n is the reference bar of its boundary. */
  lemma ClosedBar(ticks: seq<Tick>, dt: nat, n: nat, acc: Acc, big: Time)
    requires Sorted(ticks) && 0 < n < |ticks|
    requires ticks[n - 1].time < big <= ticks[n].time
    requires Cut(ticks, big - dt) < n && acc == Accumulate(ticks, Cut(ticks, big - dt), n)
    ensures Faithful(ticks, dt, [Emit(acc, big)])
  {
    CutAt(ticks, big, n);
    AccumulateIsSummary(ticks, Cut(ticks, big - dt), n, big);
  }

  /** The bar that tick n opens when it closes the one ending at big holds just that tick. */
  lemma NextOpen(ticks: seq<Tick>, dt: nat, n: nat, big: Time)
    requires Sorted(ticks) && dt > 0 && 0 < n < |ticks|
    requires ticks[n - 1].time < big <= ticks[n].time
    ensures OpenTracks(ticks, dt, n + 1, Seed(ticks[n].price), Advance(big + dt, ticks[n].time, dt))
  {
    var big' := Advance(big + dt, ticks[n].time, dt);
    AdvanceBracket(big + dt, ticks[n].time, dt);
    CutAt(ticks, big' - dt, n);
  }

  /** Closing a bar appends its row and the gap rows after it, keeping the rows a faithful chain. */
  lemma CloseRows(ticks: seq<Tick>, dt: nat, b0: Time, bars: seq<Bar>, e: Bar, g: seq<Bar>)
    requires Chain(bars, b0, dt) && Faithful(ticks, dt, bars)
    requires e.time == Next(bars, b0, dt) && Faithful(ticks, dt, [e])
    requires Chain(g, e.time + dt, dt) && Faithful(ticks, dt, g)
    ensures Chain(bars + [e] + g, b0, dt) && Faithful(ticks, dt, bars + [e] + g)
    ensures Next(bars + [e] + g, b0, dt) == Next(g, e.time + dt, dt)
  {
    ChainConcat(bars, [e], b0, dt);
    ChainConcat(bars + [e], g, b0, dt);
    FaithfulConcat(ticks, dt, bars, [e]);
    FaithfulConcat(ticks, dt, bars + [e], g);
  }

  /** The loop state after every prefix of a sorted input means what Tracks says. */
  lemma {:induction false} RunTracks(ticks: seq<Tick>, dt: nat, n: nat)
    requires Sorted(ticks) && dt > 0 && 0 < n <= |ticks|
    ensures Tracks(ticks, dt, n, Run(ticks, n, ticks[0].time, dt))
  {
    var t0 := ticks[0].time;
    if n == 1 {
      CutAt(ticks, t0, 0);
    } else {
      RunTracks(ticks, dt, n - 1);
      var c := Run(ticks, n - 1, t0, dt);
      if ticks[n - 1].time < c.boundary {
        StepFold(ticks, dt, n - 1, c);
      } else {
        StepClose(ticks, dt, n - 1, c);
      }
    }
  }

  /**
   * On sorted input time mode emits one bar per interval [b - dt, b) for
   * b = t0 + dt, t0 + 2dt, ... in order, without skipping a boundary, up to
   * the first boundary strictly after the last tick; each bar summarises the
   * ticks of its interval, and is a gap exactly when there are none.
   */
  lemma TimeBarsIntervals(ticks: seq<Tick>, dt: nat)
    requires Sorted(ticks) && dt > 0 && |ticks| > 0
    ensures |TimeBarsSpec(ticks, dt)| > 0
    ensures Chain(TimeBarsSpec(ticks, dt), ticks[0].time + dt, dt)
    ensures var last := TimeBarsSpec(ticks, dt)[|TimeBarsSpec(ticks, dt)| - 1];
            last.time - dt <= ticks[|ticks| - 1].time < last.time
    ensures forall j :: 0 <= j < |TimeBarsSpec(ticks, dt)| ==>
              TimeBarsSpec(ticks, dt)[j] == IntervalBar(ticks, TimeBarsSpec(ticks, dt)[j].time, dt)
  {
    var n := |ticks|;
    var c := Run(ticks, n, ticks[0].time, dt);
    RunTracks(ticks, dt, n);
    CutAt(ticks, c.boundary, n);
    var lo := Cut(ticks, c.boundary - dt);
    AccumulateIsSummary(ticks, lo, n, c.boundary);
    var f := Emit(c.acc, c.boundary);
    assert f == IntervalBar(ticks, c.boundary, dt);
    var r := TimeBarsSpec(ticks, dt);
    assert r == c.bars + [f];
    ChainConcat(c.bars, [f], ticks[0].time + dt, dt);
    forall j | 0 <= j < |r|
      ensures r[j] == IntervalBar(ticks, r[j].time, dt)
    {
      if j < |c.bars| {
        assert r[j] == c.bars[j];
      }
    }
  }

  /**
   * On sorted input bar j is stamped t0 + (j+1)*dt, and there are
   * (tlast - t0) / dt + 1 bars, tlast being the last tick's time.
   */
  lemma TimeBarsStamps(ticks: seq<Tick>, dt: nat)
    requires Sorted(ticks) && dt > 0 && |ticks| > 0
    ensures forall j :: 0 <= j < |TimeBarsSpec(ticks, dt)| ==>
              TimeBarsSpec(ticks, dt)[j].time == ticks[0].time + (j + 1) * dt
    ensures |TimeBarsSpec(ticks, dt)| == (ticks[|ticks| - 1].time - ticks[0].time) / dt + 1
  {
    var r := TimeBarsSpec(ticks, dt);
    var t0 := ticks[0].time;
    TimeBarsIntervals(ticks, dt);
    forall j | 0 <= j < |r|
      ensures r[j].time == t0 + (j + 1) * dt
    {
      Arith.TimesIsProduct(j, dt);
      Arith.MulSucc(j, dt);
    }
    var m := |r| - 1;
    Arith.TimesIsProduct(m, dt);
    Arith.DivUnique(ticks[|ticks| - 1].time - t0, dt, m);
  }

  /**
   * On sorted input the ticks summarised by the bar stamped b are exactly
   * those whose time lies in [b - dt, b): tick i is in the index range of
   * IntervalBar(ticks, b, dt) if and only if its time is in that interval.
   */
  lemma IntervalMembers(ticks: seq<Tick>, b: Time, dt: nat, i: nat)
    requires Sorted(ticks) && i < |ticks|
    ensures Cut(ticks, b - dt) <= i < Cut(ticks, b) <==> b - dt <= ticks[i].time < b
  {
    CutSpec(ticks, b - dt);
    CutSpec(ticks, b);
  }

  /** On sorted input a bar is a gap exactly when no tick falls in its interval. */
  lemma TimeBarsGap(ticks: seq<Tick>, dt: nat, j: nat)
    requires Sorted(ticks) && dt > 0 && |ticks| > 0 && j < |TimeBarsSpec(ticks, dt)|
    ensures var b := TimeBarsSpec(ticks, dt)[j].time;
            TimeBarsSpec(ticks, dt)[j].Gap? <==>
              forall i :: 0 <= i < |ticks| ==> !(b - dt <= ticks[i].time < b)
  {
    var r := TimeBarsSpec(ticks, dt);
    var b := r[j].time;
    TimeBarsIntervals(ticks, dt);
    CutMono(ticks, b - dt, b);
    forall i | 0 <= i < |ticks|
      ensures Cut(ticks, b - dt) <= i < Cut(ticks, b) <==> b - dt <= ticks[i].time < b
    {
      IntervalMembers(ticks, b, dt, i);
    }
    if Cut(ticks, b - dt) < Cut(ticks, b) {
      var i := Cut(ticks, b - dt);
      assert b - dt <= ticks[i].time < b;
    }
  }

  /**
   * On sorted input a tick whose time equals a bar's stamp is not in that
   * bar: a later bar exists, stamped dt after it, and the tick is in it.
   */
  lemma TimeBarsBoundaryTick(ticks: seq<Tick>, dt: nat, i: nat, j: nat)
    requires Sorted(ticks) && dt > 0 && |ticks| > 0 && i < |ticks| && j < |TimeBarsSpec(ticks, dt)|
    requires ticks[i].time == TimeBarsSpec(ticks, dt)[j].time
    ensures j + 1 < |TimeBarsSpec(ticks, dt)|
    ensures var b := TimeBarsSpec(ticks, dt)[j].time;
            && TimeBarsSpec(ticks, dt)[j + 1].time == b + dt
            && !(Cut(ticks, b - dt) <= i < Cut(ticks, b))
            && Cut(ticks, b) <= i < Cut(ticks, b + dt)
  {
    var r := TimeBarsSpec(ticks, dt);
    var b := r[j].time;
    TimeBarsIntervals(ticks, dt);
    assert ticks[i].time <= ticks[|ticks| - 1].time;
    Arith.TimesMono(j, |r| - 1, dt);
    IntervalMembers(ticks, b, dt, i);
    IntervalMembers(ticks, b + dt, dt, i);
  }
}
