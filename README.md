# fin-data-bars: a verified model of the bar builders

This project models the bar-construction engine of `fin-data-bars`. The
engine turns an ordered sequence of trades (ticks: timestamp, price, volume)
into OHLC bars (open, high, low, close) under one of three closing policies:

- **Tick bars** close a bar every `k` ticks. Each bar is stamped with the
  time of the tick that completes it, and a trailing partial group is dropped.
- **Time bars** close bars on the fixed boundaries `t0 + dt`, `t0 + 2dt`, …,
  where `t0` is the first tick's time.
  - A tick strictly before the current boundary is folded into the open bar.
  - Any other tick closes the open bar and opens the next one.
  - Every boundary the tick jumped over yields an all-absent gap row.
  - After the last tick, one final bar is emitted at the current boundary.
- **Volume bars** add each tick's volume to a running total.
  - Once the total reaches the threshold `T`, one bar is closed per `T` units,
    and the excess carries over.
  - The next bar starts at the close price, unless the excess is exactly zero.

All three fold each tick's price into the open bar with the same inline step:
the first price sets all four fields; later prices can only raise the high,
lower the low, and always become the close.

Files:

- `ohlc.dfy` (module `Ohlc`): the data model. It contains `Tick`, `Bar` (with a
  `Gap` variant in place of the NaN row) and the open-bar accumulator `Acc`.
  It also holds the shared update step `Update` and the reference meaning of a
  bar over a range of ticks, `Summary` (first / maximum / minimum / last price).
- `tick_bars.dfy`, `time_bars.dfy`, `volume_bars.dfy`: one module per
  `make_bars`. Each module has:
  - an imperative `MakeBars` method with the source's loops, including the
    inner `while` loops of the time and volume modes;
  - a pure specification that the method is proved equal to;
  - lemmas that state what the source promises about that specification.
- `arith.dfy` (module `Arith`): small facts about multiplication and division,
  plus `Times`, which is multiplication by repeated addition.
- `bar_examples.dfy` (module `BarExamples`): the expected outputs of the
  repository's unit tests, proved about the specifications.

Modelling choices:

- Prices and timestamps are integers: prices in a fixed minor unit (cents, say),
  timestamps in a fixed base unit (seconds, milliseconds or microseconds).
- Volumes and thresholds are natural numbers.
- The time-mode duration `dt` is given directly in the timestamp unit.
- Each `make_bars` is a method over a `seq<Tick>` returning a `seq<Bar>`.
  The source's methods read the tick table and threshold held by their object,
  but never modify them.

## Model

| member | source | states |
|---|---|---|
| Ohlc.Seed | bars/bars.py:70 | A bar opened by one price is open and satisfies the OHLC invariant. |
| Ohlc.Update | bars/bars.py:69-74 | Folding a price always leaves an open bar whose close is that price. |
| Ohlc.UpdateSpec | bars/bars.py:69-74 | The first price seeds all four fields. Later prices keep the open, may only raise the high or lower the low (each becomes the old value or the price), and leave the price between low and high. `low <= open, close <= high` is preserved. |
| Ohlc.Emit | bars/bars.py:79 | The emitted row carries the closing timestamp. It is a gap exactly when no price was folded in, and it keeps the OHLC invariant. |
| Ohlc.Accumulate | bars/bars.py:65-74 | The open bar is empty exactly when no tick has been folded in since it was reset. |
| Ohlc.AccumulateShape | bars/bars.py:69-74 | Folding ticks lo..hi-1 gives open = first price and close = last price. High and low are prices of the range that bracket every price in it. |
| Ohlc.AccumulateIsSummary | bars/bars.py:69-74 | Closing the fold of any range of ticks gives exactly its first/max/min/last reference bar. |
| TickBars.TickBarsSpec | bars/bars.py:60-81 | What `make_bars` returns for threshold k: no bars for k = 0, otherwise the reference bar of each complete group of k ticks in order. TickBarsCount, TickBarsBar and TickBarsWellFormed characterise it. |
| TickBars.BlockBar | bars/bars.py:75-79 | The bar of a complete group is a real bar stamped with the time of the group's last tick. |
| TickBars.BlocksFromShape | bars/bars.py:67-81 | Bar j of the reference covers the k ticks from lo + j·k. Fewer than k ticks are left after the last bar. |
| TickBars.MakeBars | bars/bars.py:60-84 | The loop returns exactly the reference: one first/max/min/last bar per complete group of k ticks, stamped with the group's last tick. With k = 0 it returns no bars. |
| TickBars.BlocksUpToAppend | bars/bars.py:78-81 | Closing a group after the bars already emitted keeps them the reference bars of the leading groups. |
| TickBars.TickBarsCount | bars/bars.py:67-81 | There are ⌊n/k⌋ bars, and the last n mod k ticks belong to none. |
| TickBars.TickBarsBar | bars/bars.py:67-81 | Bar i opens at tick i·k and closes at tick i·k+k-1, taking that tick's timestamp. Its high and low are prices of that group bracketing all of it. |
| TickBars.TickBarsThresholdOne | bars/bars.py:67-81 | With k = 1 every tick becomes its own flat bar, in input order. |
| TickBars.TickBarsWellFormed | bars/bars.py:69-79 | Every tick-mode bar is a real bar satisfying the OHLC invariant. |
| TimeBars.Gaps | bars/bars.py:132-134 | Every row the gap loop emits is a gap row. GapsShape gives their stamps. |
| TimeBars.Advance | bars/bars.py:131-134 | The boundary loop stops at a boundary strictly after the tick's time, never before its start. |
| TimeBars.Step | bars/bars.py:117-134 | One iteration of the tick loop only appends rows. The tick always ends up as the open bar's close, and the new boundary lies strictly after the tick's time (the strict `<` at line 118 and the `<=` at line 132). |
| TimeBars.Run | bars/bars.py:115-134 | After the first tick the open bar is never empty, and its close is the latest tick's price. So the final bar's close (the last tick's price) agrees with the accumulator. |
| TimeBars.TimeBarsSpec | bars/bars.py:110-139 | What `make_bars` returns for duration dt: no bars for dt = 0, otherwise the loop's rows followed by the final bar at the current boundary with the last tick's price as close. TimeBarsWellFormed, TimeBarsIntervals, TimeBarsStamps, TimeBarsGap and TimeBarsBoundaryTick characterise it. |
| TimeBars.MakeBars | bars/bars.py:110-139 | The loop with its inner gap loop returns exactly the specification. With dt = 0 it returns no bars. |
| TimeBars.RunWellFormed | bars/bars.py:118-134 | On any input, every row the loop emits and the open bar satisfy the OHLC invariant. |
| TimeBars.TimeBarsWellFormed | bars/bars.py:128-136 | Every time-mode bar satisfies the OHLC invariant. The final bar is never a gap, and its close is the last tick's price. |
| TimeBars.FirstFromSpec | bars/bars.py:118 | The split point skips only ticks before x and stops at a tick at or after x. |
| TimeBars.CutSpec | bars/bars.py:118 | On sorted input, the ticks strictly before time x are exactly a prefix. |
| TimeBars.CutAt | bars/bars.py:118 | On sorted input, the index where the ticks cross time x is that prefix's length. |
| TimeBars.CutMono | bars/bars.py:118 | A later time never has fewer ticks before it. |
| TimeBars.GapsShape | bars/bars.py:132-134 | The gap loop emits gaps stamped b, b+dt, … up to the tick's time. The stamp after them is the boundary where the loop stops. |
| TimeBars.AdvanceBracket | bars/bars.py:131-134 | If the first boundary tried is at most dt past the tick, the one the loop stops at is also at most dt past it. |
| TimeBars.GapsFaithful | bars/bars.py:132-134 | Every gap row is the reference bar of an interval holding no tick. |
| TimeBars.ClosedBar | bars/bars.py:126-128 | The bar a tick closes is the reference bar of the interval ending at the boundary. |
| TimeBars.NextOpen | bars/bars.py:129-134 | The tick that closes a bar opens the next one alone, in the interval containing it. |
| TimeBars.StepFold | bars/bars.py:118-125 | A tick before the boundary extends the open bar's interval, keeping the loop state's meaning. |
| TimeBars.StepClose | bars/bars.py:126-134 | A tick at or after the boundary keeps the loop state's meaning. |
| TimeBars.RunTracks | bars/bars.py:116-134 | On sorted input after n ticks, the open bar's boundary is the first boundary past the latest tick. The rows are the reference bars stamped t0+dt, t0+2dt, …, and the open bar holds exactly the ticks of [boundary−dt, boundary). |
| TimeBars.TimeBarsIntervals | bars/bars.py:116-136 | On sorted input there is one bar per interval [b−dt, b), for b = t0+dt, t0+2dt, … with none skipped. The last one is the first boundary strictly after the last tick, and each bar summarises the ticks of its interval. |
| TimeBars.TimeBarsStamps | bars/bars.py:116-136 | On sorted input, bar j is stamped t0 + (j+1)·dt, and there are ⌊(tlast − t0)/dt⌋ + 1 bars. |
| TimeBars.IntervalMembers | bars/bars.py:118 | A tick is summarised by the bar stamped b exactly when its time lies in [b−dt, b). |
| TimeBars.TimeBarsGap | bars/bars.py:132-134 | On sorted input, a bar is a gap exactly when no tick falls in its interval. |
| TimeBars.TimeBarsBoundaryTick | bars/bars.py:118 | On sorted input, a tick exactly on a bar's stamp is not in that bar. It is in the next bar, which exists and is stamped dt later. |
| VolumeBars.Split | bars/bars.py:166-170 | The burst closes bars of T units each and leaves a residual below T (bars·T + residual = volume). All its bars are stamped with the tick's time. |
| VolumeBars.SplitShape | bars/bars.py:166-170 | Below T nothing is closed. Otherwise the first bar is the open bar, and every later bar is flat at its close price. |
| VolumeBars.SplitCount | bars/bars.py:166-168 | A burst closes volume / T bars and leaves volume mod T. |
| VolumeBars.Step | bars/bars.py:153-173 | One iteration of the tick loop: fold the price, add the volume, run the burst once the threshold is reached, and drop the open bar when the residual is 0. StepShape, StepKeeps and StepStamps characterise it. |
| VolumeBars.Run | bars/bars.py:150-173 | The loop state (open bar, residual, rows) after the first n ticks. RunConserves, RunCount, RunStamps, RunEmptyCarriesNothing and RunWellFormed characterise it. |
| VolumeBars.RunEmptyCarriesNothing | bars/bars.py:164-173 | An empty open bar never carries a residual: the bar is dropped only when the residual is exactly 0. |
| VolumeBars.VolumeBarsSpec | bars/bars.py:147-176 | What `make_bars` returns for threshold T: no bars for T = 0, otherwise the rows of the loop. VolumeBarsCount, VolumeBarsStamps and VolumeBarsWellFormed characterise it. |
| VolumeBars.MakeBars | bars/bars.py:147-176 | The loop with its inner burst loop returns exactly the specification. With T = 0 it returns no bars. |
| VolumeBars.RunConserves | bars/bars.py:162-168 | After every prefix, bars·T + residual equals the cumulative volume, and the residual is below T. |
| VolumeBars.RunCount | bars/bars.py:162-168 | After n ticks, ⌊total/T⌋ bars have been emitted and total mod T is carried. |
| VolumeBars.VolumeBarsCount | bars/bars.py:148-168 | Volume mode emits ⌊Σvolume / T⌋ bars, and none for T = 0. |
| VolumeBars.StepShape | bars/bars.py:153-173 | A tick keeps the earlier rows, and every row it adds carries its timestamp. Below T it only extends the open bar. Otherwise the first new row is the bar it completes and the rest are flat at its price. The bar left open is then empty if the residual is 0, and flat at its price otherwise. |
| VolumeBars.RunStamps | bars/bars.py:161-167 | Bar j is stamped with tick i whenever TotalVolume(i)/T ≤ j < TotalVolume(i+1)/T. |
| VolumeBars.RunStampsAt | bars/bars.py:161-167 | The rows tick i adds keep its timestamp and their places after every later tick. |
| VolumeBars.StepKeeps | bars/bars.py:164-167 | A tick never changes the rows already emitted. |
| VolumeBars.StepStamps | bars/bars.py:161-167 | Every row a tick adds carries its timestamp. |
| VolumeBars.TotalVolumeMono | bars/bars.py:162 | Cumulative volume never decreases along the input. |
| VolumeBars.VolumeBarsStamps | bars/bars.py:161-167 | The same stamp characterisation, stated for the whole output. |
| VolumeBars.RunWellFormed | bars/bars.py:153-173 | Every row emitted is a real bar, never a gap. The rows and the open bar satisfy the OHLC invariant. |
| VolumeBars.VolumeBarsWellFormed | bars/bars.py:155-167 | Every volume-mode bar is a real bar, never a gap, and satisfies the OHLC invariant. |
| BarExamples.TickBarsSampleTwo | tests/tests.py:118-122 | The sample with k = 2 gives the two expected bars. |
| BarExamples.TickBarsSampleOthers | tests/tests.py:106-133 | The sample with k = 0, 1, 3, 4, 5, 6 gives the expected bars. |
| BarExamples.TimeBarsSampleOne | tests/tests.py:223-243 | One-second bars give the expected bars and gaps, including ticks on boundaries. |
| BarExamples.TimeBarsSampleTwo | tests/tests.py:244-254 | Two-second bars give the expected four bars and one gap. |
| BarExamples.TimeBarsSampleOthers | tests/tests.py:222-274 | dt = 0, 4, 5, 9, 10 give the expected bars, including the trailing bar that has not fully elapsed. |
| BarExamples.TimeBarsMicroseconds | tests/tests.py:275-285 | Ten-millisecond bars over microsecond timestamps give the expected bars and gap. |
| BarExamples.TimeBarsMinutes | tests/tests.py:286-299 | Thirty-minute bars give the expected bars and gap. |
| BarExamples.VolumeBarsSampleThree | tests/tests.py:343-351 | T = 3 gives the expected four bars, two of them from one tick. |
| BarExamples.VolumeBarsSampleZero | tests/tests.py:329 | A volume threshold of 0 gives no bars. |
| BarExamples.VolumeBarsSampleAboveTotal | tests/tests.py:364 | A threshold above the sample's whole volume gives no bars. |
| BarExamples.VolumeBarsSampleOne | tests/tests.py:330-342 | With T = 1 the first two ticks give one bar per unit of volume, five of them from the second tick. |
| BarExamples.VolumeBarsSampleFour | tests/tests.py:352-358 | T = 4 gives the expected three bars, with the residual carried across ticks. |
| BarExamples.VolumeBarsSampleFive | tests/tests.py:359-363 | T = 5 gives the expected two bars and drops the trailing partial bar. |
| BarExamples.VolumeBarsExactClose | tests/tests.py:365-372 | A tick that completes a bar exactly leaves no bar open. |
| BarExamples.VolumeBarsLargeTick | tests/tests.py:373-388 | A tick with a large volume closes several bars, flat at its price after the first. |

## Left out

- Loading ticks with `pd.read_csv` (`BarsBase.__init__`, `set_tick_data`) and assembling the result `DataFrame` are library I/O. The model takes a `seq<Tick>` and returns a `seq<Bar>`.
- The threshold getters and setters are plain field accessors and are not modelled.
- `pd.Timedelta(threshold, unit)` is a foreign unit conversion. The duration is taken as a natural number already in the timestamp unit.
- Floating-point prices and volumes are not modelled. Prices are integers in a minor unit, so float comparisons such as `10.99999999` against `11.0` (a tick-mode test case) are out of scope.
- NaN is replaced by the explicit `Gap` row. A bar closed with no price folded in would be a row of `None` values in the source, but this never happens, and the model emits a `Gap` for it.
- Thresholds are natural numbers, so negative thresholds are excluded:
  - with a negative volume threshold the source's inner loop never ends;
  - with a negative duration the gap loop never ends;
  - with a negative tick threshold no bar is ever closed.
- TimeBars.MakeBars requires at least one tick when dt > 0, because the source reads the first tick's time and the last loop tick, so on empty input it raises `IndexError` at bars/bars.py:116. On empty input tick mode and volume mode return no bars, and so do their models.
- TimeBars.TimeBarsIntervals, TimeBars.TimeBarsStamps, TimeBars.TimeBarsGap and TimeBars.TimeBarsBoundaryTick require timestamps in non-decreasing order, as the engine expects. The loop model itself (`TimeBars.Run`, `TimeBars.MakeBars`) accepts any order.
- VolumeBars.StepShape describes the rows a tick adds in terms of the open bar before it. The model gives no interval characterisation of the first bar of each burst, for example as first/max/min/last over the ticks since the last exact close.
- The tests' calls to `set_OHLC`, `get_bars_data` and `set_unit`, and their 3-argument `TimeBars` constructor, are not part of `bars/bars.py`. The tests are used only for their input/output pairs.
