/**
 * Tick bars: a bar is closed every `k` ticks and stamped with the time of
 * the tick that completes it; a trailing group of fewer than `k` ticks is
 * dropped, and a threshold of 0 gives no bars.
 */
module TickBars {
  import opened Ohlc
  import Arith

  /** The bar of the k ticks starting at index lo, stamped with the time of the last of them. */
  function BlockBar(ticks: seq<Tick>, lo: nat, k: nat): (r: Bar)
    requires 0 < k && lo + k <= |ticks|
    ensures r.Bar? && r.time == ticks[lo + k - 1].time
  {
    Summary(ticks, lo, lo + k, ticks[lo + k - 1].time)
  }

  /** Reference semantics: one bar per complete group of k ticks, from index lo on. */
  function BlocksFrom(ticks: seq<Tick>, lo: nat, k: nat): (r: seq<Bar>)
    requires k > 0
    decreases |ticks| - lo
  {
    if lo + k > |ticks| then [] else [BlockBar(ticks, lo, k)] + BlocksFrom(ticks, lo + k, k)
  }

  /** What `TickBars.make_bars` returns for threshold `k`. */
  function TickBarsSpec(ticks: seq<Tick>, k: nat): (r: seq<Bar>)
  {
    if k == 0 then [] else BlocksFrom(ticks, 0, k)
  }

  /** Bar j of the groups from index lo covers the k ticks from lo + j*k. */
  lemma {:induction false} BlocksFromAt(ticks: seq<Tick>, lo: nat, k: nat, j: nat)
    requires k > 0 && j < |BlocksFrom(ticks, lo, k)|
    ensures lo + Arith.Times(j, k) + k <= |ticks|
    ensures BlocksFrom(ticks, lo, k)[j] == BlockBar(ticks, lo + Arith.Times(j, k), k)
    decreases j
  {
    if j > 0 {
      BlocksFromAt(ticks, lo + k, k, j - 1);
    }
  }

  /** As many bars as complete groups fit: fewer than k ticks are left after the last one. */
  lemma {:induction false} BlocksFromCount(ticks: seq<Tick>, lo: nat, k: nat)
    requires k > 0 && lo <= |ticks|
    ensures var n := |BlocksFrom(ticks, lo, k)|;
            lo + Arith.Times(n, k) <= |ticks| < lo + Arith.Times(n, k) + k
    decreases |ticks| - lo
  {
    if lo + k <= |ticks| {
      BlocksFromCount(ticks, lo + k, k);
    }
  }

  /**
   * The groups from index lo: bar j covers the k ticks from lo + j*k, and
   * there are as many bars as complete groups fit, so fewer than k ticks are
   * left after the last one.
   */
  lemma BlocksFromShape(ticks: seq<Tick>, lo: nat, k: nat)
    requires k > 0 && lo <= |ticks|
    ensures var r := BlocksFrom(ticks, lo, k);
            lo + Arith.Times(|r|, k) <= |ticks| < lo + Arith.Times(|r|, k) + k
    ensures var r := BlocksFrom(ticks, lo, k);
            forall j :: 0 <= j < |r| ==>
              lo + Arith.Times(j, k) + k <= |ticks| && r[j] == BlockBar(ticks, lo + Arith.Times(j, k), k)
  {
    BlocksFromCount(ticks, lo, k);
    var r := BlocksFrom(ticks, lo, k);
    forall j | 0 <= j < |r|
      ensures lo + Arith.Times(j, k) + k <= |ticks| && r[j] == BlockBar(ticks, lo + Arith.Times(j, k), k)
    {
      BlocksFromAt(ticks, lo, k, j);
    }
  }

  /** A sequence with the length and the elements that BlocksFromShape states is the spec. */
  lemma BlocksFromUnique(ticks: seq<Tick>, k: nat, bars: seq<Bar>)
    requires k > 0
    requires Arith.Times(|bars|, k) <= |ticks| < Arith.Times(|bars|, k) + k
    requires forall j :: 0 <= j < |bars| ==>
               Arith.Times(j, k) + k <= |ticks| && bars[j] == BlockBar(ticks, Arith.Times(j, k), k)
    ensures bars == BlocksFrom(ticks, 0, k)
  {
    BlocksFromShape(ticks, 0, k);
    var r := BlocksFrom(ticks, 0, k);
    Arith.TimesMono(|bars|, |r|, k);
    Arith.TimesMono(|r|, |bars|, k);
  }

  /**
   * `TickBars.make_bars`: fold each tick into the accumulator, count it, and
   * when the count reaches the threshold append the bar stamped with the
   * current tick and start a new one.
   */
  method MakeBars(ticks: seq<Tick>, k: nat) returns (bars: seq<Bar>)
    ensures bars == TickBarsSpec(ticks, k)
    ensures k == 0 ==> bars == []
  {
    if k == 0 {
      return [];
    }
    bars := [];
    var acc := Empty;
    var count := 0;
    ghost var start := 0;
    for i := 0 to |ticks|
      invariant count < k && start + count == i
      invariant start == Arith.Times(|bars|, k)
      invariant BlocksUpTo(ticks, k, bars, start)
      invariant acc == Accumulate(ticks, start, i)
    {
      var tick := ticks[i];
      acc := Update(acc, tick.price);
      var timestamp := tick.time;
      count := count + 1;
      if count == k {
        AccumulateIsSummary(ticks, start, i + 1, timestamp);
        BlocksUpToAppend(ticks, k, bars, i + 1, Emit(acc, timestamp));
        bars := bars + [Emit(acc, timestamp)];
        acc := Empty;
        count := 0;
        start := i + 1;
      }
    }
    BlocksFromUnique(ticks, k, bars);
  }

  /** bars holds the first |bars| groups, each of which ends at or before index i. */
  ghost predicate BlocksUpTo(ticks: seq<Tick>, k: nat, bars: seq<Bar>, i: nat)
    requires k > 0 && i <= |ticks|
  {
    forall j :: 0 <= j < |bars| ==>
      Arith.Times(j, k) + k <= i && bars[j] == BlockBar(ticks, Arith.Times(j, k), k)
  }

  /** Appending the bar of the next group keeps BlocksUpTo. */
  lemma BlocksUpToAppend(ticks: seq<Tick>, k: nat, bars: seq<Bar>, i: nat, b: Bar)
    requires k > 0 && i <= |ticks| && Arith.Times(|bars|, k) + k == i
    requires BlocksUpTo(ticks, k, bars, Arith.Times(|bars|, k))
    requires b == BlockBar(ticks, Arith.Times(|bars|, k), k)
    ensures BlocksUpTo(ticks, k, bars + [b], i)
    ensures Arith.Times(|bars + [b]|, k) == i
  {
    var bars' := bars + [b];
    assert Arith.Times(|bars'|, k) == i;
    forall j | 0 <= j < |bars'|
      ensures Arith.Times(j, k) + k <= i && bars'[j] == BlockBar(ticks, Arith.Times(j, k), k)
    {
      if j < |bars| {
        assert bars'[j] == bars[j];
        Arith.TimesMono(j, |bars|, k);
      }
    }
  }

  /**
   * Tick mode with a positive threshold emits |ticks| / k bars, and the last
   * |ticks| mod k ticks belong to no bar.
   */
  lemma TickBarsCount(ticks: seq<Tick>, k: nat)
    requires k > 0
    ensures |TickBarsSpec(ticks, k)| == |ticks| / k
    ensures |TickBarsSpec(ticks, k)| * k == |ticks| - |ticks| % k
  {
    var n := |TickBarsSpec(ticks, k)|;
    BlocksFromShape(ticks, 0, k);
    Arith.TimesIsProduct(n, k);
    Arith.ModUnique(|ticks|, k, n);
  }

  /**
   * Bar i of tick mode covers the complete group of ticks i*k .. i*k+k-1: it
   * opens at the first of them, closes at the last and is stamped with the
   * last one's time, and its high and low are prices of the group that
   * bracket all of it.
   */
  lemma TickBarsBar(ticks: seq<Tick>, k: nat, i: nat)
    requires k > 0 && i < |TickBarsSpec(ticks, k)|
    ensures i * k + k <= |ticks| - |ticks| % k
    ensures TickBarsSpec(ticks, k)[i].Bar?
    ensures TickBarsSpec(ticks, k)[i].time == ticks[i * k + k - 1].time
    ensures TickBarsSpec(ticks, k)[i].open == ticks[i * k].price
    ensures TickBarsSpec(ticks, k)[i].close == ticks[i * k + k - 1].price
    ensures forall j :: i * k <= j < i * k + k ==>
              TickBarsSpec(ticks, k)[i].low <= ticks[j].price <= TickBarsSpec(ticks, k)[i].high
    ensures exists j :: i * k <= j < i * k + k && ticks[j].price == TickBarsSpec(ticks, k)[i].high
    ensures exists j :: i * k <= j < i * k + k && ticks[j].price == TickBarsSpec(ticks, k)[i].low
  {
    var r := TickBarsSpec(ticks, k);
    TickBarsCount(ticks, k);
    BlocksFromShape(ticks, 0, k);
    Arith.TimesMono(i, |r|, k);
    Arith.TimesIsProduct(i, k);
    Arith.TimesIsProduct(|r|, k);
    var lo := Arith.Times(i, k);
    RangeMaxIsMax(ticks, lo, lo + k);
    RangeMinIsMin(ticks, lo, lo + k);
  }

  /** With threshold 1 every tick becomes its own flat bar, in input order. */
  lemma TickBarsThresholdOne(ticks: seq<Tick>)
    ensures |TickBarsSpec(ticks, 1)| == |ticks|
    ensures forall i :: 0 <= i < |ticks| ==>
              var p := ticks[i].price;
              TickBarsSpec(ticks, 1)[i] == Bar(ticks[i].time, p, p, p, p)
  {
    var r := TickBarsSpec(ticks, 1);
    BlocksFromShape(ticks, 0, 1);
    Arith.TimesIsProduct(|r|, 1);
    forall i | 0 <= i < |ticks|
      ensures r[i] == Bar(ticks[i].time, ticks[i].price, ticks[i].price, ticks[i].price, ticks[i].price)
    {
      Arith.TimesIsProduct(i, 1);
    }
  }

  /** Every bar that tick mode emits is a real bar satisfying the OHLC invariant. */
  lemma TickBarsWellFormed(ticks: seq<Tick>, k: nat)
    ensures forall i :: 0 <= i < |TickBarsSpec(ticks, k)| ==>
              TickBarsSpec(ticks, k)[i].Bar? && TickBarsSpec(ticks, k)[i].WellFormed()
  {
    if k > 0 {
      var r := TickBarsSpec(ticks, k);
      BlocksFromShape(ticks, 0, k);
      forall i | 0 <= i < |r|
        ensures r[i].Bar? && r[i].WellFormed()
      {
        SummaryWellFormed(ticks, Arith.Times(i, k), Arith.Times(i, k) + k, ticks[Arith.Times(i, k) + k - 1].time);
      }
    }
  }
}
