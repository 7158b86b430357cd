/**
 * The data model shared by the three bar builders, and the one-tick OHLC
 * update that each of them performs inline before applying its own closing
 * policy.
 *
 * Prices are integers (for instance, in cents) and timestamps are integers
 * in a fixed base unit (for instance, microseconds); volumes are natural
 * numbers.
 */
module Ohlc {

  type Price = int
  type Time = int

  /** One trade: its timestamp, price and volume. */
  datatype Tick = Tick(time: Time, price: Price, volume: nat)

  /**
   * One output row. `Bar` carries a timestamp and the four prices; `Gap`
   * is the row whose four prices are absent (NaN in the source): an
   * interval in which no tick was observed.
   */
  datatype Bar =
    | Bar(time: Time, open: Price, high: Price, low: Price, close: Price)
    | Gap(time: Time)
  {
    /** The OHLC invariant: low and high bracket open and close. */
    predicate WellFormed() {
      Bar? ==> low <= open <= high && low <= close <= high
    }
  }

  /**
   * The bar under construction: `Empty` when no tick has been folded into
   * it yet (`cur_open is None` in the source), otherwise the four running
   * prices.
   */
  datatype Acc =
    | Empty
    | Open(open: Price, high: Price, low: Price, close: Price)
  {
    predicate WellFormed() {
      Open? ==> low <= open <= high && low <= close <= high
    }
  }

  /** A bar opened by a single price: all four fields equal that price. */
  function Seed(p: Price): (r: Acc)
    ensures r.Open? && r.WellFormed()
  {
    Open(p, p, p, p)
  }

  /**
   * Fold one tick price into the accumulator: the first price sets all
   * four fields; later prices may only raise `high` or lower `low`, and
   * always become `close`.
   */
  function Update(a: Acc, p: Price): (r: Acc)
    ensures r.Open? && r.close == p
  {
    match a
    case Empty => Seed(p)
    case Open(o, h, l, _) =>
      Open(o, if p > h then p else h, if p < l then p else l, p)
  }

  /**
   * What one update promises: a fresh bar is seeded with the price; an open
   * bar keeps its open, its high becomes the larger of the old high and the
   * price, its low the smaller of the old low and the price, and the OHLC
   * invariant is preserved.
   */
  lemma UpdateSpec(a: Acc, p: Price)
    ensures a.Empty? ==> Update(a, p) == Seed(p)
    ensures a.Open? ==> Update(a, p).open == a.open
    ensures a.Open? ==> Update(a, p).high >= a.high && Update(a, p).low <= a.low
    ensures a.Open? ==> (Update(a, p).high == a.high || Update(a, p).high == p)
    ensures a.Open? ==> (Update(a, p).low == a.low || Update(a, p).low == p)
    ensures Update(a, p).low <= p <= Update(a, p).high
    ensures a.WellFormed() ==> Update(a, p).WellFormed()
  {
  }

  /** The row appended for an accumulator when a bar is closed at time `t`. */
  function Emit(a: Acc, t: Time): (r: Bar)
    ensures r.time == t
    ensures r.Gap? <==> a.Empty?
    ensures a.WellFormed() ==> r.WellFormed()
  {
    match a
    case Empty => Gap(t)
    case Open(o, h, l, c) => Bar(t, o, h, l, c)
  }

  /** The accumulator after folding ticks lo .. hi-1, in order, into an empty one. */
  function Accumulate(ticks: seq<Tick>, lo: nat, hi: nat): (r: Acc)
    requires lo <= hi <= |ticks|
    ensures r.Empty? <==> lo == hi
    decreases hi - lo
  {
    if hi == lo then Empty else Update(Accumulate(ticks, lo, hi - 1), ticks[hi - 1].price)
  }

  /** The largest price among ticks lo .. hi-1. */
  function RangeMax(ticks: seq<Tick>, lo: nat, hi: nat): Price
    requires lo < hi <= |ticks|
    decreases hi - lo
  {
    if lo + 1 == hi then ticks[lo].price
    else
      var rest := RangeMax(ticks, lo + 1, hi);
      if ticks[lo].price > rest then ticks[lo].price else rest
  }

  /** The smallest price among ticks lo .. hi-1. */
  function RangeMin(ticks: seq<Tick>, lo: nat, hi: nat): Price
    requires lo < hi <= |ticks|
    decreases hi - lo
  {
    if lo + 1 == hi then ticks[lo].price
    else
      var rest := RangeMin(ticks, lo + 1, hi);
      if ticks[lo].price < rest then ticks[lo].price else rest
  }

  /**
   * The reference meaning of the bar over ticks lo .. hi-1, stamped `t`: no
   * ticks give a gap; otherwise open is the first price, high the largest,
   * low the smallest and close the last.
   */
  function Summary(ticks: seq<Tick>, lo: nat, hi: nat, t: Time): (r: Bar)
    requires lo <= hi <= |ticks|
  {
    if lo == hi then Gap(t)
    else Bar(t, ticks[lo].price, RangeMax(ticks, lo, hi), RangeMin(ticks, lo, hi), ticks[hi - 1].price)
  }

  /** RangeMax is a price of the range and bounds all of it from above. */
  lemma {:induction false} RangeMaxIsMax(ticks: seq<Tick>, lo: nat, hi: nat)
    requires lo < hi <= |ticks|
    ensures exists j :: lo <= j < hi && ticks[j].price == RangeMax(ticks, lo, hi)
    ensures forall j :: lo <= j < hi ==> ticks[j].price <= RangeMax(ticks, lo, hi)
    decreases hi - lo
  {
    if lo + 1 < hi {
      RangeMaxIsMax(ticks, lo + 1, hi);
      var j :| lo + 1 <= j < hi && ticks[j].price == RangeMax(ticks, lo + 1, hi);
      if ticks[lo].price > RangeMax(ticks, lo + 1, hi) {
        assert ticks[lo].price == RangeMax(ticks, lo, hi);
      } else {
        assert ticks[j].price == RangeMax(ticks, lo, hi);
      }
    } else {
      assert ticks[lo].price == RangeMax(ticks, lo, hi);
    }
  }

  /** RangeMin is a price of the range and bounds all of it from below. */
  lemma {:induction false} RangeMinIsMin(ticks: seq<Tick>, lo: nat, hi: nat)
    requires lo < hi <= |ticks|
    ensures exists j :: lo <= j < hi && ticks[j].price == RangeMin(ticks, lo, hi)
    ensures forall j :: lo <= j < hi ==> RangeMin(ticks, lo, hi) <= ticks[j].price
    decreases hi - lo
  {
    if lo + 1 < hi {
      RangeMinIsMin(ticks, lo + 1, hi);
      var j :| lo + 1 <= j < hi && ticks[j].price == RangeMin(ticks, lo + 1, hi);
      if ticks[lo].price < RangeMin(ticks, lo + 1, hi) {
        assert ticks[lo].price == RangeMin(ticks, lo, hi);
      } else {
        assert ticks[j].price == RangeMin(ticks, lo, hi);
      }
    } else {
      assert ticks[lo].price == RangeMin(ticks, lo, hi);
    }
  }

  /** Every reference bar satisfies the OHLC invariant. */
  lemma SummaryWellFormed(ticks: seq<Tick>, lo: nat, hi: nat, t: Time)
    requires lo <= hi <= |ticks|
    ensures Summary(ticks, lo, hi, t).WellFormed()
  {
    if lo < hi {
      RangeMaxIsMax(ticks, lo, hi);
      RangeMinIsMin(ticks, lo, hi);
    }
  }

  /**
   * Folding a non-empty range keeps its first price as open and its last as
   * close, and its high and low are prices of the range that bracket all of it.
   */
  lemma {:induction false} AccumulateShape(ticks: seq<Tick>, lo: nat, hi: nat)
    requires lo < hi <= |ticks|
    ensures Accumulate(ticks, lo, hi).Open?
    ensures Accumulate(ticks, lo, hi).open == ticks[lo].price
    ensures Accumulate(ticks, lo, hi).close == ticks[hi - 1].price
    ensures exists j :: lo <= j < hi && ticks[j].price == Accumulate(ticks, lo, hi).high
    ensures exists j :: lo <= j < hi && ticks[j].price == Accumulate(ticks, lo, hi).low
    ensures forall j :: lo <= j < hi ==>
              Accumulate(ticks, lo, hi).low <= ticks[j].price <= Accumulate(ticks, lo, hi).high
    decreases hi - lo
  {
    if lo + 1 < hi {
      AccumulateShape(ticks, lo, hi - 1);
    }
  }

  /**
   * The accumulator agrees with the reference bar: closing the fold of any
   * range of ticks yields exactly its first/max/min/last summary.
   */
  lemma AccumulateIsSummary(ticks: seq<Tick>, lo: nat, hi: nat, t: Time)
    requires lo <= hi <= |ticks|
    ensures Emit(Accumulate(ticks, lo, hi), t) == Summary(ticks, lo, hi, t)
  {
    if lo < hi {
      AccumulateShape(ticks, lo, hi);
      RangeMaxIsMax(ticks, lo, hi);
      RangeMinIsMin(ticks, lo, hi);
      var a := Accumulate(ticks, lo, hi);
      var i :| lo <= i < hi && ticks[i].price == a.high;
      var j :| lo <= j < hi && ticks[j].price == RangeMax(ticks, lo, hi);
      var i' :| lo <= i' < hi && ticks[i'].price == a.low;
      var j' :| lo <= j' < hi && ticks[j'].price == RangeMin(ticks, lo, hi);
    }
  }
}
