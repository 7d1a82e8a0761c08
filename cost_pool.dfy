/**
 * The pooled (Section 104 style) cost-basis computation of
 * bin/calculate-cost-basis.py, `get_gains_and_holdings`: a single pass over
 * date-ordered Buy/Sell rows carrying the units held and the pool cost in
 * pounds, emitting one gain and one pool-cost entry per row, and raising when
 * a sale leaves fewer than zero units.
 *
 * Floats are modelled as exact reals, because the source rounds only when it
 * prints. A pandas NaN (the pound price of a row without an exchange rate)
 * is kept as `NaN`, and it propagates through `+`, `-` and `*` as in IEEE arithmetic.
 */
module CostPool {
  import opened Wrappers

  /** A pandas float in pounds, which is NaN when a price could not be converted. */
  datatype Money = NaN | Amount(value: real)

  function Plus(a: Money, b: Money): Money {
    if a.Amount? && b.Amount? then Amount(a.value + b.value) else NaN
  }

  function Minus(a: Money, b: Money): Money {
    if a.Amount? && b.Amount? then Amount(a.value - b.value) else NaN
  }

  function Scale(k: real, a: Money): Money {
    if a.Amount? then Amount(k * a.value) else NaN
  }

  /**
   * One row of the event frame: Type, Date (a day number), Granted, Sold,
   * Issued, Price per share ($), GBP/USD (dollars per pound, `None` when no
   * range covered the date) and Price per share (GBP).
   */
  datatype Event = Event(typ: string, date: int, granted: real, sold: real, issued: real,
                         priceUsd: real, rate: Option<real>, priceGbp: Money)

  /** Only the exact label "Buy" takes the acquisition branch; every other label is a sale. */
  predicate IsBuy(e: Event) {
    e.typ == "Buy"
  }

  /** The two accumulators: `holdings_units` and `holdings_gbp`. */
  datatype Pool = Pool(units: real, cost: Money)

  const EmptyPool: Pool := Pool(0.0, Amount(0.0))

  /**
   * The two ways the pass aborts: Python's `ZeroDivisionError` when a sale
   * meets an empty pool, and the `ValueError` raised once a sale leaves fewer
   * than zero units (its stderr message names the row).
   */
  datatype FoldError = DivisionByZero | Oversold(row: nat)

  /** The pool after one row and the gain recorded for it. */
  datatype Transition = Transition(pool: Pool, gain: Money)

  /** `amount * part / whole`, evaluated left to right as Python does. */
  function ProRata(amount: real, part: real, whole: real): real
    requires whole != 0.0
  {
    amount * part / whole
  }

  /** `holdings_gbp * sold_units / holdings_units`: the share of the pool cost that goes with the units sold. */
  function AllowableCost(p: Pool, sold: real): Money
    requires p.units != 0.0
  {
    if p.cost.Amount? then Amount(ProRata(p.cost.value, sold, p.units)) else NaN
  }

  /**
   * One iteration of the loop body, for the row at position `row`. An
   * acquisition always goes through; a sale fails when nothing is held or when
   * it takes the holding below zero.
   */
  function Step(p: Pool, e: Event, row: nat): (r: Result<Transition, FoldError>)
    ensures r.Failure? <==> !IsBuy(e) && (p.units == 0.0 || p.units - e.sold < 0.0)
    ensures r.Failure? ==> r.error == if p.units == 0.0 then DivisionByZero else Oversold(row)
    ensures r.Success? ==> r.value.pool.units == p.units + (if IsBuy(e) then e.issued else -e.sold)
  {
    if IsBuy(e) then
      Success(Transition(Pool(p.units + e.issued, Plus(p.cost, Scale(e.issued, e.priceGbp))), Amount(0.0)))
    else if p.units == 0.0 then
      Failure(DivisionByZero)
    else
      var allowable := AllowableCost(p, e.sold);
      var after := Pool(p.units - e.sold, Minus(p.cost, allowable));
      if after.units < 0.0 then Failure(Oversold(row))
      else Success(Transition(after, Minus(Scale(e.sold, e.priceGbp), allowable)))
  }

  /** The state after a prefix of the rows: the pool and the two series so far. */
  datatype Trace = Trace(pool: Pool, gains: seq<Money>, holdings: seq<Money>)

  /** The pass over `events`, row by row from an empty pool; an error discards everything. */
  function Replay(events: seq<Event>): Result<Trace, FoldError> {
    if events == [] then Success(Trace(EmptyPool, [], []))
    else
      var n := |events| - 1;
      match Replay(events[..n])
      case Failure(err) => Failure(err)
      case Success(t) =>
        match Step(t.pool, events[n], n)
        case Failure(err) => Failure(err)
        case Success(o) => Success(Trace(o.pool, t.gains + [o.gain], t.holdings + [o.pool.cost]))
  }

  /** The two lists `get_gains_and_holdings` returns. */
  datatype Series = Series(gains: seq<Money>, holdings: seq<Money>)

  /** What `get_gains_and_holdings` returns, or the error it raises. */
  function GainsAndHoldings(events: seq<Event>): Result<Series, FoldError> {
    match Replay(events)
    case Failure(err) => Failure(err)
    case Success(t) => Success(Series(t.gains, t.holdings))
  }

  /** `get_gains_and_holdings`: the loop over the rows updating the two accumulators. */
  method GetGainsAndHoldings(events: seq<Event>) returns (r: Result<Series, FoldError>)
    ensures r == GainsAndHoldings(events)
  {
    var gains: seq<Money> := [];
    var holdings: seq<Money> := [];
    var units: real := 0.0;
    var cost: Money := Amount(0.0);
    var i := 0;
    while i < |events|
      invariant 0 <= i <= |events|
      invariant Replay(events[..i]) == Success(Trace(Pool(units, cost), gains, holdings))
    {
      var e := events[i];
      var priceGbp := e.priceGbp;
      var gain: Money := Amount(0.0);
      assert events[..i + 1][..i] == events[..i] && events[..i + 1][i] == e;
      ghost var before := Pool(units, cost);
      if e.typ == "Buy" {
        cost := Plus(cost, Scale(e.issued, priceGbp));
        holdings := holdings + [cost];
        units := units + e.issued;
      } else {
        if units == 0.0 {
          FailureIsFinal(events, i + 1);
          return Failure(DivisionByZero);
        }
        var allowable: Money := if cost.Amount? then Amount(ProRata(cost.value, e.sold, units)) else NaN;
        var proceeds := Scale(e.sold, priceGbp);
        gain := Minus(proceeds, allowable);
        units := units - e.sold;
        cost := Minus(cost, allowable);
        holdings := holdings + [cost];
        if units < 0.0 {
          FailureIsFinal(events, i + 1);
          return Failure(Oversold(i));
        }
      }
      assert Step(before, e, i) == Success(Transition(Pool(units, cost), gain));
      gains := gains + [gain];
      i := i + 1;
    }
    assert events[..i] == events;
    r := Success(Series(gains, holdings));
  }

  /** All or nothing: once a prefix of the rows fails, the whole pass fails with the same error. */
  lemma {:induction false} FailureIsFinal(events: seq<Event>, k: nat)
    requires k <= |events| && Replay(events[..k]).Failure?
    ensures Replay(events) == Replay(events[..k])
    decreases |events| - k
  {
    if k < |events| {
      assert events[..k + 1][..k] == events[..k];
      FailureIsFinal(events, k + 1);
    } else {
      assert events[..k] == events;
    }
  }

  /** A sale when no units are held fails with Python's division by zero, whatever follows. */
  lemma SaleFromEmptyPool(events: seq<Event>, i: nat)
    requires i < |events| && Replay(events[..i]).Success? && !IsBuy(events[i])
    requires Replay(events[..i]).value.pool.units == 0.0
    ensures Replay(events) == Failure(DivisionByZero)
  {
    assert events[..i + 1][..i] == events[..i];
    FailureIsFinal(events, i + 1);
  }

  /** Row `i` is a sale while the pool, after the rows before it, holds no units. */
  predicate SellsFromEmptyAt(events: seq<Event>, i: nat) {
    && i < |events|
    && Replay(events[..i]).Success?
    && !IsBuy(events[i])
    && Replay(events[..i]).value.pool.units == 0.0
  }

  /** The pass divides by zero exactly when some row is a sale from an empty pool after a successful prefix. */
  lemma {:induction false} DivisionByZeroIffEmptySale(events: seq<Event>)
    ensures Replay(events) == Failure(DivisionByZero) <==> exists i: nat :: SellsFromEmptyAt(events, i)
    decreases |events|
  {
    if i: nat :| SellsFromEmptyAt(events, i) {
      SaleFromEmptyPool(events, i);
    }
    if events != [] && Replay(events) == Failure(DivisionByZero) {
      var n := |events| - 1;
      if Replay(events[..n]).Failure? {
        DivisionByZeroIffEmptySale(events[..n]);
        var i: nat :| SellsFromEmptyAt(events[..n], i);
        assert events[..n][..i] == events[..i] && events[..n][i] == events[i];
        assert SellsFromEmptyAt(events, i);
      } else {
        assert SellsFromEmptyAt(events, n);
      }
    }
  }

  /** Row `i` is where the pass stops: the rows before it go through and row `i` fails. */
  predicate FailsAt(events: seq<Event>, i: nat) {
    && i < |events|
    && Replay(events[..i]).Success?
    && Replay(events[..i + 1]).Failure?
  }

  /**
   * The pass fails exactly when some row fails after a successful prefix,
   * and that row is always a sale: an acquisition, priced or not, never stops the pass.
   */
  lemma {:induction false} OnlySalesStopThePass(events: seq<Event>)
    ensures Replay(events).Failure? <==> exists i: nat :: FailsAt(events, i)
    ensures forall i: nat :: FailsAt(events, i) ==> !IsBuy(events[i])
    decreases |events|
  {
    forall i: nat | FailsAt(events, i)
      ensures !IsBuy(events[i])
    {
      assert events[..i + 1][..i] == events[..i] && events[..i + 1][i] == events[i];
    }
    if i: nat :| FailsAt(events, i) {
      FailureIsFinal(events, i + 1);
    }
    if events != [] && Replay(events).Failure? {
      var n := |events| - 1;
      if Replay(events[..n]).Failure? {
        OnlySalesStopThePass(events[..n]);
        var i: nat :| FailsAt(events[..n], i);
        assert events[..n][..i] == events[..i] && events[..n][..i + 1] == events[..i + 1];
        assert FailsAt(events, i);
      } else {
        assert events[..n + 1] == events;
        assert FailsAt(events, n);
      }
    }
  }

  /** Row `i` is a sale of more units than the pool holds after the rows before it. */
  predicate OversellsAt(events: seq<Event>, i: nat) {
    && i < |events|
    && Replay(events[..i]).Success?
    && !IsBuy(events[i])
    && Replay(events[..i]).value.pool.units != 0.0
    && Replay(events[..i]).value.pool.units - events[i].sold < 0.0
  }

  /**
   * The pass raises the oversell error naming row `i` exactly when row `i` is
   * the first failure and a sale that exceeds the units held.
   */
  lemma {:induction false} OversoldIffOversellsAt(events: seq<Event>, i: nat)
    ensures Replay(events) == Failure(Oversold(i)) <==> OversellsAt(events, i)
    decreases |events|
  {
    if OversellsAt(events, i) {
      assert events[..i + 1][..i] == events[..i];
      FailureIsFinal(events, i + 1);
    }
    if events != [] && Replay(events) == Failure(Oversold(i)) {
      var n := |events| - 1;
      if Replay(events[..n]).Failure? {
        OversoldIffOversellsAt(events[..n], i);
        assert events[..n][..i] == events[..i];
      } else {
        assert events[..n] == events[..i];
      }
    }
  }

  /** On success there is one gain and one pool-cost entry per row. */
  lemma {:induction false} SeriesCoverEveryRow(events: seq<Event>)
    requires Replay(events).Success?
    ensures |Replay(events).value.gains| == |events| && |Replay(events).value.holdings| == |events|
  {
    if events != [] {
      SeriesCoverEveryRow(events[..|events| - 1]);
    }
  }

  /**
   * The series are produced in row order and never revised: the pass over the
   * first `k` rows succeeds with the first `k` entries of each series, and
   * entry `k - 1` of the pool-cost series is the pool cost right after row `k - 1`.
   */
  lemma {:induction false} SeriesAreRunningValues(events: seq<Event>, k: nat)
    requires Replay(events).Success? && 0 < k <= |events|
    ensures Replay(events[..k]).Success?
    ensures |Replay(events).value.gains| == |events| && |Replay(events).value.holdings| == |events|
    ensures Replay(events[..k]).value.gains == Replay(events).value.gains[..k]
    ensures Replay(events[..k]).value.holdings == Replay(events).value.holdings[..k]
    ensures Replay(events).value.holdings[k - 1] == Replay(events[..k]).value.pool.cost
    decreases |events|
  {
    SeriesCoverEveryRow(events);
    var n := |events| - 1;
    if k == |events| {
      assert events[..k] == events;
    } else {
      assert events[..n][..k] == events[..k];
      SeriesAreRunningValues(events[..n], k);
      SeriesCoverEveryRow(events[..n]);
    }
  }

  /** With no negative acquisition in the input, a successful pass never ends holding fewer than zero units. */
  lemma {:induction false} UnitsNeverNegative(events: seq<Event>)
    requires Replay(events).Success?
    requires forall k :: 0 <= k < |events| && IsBuy(events[k]) ==> events[k].issued >= 0.0
    ensures Replay(events).value.pool.units >= 0.0
  {
    if events != [] {
      var n := |events| - 1;
      assert forall k :: 0 <= k < n ==> events[..n][k] == events[k];
      UnitsNeverNegative(events[..n]);
    }
  }

  /** Every row has a pound price. */
  predicate PricesKnown(events: seq<Event>) {
    forall k :: 0 <= k < |events| ==> events[k].priceGbp.Amount?
  }

  /** Sum of `issued` over the acquisitions. */
  function AcquiredUnits(events: seq<Event>): real {
    if events == [] then 0.0
    else
      var n := |events| - 1;
      AcquiredUnits(events[..n]) + (if IsBuy(events[n]) then events[n].issued else 0.0)
  }

  /** Sum of `sold` over the sales. */
  function DisposedUnits(events: seq<Event>): real {
    if events == [] then 0.0
    else
      var n := |events| - 1;
      DisposedUnits(events[..n]) + (if IsBuy(events[n]) then 0.0 else events[n].sold)
  }

  /** The pound cost `issued * price_gbp` a row pays into the pool: non-zero only for a priced acquisition. */
  function Paid(e: Event): real {
    if IsBuy(e) && e.priceGbp.Amount? then e.issued * e.priceGbp.value else 0.0
  }

  /** The disposal proceeds `sold * price_gbp` of a row: non-zero only for a priced sale. */
  function Received(e: Event): real {
    if !IsBuy(e) && e.priceGbp.Amount? then e.sold * e.priceGbp.value else 0.0
  }

  /** Total pound cost of the acquisitions. */
  function AcquisitionCost(events: seq<Event>): real {
    if events == [] then 0.0 else AcquisitionCost(events[..|events| - 1]) + Paid(events[|events| - 1])
  }

  /** Total disposal proceeds of the sales. */
  function DisposalProceeds(events: seq<Event>): real {
    if events == [] then 0.0 else DisposalProceeds(events[..|events| - 1]) + Received(events[|events| - 1])
  }

  /** Sum of a series none of whose entries is NaN. */
  function Total(xs: seq<Money>): real
    requires forall k :: 0 <= k < |xs| ==> xs[k].Amount?
  {
    if xs == [] then 0.0 else Total(xs[..|xs| - 1]) + xs[|xs| - 1].value
  }

  /** The units held after a successful pass are those acquired less those sold. */
  lemma {:induction false} UnitsBalance(events: seq<Event>)
    requires Replay(events).Success?
    ensures Replay(events).value.pool.units == AcquiredUnits(events) - DisposedUnits(events)
  {
    if events != [] {
      UnitsBalance(events[..|events| - 1]);
    }
  }

  /** With every price known, no pool cost and no gain is NaN. */
  lemma {:induction false} NothingUnknown(events: seq<Event>)
    requires Replay(events).Success? && PricesKnown(events)
    ensures Replay(events).value.pool.cost.Amount?
    ensures forall k :: 0 <= k < |Replay(events).value.gains| ==> Replay(events).value.gains[k].Amount?
  {
    if events != [] {
      var n := |events| - 1;
      assert PricesKnown(events[..n]) by {
        forall k | 0 <= k < n ensures events[..n][k].priceGbp.Amount? { assert events[..n][k] == events[k]; }
      }
      NothingUnknown(events[..n]);
      StepAccounting(Replay(events[..n]).value.pool, events[n], n);
    }
  }

  /**
   * The books balance after every successful pass with known prices: what was
   * paid into the pool plus the gains realised equals the disposal proceeds
   * plus the cost still pooled.
   */
  lemma {:induction false} PoolAccounting(events: seq<Event>)
    requires Replay(events).Success? && PricesKnown(events)
    ensures Replay(events).value.pool.cost.Amount?
    ensures forall k :: 0 <= k < |Replay(events).value.gains| ==> Replay(events).value.gains[k].Amount?
    ensures Total(Replay(events).value.gains) + AcquisitionCost(events)
            == DisposalProceeds(events) + Replay(events).value.pool.cost.value
  {
    NothingUnknown(events);
    if events != [] {
      var n := |events| - 1;
      var prefix := events[..n];
      assert PricesKnown(prefix) by {
        forall k | 0 <= k < n ensures prefix[k].priceGbp.Amount? { assert prefix[k] == events[k]; }
      }
      PoolAccounting(prefix);
      var before := Replay(prefix).value;
      var o := Step(before.pool, events[n], n).value;
      var t := Replay(events).value;
      assert t == Trace(o.pool, before.gains + [o.gain], before.holdings + [o.pool.cost]);
      var paid := Paid(events[n]);
      var received := Received(events[n]);
      assert o.gain.value + paid == received + o.pool.cost.value - before.pool.cost.value by {
        StepAccounting(before.pool, events[n], n);
      }
      assert Total(t.gains) == Total(before.gains) + o.gain.value by {
        assert t.gains[..|t.gains| - 1] == before.gains;
      }
      assert (Total(before.gains) + o.gain.value) + (AcquisitionCost(prefix) + paid)
             == (DisposalProceeds(prefix) + received) + o.pool.cost.value;
    }
  }

  /** One row of the accounting identity: what enters and leaves the pool on a single step. */
  lemma StepAccounting(p: Pool, e: Event, row: nat)
    requires Step(p, e, row).Success? && p.cost.Amount? && e.priceGbp.Amount?
    ensures Step(p, e, row).value.pool.units == p.units + (if IsBuy(e) then e.issued else -e.sold)
    ensures Step(p, e, row).value.pool.cost.Amount? && Step(p, e, row).value.gain.Amount?
    ensures Step(p, e, row).value.gain.value + Paid(e) == Received(e) + Step(p, e, row).value.pool.cost.value - p.cost.value
  {
    if IsBuy(e) {
      AcquisitionAddsToPool(p, e, row);
    } else {
      SaleChargesProRataCost(p, e, row);
    }
  }

  /**
   * Acquisitions only: the pass succeeds, the pool holds the sum of the units
   * issued at the sum of their costs, and every gain is zero.
   */
  lemma {:induction false} AcquisitionsOnly(events: seq<Event>)
    requires forall k :: 0 <= k < |events| ==> IsBuy(events[k])
    requires PricesKnown(events)
    ensures Replay(events).Success?
    ensures Replay(events).value.pool == Pool(AcquiredUnits(events), Amount(AcquisitionCost(events)))
    ensures forall k :: 0 <= k < |Replay(events).value.gains| ==> Replay(events).value.gains[k] == Amount(0.0)
  {
    if events != [] {
      var n := |events| - 1;
      assert forall k :: 0 <= k < n ==> events[..n][k] == events[k];
      AcquisitionsOnly(events[..n]);
    }
  }

  /**
   * Rows that are all acquisitions never fail and realise only zero gains,
   * whatever their pound prices, known or NaN; the pool holds every unit acquired.
   */
  lemma {:induction false} BuysOnlyZeroGains(events: seq<Event>)
    requires forall k :: 0 <= k < |events| ==> IsBuy(events[k])
    ensures Replay(events).Success?
    ensures Replay(events).value.pool.units == AcquiredUnits(events)
    ensures |Replay(events).value.gains| == |events|
    ensures forall k :: 0 <= k < |Replay(events).value.gains| ==> Replay(events).value.gains[k] == Amount(0.0)
  {
    if events != [] {
      var n := |events| - 1;
      assert forall k :: 0 <= k < n ==> events[..n][k] == events[k];
      BuysOnlyZeroGains(events[..n]);
    }
  }

  /** An acquisition adds its units and their pound cost to the pool and realises no gain. */
  lemma AcquisitionAddsToPool(p: Pool, e: Event, row: nat)
    requires IsBuy(e) && p.cost.Amount? && e.priceGbp.Amount?
    ensures Step(p, e, row).Success?
    ensures Step(p, e, row).value.pool == Pool(p.units + e.issued, Amount(p.cost.value + e.issued * e.priceGbp.value))
    ensures Step(p, e, row).value.gain == Amount(0.0)
  {
    assert Scale(e.issued, e.priceGbp) == Amount(e.issued * e.priceGbp.value);
    assert Plus(p.cost, Scale(e.issued, e.priceGbp)) == Amount(p.cost.value + e.issued * e.priceGbp.value);
  }

  /**
   * A successful sale removes the units sold and a slice of the pool cost in
   * proportion to them (removed / cost == sold / units), and its gain is the
   * proceeds less exactly the cost removed.
   */
  lemma SaleChargesProRataCost(p: Pool, e: Event, row: nat)
    requires !IsBuy(e) && p.cost.Amount? && e.priceGbp.Amount? && Step(p, e, row).Success?
    ensures Step(p, e, row).value.pool.units == p.units - e.sold
    ensures Step(p, e, row).value.pool.cost.Amount? && Step(p, e, row).value.gain.Amount?
    ensures (p.cost.value - Step(p, e, row).value.pool.cost.value) * p.units == p.cost.value * e.sold
    ensures Step(p, e, row).value.gain.value
            == e.sold * e.priceGbp.value - (p.cost.value - Step(p, e, row).value.pool.cost.value)
  {
    var removed := ProRata(p.cost.value, e.sold, p.units);
    assert removed * p.units == p.cost.value * e.sold;
  }

  /** A sale leaves the average pound cost of each remaining unit unchanged. */
  lemma SaleKeepsAverageCost(p: Pool, e: Event, row: nat)
    requires !IsBuy(e) && p.cost.Amount? && Step(p, e, row).Success?
    requires Step(p, e, row).value.pool.units != 0.0
    ensures Step(p, e, row).value.pool.cost.Amount?
    ensures Step(p, e, row).value.pool.cost.value / Step(p, e, row).value.pool.units == p.cost.value / p.units
  {
    var c, u, s := p.cost.value, p.units, e.sold;
    assert Step(p, e, row).value.pool == Pool(u - s, Amount(c - ProRata(c, s, u)));
    AverageAfterSlice(c, u, s);
  }

  /** Removing the pro-rata slice of `c` for `s` of `u` units keeps the cost per unit. */
  lemma AverageAfterSlice(c: real, u: real, s: real)
    requires u != 0.0 && u - s != 0.0
    ensures (c - ProRata(c, s, u)) / (u - s) == c / u
  {
    var left := c - ProRata(c, s, u);
    assert left == c * (u - s) / u;
  }

  /** Selling every unit held empties the pool and realises the proceeds less the whole pool cost. */
  lemma FullDisposalEmptiesPool(p: Pool, e: Event, row: nat)
    requires !IsBuy(e) && p.units != 0.0 && e.sold == p.units && p.cost.Amount? && e.priceGbp.Amount?
    ensures Step(p, e, row).Success?
    ensures Step(p, e, row).value.pool == Pool(0.0, Amount(0.0))
    ensures Step(p, e, row).value.gain == Amount(e.sold * e.priceGbp.value - p.cost.value)
  {
    assert ProRata(p.cost.value, e.sold, p.units) == p.cost.value;
  }

  /** Once the pool cost is NaN it stays NaN. */
  lemma {:induction false} CostStaysUnknown(events: seq<Event>, k: nat)
    requires Replay(events).Success? && k < |events| && IsBuy(events[k]) && events[k].priceGbp.NaN?
    ensures Replay(events).value.pool.cost.NaN?
  {
    var n := |events| - 1;
    if k < n {
      assert events[..n][k] == events[k];
      CostStaysUnknown(events[..n], k);
    }
  }

  /**
   * An acquisition without a pound price (no exchange rate for its date)
   * turns its own and every later pool-cost entry into NaN. Like every
   * acquisition it never makes the pass fail (`OnlySalesStopThePass`).
   */
  lemma UnpricedAcquisitionPoisonsPool(events: seq<Event>, k: nat)
    requires Replay(events).Success? && k < |events| && IsBuy(events[k]) && events[k].priceGbp.NaN?
    ensures |Replay(events).value.holdings| == |events|
    ensures forall j :: k <= j < |events| ==> Replay(events).value.holdings[j].NaN?
  {
    SeriesCoverEveryRow(events);
    forall j | k <= j < |events|
      ensures Replay(events).value.holdings[j].NaN?
    {
      SeriesAreRunningValues(events, j + 1);
      assert events[..j + 1][k] == events[k];
      CostStaysUnknown(events[..j + 1], k);
    }
  }

  /** An acquisition row whose pound price is already attached. */
  function Acquired(day: int, units: real, price: real): Event {
    Event("Buy", day, units, 0.0, units, price, Some(1.0), Amount(price))
  }

  /** A sale row whose pound price is already attached. */
  function Disposed(day: int, units: real, price: real): Event {
    Event("Sell", day, 0.0, units, 0.0, price, Some(1.0), Amount(price))
  }

  /**
   * Textbook pooling: 100 units at 10.00 and 50 at 12.00 pool 150 units at
   * 1600.00; selling 60 at 15.00 charges 640.00 of cost against 900.00 of
   * proceeds, a gain of 260.00, and leaves 960.00 pooled.
   */
  lemma TextbookPooling()
    ensures GainsAndHoldings([Acquired(1, 100.0, 10.0), Acquired(2, 50.0, 12.0), Disposed(3, 60.0, 15.0)])
            == Success(Series([Amount(0.0), Amount(0.0), Amount(260.0)], [Amount(1000.0), Amount(1600.0), Amount(960.0)]))
    ensures var t := Replay([Acquired(1, 100.0, 10.0), Acquired(2, 50.0, 12.0), Disposed(3, 60.0, 15.0)]);
            t.Success? && t.value.pool.units == 90.0
  {
    var rows := [Acquired(1, 100.0, 10.0), Acquired(2, 50.0, 12.0), Disposed(3, 60.0, 15.0)];
    assert rows[..1][..0] == [] && rows[..2][..1] == rows[..1] && rows[..3][..2] == rows[..2] && rows[..3] == rows;
    var s0 := Step(EmptyPool, rows[0], 0);
    assert Scale(100.0, Amount(10.0)) == Amount(1000.0);
    assert s0.Success? && s0.value.pool == Pool(100.0, Amount(1000.0)) && s0.value.gain == Amount(0.0);
    assert Replay(rows[..1][..0]) == Success(Trace(EmptyPool, [], []));
    assert rows[..1][0] == rows[0] && rows[..2][1] == rows[1] && rows[2] == rows[..3][2];
    var t1 := Replay(rows[..1]);
    assert t1.Success? && t1.value.pool == Pool(100.0, Amount(1000.0));
    assert t1.value.gains == [Amount(0.0)] && t1.value.holdings == [Amount(1000.0)];
    var s1 := Step(t1.value.pool, rows[1], 1);
    assert Scale(50.0, Amount(12.0)) == Amount(600.0);
    assert s1.Success? && s1.value.pool == Pool(150.0, Amount(1600.0)) && s1.value.gain == Amount(0.0);
    var t2 := Replay(rows[..2]);
    assert t2.Success? && t2.value.pool == Pool(150.0, Amount(1600.0));
    assert t2.value.gains == [Amount(0.0), Amount(0.0)] && t2.value.holdings == [Amount(1000.0), Amount(1600.0)];
    var s2 := Step(t2.value.pool, rows[2], 2);
    assert ProRata(1600.0, 60.0, 150.0) == 640.0;
    assert AllowableCost(t2.value.pool, 60.0) == Amount(640.0);
    assert Scale(60.0, Amount(15.0)) == Amount(900.0);
    assert s2.Success? && s2.value.pool == Pool(90.0, Amount(960.0)) && s2.value.gain == Amount(260.0);
    var t3 := Replay(rows);
    assert t3.Success? && t3.value.pool == Pool(90.0, Amount(960.0));
    assert t3.value.gains == [Amount(0.0), Amount(0.0), Amount(260.0)];
    assert t3.value.holdings == [Amount(1000.0), Amount(1600.0), Amount(960.0)];
  }

  /** Selling 200 units from that pool of 90 aborts the whole pass: no series at all, the error naming row 3. */
  lemma OversellAbortsRun()
    ensures GainsAndHoldings([Acquired(1, 100.0, 10.0), Acquired(2, 50.0, 12.0), Disposed(3, 60.0, 15.0),
                              Disposed(4, 200.0, 15.0)])
            == Failure(Oversold(3))
  {
    var rows := [Acquired(1, 100.0, 10.0), Acquired(2, 50.0, 12.0), Disposed(3, 60.0, 15.0), Disposed(4, 200.0, 15.0)];
    var first := [Acquired(1, 100.0, 10.0), Acquired(2, 50.0, 12.0), Disposed(3, 60.0, 15.0)];
    TextbookPooling();
    assert rows[..3] == first;
    assert Replay(first).Success? && Replay(first).value.pool.units == 90.0;
    assert OversellsAt(rows, 3);
    OversoldIffOversellsAt(rows, 3);
  }
}
