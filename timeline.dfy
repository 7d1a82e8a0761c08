/**
 * The event timeline `main` builds before the pooling pass: release rows
 * become acquisitions ("Buy"), sale rows become disposals ("Sell"), every
 * row is stamped with the exchange rate in force on its date, the rows are
 * ordered by date and each is given its price per share in pounds.
 *
 * Dates are day numbers; the parsing of date text is in `DateText`.
 */
module Timeline {
  import opened Wrappers
  import opened FxRates
  import opened CostPool

  /** One row of the releases file, after its columns have been resolved. */
  datatype Release = Release(date: int, granted: real, sold: real, issued: real, priceUsd: real)

  /** One row of the sales file, as `load_sales` leaves it. */
  datatype Sale = Sale(date: int, sold: real, priceUsd: real)

  /** A combined row before the pound price is attached. */
  datatype Row = Row(typ: string, date: int, granted: real, sold: real, issued: real, priceUsd: real, rate: Option<real>)

  /** A release row: type "Buy", its own quantities, the rate on its date. */
  function StampRelease(r: Release, ranges: seq<FxRange>): Row {
    Row("Buy", r.date, r.granted, r.sold, r.issued, r.priceUsd, FindRate(ranges, r.date))
  }

  /** A sale row: type "Sell", nothing granted or issued, the rate on its date. */
  function StampSale(s: Sale, ranges: seq<FxRange>): Row {
    Row("Sell", s.date, 0.0, s.sold, 0.0, s.priceUsd, FindRate(ranges, s.date))
  }

  function StampReleases(rs: seq<Release>, ranges: seq<FxRange>): seq<Row> {
    seq(|rs|, i requires 0 <= i < |rs| => StampRelease(rs[i], ranges))
  }

  function StampSales(ss: seq<Sale>, ranges: seq<FxRange>): seq<Row> {
    seq(|ss|, i requires 0 <= i < |ss| => StampSale(ss[i], ranges))
  }

  /** The releases followed by the sales, when a sales file was given. */
  function Combined(releases: seq<Release>, sales: Option<seq<Sale>>, ranges: seq<FxRange>): seq<Row> {
    StampReleases(releases, ranges) + (if sales.Some? then StampSales(sales.value, ranges) else [])
  }

  /**
   * The dollar price divided by the dollars-per-pound rate. A missing rate
   * gives an unknown price; so does a zero rate (see README).
   */
  function GbpPrice(usd: real, rate: Option<real>): (r: Money)
    ensures r.NaN? <==> rate.None? || rate.value == 0.0
    ensures r.Amount? ==> r.value * rate.value == usd
  {
    if rate.Some? && rate.value != 0.0 then
      var k := rate.value;
      assert usd / k * k == usd;
      Amount(usd / k)
    else NaN
  }

  /** A row with its pound price attached. */
  function Price(row: Row): Event {
    Event(row.typ, row.date, row.granted, row.sold, row.issued, row.priceUsd, row.rate, GbpPrice(row.priceUsd, row.rate))
  }

  function PriceAll(rows: seq<Row>): seq<Event> {
    seq(|rows|, i requires 0 <= i < |rows| => Price(rows[i]))
  }

  predicate DateOrdered(rows: seq<Row>) {
    forall i, j :: 0 <= i < j < |rows| ==> rows[i].date <= rows[j].date
  }

  predicate EventsDateOrdered(events: seq<Event>) {
    forall i, j :: 0 <= i < j < |events| ==> events[i].date <= events[j].date
  }

  /** `x` placed into the date-ordered `sorted`. */
  function Insert(x: Row, sorted: seq<Row>): (r: seq<Row>)
    requires DateOrdered(sorted)
    ensures DateOrdered(r)
    ensures multiset(r) == multiset(sorted) + multiset{x}
    ensures |r| == |sorted| + 1
    ensures r[0] == x || (sorted != [] && r[0] == sorted[0])
  {
    if sorted == [] || x.date <= sorted[0].date then [x] + sorted
    else
      var rest := Insert(x, sorted[1..]);
      assert sorted == [sorted[0]] + sorted[1..];
      [sorted[0]] + rest
  }

  /** The rows ordered by date; the order of rows sharing a date is not specified. */
  function SortByDate(rows: seq<Row>): (r: seq<Row>)
    ensures DateOrdered(r)
    ensures multiset(r) == multiset(rows)
  {
    if rows == [] then []
    else
      assert rows == [rows[0]] + rows[1..];
      Insert(rows[0], SortByDate(rows[1..]))
  }

  /** The timeline `main` hands to `get_gains_and_holdings`. */
  function BuildTimeline(releases: seq<Release>, sales: Option<seq<Sale>>, ranges: seq<FxRange>): seq<Event> {
    PriceAll(SortByDate(Combined(releases, sales, ranges)))
  }

  // ---------------------------------------------------------------------
  // The `--sales` argument. `main` loads and stamps the sales only when the
  // path is truthy (`if sales:`) but merges them whenever a path was given
  // (`sales is None`), so an empty path reaches the merge with no sales
  // frame bound.
  // ---------------------------------------------------------------------

  /** What the merge step of `main` fails with: the sales frame was never bound. */
  datatype MergeError = SalesFrameUnbound

  /** The merge as written: `salesArg` is the `--sales` path, `loaded` what `load_sales` read from it. */
  function MergeAsWritten(releases: seq<Release>, salesArg: Option<string>, loaded: seq<Sale>, ranges: seq<FxRange>)
    : Result<seq<Row>, MergeError>
  {
    if salesArg.None? then Success(Combined(releases, None, ranges))
    else if salesArg.value == "" then Failure(SalesFrameUnbound)
    else Success(Combined(releases, Some(loaded), ranges))
  }

  /** An empty `--sales` path makes the merge fail, even with no releases at all. */
  lemma EmptySalesPathFails()
    ensures MergeAsWritten([], Some(""), [], []) == Failure(SalesFrameUnbound)
  {
  }

  /** Whether sales take part: a path was given and it is not empty, the test `if sales:` makes. */
  predicate SalesGiven(salesArg: Option<string>) {
    salesArg.Some? && salesArg.value != ""
  }

  /** The sales that take part in the timeline, decided by the one test `if sales:`. */
  function SalesToMerge(salesArg: Option<string>, loaded: seq<Sale>): (r: Option<seq<Sale>>)
    ensures r.Some? <==> SalesGiven(salesArg)
    ensures r.Some? ==> r.value == loaded
  {
    if SalesGiven(salesArg) then Some(loaded) else None
  }

  /**
   * The merge with one test for both steps never fails, treats an empty
   * path like a missing one, and agrees with the code as written wherever
   * that succeeds.
   */
  lemma MergeAgreesWhereDefined(releases: seq<Release>, salesArg: Option<string>, loaded: seq<Sale>, ranges: seq<FxRange>)
    ensures salesArg == Some("") ==> Combined(releases, SalesToMerge(salesArg, loaded), ranges) == StampReleases(releases, ranges)
    ensures MergeAsWritten(releases, salesArg, loaded, ranges).Success?
            ==> MergeAsWritten(releases, salesArg, loaded, ranges).value == Combined(releases, SalesToMerge(salesArg, loaded), ranges)
    ensures MergeAsWritten(releases, salesArg, loaded, ranges).Failure? <==> salesArg == Some("")
  {
    if salesArg == Some("") {
      assert StampReleases(releases, ranges) + [] == StampReleases(releases, ranges);
    }
  }

  /** The whole computation from the command line's `--sales` argument: the gains and holdings series of the timeline. */
  function CostBasis(releases: seq<Release>, salesArg: Option<string>, loaded: seq<Sale>, ranges: seq<FxRange>)
    : Result<Series, FoldError>
  {
    GainsAndHoldings(BuildTimeline(releases, SalesToMerge(salesArg, loaded), ranges))
  }

  lemma PriceAllAppend(xs: seq<Row>, ys: seq<Row>)
    ensures PriceAll(xs + ys) == PriceAll(xs) + PriceAll(ys)
  {
  }

  /** Pricing row by row maps equal multisets of rows to equal multisets of events. */
  lemma {:induction false} PricePreservesPermutation(xs: seq<Row>, ys: seq<Row>)
    requires multiset(xs) == multiset(ys)
    ensures multiset(PriceAll(xs)) == multiset(PriceAll(ys))
    decreases |xs|
  {
    if xs == [] {
      assert |ys| == |multiset(ys)| == 0;
    } else {
      var x := xs[0];
      assert x in multiset(ys);
      var j :| 0 <= j < |ys| && ys[j] == x;
      var rest := ys[..j] + ys[j + 1..];
      assert ys == ys[..j] + [x] + ys[j + 1..];
      assert xs == [x] + xs[1..];
      assert multiset(ys) == multiset(ys[..j]) + multiset{x} + multiset(ys[j + 1..]);
      assert multiset(xs) == multiset{x} + multiset(xs[1..]);
      assert multiset(rest) == multiset(ys[..j]) + multiset(ys[j + 1..]);
      assert multiset(xs[1..]) == multiset(xs) - multiset{x};
      assert multiset(xs[1..]) == multiset(rest);
      PricePreservesPermutation(xs[1..], rest);
      PriceAllAppend([x], xs[1..]);
      PriceAllAppend(ys[..j], [x]);
      PriceAllAppend(ys[..j] + [x], ys[j + 1..]);
      PriceAllAppend(ys[..j], ys[j + 1..]);
    }
  }

  /**
   * The timeline is in date order and holds exactly the priced rows of the
   * releases and of the sales, each once.
   */
  lemma TimelineIsOrderedPermutation(releases: seq<Release>, sales: Option<seq<Sale>>, ranges: seq<FxRange>)
    ensures EventsDateOrdered(BuildTimeline(releases, sales, ranges))
    ensures multiset(BuildTimeline(releases, sales, ranges)) == multiset(PriceAll(Combined(releases, sales, ranges)))
    ensures |BuildTimeline(releases, sales, ranges)| == |releases| + (if sales.Some? then |sales.value| else 0)
  {
    var rows := Combined(releases, sales, ranges);
    var sorted := SortByDate(rows);
    PricePreservesPermutation(sorted, rows);
    assert |sorted| == |multiset(sorted)| == |multiset(rows)| == |rows|;
  }

  /**
   * Every event of the timeline comes from a release or a sale: its type
   * tells which, a sale carries nothing granted or issued, its rate is the
   * one in force on its date and its pound price is derived from that rate.
   */
  lemma TimelineRows(releases: seq<Release>, sales: Option<seq<Sale>>, ranges: seq<FxRange>, k: nat)
    requires k < |BuildTimeline(releases, sales, ranges)|
    ensures var e := BuildTimeline(releases, sales, ranges)[k];
            && e.rate == FindRate(ranges, e.date)
            && e.priceGbp == GbpPrice(e.priceUsd, e.rate)
            && (e.typ == "Buy" || e.typ == "Sell")
            && (e.typ == "Buy" ==> exists i :: 0 <= i < |releases| && Price(StampRelease(releases[i], ranges)) == e)
            && (e.typ == "Sell" ==> e.granted == 0.0 && e.issued == 0.0 && sales.Some?
                                    && exists i :: 0 <= i < |sales.value| && Price(StampSale(sales.value[i], ranges)) == e)
  {
    var rows := Combined(releases, sales, ranges);
    var sorted := SortByDate(rows);
    var e := BuildTimeline(releases, sales, ranges)[k];
    assert e == Price(sorted[k]);
    assert sorted[k] in multiset(rows);
    var j :| 0 <= j < |rows| && rows[j] == sorted[k];
    CombinedRowOrigin(releases, sales, ranges, j);
    if j < |releases| {
      assert Price(StampRelease(releases[j], ranges)) == e;
    } else {
      assert Price(StampSale(sales.value[j - |releases|], ranges)) == e;
    }
  }

  /** Row `j` of the merged rows is the stamped release `j`, or else a stamped sale. */
  lemma CombinedRowOrigin(releases: seq<Release>, sales: Option<seq<Sale>>, ranges: seq<FxRange>, j: nat)
    requires j < |Combined(releases, sales, ranges)|
    ensures j < |releases| ==> Combined(releases, sales, ranges)[j] == StampRelease(releases[j], ranges)
    ensures j >= |releases| ==> sales.Some? && j - |releases| < |sales.value|
                                && Combined(releases, sales, ranges)[j] == StampSale(sales.value[j - |releases|], ranges)
  {
  }

  /**
   * Releases alone never realise a gain and never make the pass fail, even
   * when a release date has no covering rate or a zero rate.
   */
  lemma ReleasesOnlyRealiseNothing(releases: seq<Release>, ranges: seq<FxRange>)
    ensures CostBasis(releases, None, [], ranges).Success?
    ensures var gains := CostBasis(releases, None, [], ranges).value.gains;
            |gains| == |releases| && forall k :: 0 <= k < |gains| ==> gains[k] == Amount(0.0)
  {
    var events := BuildTimeline(releases, None, ranges);
    forall k | 0 <= k < |events|
      ensures IsBuy(events[k])
    {
      TimelineRows(releases, None, ranges, k);
    }
    BuysOnlyZeroGains(events);
    TimelineIsOrderedPermutation(releases, None, ranges);
  }
}
