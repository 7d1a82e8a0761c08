/**
 * Exchange-rate lookup of bin/calculate-cost-basis.py (`attach_rate` / `find_rate`):
 * a first-match linear scan over inclusive date ranges. Dates are day numbers.
 */
module FxRates {
  import opened Wrappers

  /** One row of the exchange-rate table: dollars per pound from `start` to `end`, both inclusive. */
  datatype FxRange = FxRange(start: int, end: int, rate: real)

  predicate Covers(r: FxRange, day: int) {
    r.start <= day <= r.end
  }

  /**
   * `find_rate(d)`: the rate of the first range in table order that covers `day`,
   * or `None` (never an error) when no range covers it.
   */
  function FindRate(ranges: seq<FxRange>, day: int): (r: Option<real>)
    ensures r.None? <==> forall k :: 0 <= k < |ranges| ==> !Covers(ranges[k], day)
    ensures forall k :: 0 <= k < |ranges| && Covers(ranges[k], day)
                        && (forall j :: 0 <= j < k ==> !Covers(ranges[j], day))
                        ==> r == Some(ranges[k].rate)
  {
    if ranges == [] then None
    else if Covers(ranges[0], day) then Some(ranges[0].rate)
    else
      var rest := FindRate(ranges[1..], day);
      assert forall k :: 1 <= k < |ranges| ==> ranges[1..][k - 1] == ranges[k];
      rest
  }

  /** No two ranges of the table share a day. */
  predicate NonOverlapping(ranges: seq<FxRange>) {
    forall i, j :: 0 <= i < j < |ranges| ==> ranges[i].end < ranges[j].start || ranges[j].end < ranges[i].start
  }

  /**
   * First-match only matters when ranges overlap: on a table whose ranges are
   * disjoint, the lookup returns the rate of whichever range covers the day.
   */
  lemma UnambiguousLookup(ranges: seq<FxRange>, day: int, k: nat)
    requires NonOverlapping(ranges)
    requires k < |ranges| && Covers(ranges[k], day)
    ensures FindRate(ranges, day) == Some(ranges[k].rate)
  {
    forall j | 0 <= j < k
      ensures !Covers(ranges[j], day)
    {
      assert ranges[j].end < ranges[k].start || ranges[k].end < ranges[j].start;
    }
  }
}
