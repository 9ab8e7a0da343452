/**
 * The count/total part of `save_and_print_results`: for every exchange of a
 * snapshot and every side, a non-empty side is summarised by `len(...)` and the
 * sum of its amounts; the results dictionary starts each exchange with an empty
 * list per side and replaces it only for non-empty sides.
 */
module Summary {
  import opened OrderWindow

  /** What the results dictionary holds for one side: the initial `[]` or the count and total. */
  datatype SideSummary = NoOrders | Totals(count: nat, totalAmount: real)

  /** The per-exchange entry of `results["orders"]`. */
  datatype ExchangeSummary = ExchangeSummary(bids: SideSummary, asks: SideSummary)

  /** The sum of the amounts stored under `keys`, taken in any order. */
  ghost function SumAmounts(side: Side, keys: set<string>): real
    requires keys <= side.Keys
    decreases keys
  {
    if keys == {} then 0.0
    else
      var k :| k in keys;
      side[k].amount + SumAmounts(side, keys - {k})
  }

  /** The sum does not depend on which key is taken out first. */
  lemma {:induction false} SumAmountsRemove(side: Side, keys: set<string>, k: string)
    requires keys <= side.Keys && k in keys
    ensures SumAmounts(side, keys) == side[k].amount + SumAmounts(side, keys - {k})
    decreases keys
  {
    var j :| j in keys && SumAmounts(side, keys) == side[j].amount + SumAmounts(side, keys - {j});
    if j != k {
      SumAmountsRemove(side, keys - {j}, k);
      SumAmountsRemove(side, keys - {k}, j);
      assert keys - {j} - {k} == keys - {k} - {j};
    }
  }

  /** A sum of amounts that are each at least `threshold` is at least `threshold` times their number. */
  lemma {:induction false} SumAmountsAtLeast(side: Side, keys: set<string>, threshold: real)
    requires keys <= side.Keys
    requires forall k :: k in keys ==> side[k].amount >= threshold
    ensures SumAmounts(side, keys) >= threshold * |keys| as real
    decreases keys
  {
    if keys != {} {
      var k :| k in keys;
      SumAmountsRemove(side, keys, k);
      SumAmountsAtLeast(side, keys - {k}, threshold);
      assert |keys| == |keys - {k}| + 1;
      AddAtLeast(side[k].amount, SumAmounts(side, keys - {k}), threshold, |keys - {k}|);
    }
  }

  /** One more amount of at least `threshold` raises the bound by one `threshold`. */
  lemma AddAtLeast(amount: real, rest: real, threshold: real, n: nat)
    requires amount >= threshold && rest >= threshold * n as real
    ensures amount + rest >= threshold * (n + 1) as real
  {
  }

  /** The summary of one side: nothing for an empty side, else its size and total amount. */
  ghost function SummarizeSideSpec(side: Side): SideSummary
  {
    if side == map[] then NoOrders else Totals(|side|, SumAmounts(side, side.Keys))
  }

  /** The summary of every exchange of a snapshot. */
  ghost function ResultsSpec(orders: map<string, Book>): map<string, ExchangeSummary>
  {
    map e | e in orders :: ExchangeSummary(SummarizeSideSpec(orders[e].bids), SummarizeSideSpec(orders[e].asks))
  }

  /**
   * A side whose entries all passed the threshold is summarised with
   * `total_amount >= threshold * count`, and its count is its number of entries.
   */
  lemma SummaryRespectsThreshold(side: Side, threshold: real)
    requires AllLarge(side, threshold)
    ensures SummarizeSideSpec(side) == NoOrders <==> side == map[]
    ensures SummarizeSideSpec(side).Totals? ==>
      && SummarizeSideSpec(side).count == |side.Keys| >= 1
      && SummarizeSideSpec(side).totalAmount >= threshold * SummarizeSideSpec(side).count as real
  {
    if side != map[] {
      assert side.Keys != {} by {
        var k :| k in side;
      }
      SumAmountsAtLeast(side, side.Keys, threshold);
    }
  }

  /** A reported side has at least one order and a total of at least the threshold per order. */
  ghost predicate RespectsThreshold(s: SideSummary, threshold: real)
  {
    s.Totals? ==> s.count >= 1 && s.totalAmount >= threshold * s.count as real
  }

  /** Every summary of a snapshot whose sides all passed the threshold respects it. */
  lemma ResultsRespectThreshold(orders: map<string, Book>, threshold: real)
    requires forall e :: e in orders ==> AllLarge(orders[e].bids, threshold) && AllLarge(orders[e].asks, threshold)
    ensures var results := ResultsSpec(orders);
      results.Keys == orders.Keys &&
      forall e :: e in results ==> RespectsThreshold(results[e].bids, threshold) && RespectsThreshold(results[e].asks, threshold)
  {
    forall e | e in orders
      ensures RespectsThreshold(SummarizeSideSpec(orders[e].bids), threshold)
      ensures RespectsThreshold(SummarizeSideSpec(orders[e].asks), threshold)
    {
      SummaryRespectsThreshold(orders[e].bids, threshold);
      SummaryRespectsThreshold(orders[e].asks, threshold);
    }
  }

  /** `if orders[side]: total_amount = sum(...); order_count = len(...)`. */
  method SummarizeSide(side: Side) returns (s: SideSummary)
    ensures s == SummarizeSideSpec(side)
  {
    if side == map[] {
      return NoOrders;
    }
    var total := 0.0;
    var pending := side.Keys;
    while pending != {}
      invariant pending <= side.Keys
      invariant total == SumAmounts(side, side.Keys - pending)
      decreases pending
    {
      var k :| k in pending;
      ghost var done := side.Keys - pending;
      SumAmountsRemove(side, done + {k}, k);
      assert done + {k} - {k} == done;
      total := total + side[k].amount;
      pending := pending - {k};
      assert side.Keys - pending == done + {k};
    }
    assert side.Keys - pending == side.Keys;
    s := Totals(|side|, total);
  }

  /** The loop over the exchanges of a snapshot that fills `results["orders"]`. */
  method SaveAndPrintResults(orders: map<string, Book>) returns (results: map<string, ExchangeSummary>)
    ensures results == ResultsSpec(orders)
  {
    results := map[];
    var pending := orders.Keys;
    while pending != {}
      invariant pending <= orders.Keys
      invariant results == map e | e in orders.Keys - pending ::
        ExchangeSummary(SummarizeSideSpec(orders[e].bids), SummarizeSideSpec(orders[e].asks))
      decreases pending
    {
      var e :| e in pending;
      var bids := SummarizeSide(orders[e].bids);
      var asks := SummarizeSide(orders[e].asks);
      results := results[e := ExchangeSummary(bids, asks)];
      pending := pending - {e};
    }
  }
}
