/**
 * The stored large orders of thread.py and the sliding one-hour window over them.
 *
 * One side (`bids` or `asks`) of one exchange is a dictionary from order key to
 * `{price, amount, timestamp}`.  Timestamps are `datetime` values; the model counts
 * them in whole microseconds, the resolution of `datetime`, so `TIME_WINDOW`
 * (`timedelta(hours=1)`) is 3 600 000 000.
 */
module OrderWindow {
  import opened OrderKey

  /** One stored order: what the order book reported and when it was fetched. */
  datatype Order = Order(price: real, amount: real, timestamp: int)

  /** One side of one exchange, keyed by `create_order_key(price, amount)`. */
  type Side = map<string, Order>

  /** The `{'bids': ..., 'asks': ...}` pair of one exchange. */
  datatype Book = Book(bids: Side, asks: Side)

  /** One hour, in microseconds. */
  const TIME_WINDOW: int := 3_600_000_000

  /** The retention test `current_time - timestamp <= TIME_WINDOW`. */
  predicate InWindow(o: Order, now: int)
  {
    now - o.timestamp <= TIME_WINDOW
  }

  /** Every entry of the side passed the size threshold. */
  ghost predicate AllLarge(side: Side, threshold: real)
  {
    forall k :: k in side ==> side[k].amount >= threshold
  }

  /** Every entry of the side is filed under the key of its own price and amount. */
  ghost predicate KeyedByContent(side: Side)
  {
    forall k :: k in side ==> k == CreateOrderKey(side[k].price, side[k].amount)
  }

  /** Every entry of the side lies at most one window in the past of `now`. */
  ghost predicate AllInWindow(side: Side, now: int)
  {
    forall k :: k in side ==> 0 <= now - side[k].timestamp <= TIME_WINDOW
  }

  /** No entry of the side carries a timestamp after `now`. */
  ghost predicate NoneAfter(side: Side, now: int)
  {
    forall k :: k in side ==> side[k].timestamp <= now
  }

  /** The dictionary comprehension that keeps the entries still inside the window. */
  function RetainFresh(side: Side, now: int): (r: Side)
    ensures r.Keys <= side.Keys
    ensures forall k :: k in side ==> (k in r <==> InWindow(side[k], now))
    ensures forall k :: k in r ==> r[k] == side[k]
  {
    map k | k in side && InWindow(side[k], now) :: side[k]
  }

  /**
   * Evict the expired stored entries, then overlay the new ones,
   * which win on a shared key (thread.py lines 57-61).
   */
  function Merge(stored: Side, newOrders: Side, now: int): (r: Side)
    ensures forall k :: k in r <==> k in newOrders || (k in stored && InWindow(stored[k], now))
    ensures forall k :: k in newOrders ==> r[k] == newOrders[k]
    ensures forall k :: k in stored && k !in newOrders && InWindow(stored[k], now) ==> r[k] == stored[k]
  {
    RetainFresh(stored, now) + newOrders
  }

  /** `clean_old_orders`: the same eviction applied to both sides of one exchange. */
  function CleanOldOrders(orders: Book, now: int): (r: Book)
    ensures forall k :: k in r.bids <==> k in orders.bids && InWindow(orders.bids[k], now)
    ensures forall k :: k in r.asks <==> k in orders.asks && InWindow(orders.asks[k], now)
    ensures forall k :: k in r.bids ==> r.bids[k] == orders.bids[k]
    ensures forall k :: k in r.asks ==> r.asks[k] == orders.asks[k]
  {
    Book(RetainFresh(orders.bids, now), RetainFresh(orders.asks, now))
  }

  /** Merging both sides of one exchange, as the loop over `['bids', 'asks']` does. */
  function MergeBook(stored: Book, freshBids: Side, freshAsks: Side, now: int): Book
  {
    Book(Merge(stored.bids, freshBids, now), Merge(stored.asks, freshAsks, now))
  }

  /** An expired entry that is not observed again is gone after the merge. */
  lemma MergeDropsExpired(stored: Side, newOrders: Side, now: int, k: string)
    requires k in stored && !InWindow(stored[k], now) && k !in newOrders
    ensures k !in Merge(stored, newOrders, now)
  {
  }

  /**
   * With no stored timestamp in the future and every newOrders entry stamped `now`,
   * every entry after the merge is at most one window old.
   */
  lemma MergeStaysInWindow(stored: Side, newOrders: Side, now: int)
    requires NoneAfter(stored, now)
    requires forall k :: k in newOrders ==> newOrders[k].timestamp == now
    ensures AllInWindow(Merge(stored, newOrders, now), now)
  {
  }

  /** Merging keeps every entry above the threshold when both inputs are. */
  lemma MergeKeepsLarge(stored: Side, newOrders: Side, now: int, threshold: real)
    requires AllLarge(stored, threshold) && AllLarge(newOrders, threshold)
    ensures AllLarge(Merge(stored, newOrders, now), threshold)
  {
  }

  /** Merging keeps every entry filed under its own key when both inputs do. */
  lemma MergeKeepsKeys(stored: Side, newOrders: Side, now: int)
    requires KeyedByContent(stored) && KeyedByContent(newOrders)
    ensures KeyedByContent(Merge(stored, newOrders, now))
  {
  }

  /** The merge evicts exactly as `clean_old_orders` does before it overlays. */
  lemma MergeBookCleansFirst(stored: Book, freshBids: Side, freshAsks: Side, now: int)
    ensures var cleaned := CleanOldOrders(stored, now);
      MergeBook(stored, freshBids, freshAsks, now) == Book(cleaned.bids + freshBids, cleaned.asks + freshAsks)
  {
  }

  /**
   * The window counts from the latest observation: an order seen at minute 0
   * and again at minute 10 is still stored at minute 61, while one seen only at
   * minute 0 is gone by then.
   */
  lemma WindowCountsFromLastObservation(k: string, price: real, amount: real)
    ensures var tick1 := Merge(map[], map[k := Order(price, amount, 0)], 0);
      var tick2 := Merge(tick1, map[k := Order(price, amount, 600_000_000)], 600_000_000);
      && k in Merge(tick2, map[], 3_660_000_000)
      && Merge(tick2, map[], 3_660_000_000)[k].timestamp == 600_000_000
      && k !in Merge(tick1, map[], 3_660_000_000)
  {
  }

  /**
   * The clock is local wall-clock time and may step back. An order stamped at
   * clock hour 2 and merged after the clock has gone back to hour 1 is kept,
   * with a timestamp after the merge's time; a merge at clock hour 3, two hours
   * after the stamp in real time, still keeps it.
   */
  lemma ClockStepBackKeepsEntry(k: string, price: real, amount: real)
    ensures var stored := map[k := Order(price, amount, 7_200_000_000)];
      var afterStepBack := Merge(stored, map[], 3_600_000_000);
      && k in afterStepBack
      && afterStepBack[k].timestamp > 3_600_000_000
      && k in Merge(afterStepBack, map[], 10_800_000_000)
  {
  }

  /** Cleaning a second time at the same instant changes nothing. */
  lemma CleanOldOrdersIdempotent(orders: Book, now: int)
    ensures CleanOldOrders(CleanOldOrders(orders, now), now) == CleanOldOrders(orders, now)
  {
    var once := CleanOldOrders(orders, now);
    var twice := CleanOldOrders(once, now);
    assert twice.bids == once.bids;
    assert twice.asks == once.asks;
  }

  /** Cleaning at `earlier` and then at `later` is the same as cleaning at `later` alone. */
  lemma CleanOldOrdersLater(orders: Book, earlier: int, later: int)
    requires earlier <= later
    ensures CleanOldOrders(CleanOldOrders(orders, earlier), later) == CleanOldOrders(orders, later)
  {
    var first := CleanOldOrders(CleanOldOrders(orders, earlier), later);
    var direct := CleanOldOrders(orders, later);
    assert first.bids == direct.bids;
    assert first.asks == direct.asks;
  }
}
