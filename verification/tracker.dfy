/**
 * The producer and consumer of thread.py around the module-level state.
 *
 * `large_orders` maps an exchange id to an inner `{'bids': ..., 'asks': ...}`
 * dictionary; that inner dictionary is an object (`ExchangeOrders`) whose two
 * fields are reassigned by every merge.  `order_queue.put(dict(large_orders))`
 * copies only the outer dictionary, so each queued snapshot maps exchange ids to
 * the very same inner objects the producer keeps updating: a snapshot shows the
 * LIVE bids and asks of the exchanges it had when it was taken.  The queue is
 * unbounded and first-in first-out.
 */
module Tracker {
  import opened Wrappers
  import opened OrderWindow
  import opened FreshOrders
  import opened Summary

  /** `threshold = 0.5`: the smallest amount tracked. */
  const THRESHOLD: real := 0.5

  /**
   * One exchange's outcome in one tick: the fetched order book, or `None` when
   * `fetch_order_book` (or reading its levels) raised an exception.
   */
  datatype Fetched = Fetched(exchangeId: string, book: Option<OrderBook>)

  /** Every stored entry passed the threshold. */
  ghost predicate AboveThreshold(state: map<string, Book>)
  {
    forall e :: e in state ==> AllLarge(state[e].bids, THRESHOLD) && AllLarge(state[e].asks, THRESHOLD)
  }

  /** The state every stored side keeps: entries above the threshold, filed under their own key. */
  ghost predicate WellFormed(state: map<string, Book>)
  {
    && AboveThreshold(state)
    && forall e :: e in state ==> KeyedByContent(state[e].bids) && KeyedByContent(state[e].asks)
  }

  /** The defaultdict entry of an exchange: the stored book, or two empty sides. */
  function StoredBook(state: map<string, Book>, exchangeId: string): Book
  {
    if exchangeId in state then state[exchangeId] else Book(map[], map[])
  }

  /** The body of the `try` for one exchange: filter both sides, then merge them into the stored book. */
  function UpdateExchange(state: map<string, Book>, f: Fetched, now: int): (r: map<string, Book>)
    ensures f.book.None? ==> r == state
    ensures f.book.Some? ==> r.Keys == state.Keys + {f.exchangeId}
    ensures forall e :: e in state && e != f.exchangeId ==> r[e] == state[e]
  {
    match f.book
    case None => state
    case Some(ob) =>
      state[f.exchangeId := MergeBook(StoredBook(state, f.exchangeId),
                                      FreshSide(ob.bids, THRESHOLD, now), FreshSide(ob.asks, THRESHOLD, now), now)]
  }

  /** One pass of `for exchange_id, exchange in exchanges.items()`, all with the same `current_time`. */
  function ApplyTick(state: map<string, Book>, fetched: seq<Fetched>, now: int): (r: map<string, Book>)
    ensures state.Keys <= r.Keys
    decreases |fetched|
  {
    if fetched == [] then state
    else UpdateExchange(ApplyTick(state, fetched[..|fetched| - 1], now), fetched[|fetched| - 1], now)
  }

  /**
   * An exchange that is not fetched successfully in a tick (absent, or every
   * fetch of it failed) keeps its stored bids and asks, or stays absent.
   */
  lemma {:induction false} ApplyTickLeavesOthers(state: map<string, Book>, fetched: seq<Fetched>, now: int, e: string)
    requires forall i :: 0 <= i < |fetched| && fetched[i].exchangeId == e ==> fetched[i].book.None?
    ensures var r := ApplyTick(state, fetched, now);
      (e in r <==> e in state) && (e in state ==> r[e] == state[e])
    decreases |fetched|
  {
    if fetched != [] {
      ApplyTickLeavesOthers(state, fetched[..|fetched| - 1], now, e);
    }
  }

  /**
   * With distinct exchange ids (the keys of `exchanges`), an exchange fetched
   * successfully ends the tick with its stored book merged with the filtered book.
   */
  lemma {:induction false} ApplyTickMergesFetched(state: map<string, Book>, fetched: seq<Fetched>, now: int, i: nat)
    requires i < |fetched| && fetched[i].book.Some?
    requires forall j :: 0 <= j < |fetched| && j != i ==> fetched[j].exchangeId != fetched[i].exchangeId
    ensures var e, ob := fetched[i].exchangeId, fetched[i].book.value;
      var r := ApplyTick(state, fetched, now);
      e in r && r[e] == MergeBook(StoredBook(state, e), FreshSide(ob.bids, THRESHOLD, now), FreshSide(ob.asks, THRESHOLD, now), now)
    decreases |fetched|
  {
    var e := fetched[i].exchangeId;
    var prefix := fetched[..|fetched| - 1];
    if i < |fetched| - 1 {
      ApplyTickMergesFetched(state, prefix, now, i);
    } else {
      ApplyTickLeavesOthers(state, prefix, now, e);
    }
  }

  /** Merging one fetched exchange keeps every stored entry above the threshold and filed under its own key. */
  lemma UpdateExchangeWellFormed(state: map<string, Book>, f: Fetched, now: int)
    requires WellFormed(state)
    ensures WellFormed(UpdateExchange(state, f, now))
  {
    if f.book.Some? {
      var ob := f.book.value;
      var stored := StoredBook(state, f.exchangeId);
      var newBids, newAsks := FreshSide(ob.bids, THRESHOLD, now), FreshSide(ob.asks, THRESHOLD, now);
      FreshSideFiltered(ob.bids, THRESHOLD, now);
      FreshSideFiltered(ob.asks, THRESHOLD, now);
      MergeKeepsLarge(stored.bids, newBids, now, THRESHOLD);
      MergeKeepsLarge(stored.asks, newAsks, now, THRESHOLD);
      MergeKeepsKeys(stored.bids, newBids, now);
      MergeKeepsKeys(stored.asks, newAsks, now);
      var r := UpdateExchange(state, f, now);
      assert r == state[f.exchangeId := MergeBook(stored, newBids, newAsks, now)];
    }
  }

  /** A tick keeps every stored entry above the threshold and filed under its own key. */
  lemma {:induction false} ApplyTickWellFormed(state: map<string, Book>, fetched: seq<Fetched>, now: int)
    requires WellFormed(state)
    ensures WellFormed(ApplyTick(state, fetched, now))
    decreases |fetched|
  {
    if fetched != [] {
      ApplyTickWellFormed(state, fetched[..|fetched| - 1], now);
      UpdateExchangeWellFormed(ApplyTick(state, fetched[..|fetched| - 1], now), fetched[|fetched| - 1], now);
    }
  }

  /** Merging a filtered book into one exchange keeps every entry above the threshold. */
  lemma MergeBookAboveThreshold(state: map<string, Book>, exchangeId: string, newBids: Side, newAsks: Side, now: int)
    requires AboveThreshold(state)
    requires AllLarge(newBids, THRESHOLD) && AllLarge(newAsks, THRESHOLD)
    ensures AboveThreshold(state[exchangeId := MergeBook(StoredBook(state, exchangeId), newBids, newAsks, now)])
  {
    var stored := StoredBook(state, exchangeId);
    ghost var merged := MergeBook(stored, newBids, newAsks, now);
    MergeKeepsLarge(stored.bids, newBids, now, THRESHOLD);
    MergeKeepsLarge(stored.asks, newAsks, now, THRESHOLD);
    var r := state[exchangeId := merged];
    forall e | e in r
      ensures AllLarge(r[e].bids, THRESHOLD) && AllLarge(r[e].asks, THRESHOLD)
    {
      if e != exchangeId {
        assert r[e] == state[e];
      }
    }
  }

  /** No stored timestamp lies after `now`. */
  ghost predicate NothingAfter(state: map<string, Book>, now: int)
  {
    forall e :: e in state ==> NoneAfter(state[e].bids, now) && NoneAfter(state[e].asks, now)
  }

  /**
   * If no stored timestamp lies in the future, the same holds after the tick,
   * and every exchange fetched successfully holds only entries at most one
   * window old.
   */
  lemma ApplyTickWindow(state: map<string, Book>, fetched: seq<Fetched>, now: int, i: nat)
    requires NothingAfter(state, now)
    requires i < |fetched| && fetched[i].book.Some?
    requires forall j :: 0 <= j < |fetched| && j != i ==> fetched[j].exchangeId != fetched[i].exchangeId
    ensures var r := ApplyTick(state, fetched, now);
      && NothingAfter(r, now)
      && fetched[i].exchangeId in r
      && AllInWindow(r[fetched[i].exchangeId].bids, now) && AllInWindow(r[fetched[i].exchangeId].asks, now)
  {
    ApplyTickNothingAfter(state, fetched, now);
    ApplyTickMergesFetched(state, fetched, now, i);
    var ob := fetched[i].book.value;
    var stored := StoredBook(state, fetched[i].exchangeId);
    FreshSideFiltered(ob.bids, THRESHOLD, now);
    FreshSideFiltered(ob.asks, THRESHOLD, now);
    MergeStaysInWindow(stored.bids, FreshSide(ob.bids, THRESHOLD, now), now);
    MergeStaysInWindow(stored.asks, FreshSide(ob.asks, THRESHOLD, now), now);
  }

  /** Processing one exchange puts no timestamp after the pass's time. */
  lemma UpdateExchangeNothingAfter(state: map<string, Book>, f: Fetched, now: int)
    requires NothingAfter(state, now)
    ensures NothingAfter(UpdateExchange(state, f, now), now)
  {
    if f.book.Some? {
      var ob := f.book.value;
      var stored := StoredBook(state, f.exchangeId);
      var newBids, newAsks := FreshSide(ob.bids, THRESHOLD, now), FreshSide(ob.asks, THRESHOLD, now);
      FreshSideFiltered(ob.bids, THRESHOLD, now);
      FreshSideFiltered(ob.asks, THRESHOLD, now);
      MergeStaysInWindow(stored.bids, newBids, now);
      MergeStaysInWindow(stored.asks, newAsks, now);
      var r := UpdateExchange(state, f, now);
      assert r == state[f.exchangeId := MergeBook(stored, newBids, newAsks, now)];
    }
  }

  /** A whole pass puts no timestamp after its time. */
  lemma {:induction false} ApplyTickNothingAfter(state: map<string, Book>, fetched: seq<Fetched>, now: int)
    requires NothingAfter(state, now)
    ensures NothingAfter(ApplyTick(state, fetched, now), now)
    decreases |fetched|
  {
    if fetched != [] {
      ApplyTickNothingAfter(state, fetched[..|fetched| - 1], now);
      UpdateExchangeNothingAfter(ApplyTick(state, fetched[..|fetched| - 1], now), fetched[|fetched| - 1], now);
    }
  }

  /** Storing twice under one key keeps only the second value. */
  lemma UpdateSameKey(state: map<string, Book>, exchangeId: string, first: Book, second: Book)
    ensures state[exchangeId := first][exchangeId := second] == state[exchangeId := second]
  {
  }

  /** Adding a new key keeps every existing entry. */
  lemma AddedItems<V>(m: map<string, V>, k: string, v: V)
    requires k !in m
    ensures m.Items <= m[k := v].Items
  {
  }

  /** Two empty sides trivially pass the threshold. */
  lemma EmptyBookAboveThreshold(state: map<string, Book>, exchangeId: string)
    requires AboveThreshold(state)
    ensures AboveThreshold(state[exchangeId := Book(map[], map[])])
  {
  }

  /** The inner `{'bids': {}, 'asks': {}}` dictionary of one exchange, shared by reference. */
  class ExchangeOrders {
    var bids: Side
    var asks: Side
    /** The exchange this dictionary was created for. */
    ghost const owner: string

    /** The `defaultdict` factory: two empty sides. */
    constructor (ghost owner: string)
      ensures bids == map[] && asks == map[] && this.owner == owner
    {
      bids := map[];
      asks := map[];
      this.owner := owner;
    }

    /** The two assignments `large_orders[exchange_id][side] = {...}` on this exchange's dictionary. */
    method MergeIn(newBids: Side, newAsks: Side, now: int)
      modifies this
      ensures bids == Merge(old(bids), newBids, now)
      ensures asks == Merge(old(asks), newAsks, now)
    {
      bids := Merge(bids, newBids, now);
      asks := Merge(asks, newAsks, now);
    }
  }

  /** `dict(large_orders)`: a new outer dictionary over the same inner objects. */
  type Snapshot = map<string, ExchangeOrders>

  /** What the objects of a snapshot hold at the moment it is read. */
  function View(snapshot: Snapshot): (r: map<string, Book>)
    reads snapshot.Values
    ensures r.Keys == snapshot.Keys
  {
    map e | e in snapshot :: Book(snapshot[e].bids, snapshot[e].asks)
  }

  /** The entries of `state` whose exchange is in `ids`. */
  ghost function Restrict(state: map<string, Book>, ids: set<string>): map<string, Book>
  {
    map e | e in state && e in ids :: state[e]
  }

  /** The module-level `large_orders` and `order_queue` of thread.py. */
  class LargeOrderTracker {
    var largeOrders: map<string, ExchangeOrders>
    var orderQueue: seq<Snapshot>

    /** The bids and asks currently stored for each exchange. */
    ghost var Contents: map<string, Book>
    /** The inner dictionaries this tracker has created. */
    ghost var Repr: set<ExchangeOrders>

    ghost predicate Valid()
      reads this, Repr
    {
      && largeOrders.Keys == Contents.Keys
      && (forall e {:trigger Contents[e]} :: e in largeOrders ==>
            largeOrders[e] in Repr && Contents[e] == Book(largeOrders[e].bids, largeOrders[e].asks) && largeOrders[e].owner == e)
      // a queued snapshot shares the inner dictionaries of the live state
      && (forall i :: 0 <= i < |orderQueue| ==> orderQueue[i].Items <= largeOrders.Items)
      && AboveThreshold(Contents)
    }

    constructor ()
      ensures Valid() && Contents == map[] && orderQueue == []
      ensures fresh(Repr)
    {
      largeOrders := map[];
      orderQueue := [];
      Contents := map[];
      Repr := {};
    }

    /** Every queued snapshot reads as the current state of the exchanges it holds, not as the state when it was queued. */
    lemma SnapshotsShowLiveState()
      requires Valid()
      ensures forall i :: 0 <= i < |orderQueue| ==> View(orderQueue[i]) == Restrict(Contents, orderQueue[i].Keys)
    {
      forall i | 0 <= i < |orderQueue|
        ensures View(orderQueue[i]) == Restrict(Contents, orderQueue[i].Keys)
      {
        var q := orderQueue[i];
        forall e | e in q
          ensures e in largeOrders && q[e] == largeOrders[e]
        {
          assert (e, q[e]) in q.Items;
        }
      }
    }

    /** The `defaultdict` creating the inner dictionary, with two empty sides, of an exchange seen for the first time. */
    method AddExchange(exchangeId: string)
      requires Valid() && exchangeId !in largeOrders
      modifies this
      ensures Valid()
      ensures orderQueue == old(orderQueue)
      ensures exchangeId in largeOrders && fresh(largeOrders[exchangeId])
      ensures largeOrders == old(largeOrders)[exchangeId := largeOrders[exchangeId]]
      ensures Contents == old(Contents)[exchangeId := Book(map[], map[])]
      ensures Repr == old(Repr) + {largeOrders[exchangeId]}
    {
      var entry := new ExchangeOrders(exchangeId);
      AddedItems(largeOrders, exchangeId, entry);
      EmptyBookAboveThreshold(Contents, exchangeId);
      largeOrders := largeOrders[exchangeId := entry];
      Repr := Repr + {entry};
      Contents := Contents[exchangeId := Book(map[], map[])];
      forall e | e in largeOrders && e != exchangeId
        ensures Contents[e] == Book(largeOrders[e].bids, largeOrders[e].asks) && largeOrders[e].owner == e
      {
        assert largeOrders[e] == old(largeOrders)[e];
      }
    }

    /** `large_orders[exchange_id][side] = {...}` for both sides of an exchange already present. */
    method MergeSides(exchangeId: string, newBids: Side, newAsks: Side, now: int)
      requires Valid() && exchangeId in largeOrders
      requires AllLarge(newBids, THRESHOLD) && AllLarge(newAsks, THRESHOLD)
      modifies this, largeOrders[exchangeId]
      ensures Valid()
      ensures largeOrders == old(largeOrders) && orderQueue == old(orderQueue) && Repr == old(Repr)
      ensures Contents == old(Contents)[exchangeId := MergeBook(old(Contents)[exchangeId], newBids, newAsks, now)]
    {
      ghost var merged := MergeBook(Contents[exchangeId], newBids, newAsks, now);
      MergeBookAboveThreshold(Contents, exchangeId, newBids, newAsks, now);
      ghost var updated := Contents[exchangeId := merged];
      var entry := largeOrders[exchangeId];
      entry.MergeIn(newBids, newAsks, now);
      Contents := updated;
      forall e | e in largeOrders && e != exchangeId
        ensures Contents[e] == Book(largeOrders[e].bids, largeOrders[e].asks) && largeOrders[e].owner == e
      {
        assert largeOrders[e] != entry;
      }
    }

    /** `large_orders[exchange_id][side] = {...}` for both sides of one exchange. */
    method MergeExchange(exchangeId: string, newBids: Side, newAsks: Side, now: int)
      requires Valid()
      requires AllLarge(newBids, THRESHOLD) && AllLarge(newAsks, THRESHOLD)
      modifies this, Repr
      ensures Valid()
      ensures Contents == old(Contents)[exchangeId := MergeBook(StoredBook(old(Contents), exchangeId), newBids, newAsks, now)]
      ensures orderQueue == old(orderQueue)
      ensures forall e :: e in old(largeOrders) ==> e in largeOrders && largeOrders[e] == old(largeOrders[e])
      ensures fresh(Repr - old(Repr))
    {
      if exchangeId !in largeOrders {
        AddExchange(exchangeId);
        UpdateSameKey(old(Contents), exchangeId, Book(map[], map[]), MergeBook(Book(map[], map[]), newBids, newAsks, now));
      }
      MergeSides(exchangeId, newBids, newAsks, now);
    }

    /**
     * One iteration of the producer's `while True`: every exchange in turn,
     * then a shallow copy of `large_orders` appended to the queue.
     */
    method Tick(now: int, fetched: seq<Fetched>)
      requires Valid()
      modifies this, Repr
      ensures Valid()
      ensures Contents == ApplyTick(old(Contents), fetched, now)
      ensures forall e :: e in old(largeOrders) ==> e in largeOrders && largeOrders[e] == old(largeOrders[e])
      ensures orderQueue == old(orderQueue) + [largeOrders]
      ensures fresh(Repr - old(Repr))
    {
      for i := 0 to |fetched|
        invariant Valid()
        invariant Contents == ApplyTick(old(Contents), fetched[..i], now)
        invariant orderQueue == old(orderQueue)
        invariant forall e :: e in old(largeOrders) ==> e in largeOrders && largeOrders[e] == old(largeOrders[e])
        invariant fresh(Repr - old(Repr))
      {
        assert fetched[..i + 1][..i] == fetched[..i];
        match fetched[i].book {
          case None =>
            // the `except` branch: the exchange is reported and skipped
          case Some(ob) =>
            var newBids := BuildSide(ob.bids, THRESHOLD, now);
            var newAsks := BuildSide(ob.asks, THRESHOLD, now);
            FreshSideFiltered(ob.bids, THRESHOLD, now);
            FreshSideFiltered(ob.asks, THRESHOLD, now);
            MergeExchange(fetched[i].exchangeId, newBids, newAsks, now);
        }
      }
      assert fetched[..|fetched|] == fetched;
      orderQueue := orderQueue + [largeOrders];
    }

    /**
     * What the consumer does when its 30-second gate opens: take the OLDEST
     * queued snapshot, if any, and summarise what its inner dictionaries hold
     * at that moment.
     */
    method AnalyzeAndOutput() returns (report: Option<map<string, ExchangeSummary>>)
      requires Valid()
      modifies this
      ensures Valid()
      ensures largeOrders == old(largeOrders) && Contents == old(Contents) && Repr == old(Repr)
      ensures old(orderQueue) == [] ==> report == None && orderQueue == []
      ensures old(orderQueue) != [] ==>
        && orderQueue == old(orderQueue)[1..]
        && report == Some(ResultsSpec(Restrict(Contents, old(orderQueue)[0].Keys)))
      ensures report.Some? ==> forall e :: e in report.value ==>
        RespectsThreshold(report.value[e].bids, THRESHOLD) && RespectsThreshold(report.value[e].asks, THRESHOLD)
    {
      if orderQueue == [] {
        return None;
      }
      SnapshotsShowLiveState();
      var currentOrders := orderQueue[0];
      orderQueue := orderQueue[1..];
      var orders := View(currentOrders);
      assert orders == Restrict(Contents, currentOrders.Keys);
      ResultsRespectThreshold(orders, THRESHOLD);
      var results := SaveAndPrintResults(orders);
      report := Some(results);
    }
  }

  /**
   * One step of the two daemon threads started by the main block, each taken
   * as a whole: a pass of the producer's loop, or a consumer read once its
   * gate has opened.
   */
  datatype Step = Produce(now: int, fetched: seq<Fetched>) | Consume

  /** The books after the producer passes among `steps`; the consumer never changes them. */
  function Replay(steps: seq<Step>): (r: map<string, Book>)
    decreases |steps|
  {
    if steps == [] then map[]
    else
      var before := Replay(steps[..|steps| - 1]);
      match steps[|steps| - 1]
      case Produce(now, fetched) => ApplyTick(before, fetched, now)
      case Consume => before
  }

  /** Whatever the interleaving, every stored entry passes the threshold and sits under its own key. */
  lemma {:induction false} ReplayWellFormed(steps: seq<Step>)
    ensures WellFormed(Replay(steps))
    decreases |steps|
  {
    if steps != [] {
      ReplayWellFormed(steps[..|steps| - 1]);
      match steps[|steps| - 1]
      case Produce(now, fetched) => ApplyTickWellFormed(Replay(steps[..|steps| - 1]), fetched, now);
      case Consume =>
    }
  }

  /**
   * The program from a fresh `large_orders` and an empty queue, with the two
   * threads' steps interleaved as `steps` says: the books are the producer
   * passes replayed, and every report the consumer writes meets the threshold
   * bound on each side.
   */
  method Run(steps: seq<Step>) returns (tracker: LargeOrderTracker, reports: seq<map<string, ExchangeSummary>>)
    ensures fresh(tracker) && tracker.Valid()
    ensures tracker.Contents == Replay(steps)
    ensures forall j :: 0 <= j < |reports| ==> forall e :: e in reports[j] ==>
      RespectsThreshold(reports[j][e].bids, THRESHOLD) && RespectsThreshold(reports[j][e].asks, THRESHOLD)
  {
    tracker := new LargeOrderTracker();
    reports := [];
    for i := 0 to |steps|
      invariant fresh(tracker) && fresh(tracker.Repr) && tracker.Valid()
      invariant tracker.Contents == Replay(steps[..i])
      invariant forall j :: 0 <= j < |reports| ==> forall e :: e in reports[j] ==>
        RespectsThreshold(reports[j][e].bids, THRESHOLD) && RespectsThreshold(reports[j][e].asks, THRESHOLD)
    {
      assert steps[..i + 1][..i] == steps[..i];
      match steps[i] {
        case Produce(now, fetched) =>
          tracker.Tick(now, fetched);
        case Consume =>
          var report := tracker.AnalyzeAndOutput();
          if report.Some? {
            reports := reports + [report.value];
          }
      }
    }
    assert steps[..|steps|] == steps;
  }
}
