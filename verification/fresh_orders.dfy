/**
 * The threshold filter of `fetch_and_write_orders`: for one side of a fetched
 * order book, every level with `amount >= threshold` is stored under its key as
 * `{price, amount, timestamp: current_time}`, levels being visited in the order
 * the exchange returned them, so a later level overwrites an earlier one with the
 * same key.
 */
module FreshOrders {
  import opened OrderKey
  import opened OrderWindow

  /** One `[price, amount]` entry of an order-book side. */
  datatype Level = Level(price: real, amount: real)

  /** What `fetch_order_book` returns: the bid and ask levels. */
  datatype OrderBook = OrderBook(bids: seq<Level>, asks: seq<Level>)

  function KeyOf(l: Level): string
  {
    CreateOrderKey(l.price, l.amount)
  }

  /** The dictionary the nested loops build from `levels`. */
  function FreshSide(levels: seq<Level>, threshold: real, now: int): Side
    decreases |levels|
  {
    if levels == [] then map[]
    else
      var earlier := FreshSide(levels[..|levels| - 1], threshold, now);
      var last := levels[|levels| - 1];
      if last.amount >= threshold then earlier[KeyOf(last) := Order(last.price, last.amount, now)]
      else earlier
  }

  /**
   * Every stored entry is a qualifying level, stamped with the current time
   * and filed under its own key.
   */
  lemma {:induction false} FreshSideFiltered(levels: seq<Level>, threshold: real, now: int)
    ensures var r := FreshSide(levels, threshold, now);
      && AllLarge(r, threshold) && KeyedByContent(r)
      && forall k :: k in r ==> r[k].timestamp == now
    decreases |levels|
  {
    if levels != [] {
      FreshSideFiltered(levels[..|levels| - 1], threshold, now);
    }
  }

  /** Every entry of `side` has the price and amount of one of the levels. */
  ghost predicate FromLevels(side: Side, levels: seq<Level>)
  {
    forall k :: k in side ==> exists i :: 0 <= i < |levels| && levels[i] == Level(side[k].price, side[k].amount)
  }

  /** Every stored entry has the price and amount of one of the levels. */
  lemma {:induction false} FreshSideFromLevels(levels: seq<Level>, threshold: real, now: int)
    ensures FromLevels(FreshSide(levels, threshold, now), levels)
    decreases |levels|
  {
    if levels != [] {
      var prefix := levels[..|levels| - 1];
      FreshSideFromLevels(prefix, threshold, now);
      var r := FreshSide(levels, threshold, now);
      forall k | k in r
        ensures exists i :: 0 <= i < |levels| && levels[i] == Level(r[k].price, r[k].amount)
      {
        var last := levels[|levels| - 1];
        if last.amount >= threshold && k == KeyOf(last) {
          assert levels[|levels| - 1] == Level(r[k].price, r[k].amount);
        } else {
          var earlier := FreshSide(prefix, threshold, now);
          assert k in earlier && r[k] == earlier[k];
          var i :| 0 <= i < |prefix| && prefix[i] == Level(earlier[k].price, earlier[k].amount);
          assert levels[i] == prefix[i];
        }
      }
    }
  }

  /** Every qualifying level's key is stored. */
  lemma {:induction false} FreshSideComplete(levels: seq<Level>, threshold: real, now: int)
    ensures var r := FreshSide(levels, threshold, now);
      forall i :: 0 <= i < |levels| && levels[i].amount >= threshold ==> KeyOf(levels[i]) in r
    decreases |levels|
  {
    if levels != [] {
      var prefix := levels[..|levels| - 1];
      FreshSideComplete(prefix, threshold, now);
      forall i | 0 <= i < |levels| - 1
        ensures levels[i] == prefix[i]
      {
      }
    }
  }

  /**
   * The entry under a key comes from the last qualifying level with that key:
   * later levels overwrite earlier ones.
   */
  lemma {:induction false} FreshSideLastWins(levels: seq<Level>, threshold: real, now: int, i: nat)
    requires i < |levels| && levels[i].amount >= threshold
    requires forall j :: i < j < |levels| && levels[j].amount >= threshold ==> KeyOf(levels[j]) != KeyOf(levels[i])
    ensures var r := FreshSide(levels, threshold, now);
      KeyOf(levels[i]) in r && r[KeyOf(levels[i])] == Order(levels[i].price, levels[i].amount, now)
    decreases |levels|
  {
    if i < |levels| - 1 {
      var prefix := levels[..|levels| - 1];
      assert forall j :: i < j < |prefix| ==> prefix[j] == levels[j];
      FreshSideLastWins(prefix, threshold, now, i);
    }
  }

  /** A key no qualifying level produces is absent, whatever the levels below the threshold are. */
  lemma {:induction false} FreshSideOnlyQualifying(levels: seq<Level>, threshold: real, now: int, k: string)
    requires forall i :: 0 <= i < |levels| && levels[i].amount >= threshold ==> KeyOf(levels[i]) != k
    ensures k !in FreshSide(levels, threshold, now)
    decreases |levels|
  {
    if levels != [] {
      FreshSideOnlyQualifying(levels[..|levels| - 1], threshold, now, k);
    }
  }

  /** The loop `for price, amount in order_book[side]: if amount >= threshold: ...`. */
  method BuildSide(levels: seq<Level>, threshold: real, now: int) returns (side: Side)
    ensures side == FreshSide(levels, threshold, now)
  {
    side := map[];
    for i := 0 to |levels|
      invariant side == FreshSide(levels[..i], threshold, now)
    {
      assert levels[..i + 1][..i] == levels[..i];
      var level := levels[i];
      if level.amount >= threshold {
        side := side[KeyOf(level) := Order(level.price, level.amount, now)];
      }
    }
    assert levels[..|levels|] == levels;
  }
}
