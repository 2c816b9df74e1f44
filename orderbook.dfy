/**
 The order book of one market: resting limit orders bucketed by price, one
 price-indexed table per side. The book is updated in place, so it is a class;
 the price-level buckets ("limits") it owns, orders, prices and sides are values.
 */
module Orderbook {

  /** Rust's `u64`, the width of the three components of a price. */
  newtype u64 = x: int | 0 <= x < 0x1_0000_0000_0000_0000

  datatype BidOrAsk = Bid | Ask

  /** An exact price key: an integral part and a fractional part scaled by `scalar`.
      Two prices are the same level exactly when all three components agree. */
  datatype Price = Price(integral: u64, fractional: u64, scalar: u64)

  /** An order as the book stores it; `Order(side, size)` is the source's `Order::new`.
      The size is carried along but never computed with. */
  datatype Order = Order(bidOrAsk: BidOrAsk, size: real)

  /** One side of the book seen abstractly: the orders queued at each price level,
      in arrival order. */
  type Side = map<Price, seq<Order>>

  /** The whole book seen abstractly. */
  datatype BookView = BookView(bids: Side, asks: Side)

  /** The orders queued at `price`, or none when that level has no bucket. */
  function QueueAt(side: Side, price: Price): seq<Order>
  {
    if price in side then side[price] else []
  }

  /** Adding `order` at `price` to one side: the bucket there is created if missing,
      and the order joins the back of its queue; every other bucket is untouched. */
  function AddToSide(side: Side, price: Price, order: Order): (r: Side)
    ensures r.Keys == side.Keys + {price}
    ensures price in side ==> |r[price]| == |side[price]| + 1
                              && r[price][..|side[price]|] == side[price]
                              && r[price][|side[price]|] == order
    ensures price !in side ==> r[price] == [order]
    ensures forall p :: p in side && p != price ==> r[p] == side[p]
  {
    side[price := QueueAt(side, price) + [order]]
  }

  /** The abstract effect of `OrderBook::add_order`: the order's own side changes
      as `AddToSide` says, and the other side stays exactly as it was. */
  function AddToView(v: BookView, price: Price, order: Order): (r: BookView)
    ensures order.bidOrAsk == Bid ==> r.asks == v.asks && r.bids == AddToSide(v.bids, price, order)
    ensures order.bidOrAsk == Ask ==> r.bids == v.bids && r.asks == AddToSide(v.asks, price, order)
  {
    match order.bidOrAsk
    case Bid => v.(bids := AddToSide(v.bids, price, order))
    case Ask => v.(asks := AddToSide(v.asks, price, order))
  }

  /** Every order in `queue` is of kind `kind`. */
  ghost predicate QueueOfKind(queue: seq<Order>, kind: BidOrAsk)
  {
    forall i :: 0 <= i < |queue| ==> queue[i].bidOrAsk == kind
  }

  /** Every order queued on `side` is of kind `kind`. */
  ghost predicate AllOfKind(side: Side, kind: BidOrAsk)
  {
    forall p :: p in side ==> QueueOfKind(side[p], kind)
  }

  /** Bid buckets hold only bids and ask buckets hold only asks. */
  ghost predicate SidesConsistent(v: BookView)
  {
    AllOfKind(v.bids, Bid) && AllOfKind(v.asks, Ask)
  }

  /** An insertion never puts an order on the wrong side of the book. */
  lemma AddToViewKeepsSidesConsistent(v: BookView, price: Price, order: Order)
    requires SidesConsistent(v)
    ensures SidesConsistent(AddToView(v, price, order))
  {
    var side: Side := if order.bidOrAsk == Bid then v.bids else v.asks;
    assert QueueOfKind(QueueAt(side, price) + [order], order.bidOrAsk);
  }

  /** The number of orders queued on one side, over all price levels. */
  ghost function CountOrders(side: Side): nat
    decreases |side|
  {
    if side == map[] then 0
    else
      var p :| p in side;
      |side[p]| + CountOrders(side - {p})
  }

  /** The number of orders resting in the book. */
  ghost function TotalOrders(v: BookView): nat
  {
    CountOrders(v.bids) + CountOrders(v.asks)
  }

  /** The count does not depend on which level is taken out first. */
  lemma {:induction false} CountOrdersRemove(side: Side, p: Price)
    requires p in side
    ensures CountOrders(side) == |side[p]| + CountOrders(side - {p})
    decreases |side|
  {
    var q :| q in side && CountOrders(side) == |side[q]| + CountOrders(side - {q});
    if q != p {
      var rest := side - {q};
      assert p in rest;
      CountOrdersRemove(rest, p);
      assert q in side - {p};
      CountOrdersRemove(side - {p}, q);
      assert rest - {p} == (side - {p}) - {q};
    }
  }

  /** Replacing the queue at one level changes the count by the difference in length. */
  lemma {:induction false} CountOrdersUpdate(side: Side, p: Price, q: seq<Order>)
    ensures CountOrders(side[p := q]) + |QueueAt(side, p)| == CountOrders(side) + |q|
  {
    var side' := side[p := q];
    CountOrdersRemove(side', p);
    assert side' - {p} == side - {p};
    if p in side {
      CountOrdersRemove(side, p);
    } else {
      assert side - {p} == side;
    }
  }

  /** Every insertion adds exactly one order to the book. */
  lemma {:induction false} AddToViewCountsOne(v: BookView, price: Price, order: Order)
    ensures TotalOrders(AddToView(v, price, order)) == TotalOrders(v) + 1
  {
    if order.bidOrAsk == Bid {
      CountOrdersUpdate(v.bids, price, QueueAt(v.bids, price) + [order]);
    } else {
      CountOrdersUpdate(v.asks, price, QueueAt(v.asks, price) + [order]);
    }
  }

  /** A series of insertions of `orders` at one price, in the given order. */
  function AddAll(v: BookView, price: Price, orders: seq<Order>): BookView
    decreases |orders|
  {
    if orders == [] then v else AddAll(AddToView(v, price, orders[0]), price, orders[1..])
  }

  /** Appending `rest` after a first insertion of `order` is one append of both. */
  lemma AddToSideThenAppend(side: Side, price: Price, order: Order, rest: seq<Order>)
    ensures var side' := AddToSide(side, price, order);
            side'[price := QueueAt(side', price) + rest] == side[price := QueueAt(side, price) + ([order] + rest)]
  {
    assert QueueAt(side, price) + [order] + rest == QueueAt(side, price) + ([order] + rest);
  }

  /** Orders of one kind added one after another at one price end up queued there
      behind what was already queued, in arrival order, exactly as if the whole
      series had been appended at once; the other side is untouched. */
  lemma {:induction false} AddAllQueuesInArrivalOrder(v: BookView, price: Price, kind: BidOrAsk, orders: seq<Order>)
    requires orders != []
    requires forall i :: 0 <= i < |orders| ==> orders[i].bidOrAsk == kind
    ensures AddAll(v, price, orders) ==
              if kind == Bid then v.(bids := v.bids[price := QueueAt(v.bids, price) + orders])
              else v.(asks := v.asks[price := QueueAt(v.asks, price) + orders])
    decreases |orders|
  {
    var v' := AddToView(v, price, orders[0]);
    if |orders| == 1 {
      assert orders == [orders[0]] && orders[1..] == [];
      assert AddAll(v, price, orders) == v';
    } else {
      AddAllQueuesInArrivalOrder(v', price, kind, orders[1..]);
      assert orders == [orders[0]] + orders[1..];
      if kind == Bid {
        AddToSideThenAppend(v.bids, price, orders[0], orders[1..]);
      } else {
        AddToSideThenAppend(v.asks, price, orders[0], orders[1..]);
      }
    }
  }

  /** Level by level, for every series of same-side orders at one price, the empty
      one included: the queue at `price` is the old queue followed by the series,
      every other level and the other side are as before. */
  lemma {:induction false} AddAllQueuesAtLevel(v: BookView, price: Price, kind: BidOrAsk, orders: seq<Order>)
    requires forall i :: 0 <= i < |orders| ==> orders[i].bidOrAsk == kind
    ensures var w := AddAll(v, price, orders);
            if kind == Bid then
              && w.asks == v.asks
              && QueueAt(w.bids, price) == QueueAt(v.bids, price) + orders
              && (forall p :: p != price ==> QueueAt(w.bids, p) == QueueAt(v.bids, p))
            else
              && w.bids == v.bids
              && QueueAt(w.asks, price) == QueueAt(v.asks, price) + orders
              && (forall p :: p != price ==> QueueAt(w.asks, p) == QueueAt(v.asks, p))
  {
    if orders == [] {
      assert QueueAt(v.bids, price) + orders == QueueAt(v.bids, price);
      assert QueueAt(v.asks, price) + orders == QueueAt(v.asks, price);
    } else {
      AddAllQueuesInArrivalOrder(v, price, kind, orders);
    }
  }

  /** A price-level bucket: the orders resting at one price, in arrival order.
      The book owns its buckets outright, so a bucket is a value stored in the
      book's table and updating it means storing the updated value back. */
  datatype Limit = Limit(price: Price, orders: seq<Order>)
  {
    /** `Limit::add_order`: the order joins the back of the queue; the price stays. */
    function AddOrder(order: Order): (l: Limit)
      ensures l.price == price
      ensures |l.orders| == |orders| + 1 && l.orders[..|orders|] == orders && l.orders[|orders|] == order
    {
      Limit(price, orders + [order])
    }
  }

  /** `Limit::new`: an empty bucket at `price`. */
  function NewLimit(price: Price): (l: Limit)
    ensures l.price == price && l.orders == []
  {
    Limit(price, [])
  }

  /** Each bucket of a table sits under its own price. */
  ghost predicate WellKeyed(limits: map<Price, Limit>)
  {
    forall p :: p in limits ==> limits[p].price == p
  }

  /** The queues held by a table of buckets. */
  function Queues(limits: map<Price, Limit>): (s: Side)
    ensures s.Keys == limits.Keys
    ensures forall p :: p in limits ==> s[p] == limits[p].orders
  {
    map p | p in limits :: limits[p].orders
  }

  /** One arm of `OrderBook::add_order`: append to the bucket at `price` if the side
      has one, otherwise make a fresh bucket at `price` holding just `order`. */
  function InsertIntoSide(limits: map<Price, Limit>, price: Price, order: Order): (r: map<Price, Limit>)
    ensures WellKeyed(limits) ==> WellKeyed(r)
    ensures Queues(r) == AddToSide(Queues(limits), price, order)
  {
    if price in limits then limits[price := limits[price].AddOrder(order)]
    else limits[price := NewLimit(price).AddOrder(order)]
  }

  class OrderBook {
    var asks: map<Price, Limit>
    var bids: map<Price, Limit>

    /** The book's invariant: each bucket sits under its own price, and each side
        holds only its own kind of order. */
    ghost predicate Valid()
      reads this
    {
      WellKeyed(bids) && WellKeyed(asks) && SidesConsistent(View())
    }

    /** The queues of the book, level by level and side by side. */
    function View(): BookView
      reads this
    {
      BookView(Queues(bids), Queues(asks))
    }

    /** `OrderBook::new`: no bid buckets and no ask buckets. */
    constructor ()
      ensures Valid()
      ensures bids == map[] && asks == map[]
      ensures View() == BookView(map[], map[])
    {
      asks := map[];
      bids := map[];
    }

    /** `OrderBook::add_order`, with the price already converted to its exact key. */
    method AddOrder(price: Price, order: Order)
      requires Valid()
      modifies this
      ensures Valid()
      ensures order.bidOrAsk == Bid ==> bids == InsertIntoSide(old(bids), price, order) && asks == old(asks)
      ensures order.bidOrAsk == Ask ==> asks == InsertIntoSide(old(asks), price, order) && bids == old(bids)
      ensures View() == AddToView(old(View()), price, order)
      ensures TotalOrders(View()) == TotalOrders(old(View())) + 1
    {
      ghost var before := View();
      match order.bidOrAsk {
        case Bid =>
          if price in bids {
            bids := bids[price := bids[price].AddOrder(order)];
          } else {
            var limit := NewLimit(price);
            limit := limit.AddOrder(order);
            bids := bids[price := limit];
          }
          assert bids == InsertIntoSide(old(bids), price, order);
        case Ask =>
          if price in asks {
            asks := asks[price := asks[price].AddOrder(order)];
          } else {
            var limit := NewLimit(price);
            limit := limit.AddOrder(order);
            asks := asks[price := limit];
          }
          assert asks == InsertIntoSide(old(asks), price, order);
      }
      AddToViewKeepsSidesConsistent(before, price, order);
      AddToViewCountsOne(before, price, order);
    }
  }
}
