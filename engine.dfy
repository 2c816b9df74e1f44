/**
 The market registry: one order book per trading pair, and the routing of a
 placed limit order to the book of its pair.
 */
module Engine {
  import opened Orderbook

  datatype Option<T> = None | Some(value: T)

  /** Rust's `Result`, as returned by `place_limit_order`. */
  datatype Result<T, E> = Ok(value: T) | Err(error: E)

  /** A market, e.g. base "BTC" and quote "USD"; `TradingPair(base, quote)` is the
      source's `TradingPair::new`. Registry lookups compare the two fields, never
      the string form. */
  datatype TradingPair = TradingPair(base: string, quote: string)
  {
    /** `TradingPair::to_string`: the canonical form "{base}_{quote}". */
    function ToString(): (s: string)
      ensures |s| == |base| + 1 + |quote|
      ensures s[..|base|] == base && s[|base|] == '_' && s[|base| + 1..] == quote
    {
      base + "_" + quote
    }
  }

  /** The position of the first `c` in `s`, or `|s|` when there is none. */
  function FirstIndexOf(s: string, c: char): (k: nat)
    ensures k <= |s|
    ensures k < |s| ==> s[k] == c
    ensures c !in s[..k]
  {
    if s == [] then 0
    else if s[0] == c then 0
    else
      var k := 1 + FirstIndexOf(s[1..], c);
      assert s[..k] == [s[0]] + s[1..][..k - 1];
      k
  }

  /** Reads a canonical string back as a pair, splitting at its first underscore. */
  function ParsePair(s: string): (r: Option<TradingPair>)
    ensures r.None? <==> '_' !in s
    ensures r.Some? ==> '_' !in r.value.base && r.value.ToString() == s
  {
    var k := FirstIndexOf(s, '_');
    if k == |s| then
      assert s[..k] == s;
      None
    else
      var p := TradingPair(s[..k], s[k + 1..]);
      assert p.ToString() == s[..k] + [s[k]] + s[k + 1..];
      assert s == s[..k] + [s[k]] + s[k + 1..];
      Some(p)
  }

  /** The canonical string determines the pair whenever the base has no underscore. */
  lemma ParseToString(p: TradingPair)
    requires '_' !in p.base
    ensures ParsePair(p.ToString()) == Some(p)
  {
  }

  /** Without that condition two different markets share one canonical string, which
      is why the registry is keyed by the structured pair and not by the string. */
  lemma ToStringIsNotIdentity()
    ensures TradingPair("A_B", "C") != TradingPair("A", "B_C")
    ensures TradingPair("A_B", "C").ToString() == TradingPair("A", "B_C").ToString()
  {
  }

  const MissingPrefix: string := "orderbook for given trading pair ("
  const MissingSuffix: string := ") does not exist"

  /** The error `place_limit_order` returns for a pair with no book: the pair's
      canonical string between a fixed prefix and a fixed suffix. */
  function MissingMarketMessage(pair: TradingPair): (m: string)
    ensures |m| == |MissingPrefix| + |pair.ToString()| + |MissingSuffix|
    ensures m[..|MissingPrefix|] == MissingPrefix
    ensures m[|MissingPrefix|..|m| - |MissingSuffix|] == pair.ToString()
    ensures m[|m| - |MissingSuffix|..] == MissingSuffix
  {
    var m := MissingPrefix + pair.ToString() + MissingSuffix;
    assert m[|MissingPrefix|..|m| - |MissingSuffix|] == pair.ToString();
    m
  }

  /** Two error messages are equal exactly when they name the same canonical string. */
  lemma MissingMarketMessageNamesPair(p: TradingPair, q: TradingPair)
    ensures MissingMarketMessage(p) == MissingMarketMessage(q) <==> p.ToString() == q.ToString()
  {
    var mp, mq := MissingMarketMessage(p), MissingMarketMessage(q);
    if mp == mq {
      assert mp[|MissingPrefix|..|mp| - |MissingSuffix|] == mq[|MissingPrefix|..|mq| - |MissingSuffix|];
    }
  }

  /** The registry seen abstractly: the book of every registered pair. */
  type Books = map<TradingPair, BookView>

  /** The abstract effect of `MatchingEngine::place_limit_order`: the outcome, and
      the registry afterwards. */
  function PlaceOrder(books: Books, pair: TradingPair, price: Price, order: Order): (out: (Result<(), string>, Books))
    ensures out.0.Err? <==> pair !in books
    ensures out.0.Err? ==> out.0.error == MissingMarketMessage(pair) && out.1 == books
    ensures out.1.Keys == books.Keys
    ensures pair in books ==> out.1[pair] == AddToView(books[pair], price, order)
    ensures forall t :: t in books && t != pair ==> out.1[t] == books[t]
  {
    if pair in books then (Ok(()), books[pair := AddToView(books[pair], price, order)])
    else (Err(MissingMarketMessage(pair)), books)
  }

  /** Placing an order keeps every book's sides consistent and adds exactly one
      order to the routed book. */
  lemma PlaceOrderKeepsBooksConsistent(books: Books, pair: TradingPair, price: Price, order: Order)
    requires forall t :: t in books ==> SidesConsistent(books[t])
    ensures var after := PlaceOrder(books, pair, price, order).1;
            && (forall t :: t in after ==> SidesConsistent(after[t]))
            && (pair in books ==> TotalOrders(after[pair]) == TotalOrders(books[pair]) + 1)
  {
    if pair in books {
      AddToViewKeepsSidesConsistent(books[pair], price, order);
      AddToViewCountsOne(books[pair], price, order);
    }
  }

  /** A market just opened takes its first order: the outcome is `Ok`, and the book
      holds exactly one bucket, on the order's side, at the order's price. */
  lemma PlaceOrderIntoNewMarket(books: Books, pair: TradingPair, price: Price, order: Order)
    ensures var out := PlaceOrder(books[pair := BookView(map[], map[])], pair, price, order);
            && out.0 == Ok(())
            && out.1[pair] == if order.bidOrAsk == Bid then BookView(map[price := [order]], map[])
                              else BookView(map[], map[price := [order]])
  {
  }

  class MatchingEngine {
    var orderbooks: map<TradingPair, OrderBook>

    /** Every registered book is valid, and no book object is shared by two pairs:
        the registry owns each of its books outright. */
    ghost predicate Valid()
      reads this, orderbooks.Values
    {
      && (forall t :: t in orderbooks ==> orderbooks[t].Valid())
      && (forall t, u :: t in orderbooks && u in orderbooks && t != u ==> orderbooks[t] != orderbooks[u])
    }

    /** The books of the registry, pair by pair. */
    ghost function Books(): Books
      reads this, orderbooks.Values
    {
      map t | t in orderbooks :: orderbooks[t].View()
    }

    /** `MatchingEngine::new`: no market is registered. */
    constructor ()
      ensures Valid()
      ensures orderbooks == map[] && Books() == map[]
    {
      orderbooks := map[];
    }

    /** `MatchingEngine::add_new_market`: `pair` gets a new empty book, replacing any
        book it had; every other pair keeps its book object and its contents. */
    method AddNewMarket(pair: TradingPair)
      requires Valid()
      modifies this
      ensures Valid()
      ensures orderbooks.Keys == old(orderbooks.Keys) + {pair}
      ensures fresh(orderbooks[pair])
      ensures forall t :: t in old(orderbooks) && t != pair ==> orderbooks[t] == old(orderbooks[t])
      ensures Books() == old(Books())[pair := BookView(map[], map[])]
    {
      ghost var before := Books();
      var book := new OrderBook();
      orderbooks := orderbooks[pair := book];
      ghost var after := before[pair := BookView(map[], map[])];
      forall t | t in orderbooks
        ensures orderbooks[t].Valid() && orderbooks[t].View() == after[t]
      {
        if t != pair {
          assert orderbooks[t] == old(orderbooks[t]);
        }
      }
      assert Books() == after;
    }

    /** `MatchingEngine::place_limit_order`, with the price already converted to its
        exact key: the pair's book takes the order, or the pair is reported missing.
        No pair is added or removed and no other book is touched. */
    method PlaceLimitOrder(pair: TradingPair, price: Price, order: Order) returns (r: Result<(), string>)
      requires Valid()
      modifies if pair in orderbooks then {orderbooks[pair]} else {}
      ensures Valid()
      ensures orderbooks == old(orderbooks)
      ensures (r, Books()) == PlaceOrder(old(Books()), pair, price, order)
    {
      ghost var before := Books();
      if pair in orderbooks {
        var book := orderbooks[pair];
        book.AddOrder(price, order);
        ghost var after := before[pair := AddToView(before[pair], price, order)];
        forall t | t in orderbooks
          ensures orderbooks[t].Valid() && orderbooks[t].View() == after[t]
        {
          if t != pair {
            assert orderbooks[t] != book;
          }
        }
        assert Books() == after;
        r := Ok(());
      } else {
        r := Err(MissingMarketMessage(pair));
      }
    }
  }
}
