# Limit order book and market registry

A Dafny model of the insertion path of a small limit-order matching engine written in Rust.

An **order book** keeps the resting limit orders of one market in two tables, bids and asks. Each table maps an exact price to a **limit**: a price-level bucket holding the orders at that price in arrival order. Adding an order picks the table from the order's side. The order is appended to the bucket at its price; a bucket is created first when that price has none.

The **matching engine** is the market registry. It maps a trading pair (base and quote symbols) to that market's book. Opening a market installs a fresh empty book for the pair and replaces any book the pair already had. Placing a limit order routes it to the pair's book and returns `Ok(())`. For an unregistered pair it returns an error naming the pair's canonical string `"{base}_{quote}"`.

Layout:

- `orderbook.dfy`, module `Orderbook`:
  - the values `BidOrAsk`, `Price`, `Order` and `Limit`;
  - the abstract view of a book (`BookView`: per side, price ↦ queue of orders) and the specification `AddToView` of one insertion, with lemmas about it;
  - the class `OrderBook`, whose `AddOrder` updates the table of the order's side in place and is proved against `AddToView`.
- `engine.dfy`, module `Engine`:
  - `TradingPair`, its canonical string, and a parser that inverts that string;
  - the error message for a missing market;
  - the specification `PlaceOrder` of order routing;
  - the class `MatchingEngine`: `AddNewMarket` is proved to install an empty book in the registry view, and `PlaceLimitOrder` is proved against `PlaceOrder`.

The source's constructors `Order::new` and `TradingPair::new` only build records. They are the datatype constructors `Order(side, size)` and `TradingPair(base, quote)`. A `Price` is the source's `(integral, fractional, scalar)` triple of `u64`s, and the caller supplies it directly.

The code has no matching or filling operation, no per-bucket volume and no best-price ordering. `add_new_market` overwrites a book the pair already has. A missing market is reported as an `Err` carrying a formatted string.

## Model

| member | source | states |
|---|---|---|
| `Orderbook.Limit.AddOrder` | src/matching_engine/orderbook.rs:93-95 | the order is pushed on the back of the bucket's queue; earlier orders keep their positions and the bucket's price is unchanged |
| `Orderbook.NewLimit` | src/matching_engine/orderbook.rs:86-91 | a new bucket carries the given price and no orders |
| `Orderbook.AddToSide` | src/matching_engine/orderbook.rs:28-36 | the side's price set becomes old prices ∪ {price}; an existing bucket at that price gets the order appended after all earlier orders, kept in order; a missing bucket is created as exactly `[order]`; every bucket at another price is unchanged |
| `Orderbook.AddToView` | src/matching_engine/orderbook.rs:26-51 | a Bid order changes only the bids side and leaves asks exactly as before; an Ask order changes only asks and leaves bids exactly as before |
| `Orderbook.AddToViewKeepsSidesConsistent` | src/matching_engine/orderbook.rs:24-53 | if bid buckets hold only Bid orders and ask buckets only Ask orders, that still holds after an insertion |
| `Orderbook.AddToViewCountsOne` | src/matching_engine/orderbook.rs:24-53 | every insertion raises the number of orders in the book by exactly one |
| `Orderbook.AddAllQueuesInArrivalOrder` | src/matching_engine/orderbook.rs:26-38 | a series of same-side insertions at one price equals appending the whole series at once, in arrival order, behind what was queued there; the other side is untouched |
| `Orderbook.AddAllQueuesAtLevel` | src/matching_engine/orderbook.rs:26-51 | for every series of same-side insertions at one price, the empty one included, the queue at that price becomes the old queue followed by the series in arrival order; every other level and the other side are unchanged |
| `Orderbook.InsertIntoSide` | src/matching_engine/orderbook.rs:31-35 | one arm of `add_order` on a table of buckets: every bucket stays keyed by its own price, and the queues change as `AddToSide` says |
| `Orderbook.OrderBook.constructor` | src/matching_engine/orderbook.rs:16-21 | a new book has no bid buckets and no ask buckets, and satisfies the book invariant |
| `Orderbook.OrderBook.AddOrder` | src/matching_engine/orderbook.rs:24-53 | keeps the invariant (each bucket's price equals its key; each side holds only its own kind of order); the order's side becomes `InsertIntoSide` of its old table while the other table is unchanged; the view becomes `AddToView` of the old view; the order count grows by one |
| `Engine.TradingPair.ToString` | src/matching_engine/engine.rs:18-20 | the canonical string is the base, then `_`, then the quote, so its length is the length of the base plus the length of the quote plus one |
| `Engine.ParsePair` | src/matching_engine/engine.rs:18-20 | splitting at the first `_` fails exactly when there is none; otherwise it yields a pair whose canonical string is the input |
| `Engine.ParseToString` | src/matching_engine/engine.rs:18-20 | when the base has no `_`, parsing the canonical string gives back the pair |
| `Engine.ToStringIsNotIdentity` | src/matching_engine/engine.rs:7-11 | two different pairs can share one canonical string, so the registry key is the structured pair |
| `Engine.MissingMarketMessage` | src/matching_engine/engine.rs:51-54 | the error text is the fixed prefix `orderbook for given trading pair (`, then the pair's canonical string, then `) does not exist` |
| `Engine.MissingMarketMessageNamesPair` | src/matching_engine/engine.rs:51-54 | two error messages are equal exactly when they embed the same canonical string |
| `Engine.PlaceOrder` | src/matching_engine/engine.rs:45-55 | the result is `Err` exactly when the pair is unregistered; the `Err` carries the missing-market message and the registry is unchanged; the set of registered pairs never changes; the routed book changes as `AddToView`; every other book is unchanged |
| `Engine.PlaceOrderKeepsBooksConsistent` | src/matching_engine/engine.rs:45-49 | routing keeps every book's sides consistent and adds exactly one order to the routed book |
| `Engine.PlaceOrderIntoNewMarket` | src/matching_engine/engine.rs:34-49 | after a market is opened, its first order is accepted, and its book holds one bucket on the order's side at the order's price, containing just that order |
| `Engine.MatchingEngine.constructor` | src/matching_engine/engine.rs:28-32 | a new engine has no registered pairs |
| `Engine.MatchingEngine.AddNewMarket` | src/matching_engine/engine.rs:34-37 | the pair maps to a freshly allocated empty book, replacing any earlier one; pairs become old pairs ∪ {pair}; every other pair keeps its book object and contents |
| `Engine.MatchingEngine.PlaceLimitOrder` | src/matching_engine/engine.rs:39-56 | the outcome and the new registry view are exactly `PlaceOrder` of the old view; the pair-to-book table itself is unchanged; only the routed book may be written |

## Left out

- `Price::new` (f64 → price triple) is not modelled. It truncates floats with `as u64` and `% 1.0`. `OrderBook.AddOrder` and `MatchingEngine.PlaceLimitOrder` take the exact `Price` key instead of the `f64` price.
- Order sizes are `f64` in the code and `real` here. The code never computes with them.
- The `println!` logging in `add_new_market` and `place_limit_order` is not modelled.
- `HashMap` hashing and iteration order are not modelled. Dafny `map`s capture key equality, which is all the code relies on.
- `src/main.rs` (sample orders and calls) is demo wiring. Nothing in the model corresponds to it.
- Matching, filling, per-bucket volume, best-price ordering, cancellation and concurrency are not modelled because the code has none of them.
- Orderbook.Limit.AddOrder: a bucket is a value that its book's table owns. Appending returns the updated bucket, and `OrderBook.AddOrder` stores it back under the same price. The in-place `Vec::push` through `get_mut` is therefore not modelled as a write to a separate heap object. Rust's exclusive borrow makes the two indistinguishable.
- Engine.MatchingEngine.Valid: the requirement that no two pairs share one book object stands in for Rust's ownership of each book by the map.
