# Order-matching engine, modelled in Dafny

This project models the matching engine of a small exchange (`exchange.py`, class
`Exchange`). The engine keeps one order book per symbol. Each book holds a list of resting
buy orders and a list of resting sell orders. For each incoming order the engine:

1. creates the symbol's book if it does not exist yet;
2. repeatedly takes the best opposite order that crosses the incoming limit
   (a sell at or below a buy's price, a buy at or above a sell's price);
3. trades min(remaining, resting quantity) at the resting (maker) order's price;
4. removes the resting order when it is used up, or lowers its quantity in place;
5. appends any unfilled remainder to the order's own side and re-sorts that side.

Buys are kept highest price first and sells lowest price first. The sort is stable, so
orders at the same price stay in arrival order.

Files and modules:

- `orders.dfy`, module `Orders`: orders, trades and books as datatypes. It also defines the
  priority order of each side, the book invariant `ValidBook`, quantity sums and price
  levels (`AtPrice`, the entries at one price in list order).
- `priority.dfy`, module `Priority`: `Insert` (put an order after every entry of equal or
  better price) and `StableSort` (the stable sort by price that Python's `sorted` and
  `list.sort` perform). It proves that a sorted side has exactly one stable sort, so
  "append then sort" is the same as `Insert`.
- `matching.dfy`, module `Matching`: the crossing test, the scan for the first crossing
  entry, and the specification function `Match` for the matching loop. `ApplyOrder` is one
  order applied to one book. The module holds the lemmas about both.
- `exchange.dfy`, module `Engine`: class `Exchange` with the map field `orderBooks`. Its
  methods change that map in place. The matching loop and the residual insertion are
  methods proved against `Match` and `Insert`.
- `scenarios.dfy`, module `Scenarios`: small worked examples computed from `ApplyOrder`.

Prices and quantities are mathematical integers. Prices are only compared, never used in
arithmetic, so nothing depends on floating point.

The class invariant `Exchange.Valid()` says that every book meets these conditions:

- both sides are sorted by priority;
- every resting order has a positive quantity and the side and symbol of its list;
- the book is not crossed: the best bid is strictly below the best ask, or a side is empty.

`OnOrderReceived` preserves this invariant.

Two facts about the code shape the model:

- The code scans the whole re-sorted opposite list for the first entry that crosses
  (`Matching.FindCrossing`). `Matching.FrontDecides` proves that on a sorted side this is
  the front entry or none.
- The code places no condition on the price, and neither does the model.

## Model

| member | source | states |
|---|---|---|
| `Engine.Exchange.constructor` | exchange.py:14-21 | a new exchange has no books and satisfies the invariant |
| `Engine.BookOf` | exchange.py:28-29 | the symbol's existing book, or an empty book when it has none; on a registry of valid books the result is a valid book |
| `Engine.Exchange.InitSymbolIfNeeded` | exchange.py:23-29 | adds an empty book only when the symbol has none; an existing book and all other books are left unchanged; the invariant is kept |
| `Engine.Exchange.OnOrderReceived` | exchange.py:31-152 | the symbol's book (created empty if absent) becomes `ApplyOrder(book, order).book`; every other symbol's book is unchanged; the trades returned are `ApplyOrder(...).trades`; every book still satisfies the invariant (sorted, live entries, not crossed) |
| `Engine.ProcessBook` | exchange.py:59-149 | selecting the opposite and same side, matching, then resting the remainder gives exactly `ApplyOrder(book, order)` |
| `Engine.MatchIncoming` | exchange.py:81-131 | the loop (re-sort, scan, fill, repeat) ends, and the remaining quantity, opposite side and trades it leaves are exactly `Match(order, quantity, opposite)` |
| `Engine.FillFront` | exchange.py:98-129 | one fill trades min(remaining, front quantity) at the front order's price; the front is removed when its quantity equals or is below what remains and lowered in place otherwise; the side stays sorted, and either shortens or `remaining` drops (the loop's termination measure); the result composes with `Match` of what is left |
| `Engine.AddResidual` | exchange.py:134-149 | appending the residual and stably re-sorting equals inserting a copy of the order with the remaining quantity after all entries of equal or better price; nothing is added when nothing remains |
| `Matching.FindCrossing` | exchange.py:91-95 | returns the position of the first entry that crosses the limit, or the length of the list when none does |
| `Matching.FrontDecides` | exchange.py:64-79 | on a side sorted by priority, some entry crosses exactly when the front entry crosses |
| `Matching.MatchCondition` | exchange.py:67-77 | a resting opposite price crosses exactly when it ranks at least as well as the incoming limit in the opposite side's own priority order (at or below a buy's limit, at or above a sell's) |
| `Matching.Fill` | exchange.py:118-128 | the trade has the order's symbol, the resting (maker) order's price and the given quantity; the incoming user is the buyer on a BUY and the seller on a SELL, and the resting user takes the other role |
| `Matching.Match` | exchange.py:86-131 | the matching loop as a function: it makes at most one trade per resting entry, the opposite side only shrinks by entries it traded against, and with no trade nothing changes (remaining and opposite side as they came in) |
| `Matching.SortedAfterFill` | exchange.py:105-116 | removing the front entry or lowering its quantity keeps a side sorted |
| `Matching.MatchConservation` | exchange.py:102-116 | traded quantity plus the remainder equals the incoming quantity; the quantity taken off the opposite side equals the traded quantity |
| `Matching.MatchTradesFollowBook` | exchange.py:118-128 | the k-th trade is against the k-th resting order, which crosses the limit; its price is that resting order's price; its symbol is the order's; the buyer is the incoming user on a BUY and the resting user on a SELL, and the seller is the reverse |
| `Matching.MatchTradeQuantities` | exchange.py:102-116 | each trade's quantity is min(what is still unfilled before it, the resting order's quantity) |
| `Matching.MatchFullFills` | exchange.py:112-116 | every trade except the last fills its resting order completely |
| `Matching.MatchTradesPositive` | exchange.py:102-116 | when all resting quantities are positive, every trade quantity is positive |
| `Matching.MatchRemainder` | exchange.py:102-116 | afterwards the opposite side is the unmatched suffix, possibly headed by the last matched order with its quantity lowered to a positive amount (then the incoming order is exhausted); if no entry is reduced, every matched order was filled completely |
| `Matching.MatchStops` | exchange.py:86-93 | if quantity is left, every matched order was removed, and the opposite side is empty or its front does not cross |
| `Matching.MatchKeepsSide` | exchange.py:102-116 | matching keeps the opposite side sorted with live entries of its side and symbol, and its front price never gets better |
| `Matching.ApplyOrder` | exchange.py:59-149 | one order applied to a book: at most one trade per resting opposite entry, and when nothing trades the opposite side is unchanged and the whole order rests at its priority position |
| `Matching.ApplyConservation` | exchange.py:81-143 | traded quantity is at most the order's quantity; the opposite side loses exactly the traded quantity; the order's own side gains exactly the untraded quantity |
| `Matching.ApplyResidual` | exchange.py:134-149 | a fully filled order never enters the book; otherwise a copy with the order's user, side, symbol and price and the unfilled quantity is inserted; every price level of that side is its old level followed by the residual if it has that price (FIFO) |
| `Matching.ApplyKeepsBookValid` | exchange.py:59-149 | one order keeps a book valid: both sides sorted, only live entries of the right side and symbol, best bid strictly below best ask |
| `Priority.Insert` | exchange.py:143-149 | the result is the old side plus the new entry, as a multiset |
| `Priority.InsertSorted` | exchange.py:143-149 | inserting keeps a side sorted by priority |
| `Priority.InsertStable` | exchange.py:143-149 | inserting into a sorted side keeps each price level in arrival order, with the new entry last in its level |
| `Priority.InsertSum` | exchange.py:136-143 | inserting adds exactly the new entry's quantity to the side |
| `Priority.StableSort` | exchange.py:71-79 | the result is sorted by priority and is a permutation of the input |
| `Priority.StableSortKeepsLevels` | exchange.py:147-149 | the sort is stable: each price level keeps its input order |
| `Priority.SortedByLevelsUnique` | exchange.py:143-149 | two sorted lists with the same price levels are equal, so a stable sort has only one possible result |
| `Priority.StableSortOfSorted` | exchange.py:86-88 | sorting an already sorted side leaves it unchanged |
| `Priority.SortAfterAppend` | exchange.py:143-149 | appending to a sorted side and stably sorting equals `Insert` |
| `Scenarios.RestThenCross` | exchange.py:31-152 | a sell rests in an empty book; a higher buy of the same size fills it at the sell's price and empties the book |
| `Scenarios.BestPriceFirst` | exchange.py:31-152 | a buy fills the cheaper ask first, then part of the next one, which stays with its quantity reduced |
| `Scenarios.EarliestFirstAtEqualPrice` | exchange.py:31-152 | two bids at one price are filled in arrival order; the later one keeps the rest |
| `Scenarios.NonCrossingOrdersRest` | exchange.py:31-152 | a buy below the best ask makes no trade, and both orders rest |

## Left out

- `main` (exchange.py:154-222): argument parsing, the message-queue connection, JSON
  decoding, publishing trades and acknowledging messages. These are I/O and calls into a
  library that is not part of this model.
- GUI.py and send_order.py: a desktop viewer fed by a consumer thread, and an interactive
  console producer. Both are I/O and concurrency around the engine.
- Floating-point prices: prices are integers. The engine only compares them.
- Sides: the code compares the side string with "BUY" and treats every other value as a
  sell. The model has a two-valued `Side`, so an unknown side string is not represented.
- Input validation: the code checks nothing. `OnOrderReceived` requires a positive
  quantity. Zero or negative quantities, and missing fields, are not modelled.
- `list.index` by dictionary equality (exchange.py:98): the model uses the position found
  by the scan. On a sorted side that position is 0, which is also the first equal entry.
- Aliasing: Python changes the book's lists in place through local names. The model copies
  the two sides into local sequences and writes the book back into the map at the end of
  the call. Nothing observes the book during a call, so the outcome is the same.
- Conservation over a whole sequence of orders is not stated as one lemma. It follows by
  induction from the per-order `Matching.ApplyConservation`.
