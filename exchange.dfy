/** The exchange's matching engine: one book per symbol, updated in place by each incoming order. */
module Engine {
  import opened Orders
  import opened Priority
  import opened Matching

  /** The book a symbol has, or the empty book it gets on first use. */
  function BookOf(books: map<string, Book>, symbol: string): (b: Book)
    ensures symbol in books ==> b == books[symbol]
    ensures symbol !in books ==> b.buy == [] && b.sell == []
    ensures AllValid(books) ==> ValidBook(symbol, b)
  {
    if symbol in books then books[symbol] else EmptyBook
  }

  /**
   * One fill: the incoming order, with `remaining` still to fill, trades against the front
   * entry of the opposite side, which crosses. The trade is min(remaining, front quantity) at
   * the front's price; the front is removed when its quantity reaches exactly zero and
   * reduced in place otherwise.
   */
  method FillFront(order: Order, remaining: nat, opposite: seq<Order>)
      returns (left: nat, rest: seq<Order>, trade: Trade)
    requires remaining > 0 && opposite != [] && MatchCondition(order.side, opposite[0].price, order.price)
    requires Sorted(Opposite(order.side), opposite)
    ensures Sorted(Opposite(order.side), rest)
    ensures |rest| < |opposite| || (|rest| == |opposite| && left < remaining)
    ensures left == remaining - Min(remaining, opposite[0].quantity)
    ensures rest == if opposite[0].quantity > remaining
                    then [opposite[0].(quantity := opposite[0].quantity - remaining)] + opposite[1..]
                    else opposite[1..]
    ensures trade == Fill(order, opposite[0], remaining - left)
    ensures var next := Match(order, left, rest);
      Match(order, remaining, opposite) == Outcome(next.remaining, next.opposite, [trade] + next.trades)
  {
    var index := 0;
    var best := opposite[index];
    var tradeQty: int;
    MatchStep(order, remaining, opposite);
    SortedAfterFill(Opposite(order.side), opposite, best.quantity - remaining);
    if best.quantity == remaining {
      tradeQty := remaining;
      rest := opposite[..index] + opposite[index + 1..];
      left := 0;
      assert rest == opposite[1..];
    } else if best.quantity > remaining {
      tradeQty := remaining;
      rest := opposite[index := best.(quantity := best.quantity - remaining)];
      left := 0;
      assert rest == [best.(quantity := best.quantity - remaining)] + opposite[1..];
    } else {
      tradeQty := best.quantity;
      rest := opposite[..index] + opposite[index + 1..];
      left := remaining - best.quantity;
      assert rest == opposite[1..];
    }
    trade := Fill(order, best, tradeQty);
  }

  /**
   * The matching loop of one incoming order against the opposite side of its book. Each
   * round re-sorts the opposite side by priority, scans it for the first entry that crosses
   * and fills against it; the loop ends when nothing is left to fill, the opposite side is
   * empty, or no entry crosses.
   */
  method MatchIncoming(order: Order, opposite: seq<Order>) returns (remaining: nat, rest: seq<Order>, trades: seq<Trade>)
    requires order.quantity > 0
    requires Sorted(Opposite(order.side), opposite)
    ensures Outcome(remaining, rest, trades) == Match(order, order.quantity, opposite)
  {
    rest := opposite;
    remaining := order.quantity;
    var matched := true;
    trades := [];
    ghost var goal := Match(order, order.quantity, opposite);

    while remaining > 0 && matched && |rest| > 0
      invariant Sorted(Opposite(order.side), rest)
      invariant var m := Match(order, remaining, rest);
        trades + m.trades == goal.trades && m.remaining == goal.remaining && m.opposite == goal.opposite
      invariant !matched ==> Match(order, remaining, rest) == Outcome(remaining, rest, [])
      decreases |rest|, remaining, matched
    {
      // The opposite side is already in priority order, so sorting it changes nothing.
      var sorted := StableSort(Opposite(order.side), rest);
      StableSortOfSorted(Opposite(order.side), rest);
      matched := false;
      var k := FindCrossing(order.side, order.price, sorted);
      FrontDecides(order.side, order.price, rest);
      if k < |sorted| {
        matched := true;
        // The crossing entry is the front one, so its position in the unsorted list is 0.
        assert k == 0;
        var trade;
        ghost var traded := trades;
        remaining, rest, trade := FillFront(order, remaining, rest);
        trades := trades + [trade];
        assert trades + Match(order, remaining, rest).trades == traded + ([trade] + Match(order, remaining, rest).trades);
      }
    }
  }

  /**
   * Rests what is left of the incoming order on its own side: when something is left, a copy
   * of the order with that quantity is appended and the side is sorted again.
   */
  method AddResidual(order: Order, remaining: nat, same: seq<Order>) returns (updated: seq<Order>)
    requires Sorted(order.side, same)
    ensures updated == if remaining > 0 then Insert(order.side, same, order.(quantity := remaining)) else same
  {
    updated := same;
    if remaining > 0 {
      var residual := Order(order.username, order.side, order.symbol, order.price, remaining);
      SortAfterAppend(order.side, same, residual);
      updated := StableSort(order.side, updated + [residual]);
    }
  }

  /**
   * The work done on one symbol's book for an incoming order: pick the opposite and the same
   * side, run the matching loop on the opposite side, then rest the remainder on the same side.
   */
  method ProcessBook(book: Book, order: Order) returns (e: Execution)
    requires ValidBook(order.symbol, book) && order.quantity > 0
    ensures e == ApplyOrder(book, order)
  {
    ValidBookSides(order.symbol, book, order.side);
    ValidBookSides(order.symbol, book, Opposite(order.side));
    var opposite := SideOf(book, Opposite(order.side));
    var same := SideOf(book, order.side);
    var remaining, rest, trades := MatchIncoming(order, opposite);
    same := AddResidual(order, remaining, same);
    e := Execution(Arrange(order.side, same, rest), trades);
  }

  /** Every book in the registry keeps the book invariant. */
  predicate AllValid(books: map<string, Book>)
  {
    forall symbol :: symbol in books ==> ValidBook(symbol, books[symbol])
  }

  lemma UpdateKeepsAllValid(books: map<string, Book>, symbol: string, b: Book)
    requires AllValid(books) && ValidBook(symbol, b)
    ensures AllValid(books[symbol := b])
  {
  }

  class Exchange {
    /** The books of every symbol seen so far; a symbol, once added, is never removed. */
    var orderBooks: map<string, Book>

    ghost predicate Valid()
      reads this
    {
      AllValid(orderBooks)
    }

    constructor ()
      ensures Valid() && orderBooks == map[]
    {
      orderBooks := map[];
    }

    /** Creates an empty book for `symbol` if it has none; an existing book is left as it is. */
    method InitSymbolIfNeeded(symbol: string)
      requires Valid()
      modifies this
      ensures Valid()
      ensures symbol in orderBooks
      ensures orderBooks == if symbol in old(orderBooks) then old(orderBooks)
                            else old(orderBooks)[symbol := EmptyBook]
    {
      if symbol !in orderBooks {
        UpdateKeepsAllValid(orderBooks, symbol, EmptyBook);
        orderBooks := orderBooks[symbol := EmptyBook];
      }
    }

    /**
     * Matches `order` against the opposite side of its symbol's book and returns the trades
     * made; an unfilled remainder is appended to the order's own side, which is then sorted
     * again. Only the order's symbol's book changes.
     */
    method OnOrderReceived(order: Order) returns (trades: seq<Trade>)
      requires Valid()
      requires order.quantity > 0
      modifies this
      ensures Valid()
      ensures var e := ApplyOrder(BookOf(old(orderBooks), order.symbol), order);
        orderBooks == old(orderBooks)[order.symbol := e.book] && trades == e.trades
    {
      ghost var start := BookOf(orderBooks, order.symbol);
      InitSymbolIfNeeded(order.symbol);
      var book := orderBooks[order.symbol];
      assert book == start;
      var e := ProcessBook(book, order);
      trades := e.trades;
      ApplyKeepsBookValid(book, order);
      UpdateKeepsAllValid(orderBooks, order.symbol, e.book);
      orderBooks := orderBooks[order.symbol := e.book];
    }
  }
}
