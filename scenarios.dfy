/** Worked examples of the matching engine on small books of one symbol. */
module Scenarios {
  import opened Orders
  import opened Priority
  import opened Matching

  /** A sell rests in an empty book; a buy above it then fills it completely at the sell's price. */
  lemma RestThenCross()
    ensures var e1 := ApplyOrder(EmptyBook, Order("ann", Sell, "AAPL", 100, 10));
      var e2 := ApplyOrder(e1.book, Order("ben", Buy, "AAPL", 101, 10));
      && e1.trades == [] && e1.book == Book([], [Order("ann", Sell, "AAPL", 100, 10)])
      && e2.trades == [Trade("AAPL", "ben", "ann", 100, 10)] && e2.book == EmptyBook
  {
    var e1 := ApplyOrder(EmptyBook, Order("ann", Sell, "AAPL", 100, 10));
    assert e1.book == Book([], [Order("ann", Sell, "AAPL", 100, 10)]);
    var o2 := Order("ben", Buy, "AAPL", 101, 10);
    assert Match(o2, 10, e1.book.sell) == Outcome(0, [], [Trade("AAPL", "ben", "ann", 100, 10)]);
  }

  /** A buy sweeps the better ask first, then part of the next one, which stays reduced. */
  lemma BestPriceFirst()
    ensures var b1 := ApplyOrder(EmptyBook, Order("ann", Sell, "AAPL", 100, 5)).book;
      var b2 := ApplyOrder(b1, Order("ben", Sell, "AAPL", 99, 5)).book;
      var e := ApplyOrder(b2, Order("cat", Buy, "AAPL", 100, 7));
      && b2 == Book([], [Order("ben", Sell, "AAPL", 99, 5), Order("ann", Sell, "AAPL", 100, 5)])
      && e.trades == [Trade("AAPL", "cat", "ben", 99, 5), Trade("AAPL", "cat", "ann", 100, 2)]
      && e.book == Book([], [Order("ann", Sell, "AAPL", 100, 3)])
  {
    var ann := Order("ann", Sell, "AAPL", 100, 5);
    var ben := Order("ben", Sell, "AAPL", 99, 5);
    var b1 := ApplyOrder(EmptyBook, ann).book;
    assert b1 == Book([], [ann]);
    assert Insert(Sell, [ann], ben) == [ben, ann];
    var b2 := ApplyOrder(b1, ben).book;
    assert b2 == Book([], [ben, ann]);
    var cat := Order("cat", Buy, "AAPL", 100, 7);
    assert [ben, ann][1..] == [ann];
    assert Match(cat, 2, [ann]) == Outcome(0, [ann.(quantity := 3)], [Trade("AAPL", "cat", "ann", 100, 2)]);
    assert Match(cat, 7, [ben, ann]).trades == [Trade("AAPL", "cat", "ben", 99, 5), Trade("AAPL", "cat", "ann", 100, 2)];
  }

  /** Two bids at the same price are filled in arrival order. */
  lemma EarliestFirstAtEqualPrice()
    ensures var b1 := ApplyOrder(EmptyBook, Order("ann", Buy, "AAPL", 100, 10)).book;
      var b2 := ApplyOrder(b1, Order("ben", Buy, "AAPL", 100, 5)).book;
      var e := ApplyOrder(b2, Order("cat", Sell, "AAPL", 100, 12));
      && e.trades == [Trade("AAPL", "ann", "cat", 100, 10), Trade("AAPL", "ben", "cat", 100, 2)]
      && e.book == Book([Order("ben", Buy, "AAPL", 100, 3)], [])
  {
    var ann := Order("ann", Buy, "AAPL", 100, 10);
    var ben := Order("ben", Buy, "AAPL", 100, 5);
    var b1 := ApplyOrder(EmptyBook, ann).book;
    assert b1 == Book([ann], []);
    assert Insert(Buy, [ann], ben) == [ann, ben];
    var b2 := ApplyOrder(b1, ben).book;
    assert b2 == Book([ann, ben], []);
    var cat := Order("cat", Sell, "AAPL", 100, 12);
    assert [ann, ben][1..] == [ben];
    assert Match(cat, 2, [ben]) == Outcome(0, [ben.(quantity := 3)], [Trade("AAPL", "ben", "cat", 100, 2)]);
  }

  /** Orders that do not cross both rest. */
  lemma NonCrossingOrdersRest()
    ensures var b1 := ApplyOrder(EmptyBook, Order("ann", Sell, "MSFT", 50, 10)).book;
      var e := ApplyOrder(b1, Order("ben", Buy, "MSFT", 40, 10));
      && e.trades == []
      && e.book == Book([Order("ben", Buy, "MSFT", 40, 10)], [Order("ann", Sell, "MSFT", 50, 10)])
  {
    var b1 := ApplyOrder(EmptyBook, Order("ann", Sell, "MSFT", 50, 10)).book;
    assert b1 == Book([], [Order("ann", Sell, "MSFT", 50, 10)]);
  }
}
