/** Orders, trades and the per-symbol book of the exchange's matching engine. */
module Orders {

  /** The side of an order. Any side other than BUY is handled as SELL by the engine. */
  datatype Side = Buy | Sell

  function Opposite(s: Side): (t: Side)
    ensures t != s
  {
    if s == Buy then Sell else Buy
  }

  /** An order as the engine keeps it. Prices are only ever compared, never combined. */
  datatype Order = Order(username: string, side: Side, symbol: string, price: int, quantity: int)

  /** One match between the incoming order and one resting order. */
  datatype Trade = Trade(symbol: string, buyer: string, seller: string, price: int, quantity: int)

  /** The book of one symbol: its resting buy orders and its resting sell orders. */
  datatype Book = Book(buy: seq<Order>, sell: seq<Order>)

  const EmptyBook := Book([], [])

  /** The list of side `s` of a book. */
  function SideOf(b: Book, s: Side): (xs: seq<Order>)
    ensures xs == b.buy || xs == b.sell
  {
    if s == Buy then b.buy else b.sell
  }

  /** The book whose side `s` is `same` and whose other side is `opposite`. */
  function Arrange(s: Side, same: seq<Order>, opposite: seq<Order>): (b: Book)
    ensures SideOf(b, s) == same && SideOf(b, Opposite(s)) == opposite
  {
    if s == Buy then Book(same, opposite) else Book(opposite, same)
  }

  /**
   * On a list resting on side `s`, price `p` ranks at least as well as price `q`:
   * the buy list is kept highest price first, the sell list lowest price first.
   */
  predicate AtLeastAsGood(s: Side, p: int, q: int)
  {
    if s == Buy then p >= q else p <= q
  }

  /** Best price first; entries of equal price may come in any relative order here. */
  predicate Sorted(s: Side, xs: seq<Order>)
  {
    forall i, j :: 0 <= i < j < |xs| ==> AtLeastAsGood(s, xs[i].price, xs[j].price)
  }

  predicate AllPositive(xs: seq<Order>)
  {
    forall x :: x in xs ==> x.quantity > 0
  }

  /** Every entry of a list resting on side `s` of the book of `symbol` is a live order of that side and symbol. */
  predicate Resting(s: Side, symbol: string, xs: seq<Order>)
  {
    AllPositive(xs) && forall x :: x in xs ==> x.side == s && x.symbol == symbol
  }

  /** At rest, the best bid is strictly below the best ask (or a side is empty). */
  predicate NotCrossed(b: Book)
  {
    b.buy == [] || b.sell == [] || b.buy[0].price < b.sell[0].price
  }

  /** The invariant every book of the exchange keeps between two orders. */
  predicate ValidBook(symbol: string, b: Book)
  {
    && Sorted(Buy, b.buy) && Sorted(Sell, b.sell)
    && Resting(Buy, symbol, b.buy) && Resting(Sell, symbol, b.sell)
    && NotCrossed(b)
  }

  lemma ValidBookSides(symbol: string, b: Book, s: Side)
    requires ValidBook(symbol, b)
    ensures Sorted(s, SideOf(b, s)) && Resting(s, symbol, SideOf(b, s))
  {
  }

  function Min(a: int, b: int): (m: int)
    ensures m <= a && m <= b && (m == a || m == b)
  {
    if a <= b then a else b
  }

  /** Total quantity resting in a list. */
  function SumQty(xs: seq<Order>): (total: int)
  {
    if xs == [] then 0 else xs[0].quantity + SumQty(xs[1..])
  }

  /** Total quantity of a sequence of trades. */
  function SumTraded(ts: seq<Trade>): (total: int)
  {
    if ts == [] then 0 else ts[0].quantity + SumTraded(ts[1..])
  }

  /** The entries of `xs` at price `p`, in list order: one price level and its FIFO queue. */
  function AtPrice(xs: seq<Order>, p: int): (level: seq<Order>)
  {
    if xs == [] then [] else (if xs[0].price == p then [xs[0]] else []) + AtPrice(xs[1..], p)
  }

  lemma {:induction false} AtPriceMembers(xs: seq<Order>, p: int)
    ensures forall x :: x in AtPrice(xs, p) <==> x in xs && x.price == p
  {
    if xs != [] {
      AtPriceMembers(xs[1..], p);
      assert xs == [xs[0]] + xs[1..];
    }
  }

  lemma {:induction false} AtPriceNone(xs: seq<Order>, p: int)
    requires forall x :: x in xs ==> x.price != p
    ensures AtPrice(xs, p) == []
  {
    if xs != [] {
      AtPriceNone(xs[1..], p);
    }
  }

  /** Two lists with the same price levels are both empty or both non-empty. */
  lemma LevelsAgreeNonEmpty(a: seq<Order>, b: seq<Order>)
    requires forall p :: AtPrice(a, p) == AtPrice(b, p)
    requires a != []
    ensures b != []
  {
    var p := a[0].price;
    assert AtPrice(a, p) != [];
    assert AtPrice(b, p) == AtPrice(a, p);
  }

  lemma {:induction false} AtPriceConcat(a: seq<Order>, b: seq<Order>)
    ensures forall p :: AtPrice(a + b, p) == AtPrice(a, p) + AtPrice(b, p)
  {
    if a != [] {
      AtPriceConcat(a[1..], b);
      assert (a + b)[1..] == a[1..] + b;
    } else {
      assert a + b == b;
    }
  }

  lemma {:induction false} SumTradedConcat(a: seq<Trade>, b: seq<Trade>)
    ensures SumTraded(a + b) == SumTraded(a) + SumTraded(b)
  {
    if a != [] {
      SumTradedConcat(a[1..], b);
      assert (a + b)[1..] == a[1..] + b;
    } else {
      assert a + b == b;
    }
  }
}
