/**
 * Matching one incoming order against the opposite side of its book under price-time
 * priority, with partial fills, as a specification over values.
 */
module Matching {
  import opened Orders
  import opened Priority

  /**
   * Whether a resting opposite order at `oppositePrice` crosses an incoming order of side
   * `side` and limit `myPrice`: a sell at or below a buy's limit, a buy at or above a sell's.
   */
  predicate MatchCondition(side: Side, oppositePrice: int, myPrice: int)
    // Crossing is the opposite side's own priority order: the resting price ranks at least
    // as well as the incoming limit would on that side.
    ensures MatchCondition(side, oppositePrice, myPrice) <==> AtLeastAsGood(Opposite(side), oppositePrice, myPrice)
  {
    if side == Buy then oppositePrice <= myPrice else oppositePrice >= myPrice
  }

  /**
   * Scans `candidates` in order and returns the position of the first one that crosses,
   * or |candidates| when none does.
   */
  method FindCrossing(side: Side, myPrice: int, candidates: seq<Order>) returns (k: nat)
    ensures k <= |candidates|
    ensures forall j :: 0 <= j < k ==> !MatchCondition(side, candidates[j].price, myPrice)
    ensures k < |candidates| ==> MatchCondition(side, candidates[k].price, myPrice)
  {
    k := 0;
    while k < |candidates| && !MatchCondition(side, candidates[k].price, myPrice)
      invariant k <= |candidates|
      invariant forall j :: 0 <= j < k ==> !MatchCondition(side, candidates[j].price, myPrice)
    {
      k := k + 1;
    }
  }

  /**
   * On an opposite side kept in priority order, some entry crosses exactly when the
   * front entry does: the front is the best price available.
   */
  lemma {:induction false} FrontDecides(side: Side, myPrice: int, opposite: seq<Order>)
    requires Sorted(Opposite(side), opposite) && opposite != []
    ensures MatchCondition(side, opposite[0].price, myPrice)
        <==> exists j :: 0 <= j < |opposite| && MatchCondition(side, opposite[j].price, myPrice)
  {
    if exists j :: 0 <= j < |opposite| && MatchCondition(side, opposite[j].price, myPrice) {
      var j :| 0 <= j < |opposite| && MatchCondition(side, opposite[j].price, myPrice);
      if j > 0 {
        assert AtLeastAsGood(Opposite(side), opposite[0].price, opposite[j].price);
      }
    }
  }

  /** The trade of the incoming order `o` against the resting order `resting`, at the resting price. */
  function Fill(o: Order, resting: Order, qty: int): (t: Trade)
    ensures t.symbol == o.symbol && t.price == resting.price && t.quantity == qty
    ensures (if o.side == Buy then t.buyer else t.seller) == o.username
    ensures (if o.side == Buy then t.seller else t.buyer) == resting.username
  {
    Trade(o.symbol,
          if o.side == Buy then o.username else resting.username,
          if o.side == Buy then resting.username else o.username,
          resting.price, qty)
  }

  /** What is left after matching: the unfilled quantity, the opposite side, and the trades made. */
  datatype Outcome = Outcome(remaining: nat, opposite: seq<Order>, trades: seq<Trade>)

  /**
   * Matches `remaining` units of `o` against `opposite` from its front: while something is
   * left and the front entry crosses, trade min(remaining, front quantity) at the front's
   * price, removing the front when its quantity reaches exactly zero and reducing it in
   * place otherwise.
   */
  function Match(o: Order, remaining: nat, opposite: seq<Order>): (r: Outcome)
    ensures |r.trades| <= |opposite|
    ensures |r.opposite| <= |opposite| <= |r.opposite| + |r.trades|
    ensures r.trades == [] ==> r.remaining == remaining && r.opposite == opposite
    decreases |opposite|, remaining
  {
    if remaining == 0 || opposite == [] || !MatchCondition(o.side, opposite[0].price, o.price) then
      Outcome(remaining, opposite, [])
    else
      var best := opposite[0];
      if best.quantity == remaining then
        Outcome(0, opposite[1..], [Fill(o, best, remaining)])
      else if best.quantity > remaining then
        Outcome(0, [best.(quantity := best.quantity - remaining)] + opposite[1..], [Fill(o, best, remaining)])
      else
        var rest := Match(o, remaining - best.quantity, opposite[1..]);
        Outcome(rest.remaining, rest.opposite, [Fill(o, best, best.quantity)] + rest.trades)
  }

  /**
   * One round of matching: when the front entry crosses, the outcome is one trade of
   * min(remaining, front quantity) at the front's price followed by the outcome of matching
   * what is left against the side with the front removed or reduced.
   */
  lemma MatchStep(o: Order, remaining: nat, opposite: seq<Order>)
    requires remaining > 0 && opposite != [] && MatchCondition(o.side, opposite[0].price, o.price)
    ensures var best := opposite[0];
      var qty := Min(remaining, best.quantity);
      var rest := if best.quantity > remaining then [best.(quantity := best.quantity - remaining)] + opposite[1..]
                  else opposite[1..];
      var next := Match(o, remaining - qty, rest);
      Match(o, remaining, opposite) == Outcome(next.remaining, next.opposite, [Fill(o, best, qty)] + next.trades)
  {
  }

  /** Removing the front of a sorted side, or lowering its quantity, keeps it sorted. */
  lemma SortedAfterFill(s: Side, xs: seq<Order>, q: int)
    requires Sorted(s, xs) && xs != []
    ensures Sorted(s, xs[1..])
    ensures Sorted(s, [xs[0].(quantity := q)] + xs[1..])
  {
    var ys := [xs[0].(quantity := q)] + xs[1..];
    forall i, j | 0 <= i < j < |ys| ensures AtLeastAsGood(s, ys[i].price, ys[j].price) {
      assert ys[i].price == xs[i].price && ys[j].price == xs[j].price;
    }
  }

  /**
   * Conservation: what was traded plus what is left equals what came in, and the quantity
   * taken off the opposite side equals what was traded.
   */
  lemma {:induction false} MatchConservation(o: Order, remaining: nat, opposite: seq<Order>)
    ensures SumTraded(Match(o, remaining, opposite).trades) + Match(o, remaining, opposite).remaining == remaining
    ensures SumQty(opposite) == SumQty(Match(o, remaining, opposite).opposite) + SumTraded(Match(o, remaining, opposite).trades)
    decreases |opposite|
  {
    var r := Match(o, remaining, opposite);
    if remaining == 0 || opposite == [] || !MatchCondition(o.side, opposite[0].price, o.price) {
    } else {
      var best := opposite[0];
      if best.quantity > remaining {
        assert ([best.(quantity := best.quantity - remaining)] + opposite[1..])[1..] == opposite[1..];
      } else if best.quantity < remaining {
        var rest := Match(o, remaining - best.quantity, opposite[1..]);
        MatchConservation(o, remaining - best.quantity, opposite[1..]);
        assert ([Fill(o, best, best.quantity)] + rest.trades)[1..] == rest.trades;
      }
    }
  }

  /**
   * The k-th trade is made against the k-th resting order of the opposite side, which
   * crosses the incoming limit; it is priced at that resting (maker) order's price, carries
   * the order's symbol, and names the incoming user on the incoming side.
   */
  lemma {:induction false} MatchTradesFollowBook(o: Order, remaining: nat, opposite: seq<Order>)
    ensures |Match(o, remaining, opposite).trades| <= |opposite|
    ensures forall k :: 0 <= k < |Match(o, remaining, opposite).trades| ==>
      var t := Match(o, remaining, opposite).trades[k];
      && MatchCondition(o.side, opposite[k].price, o.price)
      && t.price == opposite[k].price
      && t.symbol == o.symbol
      && t.buyer == (if o.side == Buy then o.username else opposite[k].username)
      && t.seller == (if o.side == Buy then opposite[k].username else o.username)
    decreases |opposite|
  {
    if remaining == 0 || opposite == [] || !MatchCondition(o.side, opposite[0].price, o.price) {
    } else if opposite[0].quantity < remaining {
      var best := opposite[0];
      var rest := Match(o, remaining - best.quantity, opposite[1..]);
      MatchTradesFollowBook(o, remaining - best.quantity, opposite[1..]);
      var ts := [Fill(o, best, best.quantity)] + rest.trades;
      forall k | 1 <= k < |ts| ensures ts[k] == rest.trades[k - 1] && opposite[k] == opposite[1..][k - 1] {
      }
    }
  }

  /**
   * Each trade takes the smaller of what is still to be filled (the incoming quantity less
   * the trades before it) and the resting order's quantity.
   */
  lemma {:induction false} MatchTradeQuantities(o: Order, remaining: nat, opposite: seq<Order>)
    ensures |Match(o, remaining, opposite).trades| <= |opposite|
    ensures forall k :: 0 <= k < |Match(o, remaining, opposite).trades| ==>
      var ts := Match(o, remaining, opposite).trades;
      ts[k].quantity == Min(remaining - SumTraded(ts[..k]), opposite[k].quantity)
    decreases |opposite|
  {
    if remaining == 0 || opposite == [] || !MatchCondition(o.side, opposite[0].price, o.price) {
    } else {
      var best := opposite[0];
      var ts := Match(o, remaining, opposite).trades;
      assert ts[..0] == [];
      if best.quantity < remaining {
        var rem' := remaining - best.quantity;
        var rest := Match(o, rem', opposite[1..]);
        MatchTradeQuantities(o, rem', opposite[1..]);
        assert ts == [Fill(o, best, best.quantity)] + rest.trades;
        forall k | 1 <= k < |ts|
          ensures ts[k].quantity == Min(remaining - SumTraded(ts[..k]), opposite[k].quantity)
        {
          TradedBefore(ts[0], rest.trades, k);
          assert ts[k] == rest.trades[k - 1] && opposite[k] == opposite[1..][k - 1];
        }
      }
    }
  }

  lemma TradedBefore(t: Trade, ts: seq<Trade>, k: nat)
    requires 1 <= k <= |ts| + 1
    ensures SumTraded(([t] + ts)[..k]) == t.quantity + SumTraded(ts[..k - 1])
  {
    var pre := ([t] + ts)[..k];
    assert pre == [t] + ts[..k - 1];
    assert pre[1..] == ts[..k - 1];
  }

  /** Every trade but the last fills its resting order completely. */
  lemma {:induction false} MatchFullFills(o: Order, remaining: nat, opposite: seq<Order>)
    ensures |Match(o, remaining, opposite).trades| <= |opposite|
    ensures forall k :: 0 <= k < |Match(o, remaining, opposite).trades| - 1 ==>
      Match(o, remaining, opposite).trades[k].quantity == opposite[k].quantity
    decreases |opposite|
  {
    if remaining == 0 || opposite == [] || !MatchCondition(o.side, opposite[0].price, o.price) {
    } else if opposite[0].quantity < remaining {
      var best := opposite[0];
      var rest := Match(o, remaining - best.quantity, opposite[1..]);
      MatchFullFills(o, remaining - best.quantity, opposite[1..]);
      var ts := [Fill(o, best, best.quantity)] + rest.trades;
      forall k | 1 <= k < |ts| ensures ts[k] == rest.trades[k - 1] && opposite[k] == opposite[1..][k - 1] {
      }
    }
  }

  /** With live resting orders and a positive quantity to fill, every trade is positive. */
  lemma {:induction false} MatchTradesPositive(o: Order, remaining: nat, opposite: seq<Order>)
    requires AllPositive(opposite)
    ensures forall t :: t in Match(o, remaining, opposite).trades ==> t.quantity > 0
    decreases |opposite|
  {
    if remaining == 0 || opposite == [] || !MatchCondition(o.side, opposite[0].price, o.price) {
    } else if opposite[0].quantity < remaining {
      assert opposite[0] in opposite;
      assert AllPositive(opposite[1..]);
      MatchTradesPositive(o, remaining - opposite[0].quantity, opposite[1..]);
    } else {
      assert opposite[0] in opposite;
    }
  }

  /**
   * What is left of the opposite side: the matched orders are gone from its front, except
   * that the last one stays, reduced in place, when the incoming order ran out before it
   * did. A resting order is removed exactly when its quantity reaches zero.
   */
  lemma {:induction false} MatchRemainder(o: Order, remaining: nat, opposite: seq<Order>)
    ensures var r := Match(o, remaining, opposite); var n := |r.trades|;
      && n <= |opposite|
      && (|| r.opposite == opposite[n..]
          || (&& 0 < n && r.remaining == 0
              && opposite[n - 1].quantity - r.trades[n - 1].quantity > 0
              && r.opposite == [opposite[n - 1].(quantity := opposite[n - 1].quantity - r.trades[n - 1].quantity)]
                               + opposite[n..]))
    ensures var r := Match(o, remaining, opposite);
      r.opposite == opposite[|r.trades|..] ==>
        forall k :: 0 <= k < |r.trades| ==> r.trades[k].quantity == opposite[k].quantity
    decreases |opposite|
  {
    if remaining == 0 || opposite == [] || !MatchCondition(o.side, opposite[0].price, o.price) {
    } else if opposite[0].quantity < remaining {
      var best := opposite[0];
      var rest := Match(o, remaining - best.quantity, opposite[1..]);
      MatchRemainder(o, remaining - best.quantity, opposite[1..]);
      var ts := [Fill(o, best, best.quantity)] + rest.trades;
      var n := |ts|;
      assert opposite[1..][n - 1..] == opposite[n..];
      if n > 1 {
        assert ts[n - 1] == rest.trades[n - 2] && opposite[n - 1] == opposite[1..][n - 2];
      }
      forall k | 1 <= k < n ensures ts[k] == rest.trades[k - 1] && opposite[k] == opposite[1..][k - 1] {
      }
    }
  }

  /**
   * Matching stops with quantity left only when the opposite side is exhausted or its front
   * no longer crosses; in that case every matched resting order was removed.
   */
  lemma {:induction false} MatchStops(o: Order, remaining: nat, opposite: seq<Order>)
    ensures |Match(o, remaining, opposite).trades| <= |opposite|
    ensures var r := Match(o, remaining, opposite);
      r.remaining > 0 ==>
        && r.opposite == opposite[|r.trades|..]
        && (r.opposite == [] || !MatchCondition(o.side, r.opposite[0].price, o.price))
    decreases |opposite|
  {
    if remaining == 0 || opposite == [] || !MatchCondition(o.side, opposite[0].price, o.price) {
    } else if opposite[0].quantity < remaining {
      var best := opposite[0];
      var rest := Match(o, remaining - best.quantity, opposite[1..]);
      MatchStops(o, remaining - best.quantity, opposite[1..]);
      assert opposite[1..][|rest.trades|..] == opposite[|rest.trades| + 1..];
    }
  }

  /**
   * Matching keeps the opposite side a valid resting list (sorted, live orders of its side
   * and symbol), and its best entry never becomes better than before.
   */
  lemma {:induction false} MatchKeepsSide(o: Order, remaining: nat, opposite: seq<Order>, symbol: string)
    requires Sorted(Opposite(o.side), opposite) && Resting(Opposite(o.side), symbol, opposite)
    ensures var r := Match(o, remaining, opposite);
      && Sorted(Opposite(o.side), r.opposite)
      && Resting(Opposite(o.side), symbol, r.opposite)
      && (r.opposite != [] ==> opposite != [] && AtLeastAsGood(Opposite(o.side), opposite[0].price, r.opposite[0].price))
  {
    var s := Opposite(o.side);
    var r := Match(o, remaining, opposite);
    var n := |r.trades|;
    MatchRemainder(o, remaining, opposite);
    if r.opposite != opposite[n..] {
      var head := opposite[n - 1].(quantity := opposite[n - 1].quantity - r.trades[n - 1].quantity);
      forall i, j | 0 <= i < j < |r.opposite| ensures AtLeastAsGood(s, r.opposite[i].price, r.opposite[j].price) {
        assert r.opposite[i].price == opposite[n - 1 + i].price;
        assert r.opposite[j].price == opposite[n - 1 + j].price;
      }
      forall x | x in r.opposite ensures x.quantity > 0 && x.side == s && x.symbol == symbol {
        if x != head {
          assert x in opposite[n..];
        }
      }
      assert opposite[n - 1] in opposite;
      assert AtLeastAsGood(s, opposite[0].price, opposite[n - 1].price);
    } else if r.opposite != [] {
      assert opposite[n] in opposite;
    }
  }

  /** The result of one incoming order: the book afterwards and the trades made, in order. */
  datatype Execution = Execution(book: Book, trades: seq<Trade>)

  /**
   * One incoming order applied to its symbol's book: match it against the opposite side,
   * then rest any unfilled remainder, with the order's own user, side, symbol and price,
   * on its own side at its priority position.
   */
  function ApplyOrder(b: Book, o: Order): (e: Execution)
    requires o.quantity > 0
    ensures |e.trades| <= |SideOf(b, Opposite(o.side))|
    ensures e.trades == [] ==>
      e.book == Arrange(o.side, Insert(o.side, SideOf(b, o.side), o), SideOf(b, Opposite(o.side)))
  {
    var m := Match(o, o.quantity, SideOf(b, Opposite(o.side)));
    var same := SideOf(b, o.side);
    var same' := if m.remaining > 0 then Insert(o.side, same, o.(quantity := m.remaining)) else same;
    Execution(Arrange(o.side, same', m.opposite), m.trades)
  }

  /**
   * Conservation for one order: the quantity taken off the opposite side is the traded
   * quantity, the quantity added to the order's own side is what was not traded, and at
   * most the order's quantity is traded.
   */
  lemma ApplyConservation(b: Book, o: Order)
    requires o.quantity > 0
    ensures var e := ApplyOrder(b, o);
      && SumTraded(e.trades) <= o.quantity
      && SumQty(SideOf(b, Opposite(o.side))) == SumQty(SideOf(e.book, Opposite(o.side))) + SumTraded(e.trades)
      && SumQty(SideOf(e.book, o.side)) == SumQty(SideOf(b, o.side)) + (o.quantity - SumTraded(e.trades))
  {
    var m := Match(o, o.quantity, SideOf(b, Opposite(o.side)));
    MatchConservation(o, o.quantity, SideOf(b, Opposite(o.side)));
    if m.remaining > 0 {
      InsertSum(o.side, SideOf(b, o.side), o.(quantity := m.remaining));
    }
  }

  /**
   * The order's own side changes only by the residual: a fully filled order never enters
   * the book; otherwise a copy of it with the unfilled quantity is inserted, and every price
   * level of that side is its old level followed by the residual if it is at that price.
   */
  lemma ApplyResidual(b: Book, o: Order)
    requires o.quantity > 0
    requires Sorted(o.side, SideOf(b, o.side))
    ensures var e := ApplyOrder(b, o);
      var filled := SumTraded(e.trades);
      var residual := o.(quantity := o.quantity - filled);
      && SideOf(e.book, o.side) == (if filled < o.quantity then Insert(o.side, SideOf(b, o.side), residual) else SideOf(b, o.side))
      && forall p :: AtPrice(SideOf(e.book, o.side), p)
                     == AtPrice(SideOf(b, o.side) + (if filled < o.quantity then [residual] else []), p)
  {
    var m := Match(o, o.quantity, SideOf(b, Opposite(o.side)));
    MatchConservation(o, o.quantity, SideOf(b, Opposite(o.side)));
    if m.remaining > 0 {
      InsertStable(o.side, SideOf(b, o.side), o.(quantity := m.remaining));
    } else {
      assert SideOf(b, o.side) + [] == SideOf(b, o.side);
    }
  }

  /**
   * Applying an order keeps its book valid: both sides sorted by price-time priority, only
   * live orders of the right side and symbol, and the best bid strictly below the best ask.
   */
  lemma ApplyKeepsBookValid(b: Book, o: Order)
    requires ValidBook(o.symbol, b) && o.quantity > 0
    ensures ValidBook(o.symbol, ApplyOrder(b, o).book)
  {
    var s := o.side;
    var opp := SideOf(b, Opposite(s));
    var same := SideOf(b, s);
    var m := Match(o, o.quantity, opp);
    ValidBookSides(o.symbol, b, s);
    ValidBookSides(o.symbol, b, Opposite(s));
    MatchKeepsSide(o, o.quantity, opp, o.symbol);
    MatchStops(o, o.quantity, opp);
    var same' := if m.remaining > 0 then Insert(s, same, o.(quantity := m.remaining)) else same;
    if m.remaining > 0 {
      var res := o.(quantity := m.remaining);
      InsertSorted(s, same, res);
      forall x | x in same' ensures x.quantity > 0 && x.side == s && x.symbol == o.symbol {
        assert x in multiset(same');
      }
    }
    var nb := Arrange(s, same', m.opposite);
    assert SideOf(nb, s) == same' && SideOf(nb, Opposite(s)) == m.opposite;
    assert Sorted(s, same') && Resting(s, o.symbol, same');
    if s == Buy {
      assert nb == Book(same', m.opposite);
    } else {
      assert nb == Book(m.opposite, same');
    }
  }
}
