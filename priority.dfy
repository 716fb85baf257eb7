/**
 * Price-time priority on one side of a book: where a new resting order goes, and the
 * stable sort by price the engine applies to a side (lowest price first for sells,
 * highest first for buys, arrival order kept among equal prices).
 */
module Priority {
  import opened Orders

  /**
   * Puts `x` after every entry whose price is equal or better and before the first
   * entry whose price is strictly worse.
   */
  function Insert(s: Side, xs: seq<Order>, x: Order): (r: seq<Order>)
    ensures multiset(r) == multiset(xs) + multiset{x}
    ensures |r| == |xs| + 1
  {
    if xs == [] then [x]
    else if AtLeastAsGood(s, xs[0].price, x.price) then
      assert xs == [xs[0]] + xs[1..];
      [xs[0]] + Insert(s, xs[1..], x)
    else
      [x] + xs
  }

  lemma FrontIsBest(s: Side, xs: seq<Order>)
    requires Sorted(s, xs) && xs != []
    ensures forall x :: x in xs ==> AtLeastAsGood(s, xs[0].price, x.price)
  {
  }

  lemma SortedCons(s: Side, y: Order, ys: seq<Order>)
    requires Sorted(s, ys)
    requires forall z :: z in ys ==> AtLeastAsGood(s, y.price, z.price)
    ensures Sorted(s, [y] + ys)
  {
    var r := [y] + ys;
    forall i, j | 0 <= i < j < |r| ensures AtLeastAsGood(s, r[i].price, r[j].price) {
      if i == 0 {
        assert r[j] == ys[j - 1] && r[j] in ys;
      } else {
        assert r[i] == ys[i - 1] && r[j] == ys[j - 1];
      }
    }
  }

  /** Inserting keeps a side sorted. */
  lemma {:induction false} InsertSorted(s: Side, xs: seq<Order>, x: Order)
    requires Sorted(s, xs)
    ensures Sorted(s, Insert(s, xs, x))
  {
    if xs != [] {
      if AtLeastAsGood(s, xs[0].price, x.price) {
        var tail := Insert(s, xs[1..], x);
        InsertSorted(s, xs[1..], x);
        forall z | z in tail ensures AtLeastAsGood(s, xs[0].price, z.price) {
          assert z in multiset(tail);
          if z != x {
            assert z in xs[1..];
          }
        }
        SortedCons(s, xs[0], tail);
      } else {
        FrontIsBest(s, xs);
        SortedCons(s, x, xs);
      }
    }
  }

  /**
   * Inserting into a sorted side is FIFO at every price: each price level of the result
   * is that level of the old list followed, if `x` is at that price, by `x`.
   */
  lemma {:induction false} InsertStable(s: Side, xs: seq<Order>, x: Order)
    requires Sorted(s, xs)
    ensures forall p :: AtPrice(Insert(s, xs, x), p) == AtPrice(xs + [x], p)
  {
    if xs == [] {
      assert xs + [x] == [x];
    } else if AtLeastAsGood(s, xs[0].price, x.price) {
      InsertStable(s, xs[1..], x);
      var tail := Insert(s, xs[1..], x);
      assert ([xs[0]] + tail)[1..] == tail;
      assert (xs + [x])[1..] == xs[1..] + [x];
    } else {
      FrontIsBest(s, xs);
      AtPriceNone(xs, x.price);
      AtPriceConcat([x], xs);
      AtPriceConcat(xs, [x]);
    }
  }

  /** Inserting adds exactly the new entry's quantity to the side. */
  lemma {:induction false} InsertSum(s: Side, xs: seq<Order>, x: Order)
    ensures SumQty(Insert(s, xs, x)) == SumQty(xs) + x.quantity
  {
    if xs != [] && AtLeastAsGood(s, xs[0].price, x.price) {
      InsertSum(s, xs[1..], x);
      assert ([xs[0]] + Insert(s, xs[1..], x))[1..] == Insert(s, xs[1..], x);
    } else if xs != [] {
      assert ([x] + xs)[1..] == xs;
    }
  }

  /**
   * A stable sort by price, best first: the ordering produced by Python's `sorted` and
   * `list.sort` with the price as key (ascending for sells, reversed for buys; both stable).
   * That it keeps arrival order within each price is StableSortKeepsLevels.
   */
  function StableSort(s: Side, xs: seq<Order>): (r: seq<Order>)
    ensures Sorted(s, r)
    ensures multiset(r) == multiset(xs)
    decreases |xs|
  {
    if xs == [] then []
    else
      var init, last := xs[..|xs| - 1], xs[|xs| - 1];
      var sortedInit := StableSort(s, init);
      assert init + [last] == xs;
      InsertSorted(s, sortedInit, last);
      Insert(s, sortedInit, last)
  }

  /** The sort is stable: every price level keeps the order it had in the input. */
  lemma {:induction false} StableSortKeepsLevels(s: Side, xs: seq<Order>)
    ensures forall p :: AtPrice(StableSort(s, xs), p) == AtPrice(xs, p)
    decreases |xs|
  {
    if xs != [] {
      var init, last := xs[..|xs| - 1], xs[|xs| - 1];
      var sortedInit := StableSort(s, init);
      assert init + [last] == xs;
      StableSortKeepsLevels(s, init);
      InsertStable(s, sortedInit, last);
      AtPriceConcat(sortedInit, [last]);
      AtPriceConcat(init, [last]);
    }
  }

  /**
   * A stable sort has exactly one possible result: two lists sorted by price whose
   * price levels agree, each level in the same order, are equal.
   */
  lemma {:induction false} SortedByLevelsUnique(s: Side, a: seq<Order>, b: seq<Order>)
    requires Sorted(s, a) && Sorted(s, b)
    requires forall p :: AtPrice(a, p) == AtPrice(b, p)
    ensures a == b
    decreases |a|
  {
    if a != [] {
      LevelsAgreeNonEmpty(a, b);
    }
    if b != [] {
      LevelsAgreeNonEmpty(b, a);
    }
    if a != [] {
      var pa, pb := a[0].price, b[0].price;
      AtPriceMembers(a, pb);
      AtPriceMembers(b, pa);
      assert b[0] in AtPrice(b, pb);
      assert a[0] in AtPrice(a, pa);
      FrontIsBest(s, a);
      FrontIsBest(s, b);
      assert pa == pb;
      assert AtPrice(a, pa) == [a[0]] + AtPrice(a[1..], pa);
      assert AtPrice(b, pa) == [b[0]] + AtPrice(b[1..], pa);
      assert AtPrice(a, pa) == AtPrice(b, pa);
      assert a[0] == AtPrice(a, pa)[0] == AtPrice(b, pa)[0] == b[0];
      forall p ensures AtPrice(a[1..], p) == AtPrice(b[1..], p) {
        if p == pa {
          assert AtPrice(a, p)[1..] == AtPrice(a[1..], p);
          assert AtPrice(b, p)[1..] == AtPrice(b[1..], p);
        } else {
          assert AtPrice(a, p) == AtPrice(a[1..], p);
          assert AtPrice(b, p) == AtPrice(b[1..], p);
        }
      }
      SortedByLevelsUnique(s, a[1..], b[1..]);
      assert a == [a[0]] + a[1..] && b == [b[0]] + b[1..];
    }
  }

  /** Sorting a side that is already sorted leaves it unchanged. */
  lemma StableSortOfSorted(s: Side, xs: seq<Order>)
    requires Sorted(s, xs)
    ensures StableSort(s, xs) == xs
  {
    StableSortKeepsLevels(s, xs);
    SortedByLevelsUnique(s, StableSort(s, xs), xs);
  }

  /**
   * Appending to a sorted side and then sorting it (what the engine does with a residual
   * order) is the same as inserting after every entry of equal or better price.
   */
  lemma SortAfterAppend(s: Side, xs: seq<Order>, x: Order)
    requires Sorted(s, xs)
    ensures StableSort(s, xs + [x]) == Insert(s, xs, x)
  {
    InsertSorted(s, xs, x);
    InsertStable(s, xs, x);
    StableSortKeepsLevels(s, xs + [x]);
    SortedByLevelsUnique(s, StableSort(s, xs + [x]), Insert(s, xs, x));
  }
}
