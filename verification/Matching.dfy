/** The matching walk is the only greedy fill, said without naming how it is computed. */
module Matching {
  import opened Domain
  import opened BookModel

  function Sum(sizes: seq<int>): int {
    if sizes == [] then 0 else sizes[0] + Sum(sizes[1..])
  }

  function Sizes(trades: seq<Event>): seq<int> {
    seq(|trades|, i requires 0 <= i < |trades| => trades[i].quantity)
  }

  /** What is left of `list` when its first orders gave `sizes` lots, all but the last in full. */
  function Leftover(list: seq<Resting>, sizes: seq<int>): seq<Resting>
    requires |sizes| <= |list|
    requires sizes != [] ==> 0 < sizes[|sizes| - 1] <= list[|sizes| - 1].remaining
    requires Positive(list)
  {
    var n := |sizes|;
    if n > 0 && sizes[n - 1] < list[n - 1].remaining then
      [list[n - 1].(remaining := list[n - 1].remaining - sizes[n - 1])] + list[n..]
    else list[n..]
  }

  /**
   `sizes` lots are taken from the first orders of `list` by an order on side `s` for `quantity`
   lots at `limit`: only crossing orders trade, in priority order, every trade but possibly the last
   takes the whole resting order, and the fill ends only when the quantity is spent or the best
   remaining price no longer crosses.
   */
  predicate Greedy(s: Side, limit: i64, list: seq<Resting>, quantity: int,
                   sizes: seq<int>, rest: seq<Resting>, left: int)
  {
    && Positive(list)
    && |sizes| <= |list|
    && (forall i | 0 <= i < |sizes| :: 0 < sizes[i] <= list[i].remaining && Crosses(s, limit, list[i].price))
    && (forall i | 0 <= i < |sizes| - 1 :: sizes[i] == list[i].remaining)
    && rest == Leftover(list, sizes)
    && 0 <= left == quantity - Sum(sizes)
    && (left == 0 || rest == [] || !Crosses(s, limit, rest[0].price))
  }

  /** Trade `i` of a walk, field by field: numbered without gaps, at the resting price, with the running remainder. */
  ghost predicate NthTrade(c: Command, list: seq<Resting>, quantity: int, event: u64, trade: u64,
                           trades: seq<Event>, i: nat)
    requires i < |trades| <= |list|
  {
    var e, r := trades[i], list[i];
    && e.eventType == 3 && e.eventSequence == Add64(event, i) && e.tradeId == Add64(trade, i)
    && e.commandSequence == c.commandSequence
    && e.ingressEpoch == c.ingressEpoch && e.ingressSequence == c.ingressSequence
    && e.orderId == c.orderId && e.instrument == c.instrument && e.side == c.side
    && e.contraOrderId == r.orderId && e.price == r.price
    && 0 <= e.remaining as int == quantity - Sum(Sizes(trades[..i + 1]))
    && e.rejectionReason == 0 && e.reserved == 0
  }

  ghost predicate TradeRun(c: Command, list: seq<Resting>, quantity: int, event: u64, trade: u64, trades: seq<Event>)
  {
    |trades| <= |list| && forall i: nat | i < |trades| :: NthTrade(c, list, quantity, event, trade, trades, i)
  }

  lemma {:induction false} WalkIsGreedy(s: Side, c: Command, list: seq<Resting>, left: i64, event: u64, trade: u64)
    requires left >= 0 && Positive(list)
    ensures var f := Walk(s, c, list, left, event, trade);
      Greedy(s, c.price, list, left, Sizes(f.trades), f.rest, f.left)
    decreases |list|
  {
    hide Greedy, Sizes, Add64;
    if left == 0 || list == [] || !Crosses(s, c.price, list[0].price) {
      GreedyNone(s, c.price, list, left);
      NoSizes();
    } else {
      WalkSizes(s, c, list, left, event, trade);
      if list[0].remaining <= left {
        WalkIsGreedy(s, c, list[1..], left - list[0].remaining, Add64(event, 1), Add64(trade, 1));
        var g := Walk(s, c, list[1..], left - list[0].remaining, Add64(event, 1), Add64(trade, 1));
        GreedyFirst(s, c.price, list, left, Sizes(g.trades), g.rest, g.left);
      } else {
        GreedyPart(s, c.price, list, left, [list[0].(remaining := list[0].remaining - left)] + list[1..]);
      }
    }
  }

  lemma NoSizes()
    ensures Sizes([]) == []
  {
  }

  lemma GreedyNone(s: Side, limit: i64, list: seq<Resting>, quantity: int)
    requires quantity >= 0 && Positive(list)
    requires quantity == 0 || list == [] || !Crosses(s, limit, list[0].price)
    ensures Greedy(s, limit, list, quantity, [], list, quantity)
  {
  }

  lemma WalkSizes(s: Side, c: Command, list: seq<Resting>, left: i64, event: u64, trade: u64)
    requires left > 0 && Positive(list) && list != [] && Crosses(s, c.price, list[0].price)
    ensures Sizes(Walk(s, c, list, left, event, trade).trades) ==
      if list[0].remaining <= left then
        [list[0].remaining as int]
        + Sizes(Walk(s, c, list[1..], left - list[0].remaining, Add64(event, 1), Add64(trade, 1)).trades)
      else [left as int]
  {
  }

  /** Taking part of the head with the whole quantity is a greedy fill. */
  lemma GreedyPart(s: Side, limit: i64, list: seq<Resting>, quantity: int, rest: seq<Resting>)
    requires list != [] && Positive(list) && Crosses(s, limit, list[0].price)
    requires 0 < quantity < list[0].remaining
    requires rest == [list[0].(remaining := list[0].remaining - quantity)] + list[1..]
    ensures Greedy(s, limit, list, quantity, [quantity], rest, 0)
  {
  }

  /** A greedy fill of the tail, after the head was taken whole, is a greedy fill. */
  lemma GreedyFirst(s: Side, limit: i64, list: seq<Resting>, quantity: int,
                    sizes: seq<int>, rest: seq<Resting>, left: int)
    requires list != [] && Positive(list) && Crosses(s, limit, list[0].price)
    requires Greedy(s, limit, list[1..], quantity - list[0].remaining, sizes, rest, left)
    ensures Greedy(s, limit, list, quantity, [list[0].remaining as int] + sizes, rest, left)
  {
    var all := [list[0].remaining as int] + sizes;
    assert all[1..] == sizes;
    LeftoverNext(list, sizes);
    forall i | 0 < i < |all|
      ensures all[i] == sizes[i - 1] && list[i] == list[1..][i - 1]
    {
    }
  }

  /** Taking the head whole and then from the tail leaves what taking from the tail leaves. */
  lemma LeftoverNext(list: seq<Resting>, sizes: seq<int>)
    requires list != [] && Positive(list) && Positive(list[1..]) && |sizes| <= |list| - 1
    requires sizes != [] ==> 0 < sizes[|sizes| - 1] <= list[1..][|sizes| - 1].remaining
    ensures Leftover(list, [list[0].remaining as int] + sizes) == Leftover(list[1..], sizes)
  {
    hide Positive;
    var n, all, tail := |sizes|, [list[0].remaining as int] + sizes, list[1..];
    assert tail[n..] == list[n + 1..];
    if n > 0 {
      assert all[n] == sizes[n - 1] && tail[n - 1] == list[n];
    } else {
      assert all[0] == list[0].remaining && tail[0..] == tail;
    }
  }

  /** A fill that is greedy is the walk: nothing else satisfies `Greedy`. */
  lemma {:induction false} GreedyIsWalk(s: Side, c: Command, list: seq<Resting>, left: i64, event: u64, trade: u64,
                                        sizes: seq<int>, rest: seq<Resting>, remainder: int)
    requires left >= 0
    requires Greedy(s, c.price, list, left, sizes, rest, remainder)
    ensures var f := Walk(s, c, list, left, event, trade);
      sizes == Sizes(f.trades) && rest == f.rest && remainder == f.left
    decreases |list|
  {
    hide Greedy, Sizes, Add64, Sum;
    GreedyHead(s, c.price, list, left, sizes, rest, remainder);
    if sizes == [] {
      NoSizes();
    } else {
      WalkSizes(s, c, list, left, event, trade);
      if sizes[0] == list[0].remaining {
        GreedyRest(s, c.price, list, left, sizes, rest, remainder);
        GreedyIsWalk(s, c, list[1..], left - list[0].remaining, Add64(event, 1), Add64(trade, 1),
                     sizes[1..], rest, remainder);
      }
    }
  }

  /** A greedy fill either stops at once or starts with a whole order or ends with a part of one. */
  lemma GreedyHead(s: Side, limit: i64, list: seq<Resting>, quantity: int,
                   sizes: seq<int>, rest: seq<Resting>, left: int)
    requires Greedy(s, limit, list, quantity, sizes, rest, left)
    ensures Positive(list)
    ensures sizes == [] ==>
      rest == list && left == quantity && (left == 0 || list == [] || !Crosses(s, limit, list[0].price))
    ensures sizes != [] ==>
      && list != [] && quantity > 0 && Crosses(s, limit, list[0].price)
      && (sizes[0] == list[0].remaining <= quantity
          || (sizes == [quantity] && quantity < list[0].remaining && left == 0
              && rest == [list[0].(remaining := list[0].remaining - quantity)] + list[1..]))
  {
    if sizes != [] {
      SumPositive(sizes[1..]);
    }
  }

  lemma GreedyRest(s: Side, limit: i64, list: seq<Resting>, quantity: int,
                   sizes: seq<int>, rest: seq<Resting>, left: int)
    requires Greedy(s, limit, list, quantity, sizes, rest, left)
    requires sizes != [] && sizes[0] == list[0].remaining
    ensures Greedy(s, limit, list[1..], quantity - list[0].remaining, sizes[1..], rest, left)
  {
  }

  lemma WalkTradeCount(s: Side, c: Command, list: seq<Resting>, left: i64, event: u64, trade: u64)
    requires left >= 0 && Positive(list)
    ensures |Walk(s, c, list, left, event, trade).trades| <= |list|
    decreases |list|
  {
  }

  lemma {:induction false} WalkTrades(s: Side, c: Command, list: seq<Resting>, left: i64, event: u64, trade: u64)
    requires left >= 0 && Positive(list)
    ensures TradeRun(c, list, left, event, trade, Walk(s, c, list, left, event, trade).trades)
    decreases |list|
  {
    var trades := Walk(s, c, list, left, event, trade).trades;
    WalkTradeCount(s, c, list, left, event, trade);
    if trades != [] {
      assert NthTrade(c, list, left, event, trade, trades, 0) by {
        assert Sizes(trades[..1]) == [trades[0].quantity as int];
      }
      if list[0].remaining <= left {
        WalkTrades(s, c, list[1..], left - list[0].remaining, Add64(event, 1), Add64(trade, 1));
        var tail := Walk(s, c, list[1..], left - list[0].remaining, Add64(event, 1), Add64(trade, 1)).trades;
        forall i: nat | 0 < i < |trades|
          ensures NthTrade(c, list, left, event, trade, trades, i)
        {
          LaterTrade(c, list, left, event, trade, trades[0], tail, i);
        }
      }
    }
  }

  lemma LaterTrade(c: Command, list: seq<Resting>, left: int, event: u64, trade: u64,
                   first: Event, tail: seq<Event>, i: nat)
    requires 0 < i <= |tail| < |list| && first.quantity == list[0].remaining
    requires NthTrade(c, list[1..], left - list[0].remaining, Add64(event, 1), Add64(trade, 1), tail, i - 1)
    ensures NthTrade(c, list, left, event, trade, [first] + tail, i)
  {
    hide Add64, Sum, Sizes;
    assert ([first] + tail)[..i + 1] == [first] + tail[..i];
    assert tail[..(i - 1) + 1] == tail[..i];
    SumFirst(first, tail[..i]);
    Add64Add(event, 1, i - 1);
    Add64Add(trade, 1, i - 1);
  }

  lemma SumFirst(first: Event, tail: seq<Event>)
    ensures Sum(Sizes([first] + tail)) == first.quantity + Sum(Sizes(tail))
  {
    assert Sizes([first] + tail)[1..] == Sizes(tail);
  }

  /** The lots at the front of `list` that an order on side `s` limited to `limit` may trade with. */
  function Offered(s: Side, limit: i64, list: seq<Resting>): int {
    if list == [] || !Crosses(s, limit, list[0].price) then 0
    else list[0].remaining + Offered(s, limit, list[1..])
  }

  /** How much of an order stays open can be told before matching: what it asks for beyond the lots on offer. */
  lemma {:induction false} WalkLeavesOpen(s: Side, c: Command, list: seq<Resting>, left: i64, event: u64, trade: u64)
    requires left >= 0 && Positive(list)
    ensures Offered(s, c.price, list) >= 0
    ensures Walk(s, c, list, left, event, trade).left as int
      == if Offered(s, c.price, list) < left then left - Offered(s, c.price, list) else 0
    decreases |list|
  {
    hide Add64;
    if list != [] && Crosses(s, c.price, list[0].price) {
      if left > 0 && list[0].remaining <= left {
        WalkLeavesOpen(s, c, list[1..], left - list[0].remaining, Add64(event, 1), Add64(trade, 1));
      } else {
        WalkLeavesOpen(s, c, list[1..], 0, event, trade);
      }
    }
  }

  lemma SumPositive(sizes: seq<int>)
    requires forall i | 0 <= i < |sizes| :: sizes[i] > 0
    ensures Sum(sizes) >= 0
  {
    if sizes != [] {
      SumPositive(sizes[1..]);
    }
  }
}
