/** The market-data projection: a public book and trade tape rebuilt from events alone. */
module Projection {
  import opened Domain
  import opened BookModel

  datatype OrderState = OrderState(instrument: u32, side: u16, price: i64, remaining: i64)

  datatype PublicLevel = PublicLevel(price: i64, quantity: i64)

  datatype PublicTrade = PublicTrade(
    tradeId: u64,
    instrument: u32,
    incomingOrderId: u64,
    restingOrderId: u64,
    aggressorSide: u16,
    price: i64,
    quantity: i64)

  datatype Status = Applied | Ignored | Rejected

  /** What a projection remembers; the public book is an aggregate of `active`. */
  datatype Projected = Projected(active: map<u64, OrderState>, trades: seq<PublicTrade>, last: u64)

  datatype Verdict = Verdict(status: Status, state: Projected)

  const NOTHING: Projected := Projected(map[], [], 0)

  function PublicTradeOf(e: Event): PublicTrade {
    PublicTrade(e.tradeId, e.instrument, e.orderId, e.contraOrderId, e.side, e.price, e.quantity)
  }

  /** The active orders after `quantity` lots of order `id` traded. */
  function Reduced(active: map<u64, OrderState>, id: u64, quantity: i64): map<u64, OrderState>
    requires id in active && 0 < quantity <= active[id].remaining
  {
    if active[id].remaining == quantity then active - {id}
    else active[id := active[id].(remaining := active[id].remaining - quantity)]
  }

  /** The meaning of one event. */
  function Project(p: Projected, e: Event): Verdict {
    if e.eventSequence != Add64(p.last, 1) then Verdict(Rejected, p)
    else
      var next := p.(last := e.eventSequence);
      if e.eventType == ORDER_ACCEPTED || e.eventType == ORDER_REJECTED then Verdict(Ignored, next)
      else if e.eventType == ORDER_RESTED || e.eventType == ORDER_PARTIALLY_FILLED then
        if e.remaining <= 0 || DecodeSide(e.side).None? || e.orderId == 0 || e.price <= 0 then Verdict(Rejected, p)
        else
          var state := OrderState(e.instrument, e.side, e.price, e.remaining);
          Verdict(Applied, next.(active := p.active[e.orderId := state]))
      else if e.eventType == TRADE_EXECUTED then
        if e.quantity <= 0 || e.contraOrderId == 0 then Verdict(Rejected, p)
        else if e.contraOrderId !in p.active || p.active[e.contraOrderId].remaining < e.quantity then Verdict(Rejected, p)
        else Verdict(Applied, next.(active := Reduced(p.active, e.contraOrderId, e.quantity),
                                    trades := p.trades + [PublicTradeOf(e)]))
      else if e.eventType == ORDER_FULLY_FILLED then
        if e.orderId !in p.active then Verdict(Ignored, next)
        else Verdict(Applied, next.(active := p.active - {e.orderId}))
      else if e.eventType == ORDER_CANCELLED then
        if e.orderId !in p.active then Verdict(Rejected, p)
        else Verdict(Applied, next.(active := p.active - {e.orderId}))
      else Verdict(Rejected, p)
  }

  // Aggregation

  function Share(o: OrderState, s: Side, price: i64): int {
    if o.side == Code(s) && o.price == price then o.remaining else 0
  }

  /** All lots shown on side `s` at `price`, added up in no particular order. */
  ghost function SumAt(active: map<u64, OrderState>, s: Side, price: i64): int
    decreases |active|
  {
    if active == map[] then 0
    else
      var id :| id in active;
      assert |active - {id}| < |active| by {
        assert active.Keys == (active - {id}).Keys + {id};
      }
      Share(active[id], s, price) + SumAt(active - {id}, s, price)
  }

  lemma {:induction false} SumAtPick(active: map<u64, OrderState>, s: Side, price: i64, id: u64)
    requires id in active
    ensures SumAt(active, s, price) == Share(active[id], s, price) + SumAt(active - {id}, s, price)
    decreases |active|
  {
    var first :| id in active && first in active
      && SumAt(active, s, price) == Share(active[first], s, price) + SumAt(active - {first}, s, price);
    if first != id {
      assert active.Keys == (active - {first}).Keys + {first};
      SumAtPick(active - {first}, s, price, id);
      assert active.Keys == (active - {id}).Keys + {id};
      SumAtPick(active - {id}, s, price, first);
      assert active - {first} - {id} == active - {id} - {first};
    }
  }

  lemma SumAtAdd(active: map<u64, OrderState>, s: Side, price: i64, id: u64, o: OrderState)
    requires id !in active
    ensures SumAt(active[id := o], s, price) == Share(o, s, price) + SumAt(active, s, price)
  {
    SumAtPick(active[id := o], s, price, id);
    assert active[id := o] - {id} == active;
  }

  ghost predicate Shown(active: map<u64, OrderState>, s: Side, price: i64) {
    exists id :: id in active && active[id].side == Code(s) && active[id].price == price
  }

  ghost predicate BestFirst(s: Side, levels: seq<PublicLevel>) {
    forall i, j | 0 <= i < j < |levels| :: Better(s, levels[i].price, levels[j].price)
  }

  /** `levels` is the aggregate of side `s`: every price once, best first, with all its lots. */
  ghost predicate IsDepth(s: Side, active: map<u64, OrderState>, levels: seq<PublicLevel>) {
    && BestFirst(s, levels)
    && (forall l | l in levels :: l.quantity as int == SumAt(active, s, l.price) > 0)
    && (forall price: i64 :: Shown(active, s, price) <==> exists l :: l in levels && l.price == price)
  }

  /**
   `levels` is what the rebuild makes of side `s` in 64-bit arithmetic: a price is listed with its
   wrapped sum, and not at all when that is not positive.
   */
  ghost predicate IsView(s: Side, active: map<u64, OrderState>, levels: seq<PublicLevel>) {
    && BestFirst(s, levels)
    && (forall l | l in levels :: l.quantity == Wrap64(SumAt(active, s, l.price)) > 0)
    && (forall price: i64 :: Shown(active, s, price) && Wrap64(SumAt(active, s, price)) > 0
                             <==> exists l :: l in levels && l.price == price)
  }

  /** Every sum of side `s` fits in 64 signed bits. */
  ghost predicate SumsFit(s: Side, active: map<u64, OrderState>) {
    forall price: i64 :: SumAt(active, s, price) < I64_LIMIT
  }

  /** The view is the aggregate if and only if every sum fits; which orders are read first does not matter. */
  lemma AggregateIffFits(s: Side, active: map<u64, OrderState>, levels: seq<PublicLevel>)
    requires Live(active) && IsView(s, active, levels)
    ensures IsDepth(s, active, levels) <==> SumsFit(s, active)
  {
    hide SumAt, Live, Wrap64, Shown;
    if IsDepth(s, active, levels) {
      forall price: i64
        ensures SumAt(active, s, price) < I64_LIMIT
      {
        LiveSum(active, s, price);
        if Shown(active, s, price) {
          var l :| l in levels && l.price == price;
        }
      }
    }
    if SumsFit(s, active) {
      forall price: i64
        ensures Wrap64(SumAt(active, s, price)) == SumAt(active, s, price)
        ensures Shown(active, s, price) ==> SumAt(active, s, price) > 0
      {
        LiveSum(active, s, price);
        Wrap64Exact(SumAt(active, s, price));
      }
    }
  }

  /** An aggregate that can be written down at all is what the rebuild makes. */
  lemma DepthIsView(s: Side, active: map<u64, OrderState>, levels: seq<PublicLevel>)
    requires Live(active) && IsDepth(s, active, levels)
    ensures IsView(s, active, levels)
  {
    hide SumAt, Live, Wrap64, Shown;
    forall l | l in levels
      ensures Wrap64(SumAt(active, s, l.price)) == SumAt(active, s, l.price)
    {
      Wrap64Exact(SumAt(active, s, l.price));
    }
  }

  /** Two orders of the largest quantity at one price: the sum wraps to -2 and the best bid is not listed. */
  lemma OverflowHidesLevel(active: map<u64, OrderState>, a: u64, b: u64, instrument: u32, price: i64,
                           levels: seq<PublicLevel>)
    requires a != b
    requires active == map[a := OrderState(instrument, BUY, price, I64_LIMIT - 1),
                           b := OrderState(instrument, BUY, price, I64_LIMIT - 1)]
    requires IsView(Buy, active, levels)
    ensures SumAt(active, Buy, price) == 2 * (I64_LIMIT - 1) && Shown(active, Buy, price) && levels == []
  {
    hide SumAt;
    assert active[a].side == Code(Buy);
    SumAtPick(active, Buy, price, a);
    SumAtPick(active - {a}, Buy, price, b);
    assert active - {a} - {b} == map[];
    SumAtNone(Buy, price);
    OnlyOnePrice(active, Buy, price, levels);
  }

  lemma OnlyOnePrice(active: map<u64, OrderState>, s: Side, price: i64, levels: seq<PublicLevel>)
    requires IsView(s, active, levels) && forall id | id in active :: active[id].price == price
    ensures levels == [] || Wrap64(SumAt(active, s, price)) > 0
  {
    hide SumAt, Wrap64;
    if levels != [] {
      assert levels[0] in levels;
      assert Shown(active, s, levels[0].price);
    }
  }

  /** The view is determined by the active orders. */
  lemma ViewUnique(s: Side, active: map<u64, OrderState>, a: seq<PublicLevel>, b: seq<PublicLevel>)
    requires IsView(s, active, a) && IsView(s, active, b)
    ensures a == b
  {
    hide SumAt;
    forall l: PublicLevel
      ensures l in a <==> l in b
    {
      if l in a {
        assert Shown(active, s, l.price);
      }
      if l in b {
        assert Shown(active, s, l.price);
      }
    }
    SortedUnique(s, a, b);
  }

  lemma {:induction false} SortedUnique(s: Side, a: seq<PublicLevel>, b: seq<PublicLevel>)
    requires BestFirst(s, a) && BestFirst(s, b) && forall l :: l in a <==> l in b
    ensures a == b
  {
    if b != [] {
      assert b[0] in a;
    }
    if a != [] {
      assert a[0] in b;
      assert a[0] == b[0];
      forall l
        ensures l in a[1..] <==> l in b[1..]
      {
        assert l in a <==> l == a[0] || l in a[1..];
        assert l in b <==> l == b[0] || l in b[1..];
      }
      SortedUnique(s, a[1..], b[1..]);
    }
  }

  /** Partial sums of one side, as the first loop of the rebuild accumulates them. */
  ghost predicate SumsOf(s: Side, done: map<u64, OrderState>, sums: map<i64, i64>) {
    && (forall price: i64 :: Wrap64(SumAt(done, s, price)) == SumIn(sums, price))
    && (forall price: i64 :: price in sums <==> Shown(done, s, price))
  }

  function SumIn(sums: map<i64, i64>, price: i64): i64 {
    if price in sums then sums[price] else 0
  }

  function Plus(sums: map<i64, i64>, price: i64, lots: i64): map<i64, i64> {
    sums[price := Wrap64(SumIn(sums, price) + lots)]
  }

  lemma SumsAdd(s: Side, done: map<u64, OrderState>, sums: map<i64, i64>, id: u64, o: OrderState)
    requires SumsOf(s, done, sums) && id !in done
    ensures SumsOf(s, done[id := o], if o.side == Code(s) then Plus(sums, o.price, o.remaining) else sums)
  {
    hide SumAt, Wrap64;
    var done', sums' := done[id := o], if o.side == Code(s) then Plus(sums, o.price, o.remaining) else sums;
    forall price: i64
      ensures Wrap64(SumAt(done', s, price)) == SumIn(sums', price)
      ensures price in sums' <==> Shown(done', s, price)
    {
      SumAtAdd(done, s, price, id, o);
      Wrap64Add(SumAt(done, s, price), Share(o, s, price));
      if Shown(done, s, price) {
        var k :| k in done && done[k].side == Code(s) && done[k].price == price;
        assert k in done' && done'[k] == done[k];
      }
      if Shown(done', s, price) && !(o.side == Code(s) && o.price == price) {
        var k :| k in done' && done'[k].side == Code(s) && done'[k].price == price;
        assert k in done;
      }
      if o.side == Code(s) && o.price == price {
        assert id in done';
      }
    }
  }

  /** Adding an order keeps the sums in range exactly when they were and this addition does not overflow. */
  lemma FitsAdd(s: Side, done: map<u64, OrderState>, sums: map<i64, i64>, id: u64, o: OrderState)
    requires SumsOf(s, done, sums) && Live(done) && id !in done && o.remaining > 0
    ensures SumsFit(s, done[id := o])
      <==> SumsFit(s, done) && (o.side == Code(s) ==> SumIn(sums, o.price) + o.remaining < I64_LIMIT)
  {
    hide SumAt, Wrap64, Live;
    forall price: i64
      ensures SumAt(done[id := o], s, price) == Share(o, s, price) + SumAt(done, s, price)
      ensures SumAt(done, s, price) >= 0
    {
      SumAtAdd(done, s, price, id, o);
      LiveSum(done, s, price);
    }
    var after := done[id := o];
    var before := SumAt(done, s, o.price);
    Wrap64Exact(before);
    if SumsFit(s, after) {
      forall price: i64
        ensures SumAt(done, s, price) < I64_LIMIT
      {
        assert SumAt(after, s, price) < I64_LIMIT;
      }
      assert SumAt(after, s, o.price) < I64_LIMIT;
    }
    if SumsFit(s, done) && (o.side == Code(s) ==> SumIn(sums, o.price) + o.remaining < I64_LIMIT) {
      assert Wrap64(before) == before == SumIn(sums, o.price);
      forall price: i64
        ensures SumAt(after, s, price) < I64_LIMIT
      {
        assert SumAt(done, s, price) < I64_LIMIT;
      }
    }
    if SumsFit(s, done) {
      assert Wrap64(before) == before == SumIn(sums, o.price);
    }
  }

  /** The view names the instrument of some active order, or none when there is none. */
  ghost predicate InstrumentOk(active: map<u64, OrderState>, instrument: u32) {
    if active == map[] then instrument == 0
    else exists id :: id in active && active[id].instrument == instrument
  }

  /** Which instrument the view names depends on the iteration order unless all active orders share one. */
  lemma InstrumentDetermined(active: map<u64, OrderState>)
    ensures (forall i: u32, j: u32 | InstrumentOk(active, i) && InstrumentOk(active, j) :: i == j)
      <==> (forall x, y | x in active && y in active :: active[x].instrument == active[y].instrument)
  {
    forall x | x in active
      ensures InstrumentOk(active, active[x].instrument)
    {
    }
  }

  /** The rebuild has read the orders `done` and still has to read those with ids in `unread`. */
  ghost predicate Reading(active: map<u64, OrderState>, unread: set<u64>, done: map<u64, OrderState>) {
    && unread <= active.Keys && done.Keys == active.Keys - unread
    && forall id | id in done :: done[id] == active[id]
  }

  lemma ReadOne(active: map<u64, OrderState>, unread: set<u64>, done: map<u64, OrderState>, id: u64)
    requires Reading(active, unread, done) && id in unread
    ensures id in active && id !in done
    ensures Reading(active, unread - {id}, done[id := active[id]])
    ensures InstrumentOk(done[id := active[id]], active[id].instrument)
  {
    assert id in done[id := active[id]];
  }

  lemma ReadLive(active: map<u64, OrderState>, unread: set<u64>, done: map<u64, OrderState>)
    requires Reading(active, unread, done) && Live(active)
    ensures Live(done) && forall id | id in active :: active[id].remaining > 0
  {
  }

  lemma ReadAll(active: map<u64, OrderState>, done: map<u64, OrderState>)
    requires Reading(active, {}, done)
    ensures done == active
  {
  }

  lemma ReadNone(active: map<u64, OrderState>)
    ensures Reading(active, active.Keys, map[]) && InstrumentOk(map[], 0)
    ensures SumsOf(Buy, map[], map[]) && SumsOf(Sell, map[], map[])
    ensures SumsFit(Buy, map[]) && SumsFit(Sell, map[])
  {
  }

  lemma BestExists(s: Side, prices: set<i64>) returns (best: i64)
    requires prices != {}
    ensures best in prices && forall q | q in prices :: !Better(s, q, best)
  {
    var p :| p in prices;
    if prices == {p} {
      best := p;
    } else {
      best := BestExists(s, prices - {p});
      assert forall q | q in prices :: q == p || q in prices - {p};
      if Better(s, p, best) {
        best := p;
      }
    }
  }

  /** Every projected order is live and could be shown. */
  ghost predicate Live(active: map<u64, OrderState>) {
    forall id | id in active ::
      id != 0 && DecodeSide(active[id].side).Some? && active[id].price > 0 && active[id].remaining > 0
  }

  lemma {:induction false} LiveSum(active: map<u64, OrderState>, s: Side, price: i64)
    requires Live(active)
    ensures SumAt(active, s, price) >= 0
    ensures Shown(active, s, price) <==> SumAt(active, s, price) > 0
    decreases |active|
  {
    hide SumAt;
    if active == map[] {
      SumAtNone(s, price);
    } else {
      var id :| id in active && (Shown(active, s, price) ==> active[id].side == Code(s) && active[id].price == price);
      SumAtPick(active, s, price, id);
      assert active.Keys == (active - {id}).Keys + {id};
      LiveSum(active - {id}, s, price);
    }
  }

  lemma SumAtNone(s: Side, price: i64)
    ensures SumAt(map[], s, price) == 0
  {
  }

  lemma BothAggregated(active: map<u64, OrderState>, bids: seq<PublicLevel>, asks: seq<PublicLevel>)
    requires Live(active) && IsView(Buy, active, bids) && IsView(Sell, active, asks)
    ensures IsDepth(Buy, active, bids) && IsDepth(Sell, active, asks) <==> SumsFit(Buy, active) && SumsFit(Sell, active)
  {
    AggregateIffFits(Buy, active, bids);
    AggregateIffFits(Sell, active, asks);
  }

  class MarketDataProjection {
    var active: map<u64, OrderState>
    var trades: seq<PublicTrade>
    var last: u64
    var instrument: u32
    var bids: seq<PublicLevel>
    var asks: seq<PublicLevel>

    ghost function Abs(): Projected
      reads this
    {
      Projected(active, trades, last)
    }

    ghost predicate ViewOk()
      reads this
    {
      && IsView(Buy, active, bids) && IsView(Sell, active, asks)
      && InstrumentOk(active, instrument)
    }

    ghost predicate Valid()
      reads this
    {
      Live(active) && ViewOk()
    }

    /** Both sides of the public book are the aggregate of the active orders. */
    ghost predicate Aggregated()
      reads this
    {
      IsDepth(Buy, active, bids) && IsDepth(Sell, active, asks)
    }

    /** No sum the public book needs leaves 64 signed bits. */
    ghost predicate Fits()
      reads this
    {
      SumsFit(Buy, active) && SumsFit(Sell, active)
    }

    constructor ()
      ensures Valid() && Abs() == NOTHING
    {
      active, trades, last := map[], [], 0;
      instrument, bids, asks := 0, [], [];
    }

    /** The levels of one side from its sums, in the order the sorted map iterates. */
    static method EmitLevels(s: Side, sums: map<i64, i64>) returns (levels: seq<PublicLevel>)
      ensures BestFirst(s, levels)
      ensures forall l :: l in levels <==> l.price in sums && sums[l.price] > 0 && l.quantity == sums[l.price]
    {
      levels := [];
      var prices := sums.Keys;
      while prices != {}
        invariant prices <= sums.Keys && BestFirst(s, levels)
        invariant forall l, q | l in levels && q in prices :: Better(s, l.price, q)
        invariant forall l :: l in levels <==>
          l.price in sums && l.price !in prices && sums[l.price] > 0 && l.quantity == sums[l.price]
        decreases |prices|
      {
        ghost var best := BestExists(s, prices);
        var price :| price in prices && forall q | q in prices :: !Better(s, q, price);
        forall q | q in prices - {price}
          ensures Better(s, price, q)
        {
          assert q in prices && !Better(s, q, price);
        }
        prices := prices - {price};
        if sums[price] > 0 {
          levels := levels + [PublicLevel(price, sums[price])];
        }
      }
    }

    /** Aggregates the active orders anew; tells whether an addition overflowed on the way. */
    method RebuildBook() returns (ghost overflow: bool)
      requires Live(active)
      modifies this`instrument, this`bids, this`asks
      ensures Valid()
      ensures Aggregated() <==> Fits()
      ensures overflow <==> !Fits()
    {
      hide SumsOf, SumsFit, IsView, IsDepth, Live, Plus, Reading, InstrumentOk, SumIn;
      var bidSums: map<i64, i64>, askSums: map<i64, i64> := map[], map[];
      instrument, overflow := 0, false;
      var unread := active.Keys;
      ghost var done: map<u64, OrderState> := map[];
      ReadNone(active);
      while unread != {}
        invariant Reading(active, unread, done) && InstrumentOk(done, instrument)
        invariant SumsOf(Buy, done, bidSums) && SumsOf(Sell, done, askSums)
        invariant overflow <==> !(SumsFit(Buy, done) && SumsFit(Sell, done))
        decreases |unread|
      {
        var id :| id in unread;
        ReadOne(active, unread, done, id);
        ReadLive(active, unread, done);
        var o := active[id];
        unread := unread - {id};
        instrument := o.instrument;
        SumsAdd(Buy, done, bidSums, id, o);
        SumsAdd(Sell, done, askSums, id, o);
        FitsAdd(Buy, done, bidSums, id, o);
        FitsAdd(Sell, done, askSums, id, o);
        if o.side == BUY {
          overflow := overflow || SumIn(bidSums, o.price) + o.remaining >= I64_LIMIT;
          bidSums := Plus(bidSums, o.price, o.remaining);
        } else if o.side == SELL {
          overflow := overflow || SumIn(askSums, o.price) + o.remaining >= I64_LIMIT;
          askSums := Plus(askSums, o.price, o.remaining);
        }
        done := done[id := o];
      }
      ReadAll(active, done);
      bids := EmitLevels(Buy, bidSums);
      asks := EmitLevels(Sell, askSums);
      SumsAreView(Buy, active, bidSums, bids);
      SumsAreView(Sell, active, askSums, asks);
      BothAggregated(active, bids, asks);
    }

    method UpsertOrder(id: u64, instrument: u32, side: u16, price: i64, remaining: i64) returns (status: Status)
      requires Valid() && DecodeSide(side).Some?
      modifies this
      ensures Valid() && last == old(last) && trades == old(trades)
      ensures status == (if id == 0 || price <= 0 || remaining <= 0 then Rejected else Applied)
      ensures status == Rejected ==> unchanged(this)
      ensures status == Applied ==> active == old(active)[id := OrderState(instrument, side, price, remaining)]
    {
      if id == 0 || price <= 0 || remaining <= 0 {
        return Rejected;
      }
      active := active[id := OrderState(instrument, side, price, remaining)];
      ghost var overflow := RebuildBook();
      return Applied;
    }

    method RemoveOrder(id: u64) returns (status: Status)
      requires Valid()
      modifies this
      ensures Valid() && last == old(last) && trades == old(trades)
      ensures status == Applied && active == old(active) - {id}
    {
      active := active - {id};
      ghost var overflow := RebuildBook();
      return Applied;
    }

    method ApplyRested(e: Event) returns (status: Status)
      requires Valid()
      modifies this
      ensures Valid() && last == old(last) && trades == old(trades)
      ensures status == if e.remaining <= 0 || DecodeSide(e.side).None? || e.orderId == 0 || e.price <= 0
                        then Rejected else Applied
      ensures status == Rejected ==> unchanged(this)
      ensures status == Applied ==>
        active == old(active)[e.orderId := OrderState(e.instrument, e.side, e.price, e.remaining)]
    {
      if e.remaining <= 0 || (e.side != BUY && e.side != SELL) {
        return Rejected;
      }
      status := UpsertOrder(e.orderId, e.instrument, e.side, e.price, e.remaining);
    }

    method ApplyTrade(e: Event) returns (status: Status)
      requires Valid()
      modifies this
      ensures Valid() && last == old(last)
      ensures status == if e.quantity <= 0 || e.contraOrderId == 0 || e.contraOrderId !in old(active)
                           || old(active)[e.contraOrderId].remaining < e.quantity then Rejected else Applied
      ensures status == Rejected ==> unchanged(this)
      ensures status == Applied ==>
        active == Reduced(old(active), e.contraOrderId, e.quantity) && trades == old(trades) + [PublicTradeOf(e)]
    {
      if e.quantity <= 0 || e.contraOrderId == 0 {
        return Rejected;
      }
      if e.contraOrderId !in active {
        return Rejected;
      }
      var o := active[e.contraOrderId];
      if o.remaining < e.quantity {
        return Rejected;
      }
      trades := trades + [PublicTrade(e.tradeId, e.instrument, e.orderId, e.contraOrderId, e.side, e.price, e.quantity)];
      o := o.(remaining := o.remaining - e.quantity);
      active := active[e.contraOrderId := o];
      if o.remaining == 0 {
        active := active - {e.contraOrderId};
      }
      ghost var overflow := RebuildBook();
      return Applied;
    }

    method ApplyCancelled(e: Event) returns (status: Status)
      requires Valid()
      modifies this
      ensures Valid() && last == old(last) && trades == old(trades)
      ensures status == if e.orderId in old(active) then Applied else Rejected
      ensures status == Rejected ==> unchanged(this)
      ensures status == Applied ==> active == old(active) - {e.orderId}
    {
      if e.orderId !in active {
        return Rejected;
      }
      status := RemoveOrder(e.orderId);
    }

    method ApplyFilled(e: Event) returns (status: Status)
      requires Valid()
      modifies this
      ensures Valid() && last == old(last) && trades == old(trades)
      ensures status == if e.orderId in old(active) then Applied else Ignored
      ensures status == Ignored ==> unchanged(this)
      ensures status == Applied ==> active == old(active) - {e.orderId}
    {
      if e.orderId !in active {
        return Ignored;
      }
      status := RemoveOrder(e.orderId);
    }

    /**
     One event of any stream: the view stays what 64-bit sums make of the active orders, which is their
     aggregate exactly while every sum fits, and a rejected event changes nothing at all.
     */
    method Apply(e: Event) returns (status: Status)
      requires Valid()
      modifies this
      ensures Valid()
      ensures Verdict(status, Abs()) == Project(old(Abs()), e)
      ensures status == Rejected ==> unchanged(this)
      ensures Aggregated() <==> Fits()
    {
      hide IsView, IsDepth, SumsFit;
      BothAggregated(active, bids, asks);
      if e.eventSequence != Add64(last, 1) {
        return Rejected;
      }
      if e.eventType == ORDER_ACCEPTED || e.eventType == ORDER_REJECTED {
        status := Ignored;
      } else if e.eventType == ORDER_RESTED || e.eventType == ORDER_PARTIALLY_FILLED {
        status := ApplyRested(e);
      } else if e.eventType == TRADE_EXECUTED {
        status := ApplyTrade(e);
      } else if e.eventType == ORDER_FULLY_FILLED {
        status := ApplyFilled(e);
      } else if e.eventType == ORDER_CANCELLED {
        status := ApplyCancelled(e);
      } else {
        status := Rejected;
      }
      if status != Rejected {
        last := e.eventSequence;
      }
      BothAggregated(active, bids, asks);
    }
  }

  lemma SumsAreView(s: Side, active: map<u64, OrderState>, sums: map<i64, i64>, levels: seq<PublicLevel>)
    requires SumsOf(s, active, sums) && BestFirst(s, levels)
    requires forall l :: l in levels <==> l.price in sums && sums[l.price] > 0 && l.quantity == sums[l.price]
    ensures IsView(s, active, levels)
  {
    hide SumAt, Wrap64;
    forall price: i64
      ensures Shown(active, s, price) && Wrap64(SumAt(active, s, price)) > 0 <==> exists l :: l in levels && l.price == price
    {
      if Shown(active, s, price) && Wrap64(SumAt(active, s, price)) > 0 {
        assert PublicLevel(price, sums[price]) in levels;
      }
    }
  }
}
