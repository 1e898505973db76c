/** The mutable order book and the engine that dispatches commands to it. */
module OrderBook {
  import opened Domain
  import opened BookModel
  import opened BookInvariant
  import opened PriceLevels

  /** The index holds exactly the orders of both lists, each under its own id. */
  ghost predicate Indexed(active: map<u64, Resting>, a: seq<Resting>, b: seq<Resting>) {
    && active.Keys == Ids(a) + Ids(b)
    && (forall r | r in a :: active[r.orderId] == r)
    && (forall r | r in b :: active[r.orderId] == r)
  }

  /** The invariant of one side's list inside a match loop. */
  ghost predicate Matchable(list: seq<Resting>, others: seq<Resting>, active: map<u64, Resting>) {
    && Positive(list) && Unique(list) && Ids(list) !! Ids(others)
    && Indexed(active, list, others)
  }

  /** The list after `q` lots traded with its head. */
  function AfterTrade(list: seq<Resting>, q: i64): seq<Resting>
    requires list != [] && 0 < q <= list[0].remaining
  {
    if q == list[0].remaining then list[1..]
    else [list[0].(remaining := list[0].remaining - q)] + list[1..]
  }

  lemma AfterTradeHead(queue: seq<Resting>, behind: seq<Resting>, q: i64)
    requires queue != [] && 0 < q <= queue[0].remaining
    ensures AfterTrade(queue + behind, q) == AfterTrade(queue, q) + behind
  {
    assert (queue + behind)[1..] == queue[1..] + behind;
  }

  lemma HeadReady(levels: seq<Level>, others: seq<Resting>, active: map<u64, Resting>)
    requires levels != [] && levels[0].queue != [] && Matchable(Flat(levels), others, active)
    ensures Flat(levels) != [] && Flat(levels)[0] == levels[0].queue[0] && levels[0].queue[0].remaining > 0
  {
    assert Flat(levels)[0] in Flat(levels);
  }

  /** One trade is one unfolding of the walk. */
  lemma WalkTrade(s: Side, c: Command, list: seq<Resting>, left: i64, event: u64, trade: u64, q: i64)
    requires left > 0 && Positive(list) && list != [] && Crosses(s, c.price, list[0].price)
    requires q == if left <= list[0].remaining then left else list[0].remaining
    ensures Positive(AfterTrade(list, q))
    ensures var f := Walk(s, c, list, left, event, trade);
      var g := Walk(s, c, AfterTrade(list, q), left - q, Add64(event, 1), Add64(trade, 1));
      f == Fill([TradeEvent(c, event, trade, list[0], q, left - q)] + g.trades, g.rest, g.left)
  {
  }

  /** The index entry of the head follows the trade; a spent order leaves the index. */
  function Reindexed(active: map<u64, Resting>, r: Resting): map<u64, Resting> {
    if r.remaining == 0 then active[r.orderId := r] - {r.orderId} else active[r.orderId := r]
  }

  lemma TradeKeepsMatchable(list: seq<Resting>, others: seq<Resting>, active: map<u64, Resting>, q: i64)
    requires Matchable(list, others, active) && list != [] && 0 < q <= list[0].remaining
    ensures Matchable(AfterTrade(list, q), others,
                      Reindexed(active, list[0].(remaining := list[0].remaining - q)))
  {
    hide Indexed, Unique;
    TradeKeepsOrders(list, q);
    TradeKeepsIndexed(list, others, active, q);
  }

  lemma TradeKeepsOrders(list: seq<Resting>, q: i64)
    requires Positive(list) && Unique(list) && list != [] && 0 < q <= list[0].remaining
    ensures Positive(AfterTrade(list, q)) && Unique(AfterTrade(list, q))
    ensures Ids(AfterTrade(list, q)) <= Ids(list)
  {
    hide Unique;
    SplitHead(list);
    if q < list[0].remaining {
      var list' := [list[0].(remaining := list[0].remaining - q)] + list[1..];
      SplitHead(list');
      SameIdsUnique(list, list');
    }
  }

  lemma SameIdsUnique(list: seq<Resting>, other: seq<Resting>)
    requires Unique(list) && |other| == |list| && forall i | 0 <= i < |list| :: other[i].orderId == list[i].orderId
    ensures Unique(other)
  {
  }

  lemma TradeKeepsIndexed(list: seq<Resting>, others: seq<Resting>, active: map<u64, Resting>, q: i64)
    requires Indexed(active, list, others) && Ids(list) !! Ids(others) && Unique(list)
    requires list != [] && 0 < q <= list[0].remaining
    ensures Indexed(Reindexed(active, list[0].(remaining := list[0].remaining - q)), AfterTrade(list, q), others)
  {
    hide Unique, Ids;
    var r := list[0].(remaining := list[0].remaining - q);
    SplitHead(list);
    IdsHold(list[1..]);
    IdsHold(others);
    if q < list[0].remaining {
      SplitHead([r] + list[1..]);
      assert ([r] + list[1..])[1..] == list[1..];
    }
  }

  lemma IdsHold(list: seq<Resting>)
    ensures forall o | o in list :: o.orderId in Ids(list)
  {
  }

  lemma SplitHead(list: seq<Resting>)
    requires list != []
    ensures forall o :: o in list <==> o == list[0] || o in list[1..]
    ensures Ids(list) == {list[0].orderId} + Ids(list[1..])
    ensures Unique(list) ==> Unique(list[1..]) && list[0].orderId !in Ids(list[1..])
  {
    assert list == [list[0]] + list[1..];
  }

  /** A match loop half way: what it still has to do completes what it was asked to do. */
  ghost predicate Resumes(s: Side, c: Command, f: Fill, done: seq<Event>,
                          list: seq<Resting>, left: i64, event: u64, trade: u64)
  {
    && left >= 0 && Positive(list)
    && var g := Walk(s, c, list, left, event, trade);
       f == Fill(done + g.trades, g.rest, g.left)
  }

  lemma ResumeAfterTrade(s: Side, c: Command, f: Fill, done: seq<Event>,
                         list: seq<Resting>, left: i64, event: u64, trade: u64, q: i64)
    requires Resumes(s, c, f, done, list, left, event, trade)
    requires left > 0 && list != [] && Crosses(s, c.price, list[0].price)
    requires q == if left <= list[0].remaining then left else list[0].remaining
    ensures Resumes(s, c, f, done + [TradeEvent(c, event, trade, list[0], q, left - q)],
                    AfterTrade(list, q), left - q, Add64(event, 1), Add64(trade, 1))
  {
    WalkTrade(s, c, list, left, event, trade, q);
    var e := TradeEvent(c, event, trade, list[0], q, left - q);
    var g := Walk(s, c, AfterTrade(list, q), left - q, Add64(event, 1), Add64(trade, 1));
    assert done + ([e] + g.trades) == (done + [e]) + g.trades;
  }

  lemma StartMatching(s: Side, c: Command, b: Book, active: map<u64, Resting>)
    requires c.quantity > 0 && Ok(b) && Indexed(active, b.bids, b.asks)
    ensures Matchable(b.Opposite(s), b.Own(s), active)
    ensures var list := b.Opposite(s);
      Positive(list)
      && Resumes(s, c, Walk(s, c, list, c.quantity, b.nextEvent, b.nextTrade), [], list, c.quantity, b.nextEvent, b.nextTrade)
  {
    assert forall r | r in b.Opposite(s) :: r in b.Orders();
  }

  /** A match loop ends only where the walk ends. */
  lemma StopMatching(s: Side, c: Command, f: Fill, done: seq<Event>, levels: seq<Level>, others: seq<Resting>,
                     active: map<u64, Resting>, left: i64, event: u64, trade: u64)
    requires Matchable(Flat(levels), others, active)
    requires Resumes(s, c, f, done, Flat(levels), left, event, trade)
    requires LevelsOk(Flip(s), levels)
    requires left <= 0 || levels == [] || !Crosses(s, c.price, levels[0].price)
    ensures f == Fill(done, Flat(levels), left)
    ensures Indexed(active, Flat(levels), others) && Indexed(active, others, Flat(levels))
  {
    if levels != [] {
      FlatHead(levels);
    }
  }

  lemma PopEmpty(levels: seq<Level>)
    requires levels != [] && levels[0].queue == []
    ensures Flat(levels) == Flat(levels[1..])
  {
  }

  lemma QueuedAt(s: Side, levels: seq<Level>, o: Resting)
    requires LevelsOk(s, levels) && o in Flat(levels)
    ensures FindLevel(levels, o.price) < |levels| && o in levels[FindLevel(levels, o.price)].queue
  {
    hide LevelsOk, FindLevel;
    var j := QueueOf(s, levels, o);
    LevelHere(s, levels, j);
  }

  lemma QueueOf(s: Side, levels: seq<Level>, o: Resting) returns (j: nat)
    requires LevelsOk(s, levels) && o in Flat(levels)
    ensures j < |levels| && levels[j].price == o.price && o in levels[j].queue
  {
    hide Flat, Ordered;
    FlatPrices(levels);
    var l :| l in levels && l.price == o.price && o in l.queue;
    j :| 0 <= j < |levels| && levels[j] == l;
  }

  /** A level is found by its own price. */
  lemma LevelHere(s: Side, levels: seq<Level>, j: nat)
    requires LevelsOk(s, levels) && j < |levels|
    ensures FindLevel(levels, levels[j].price) == j
  {
    hide Flat, FindLevel;
    var i := FindLevel(levels, levels[j].price);
    assert levels[i].price == levels[j].price;
  }

  /** A found order is queued on the side it names, at its own price. */
  lemma QueuedSide(b: Book, r: Resting)
    requires Ok(b) && Find(b.Orders(), r.orderId) == Some(r)
    ensures Unique(b.bids) && Unique(b.asks)
    ensures if DecodeSide(r.side) == Some(Buy) then r in b.bids else r in b.asks
  {
  }

  lemma QueueOrders(s: Side, levels: seq<Level>, i: nat)
    requires LevelsOk(s, levels) && i < |levels|
    ensures levels[i].queue != []
    ensures forall o | o in levels[i].queue :: o in Flat(levels) && o.price == levels[i].price
  {
    FlatAt(levels, i);
    assert levels[i] in levels;
  }

  /** Giving level `i` a queue of its own orders, or dropping the level with its last order. */
  lemma SetQueue(s: Side, levels: seq<Level>, i: nat, queue: seq<Resting>)
    requires LevelsOk(s, levels) && i < |levels| && forall o | o in queue :: o in levels[i].queue
    ensures var out := if queue == [] then levels[..i] + levels[i + 1..]
                       else levels[i := Level(levels[i].price, queue)];
      && LevelsOk(s, out)
      && Flat(out) == Flat(levels[..i]) + queue + Flat(levels[i + 1..])
      && (queue == levels[i].queue ==> out == levels)
  {
    hide Flat, LevelsOk;
    var level := Level(levels[i].price, queue);
    if queue == [] {
      FlatSplit(levels[..i], levels[i + 1..]);
      DropLevelOk(s, levels, i);
    } else {
      var out := levels[i := level];
      FlatAt(out, i);
      assert out[..i] == levels[..i] && out[i + 1..] == levels[i + 1..];
      PutQueueOk(s, levels, i, queue);
    }
  }

  lemma DropLevelOk(s: Side, levels: seq<Level>, i: nat)
    requires LevelsOk(s, levels) && i < |levels|
    ensures LevelsOk(s, levels[..i] + levels[i + 1..]) && levels[i].queue != []
  {
    assert levels[i] in levels;
  }

  lemma PutQueueOk(s: Side, levels: seq<Level>, i: nat, queue: seq<Resting>)
    requires LevelsOk(s, levels) && i < |levels| && queue != [] && forall o | o in queue :: o in levels[i].queue
    ensures LevelsOk(s, levels[i := Level(levels[i].price, queue)]) && levels[i].queue != []
  {
    assert levels[i] in levels;
  }

  /** Counters do not matter for validity. */
  lemma KeepsOk(b: Book, instrument: Option<u32>, nextEvent: u64)
    requires Ok(b) && (b.instrument == instrument || b.instrument.None?)
    ensures Ok(b.(instrument := instrument, nextEvent := nextEvent))
  {
  }

  lemma RestIndexed(b: Book, c: Command, active: map<u64, Resting>, left: i64)
    requires Ok(b) && ValidateNew(b, c) == NO_REASON && left > 0
    requires var s := DecodeSide(c.side).value;
      var rest := Matched(b, c).rest;
      Indexed(active, if s.Buy? then b.bids else rest, if s.Buy? then rest else b.asks)
    ensures var s := DecodeSide(c.side).value;
      var r := RestingOrder(c, left);
      var rest := Matched(b, c).rest;
      Indexed(active[c.orderId := r],
              if s.Buy? then Place(Buy, b.bids, r) else rest, if s.Buy? then rest else Place(Sell, b.asks, r))
  {
    hide Indexed, Place, Matched;
    var s := DecodeSide(c.side).value;
    var rest := Matched(b, c).rest;
    MatchedOk(b, c);
    assert forall o | o in b.Own(s) :: o in b.Orders();
    assert forall o | o in b.Opposite(s) :: o in b.Orders();
    assert c.orderId !in Ids(b.Own(s)) && c.orderId !in Ids(rest);
    if s.Sell? {
      IndexedFlip(active, rest, b.asks);
    }
    PlaceIndexed(s, b.Own(s), rest, active, RestingOrder(c, left));
    if s.Sell? {
      IndexedFlip(active[c.orderId := RestingOrder(c, left)], Place(Sell, b.asks, RestingOrder(c, left)), rest);
    }
  }

  lemma IndexedFlip(active: map<u64, Resting>, a: seq<Resting>, b: seq<Resting>)
    requires Indexed(active, a, b)
    ensures Indexed(active, b, a)
  {
  }

  lemma PlaceIndexed(s: Side, own: seq<Resting>, opposite: seq<Resting>, active: map<u64, Resting>, r: Resting)
    requires Sorted(s, own) && r.orderId !in Ids(own) && r.orderId !in Ids(opposite)
    requires Indexed(active, own, opposite)
    ensures Indexed(active[r.orderId := r], Place(s, own, r), opposite)
  {
    PlaceAdds(s, own, r);
    assert forall o | o in own :: o.orderId in Ids(own);
    assert forall o | o in opposite :: o.orderId in Ids(opposite);
  }

  lemma RemovedIndexed(b: Book, r: Resting, active: map<u64, Resting>)
    requires Ok(b) && Find(b.Orders(), r.orderId) == Some(r) && Indexed(active, b.bids, b.asks)
    ensures Indexed(active - {r.orderId}, Without(b, r).bids, Without(b, r).asks)
  {
    WithoutOk(b, r.orderId);
    var w := Without(b, r);
    assert Ids(w.bids) + Ids(w.asks) == Ids(w.Orders());
    assert Ids(b.bids) + Ids(b.asks) == Ids(b.Orders());
    assert forall o | o in w.bids || o in w.asks :: o in w.Orders() && o.orderId in Ids(w.Orders());
  }

  lemma FoundForReplace(b: Book, c: Command)
    requires ValidateReplace(b, c) == NO_REASON
    ensures Find(b.Orders(), c.orderId).Some?
  {
  }

  // The runtime check

  predicate QueuedWell(r: Resting, price: i64, s: Side) {
    DecodeSide(r.side) == Some(s) && r.price == price && r.remaining > 0
  }

  /** The index entry under the order's id agrees with it; the entry's own id field is not looked at. */
  predicate InIndex(r: Resting, active: map<u64, Resting>) {
    r.orderId in active && active[r.orderId].(orderId := r.orderId) == r
  }

  ghost predicate LevelMirrored(l: Level, s: Side, active: map<u64, Resting>) {
    l.queue != [] && l.price > 0 && forall r | r in l.queue :: QueuedWell(r, l.price, s) && InIndex(r, active)
  }

  ghost predicate LevelsMirrored(levels: seq<Level>, s: Side, active: map<u64, Resting>) {
    forall l | l in levels :: LevelMirrored(l, s, active)
  }

  /** Queues and index hold the same orders: what the runtime check is for, said of the whole state. */
  ghost predicate Mirrored(bids: seq<Level>, asks: seq<Level>, active: map<u64, Resting>) {
    && LevelsMirrored(bids, Buy, active) && LevelsMirrored(asks, Sell, active)
    && Unique(Flat(bids)) && Unique(Flat(asks)) && Ids(Flat(bids)) !! Ids(Flat(asks))
    && active.Keys == Ids(Flat(bids)) + Ids(Flat(asks))
    && Uncrossed(Flat(bids), Flat(asks))
  }

  /** The ids recorded while walking over `orders`, on top of those of `before`. */
  ghost predicate Seen(orders: seq<Resting>, before: set<u64>, now: set<u64>) {
    Unique(orders) && Ids(orders) !! before && now == before + Ids(orders)
  }

  lemma SeenNone(before: set<u64>)
    ensures Flat([]) == [] && Seen([], before, before)
  {
  }

  lemma SeenAll(orders: seq<Resting>, before: set<u64>, now: set<u64>)
    requires Seen(orders, before, now)
    ensures Unique(orders) && Ids(orders) !! before && now == before + Ids(orders)
  {
  }

  /** The next queued order extends what was seen, or shows that an id occurs twice. */
  lemma SeenNext(levels: seq<Level>, i: nat, k: nat, before: set<u64>, now: set<u64>)
    requires i < |levels| && k < |levels[i].queue|
    requires Seen(Flat(levels[..i]) + levels[i].queue[..k], before, now)
    ensures var r := levels[i].queue[k];
      && (r.orderId !in now ==> Seen(Flat(levels[..i]) + levels[i].queue[..k + 1], before, now + {r.orderId}))
      && (r.orderId in now ==> !Unique(Flat(levels)) || !(Ids(Flat(levels)) !! before))
      && levels[i].queue[..k + 1] == levels[i].queue[..k] + [r] && r in levels[i].queue
  {
    var r := levels[i].queue[k];
    var seen := Flat(levels[..i]) + levels[i].queue[..k];
    assert Flat(levels[..i]) + levels[i].queue[..k + 1] == seen + [r];
    FlatAt(levels, i);
    var flat := Flat(levels);
    assert flat[|seen|] == r && flat[..|seen|] == seen;
    if r.orderId in Ids(seen) {
      var j :| 0 <= j < |seen| && seen[j].orderId == r.orderId;
      assert flat[j] == seen[j];
    }
  }

  lemma SeenLevel(levels: seq<Level>, i: nat)
    requires i < |levels|
    ensures Flat(levels[..i + 1]) == Flat(levels[..i]) + levels[i].queue
    ensures levels[..i + 1] == levels[..i] + [levels[i]]
  {
    assert levels[..i + 1][..i] == levels[..i] && levels[..i + 1][i + 1..] == [];
    FlatAt(levels[..i + 1], i);
  }

  /** The orders behind a mirrored side are the queued ones, and the index knows them all. */
  lemma MirroredOrders(levels: seq<Level>, s: Side, active: map<u64, Resting>)
    requires LevelsMirrored(levels, s, active)
    ensures forall r | r in Flat(levels) :: DecodeSide(r.side) == Some(s) && r.remaining > 0 && r.price > 0
    ensures forall r | r in Flat(levels) :: InIndex(r, active)
    ensures Ids(Flat(levels)) <= active.Keys
  {
    FlatPrices(levels);
  }

  lemma QueuedKeys(bids: seq<Level>, asks: seq<Level>, active: map<u64, Resting>, queued: set<u64>)
    requires LevelsMirrored(bids, Buy, active) && LevelsMirrored(asks, Sell, active)
    requires queued == Ids(Flat(bids)) + Ids(Flat(asks))
    ensures active.Keys == queued <==>
      |queued| == |active| && active.Keys <= queued && forall id | id in active :: active[id].remaining > 0
  {
    MirroredOrders(bids, Buy, active);
    MirroredOrders(asks, Sell, active);
    if active.Keys == queued {
      assert |active| == |active.Keys|;
      forall id | id in active
        ensures active[id].remaining > 0
      {
        var r :| (r in Flat(bids) || r in Flat(asks)) && r.orderId == id;
        assert InIndex(r, active);
      }
    }
  }

  lemma BestFirst(levels: seq<Level>, s: Side, active: map<u64, Resting>)
    requires LevelsMirrored(levels, s, active) && Ordered(s, levels)
    ensures levels == [] ==> Flat(levels) == []
    ensures levels != [] ==> Flat(levels) != [] && Flat(levels)[0].price == levels[0].price
    ensures forall r | r in Flat(levels) :: !Better(s, r.price, Flat(levels)[0].price)
  {
    FlatPrices(levels);
    if levels != [] {
      assert levels[0] in levels;
      FlatHead(levels);
    }
  }

  lemma BestUncrossed(bids: seq<Level>, asks: seq<Level>, active: map<u64, Resting>)
    requires LevelsMirrored(bids, Buy, active) && LevelsMirrored(asks, Sell, active)
    requires Ordered(Buy, bids) && Ordered(Sell, asks)
    ensures (bids == [] || asks == [] || bids[0].price < asks[0].price) <==> Uncrossed(Flat(bids), Flat(asks))
  {
    hide LevelsMirrored, Ordered, Flat;
    BestFirst(bids, Buy, active);
    BestFirst(asks, Sell, active);
    if bids != [] && asks != [] {
      assert Flat(bids)[0] in Flat(bids) && Flat(asks)[0] in Flat(asks);
    }
  }

  /** Every index entry sits under its own id and belongs to the bound instrument. */
  ghost predicate OwnEntries(active: map<u64, Resting>, instrument: Option<u32>) {
    forall id | id in active :: active[id].orderId == id && instrument == Some(active[id].instrument)
  }

  /**
   The runtime check is exact up to what it does not look at: the id field inside an index entry,
   and the instrument the book is bound to.
   */
  lemma ValidIffMirrored(bids: seq<Level>, asks: seq<Level>, active: map<u64, Resting>, b: Book)
    requires b.bids == Flat(bids) && b.asks == Flat(asks)
    requires Ordered(Buy, bids) && Ordered(Sell, asks)
    ensures LevelsOk(Buy, bids) && LevelsOk(Sell, asks) && Indexed(active, b.bids, b.asks) && Ok(b)
      <==> Mirrored(bids, asks, active) && OwnEntries(active, b.instrument)
  {
    hide Unique, Uncrossed, Sorted;
    if LevelsOk(Buy, bids) && LevelsOk(Sell, asks) && Indexed(active, b.bids, b.asks) && Ok(b) {
      SideMirrored(Buy, bids, active, b.instrument);
      SideMirrored(Sell, asks, active, b.instrument);
    }
    if Mirrored(bids, asks, active) && OwnEntries(active, b.instrument) {
      MirroredSide(Buy, bids, active, b.instrument);
      MirroredSide(Sell, asks, active, b.instrument);
    }
  }

  /** An entry that carries a foreign id passes the check although the index does not hold the queued order. */
  lemma CheckOverlooksEntryId(r: Resting, other: u64)
    requires r.side == BUY && r.price > 0 && r.remaining > 0 && other != r.orderId
    ensures var bids := [Level(r.price, [r])];
      var active := map[r.orderId := r.(orderId := other)];
      Ordered(Buy, bids) && Mirrored(bids, [], active) && !Indexed(active, Flat(bids), Flat([]))
  {
    FlatCons(Level(r.price, [r]), []);
    assert [Level(r.price, [r])] == [Level(r.price, [r])] + [] && [r] + [] == [r];
    assert Flat([Level(r.price, [r])]) == [r];
  }

  lemma SideMirrored(s: Side, levels: seq<Level>, active: map<u64, Resting>, instrument: Option<u32>)
    requires LevelsOk(s, levels) && SideOk(s, Flat(levels), instrument)
    requires forall r | r in Flat(levels) :: r.orderId in active && active[r.orderId] == r
    ensures LevelsMirrored(levels, s, active)
    ensures forall r | r in Flat(levels) ::
      active[r.orderId].orderId == r.orderId && instrument == Some(active[r.orderId].instrument)
  {
    FlatPrices(levels);
    forall l | l in levels
      ensures LevelMirrored(l, s, active)
    {
      assert forall r | r in l.queue :: r in Flat(levels);
      assert l.queue[0] in l.queue;
    }
  }

  lemma MirroredSide(s: Side, levels: seq<Level>, active: map<u64, Resting>, instrument: Option<u32>)
    requires LevelsMirrored(levels, s, active) && OwnEntries(active, instrument) && Ordered(s, levels)
    ensures LevelsOk(s, levels) && SideOk(s, Flat(levels), instrument)
    ensures forall r | r in Flat(levels) :: r.orderId in active && active[r.orderId] == r
  {
    MirroredOrders(levels, s, active);
    FlatSorted(s, levels);
  }

  lemma SnapshotLevels(s: Side, levels: seq<Level>)
    requires LevelsOk(s, levels)
    ensures levels == [] <==> Flat(levels) == []
    ensures levels != [] ==> Flat(levels)[0].price == levels[0].price
  {
    if levels != [] {
      TailOk(s, levels);
      FlatHead(levels);
    }
  }

  lemma BestOfSide(s: Side, list: seq<Resting>, instrument: Option<u32>)
    requires SideOk(s, list, instrument)
    ensures forall r | r in list :: !Better(s, r.price, list[0].price)
  {
  }

  lemma SnapshotIndex(b: Book, active: map<u64, Resting>)
    requires Ok(b) && Indexed(active, b.bids, b.asks)
    ensures |active| == |b.Orders()|
  {
    UniqueOrders(b);
    IdsCount(b.Orders());
    assert active.Keys == Ids(b.Orders());
  }

  class OrderBook {
    var instrument: Option<u32>
    var nextEvent: u64
    var nextTrade: u64
    var bids: seq<Level>
    var asks: seq<Level>
    var active: map<u64, Resting>

    ghost function Abs(): Book
      reads this
    {
      Book(instrument, nextEvent, nextTrade, Flat(bids), Flat(asks))
    }

    ghost predicate Valid()
      reads this
    {
      && LevelsOk(Buy, bids) && LevelsOk(Sell, asks)
      && Indexed(active, Flat(bids), Flat(asks))
      && Ok(Abs())
    }

    constructor (firstEvent: u64)
      ensures Valid() && Abs() == Fresh(firstEvent)
    {
      instrument, nextEvent, nextTrade := None, firstEvent, 1;
      bids, asks, active := [], [], map[];
    }

    method EmitOrderEvent(c: Command, kind: u16, quantity: i64, remaining: i64) returns (e: Event)
      modifies this`nextEvent
      ensures e == OrderEvent(c, old(nextEvent), kind, quantity, remaining)
      ensures nextEvent == Add64(old(nextEvent), 1)
    {
      e := OrderEvent(c, nextEvent, kind, quantity, remaining);
      nextEvent := Add64(nextEvent, 1);
    }

    method EmitTradeEvent(c: Command, r: Resting, price: i64, quantity: i64, left: i64) returns (e: Event)
      modifies this`nextEvent, this`nextTrade
      ensures e == TradeEvent(c, old(nextEvent), old(nextTrade), r, quantity, left).(price := price)
      ensures nextEvent == Add64(old(nextEvent), 1) && nextTrade == Add64(old(nextTrade), 1)
    {
      e := EmitOrderEvent(c, TRADE_EXECUTED, quantity, left);
      e := e.(contraOrderId := r.orderId, tradeId := nextTrade, price := price);
      nextTrade := Add64(nextTrade, 1);
    }

    method EmitRejectionEvent(c: Command, reason: u16) returns (e: Event)
      modifies this`nextEvent
      ensures e == RejectionEvent(c, old(nextEvent), reason)
      ensures nextEvent == Add64(old(nextEvent), 1)
    {
      e := EmitOrderEvent(c, ORDER_REJECTED, 0, 0);
      e := e.(rejectionReason := reason);
    }

    method EmitCancelEvent(c: Command, r: Resting) returns (e: Event)
      modifies this`nextEvent
      ensures e == CancelEvent(c, old(nextEvent), r)
      ensures nextEvent == Add64(old(nextEvent), 1)
    {
      e := EmitOrderEvent(c, ORDER_CANCELLED, 0, r.remaining);
      e := e.(price := r.price, side := r.side, instrument := r.instrument);
    }

    /**
     The body both match loops repeat: trades with the front of one queue, keeping the index in step,
     and pops the front once it is spent.
     */
    method TradeWithFront(c: Command, queue: seq<Resting>, price: i64, left: i64)
      returns (queue': seq<Resting>, left': i64, e: Event)
      requires queue != [] && queue[0].remaining > 0 && queue[0].price == price && left > 0
      modifies this`active, this`nextEvent, this`nextTrade
      ensures var q := if left <= queue[0].remaining then left else queue[0].remaining;
        && left' == left - q && queue' == AfterTrade(queue, q)
        && e == TradeEvent(c, old(nextEvent), old(nextTrade), queue[0], q, left')
        && active == Reindexed(old(active), queue[0].(remaining := queue[0].remaining - q))
      ensures nextEvent == Add64(old(nextEvent), 1) && nextTrade == Add64(old(nextTrade), 1)
    {
      var r := queue[0];
      var q := if left <= r.remaining then left else r.remaining;
      left' := left - q;
      r := r.(remaining := r.remaining - q);
      queue' := [r] + queue[1..];
      active := active[r.orderId := r];
      e := EmitTradeEvent(c, r, price, q, left');
      if r.remaining == 0 {
        active := active - {r.orderId};
        queue' := queue'[1..];
      }
    }

    /** One turn of an inner match loop keeps its invariant. */
    method TradeWithBest(s: Side, c: Command, levels: seq<Level>, left: i64, ghost others: seq<Resting>,
                         ghost f: Fill, ghost done: seq<Event>)
      returns (levels': seq<Level>, left': i64, e: Event)
      requires left > 0 && levels != [] && levels[0].queue != [] && AtPrice(levels[0].queue, levels[0].price)
      requires Crosses(s, c.price, levels[0].price)
      requires Matchable(Flat(levels), others, active)
      requires Resumes(s, c, f, done, Flat(levels), left, nextEvent, nextTrade)
      modifies this`active, this`nextEvent, this`nextTrade
      ensures levels' != [] && levels'[0].price == levels[0].price && levels'[1..] == levels[1..]
      ensures AtPrice(levels'[0].queue, levels[0].price) && 0 <= left' < left
      ensures Matchable(Flat(levels'), others, active)
      ensures Resumes(s, c, f, done + [e], Flat(levels'), left', nextEvent, nextTrade)
      ensures nextEvent == Add64(old(nextEvent), 1) && nextTrade == Add64(old(nextTrade), 1)
    {
      hide Matchable, Resumes;
      var level, tail := levels[0], levels[1..];
      ghost var list := Flat(levels);
      HeadReady(levels, others, active);
      ghost var q := if left <= level.queue[0].remaining then left else level.queue[0].remaining;
      TradeKeepsMatchable(list, others, active, q);
      ResumeAfterTrade(s, c, f, done, list, left, nextEvent, nextTrade, q);
      AfterTradeHead(level.queue, Flat(tail), q);
      var queue';
      queue', left', e := TradeWithFront(c, level.queue, level.price, left);
      levels' := [Level(level.price, queue')] + tail;
      FlatCons(levels'[0], tail);
    }

    method MatchBuyOrderAgainstAsks(c: Command, events: seq<Event>) returns (left: i64, out: seq<Event>)
      requires Valid() && c.quantity > 0
      modifies this`asks, this`active, this`nextEvent, this`nextTrade
      ensures var f := Walk(Buy, c, old(Flat(asks)), c.quantity, old(nextEvent), old(nextTrade));
        && left == f.left && out == events + f.trades && Flat(asks) == f.rest
        && nextEvent == Add64(old(nextEvent), |f.trades|) && nextTrade == Add64(old(nextTrade), |f.trades|)
      ensures LevelsOk(Sell, asks) && Indexed(active, Flat(bids), Flat(asks))
    {
      hide Ok, Indexed, Matchable, Resumes, Flat, Walk, Positive, AtPrice, LevelsOk, Add64;
      StartMatching(Buy, c, Abs(), active);
      ghost var e0, t0 := nextEvent, nextTrade;
      ghost var f := Walk(Buy, c, Flat(asks), c.quantity, e0, t0);
      ghost var done: seq<Event> := [];
      Add64Add(e0, 0, 0);
      Add64Add(t0, 0, 0);
      left, out := c.quantity, events;
      while left > 0 && asks != []
        invariant LevelsOk(Sell, asks) && Matchable(Flat(asks), Flat(bids), active)
        invariant out == events + done && nextEvent == Add64(e0, |done|) && nextTrade == Add64(t0, |done|)
        invariant Resumes(Buy, c, f, done, Flat(asks), left, nextEvent, nextTrade)
        invariant left >= 0
        decreases left
      {
        var best := asks[0].price;
        TailOk(Sell, asks);
        if c.price < best {
          break;
        }
        ghost var tail := asks[1..];
        ghost var leftBefore := left;
        while left > 0 && asks[0].queue != []
          invariant asks != [] && asks[0].price == best && asks[1..] == tail
          invariant AtPrice(asks[0].queue, best)
          invariant Matchable(Flat(asks), Flat(bids), active)
          invariant out == events + done && nextEvent == Add64(e0, |done|) && nextTrade == Add64(t0, |done|)
          invariant Resumes(Buy, c, f, done, Flat(asks), left, nextEvent, nextTrade)
          invariant 0 <= left < leftBefore || (left == leftBefore && asks[0].queue != [])
          decreases left
        {
          Add64Add(e0, |done|, 1);
          Add64Add(t0, |done|, 1);
          var e;
          asks, left, e := TradeWithBest(Buy, c, asks, left, Flat(bids), f, done);
          out, done := out + [e], done + [e];
        }
        if asks[0].queue == [] {
          PopEmpty(asks);
          asks := asks[1..];
        } else {
          ConsOk(Sell, asks[0], tail);
          assert asks == [asks[0]] + tail;
        }
      }
      StopMatching(Buy, c, f, done, asks, Flat(bids), active, left, nextEvent, nextTrade);
    }

    method MatchSellOrderAgainstBids(c: Command, events: seq<Event>) returns (left: i64, out: seq<Event>)
      requires Valid() && c.quantity > 0
      modifies this`bids, this`active, this`nextEvent, this`nextTrade
      ensures var f := Walk(Sell, c, old(Flat(bids)), c.quantity, old(nextEvent), old(nextTrade));
        && left == f.left && out == events + f.trades && Flat(bids) == f.rest
        && nextEvent == Add64(old(nextEvent), |f.trades|) && nextTrade == Add64(old(nextTrade), |f.trades|)
      ensures LevelsOk(Buy, bids) && Indexed(active, Flat(bids), Flat(asks))
    {
      hide Ok, Indexed, Matchable, Resumes, Flat, Walk, Positive, AtPrice, LevelsOk, Add64;
      StartMatching(Sell, c, Abs(), active);
      ghost var e0, t0 := nextEvent, nextTrade;
      ghost var f := Walk(Sell, c, Flat(bids), c.quantity, e0, t0);
      ghost var done: seq<Event> := [];
      Add64Add(e0, 0, 0);
      Add64Add(t0, 0, 0);
      left, out := c.quantity, events;
      while left > 0 && bids != []
        invariant LevelsOk(Buy, bids) && Matchable(Flat(bids), Flat(asks), active)
        invariant out == events + done && nextEvent == Add64(e0, |done|) && nextTrade == Add64(t0, |done|)
        invariant Resumes(Sell, c, f, done, Flat(bids), left, nextEvent, nextTrade)
        invariant left >= 0
        decreases left
      {
        var best := bids[0].price;
        TailOk(Buy, bids);
        if c.price > best {
          break;
        }
        ghost var tail := bids[1..];
        ghost var leftBefore := left;
        while left > 0 && bids[0].queue != []
          invariant bids != [] && bids[0].price == best && bids[1..] == tail
          invariant AtPrice(bids[0].queue, best)
          invariant Matchable(Flat(bids), Flat(asks), active)
          invariant out == events + done && nextEvent == Add64(e0, |done|) && nextTrade == Add64(t0, |done|)
          invariant Resumes(Sell, c, f, done, Flat(bids), left, nextEvent, nextTrade)
          invariant 0 <= left < leftBefore || (left == leftBefore && bids[0].queue != [])
          decreases left
        {
          Add64Add(e0, |done|, 1);
          Add64Add(t0, |done|, 1);
          var e;
          bids, left, e := TradeWithBest(Sell, c, bids, left, Flat(asks), f, done);
          out, done := out + [e], done + [e];
        }
        if bids[0].queue == [] {
          PopEmpty(bids);
          bids := bids[1..];
        } else {
          ConsOk(Buy, bids[0], tail);
          assert bids == [bids[0]] + tail;
        }
      }
      StopMatching(Sell, c, f, done, bids, Flat(asks), active, left, nextEvent, nextTrade);
    }

    // Diagnostics

    /** Read off the index and the ends of the two maps. */
    function TakeSnapshot(): (s: Snapshot)
      requires Valid()
      reads this
      ensures s == SnapshotOf(Abs())
      ensures s.activeOrders == |Abs().Orders()|
      ensures if bids == [] then s.bestBid == 0
              else s.bestBid == Abs().bids[0].price && forall r | r in Abs().bids :: r.price <= s.bestBid
      ensures if asks == [] then s.bestAsk == 0
              else s.bestAsk == Abs().asks[0].price && forall r | r in Abs().asks :: r.price >= s.bestAsk
    {
      SnapshotLevels(Buy, bids);
      SnapshotLevels(Sell, asks);
      SnapshotIndex(Abs(), active);
      BestOfSide(Buy, Abs().bids, instrument);
      BestOfSide(Sell, Abs().asks, instrument);
      Snapshot(|active|, if bids == [] then 0 else bids[0].price, if asks == [] then 0 else asks[0].price)
    }

    // Validation

    predicate HasOrder(id: u64): (has: bool)
      requires Valid()
      reads this
      ensures has <==> id in Ids(Abs().Orders())
    {
      assert Ids(Abs().Orders()) == Ids(Flat(bids)) + Ids(Flat(asks));
      id in active
    }

    function FindOrder(id: u64): (found: Option<Resting>)
      requires Valid()
      reads this
      ensures found == Find(Abs().Orders(), id)
    {
      assert Ids(Abs().Orders()) == Ids(Flat(bids)) + Ids(Flat(asks));
      if id in active then Some(active[id]) else None
    }

    function ValidateNewOrder(c: Command): (reason: u16)
      requires Valid()
      reads this
      ensures reason == ValidateNew(Abs(), c)
    {
      if c.commandType != NEW_ORDER then UNSUPPORTED_COMMAND
      else if DecodeSide(c.side).None? then INVALID_SIDE
      else if c.price <= 0 then INVALID_PRICE
      else if c.quantity <= 0 then INVALID_QUANTITY
      else if HasOrder(c.orderId) then DUPLICATE_ORDER_ID
      else if instrument.Some? && c.instrument != instrument.value then INSTRUMENT_MISMATCH
      else if c.timeInForce != GTC then UNSUPPORTED_TIME_IN_FORCE
      else NO_REASON
    }

    function ValidateReplaceOrder(c: Command): (reason: u16)
      requires Valid()
      reads this
      ensures reason == ValidateReplace(Abs(), c)
    {
      if c.commandType != REPLACE_ORDER then UNSUPPORTED_COMMAND
      else
        var found := FindOrder(c.orderId);
        if found.None? then UNKNOWN_ORDER_ID
        else if found.value.instrument != c.instrument then INSTRUMENT_MISMATCH
        else if c.replacementOrderId == 0 || c.replacementOrderId == c.orderId then INVALID_REPLACEMENT_ORDER_ID
        else if HasOrder(c.replacementOrderId) then REPLACE_WOULD_DUPLICATE_ORDER_ID
        else if DecodeSide(c.side).None? then INVALID_SIDE
        else if c.price <= 0 then INVALID_PRICE
        else if c.quantity <= 0 then INVALID_QUANTITY
        else if c.timeInForce != GTC then UNSUPPORTED_TIME_IN_FORCE
        else NO_REASON
    }

    // Resting and erasing

    /** The remainder of an order goes behind every order of the same or a better price on its own side. */
    method RestOrder(c: Command, remaining: i64)
      requires LevelsOk(Buy, bids) && LevelsOk(Sell, asks)
      modifies this`bids, this`asks, this`active
      ensures LevelsOk(Buy, bids) && LevelsOk(Sell, asks)
      ensures var r := RestingOrder(c, remaining);
        if DecodeSide(c.side) == Some(Buy) then Flat(bids) == Place(Buy, old(Flat(bids)), r) && asks == old(asks)
        else Flat(asks) == Place(Sell, old(Flat(asks)), r) && bids == old(bids)
      ensures active == old(active)[c.orderId := RestingOrder(c, remaining)]
    {
      hide Push, Place, Flat, LevelsOk;
      var r := Resting(c.orderId, c.clientId, c.instrument, c.side, c.price, remaining);
      if DecodeSide(c.side) == Some(Buy) {
        PushOk(Buy, bids, r);
        PushPlaces(Buy, bids, r);
        bids := Push(Buy, bids, r);
      } else {
        PushOk(Sell, asks, r);
        PushPlaces(Sell, asks, r);
        asks := Push(Sell, asks, r);
      }
      active := active[c.orderId := r];
    }

    /**
     Erases the order with `r`'s id from the level of `r`'s price. An order that is queued there is
     removed from the flattened list; the early exits leave everything as it was.
     */
    static method EraseOrderFromPriceLevels(s: Side, levels: seq<Level>, r: Resting) returns (out: seq<Level>)
      requires LevelsOk(s, levels) && Unique(Flat(levels))
      ensures LevelsOk(s, out)
      ensures (exists o :: o in Flat(levels) && o.orderId == r.orderId && o.price == r.price)
        ==> Flat(out) == Remove(Flat(levels), r.orderId)
      ensures !(exists o :: o in Flat(levels) && o.orderId == r.orderId && o.price == r.price) ==> out == levels
    {
      hide Flat, Ordered, LevelsOk, AtPrice, Remove, Unique;
      forall o | o in Flat(levels) && o.price == r.price
        ensures FindLevel(levels, r.price) < |levels| && o in levels[FindLevel(levels, r.price)].queue
      {
        QueuedAt(s, levels, o);
      }
      var i := FindLevel(levels, r.price);
      if i == |levels| {
        return levels;
      }
      var queue := levels[i].queue;
      var k := FindInQueue(queue, r.orderId);
      QueueOrders(s, levels, i);
      if k < |queue| {
        EraseRemoves(levels, i, k);
        queue := queue[..k] + queue[k + 1..];
      }
      SetQueue(s, levels, i, queue);
      if queue == [] {
        out := levels[..i] + levels[i + 1..];
      } else {
        out := levels[i := Level(r.price, queue)];
      }
    }

    method RemoveCancelledOrder(r: Resting)
      requires Valid() && Find(Abs().Orders(), r.orderId) == Some(r)
      modifies this`bids, this`asks, this`active
      ensures Valid() && Abs() == Without(old(Abs()), r)
    {
      hide Ok, Find, Remove, LevelsOk, Indexed, Flat;
      ghost var b := Abs();
      WithoutOk(b, r.orderId);
      QueuedSide(b, r);
      if DecodeSide(r.side) == Some(Buy) {
        bids := EraseOrderFromPriceLevels(Buy, bids, r);
      } else {
        asks := EraseOrderFromPriceLevels(Sell, asks, r);
      }
      active := active - {r.orderId};
      RemovedIndexed(b, r, old(active));
    }

    // Commands

    method BindInstrumentIfNeeded(id: u32)
      modifies this`instrument
      ensures instrument == if old(instrument).None? then Some(id) else old(instrument)
    {
      if instrument.None? {
        instrument := Some(id);
      }
    }

    method ApplyNewOrder(c: Command) returns (events: seq<Event>)
      requires Valid()
      modifies this
      ensures Valid()
      ensures Outcome(Abs(), events) == ApplyNew(old(Abs()), c)
    {
      hide Ok, Flat, LevelsOk, Indexed, ApplyNew, Push, Place, ValidateNew, Add64, Walk, Positive;
      ghost var b := Abs();
      ApplyNewOk(b, c);
      UnfoldNew(b, c);
      var reason := ValidateNewOrder(c);
      if reason != NO_REASON {
        KeepsOk(b, instrument, Add64(nextEvent, 1));
        var rejection := EmitRejectionEvent(c, reason);
        return [rejection];
      }
      KeepsOk(b, if instrument.Some? then instrument else Some(c.instrument), Add64(nextEvent, 1));
      BindInstrumentIfNeeded(c.instrument);
      var accepted := EmitOrderEvent(c, ORDER_ACCEPTED, c.quantity, c.quantity);
      events := [accepted];
      ghost var s := DecodeSide(c.side).value;
      ghost var f := Walk(s, c, b.Opposite(s), c.quantity, nextEvent, nextTrade);
      var left;
      if DecodeSide(c.side) == Some(Buy) {
        left, events := MatchBuyOrderAgainstAsks(c, events);
      } else {
        left, events := MatchSellOrderAgainstBids(c, events);
      }
      Add64Add(b.nextEvent, 1, |f.trades|);
      if left == 0 {
        var filled := EmitOrderEvent(c, ORDER_FULLY_FILLED, c.quantity, 0);
        events := events + [filled];
        return;
      }
      RestIndexed(b, c, active, left);
      RestOrder(c, left);
      var hasTrade := left != c.quantity;
      var closing := EmitOrderEvent(c, if hasTrade then ORDER_PARTIALLY_FILLED else ORDER_RESTED,
                                    c.quantity - left, left);
      events := events + [closing];
    }

    method ApplyCancelOrder(c: Command) returns (events: seq<Event>)
      requires Valid()
      modifies this
      ensures Valid()
      ensures Outcome(Abs(), events) == ApplyCancel(old(Abs()), c)
    {
      hide Ok, Indexed, LevelsOk, Flat, Remove;
      var e;
      KeepsOk(Abs(), instrument, Add64(nextEvent, 1));
      if c.commandType != CANCEL_ORDER {
        e := EmitRejectionEvent(c, UNSUPPORTED_COMMAND);
        return [e];
      }
      var found := FindOrder(c.orderId);
      if found.None? {
        e := EmitRejectionEvent(c, UNKNOWN_ORDER_ID);
        return [e];
      }
      if found.value.instrument != c.instrument {
        e := EmitRejectionEvent(c, INSTRUMENT_MISMATCH);
        return [e];
      }
      RemoveCancelledOrder(found.value);
      KeepsOk(Abs(), instrument, Add64(nextEvent, 1));
      e := EmitCancelEvent(c, found.value);
      return [e];
    }

    method ApplyReplaceOrder(c: Command) returns (events: seq<Event>)
      requires Valid()
      modifies this
      ensures Valid()
      ensures Outcome(Abs(), events) == ApplyReplace(old(Abs()), c)
    {
      hide Ok, Indexed, LevelsOk, Flat, Remove, ApplyNew, ValidateReplace;
      KeepsOk(Abs(), instrument, Add64(nextEvent, 1));
      var reason := ValidateReplaceOrder(c);
      if reason != NO_REASON {
        var rejection := EmitRejectionEvent(c, reason);
        return [rejection];
      }
      FoundForReplace(Abs(), c);
      var resting := FindOrder(c.orderId).value;
      RemoveCancelledOrder(resting);
      KeepsOk(Abs(), instrument, Add64(nextEvent, 1));
      var cancelled := EmitCancelEvent(c, resting);
      var replacement := c.(commandType := NEW_ORDER, orderId := c.replacementOrderId);
      var submitted := ApplyNewOrder(replacement);
      return [cancelled] + submitted;
    }

    method RejectUnsupportedCommand(c: Command) returns (events: seq<Event>)
      requires Valid()
      modifies this
      ensures Valid()
      ensures Outcome(Abs(), events) == Reject(old(Abs()), c, UNSUPPORTED_COMMAND)
    {
      KeepsOk(Abs(), instrument, Add64(nextEvent, 1));
      var e := EmitRejectionEvent(c, UNSUPPORTED_COMMAND);
      return [e];
    }

    // The runtime check

    /** Checks one queued order against the index and records its id. */
    method ValidateRestingOrder(r: Resting, price: i64, s: Side, queued: set<u64>)
      returns (ok: bool, queued': set<u64>)
      ensures ok <==> QueuedWell(r, price, s) && InIndex(r, active) && r.orderId !in queued
      ensures ok ==> queued' == queued + {r.orderId}
    {
      queued' := queued;
      if DecodeSide(r.side) != Some(s) || r.price != price || r.remaining <= 0 || r.orderId in queued {
        return false, queued';
      }
      queued' := queued + {r.orderId};
      if r.orderId !in active {
        return false, queued';
      }
      var a := active[r.orderId];
      ok := a.clientId == r.clientId && a.instrument == r.instrument && a.side == r.side
        && a.price == r.price && a.remaining == r.remaining;
    }

    method ValidatePriceLevels(levels: seq<Level>, s: Side, queued: set<u64>) returns (ok: bool, queued': set<u64>)
      ensures ok <==> LevelsMirrored(levels, s, active) && Unique(Flat(levels)) && Ids(Flat(levels)) !! queued
      ensures ok ==> queued' == queued + Ids(Flat(levels))
    {
      hide Unique, Flat, QueuedWell, InIndex, Seen;
      queued' := queued;
      SeenNone(queued);
      for i := 0 to |levels|
        invariant Seen(Flat(levels[..i]), queued, queued')
        invariant forall l | l in levels[..i] :: LevelMirrored(l, s, active)
      {
        var level := levels[i];
        assert level in levels;
        if level.queue == [] || level.price <= 0 {
          return false, queued';
        }
        assert Flat(levels[..i]) + level.queue[..0] == Flat(levels[..i]);
        for k := 0 to |level.queue|
          invariant Seen(Flat(levels[..i]) + level.queue[..k], queued, queued')
          invariant forall r | r in level.queue[..k] :: QueuedWell(r, level.price, s) && InIndex(r, active)
        {
          SeenNext(levels, i, k, queued, queued');
          ok, queued' := ValidateRestingOrder(level.queue[k], level.price, s, queued');
          if !ok {
            return;
          }
        }
        SeenLevel(levels, i);
        assert level.queue[..|level.queue|] == level.queue;
      }
      assert levels[..|levels|] == levels;
      SeenAll(Flat(levels), queued, queued');
      ok := true;
    }

    method ValidateActiveOrdersAreQueued(queued: set<u64>) returns (ok: bool)
      ensures ok <==> |queued| == |active| && active.Keys <= queued && forall id | id in active :: active[id].remaining > 0
    {
      if |queued| != |active| {
        return false;
      }
      var unchecked := active.Keys;
      while unchecked != {}
        invariant unchecked <= active.Keys
        invariant forall id | id in active && id !in unchecked :: id in queued && active[id].remaining > 0
        decreases |unchecked|
      {
        var id :| id in unchecked;
        if id !in queued || active[id].remaining <= 0 {
          return false;
        }
        unchecked := unchecked - {id};
      }
      return true;
    }

    /** The runtime check, for any contents the two ordered maps and the index can hold. */
    method ValidateInvariants() returns (ok: bool)
      requires Ordered(Buy, bids) && Ordered(Sell, asks)
      ensures ok <==> Mirrored(bids, asks, active)
      ensures Valid() ==> ok
    {
      hide Ordered, LevelsMirrored, Unique, Flat, Uncrossed, Ids;
      if Valid() {
        ValidIffMirrored(bids, asks, active, Abs());
      }
      var queued;
      ok, queued := ValidatePriceLevels(bids, Buy, {});
      if !ok {
        return false;
      }
      ok, queued := ValidatePriceLevels(asks, Sell, queued);
      if !ok {
        return false;
      }
      QueuedKeys(bids, asks, active, queued);
      BestUncrossed(bids, asks, active);
      ok := ValidateActiveOrdersAreQueued(queued);
      if !ok {
        return false;
      }
      ok := bids == [] || asks == [] || bids[0].price < asks[0].price;
    }
  }

  /** Routes one command to the operation it asks for. */
  lemma ValidOrdered(book: OrderBook)
    requires book.Valid()
    ensures Ordered(Buy, book.bids) && Ordered(Sell, book.asks) && Ok(book.Abs())
  {
  }

  class InstrumentEngine {
    const book: OrderBook

    ghost predicate Valid()
      reads this, book
    {
      book.Valid()
    }

    constructor (firstEvent: u64)
      ensures Valid() && fresh(book) && book.Abs() == Fresh(firstEvent)
    {
      book := new OrderBook(firstEvent);
    }

    method Apply(c: Command) returns (events: seq<Event>)
      requires Valid()
      modifies book
      ensures Valid()
      ensures Outcome(book.Abs(), events) == Step(old(book.Abs()), c)
    {
      if c.commandType == NEW_ORDER {
        events := book.ApplyNewOrder(c);
      } else if c.commandType == CANCEL_ORDER {
        events := book.ApplyCancelOrder(c);
      } else if c.commandType == REPLACE_ORDER {
        events := book.ApplyReplaceOrder(c);
      } else {
        events := book.RejectUnsupportedCommand(c);
      }
    }
  }
}
