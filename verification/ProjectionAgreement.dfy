/** The projection, which never sees a command, agrees with the matcher after every command. */
module ProjectionAgreement {
  import opened Domain
  import opened BookModel
  import opened BookInvariant
  import opened PriceLevels
  import opened OrderBook
  import opened EventGrammar
  import opened Matching
  import opened TimePriority
  import opened Projection

  /** Applies a stream; `None` as soon as one event is rejected. */
  function Feed(p: Projected, events: seq<Event>): Option<Projected>
    decreases |events|
  {
    if events == [] then Some(p)
    else
      var v := Project(p, events[0]);
      if v.status == Rejected then None else Feed(v.state, events[1..])
  }

  function Tape(events: seq<Event>): seq<PublicTrade> {
    if events == [] then []
    else (if events[0].eventType == TRADE_EXECUTED then [PublicTradeOf(events[0])] else []) + Tape(events[1..])
  }

  lemma {:induction false} FeedConcat(p: Projected, a: seq<Event>, b: seq<Event>)
    ensures Feed(p, a + b) == if Feed(p, a).None? then None else Feed(Feed(p, a).value, b)
    decreases |a|
  {
    if a == [] {
      assert a + b == b;
    } else {
      assert (a + b)[1..] == a[1..] + b;
      FeedConcat(Project(p, a[0]).state, a[1..], b);
    }
  }

  lemma {:induction false} TapeConcat(a: seq<Event>, b: seq<Event>)
    ensures Tape(a + b) == Tape(a) + Tape(b)
  {
    hide Tape;
    TapeFirst(a);
    TapeFirst(a + b);
    if a == [] {
      assert a + b == b;
    } else {
      assert (a + b)[1..] == a[1..] + b;
      TapeConcat(a[1..], b);
      JoinTapes(if a[0].eventType == TRADE_EXECUTED then [PublicTradeOf(a[0])] else [], Tape(a[1..]), Tape(b));
    }
  }

  lemma JoinTapes(a: seq<PublicTrade>, b: seq<PublicTrade>, c: seq<PublicTrade>)
    ensures a + (b + c) == (a + b) + c
  {
  }

  lemma TapeFirst(events: seq<Event>)
    ensures Tape(events) == if events == [] then []
      else (if events[0].eventType == TRADE_EXECUTED then [PublicTradeOf(events[0])] else []) + Tape(events[1..])
  {
  }

  /** What the public may know of a resting order: everything but the client. */
  function Public(r: Resting): OrderState {
    OrderState(r.instrument, r.side, r.price, r.remaining)
  }

  function PublicIndex(index: map<u64, Resting>): map<u64, OrderState> {
    map id | id in index :: Public(index[id])
  }

  /** The active-order index that belongs to a book. */
  function IndexOf(b: Book): map<u64, Resting> {
    map id | id in Ids(b.Orders()) :: Find(b.Orders(), id).value
  }

  lemma IndexOfIndexed(b: Book)
    requires Ok(b)
    ensures Indexed(IndexOf(b), b.bids, b.asks)
  {
    assert Ids(b.Orders()) == Ids(b.bids) + Ids(b.asks);
    forall r | r in b.bids || r in b.asks
      ensures r in b.Orders() && r.orderId in IndexOf(b) && IndexOf(b)[r.orderId] == r
    {
      assert r in b.Orders() && r.orderId in Ids(b.Orders());
      FoundIs(b, r);
    }
  }

  lemma FoundIs(b: Book, r: Resting)
    requires Ok(b) && r in b.Orders()
    ensures Find(b.Orders(), r.orderId) == Some(r)
  {
    var found := Find(b.Orders(), r.orderId).value;
    assert found.orderId in Ids(b.bids) || found.orderId in Ids(b.asks);
    var list := if r in b.bids then b.bids else b.asks;
    assert found in list by {
      assert r.orderId in Ids(list);
    }
    var i :| 0 <= i < |list| && list[i] == r;
    var j :| 0 <= j < |list| && list[j] == found;
  }

  lemma IndexedIsIndexOf(b: Book, index: map<u64, Resting>)
    requires Ok(b) && Indexed(index, b.bids, b.asks)
    ensures index == IndexOf(b)
  {
    hide Ok, Indexed, IndexOf;
    IndexOfIndexed(b);
    IndexedOnce(index, IndexOf(b), b.bids, b.asks);
  }

  /** Two lists have only one index. */
  lemma IndexedOnce(first: map<u64, Resting>, second: map<u64, Resting>, a: seq<Resting>, b: seq<Resting>)
    requires Indexed(first, a, b) && Indexed(second, a, b)
    ensures first == second
  {
    forall id | id in first
      ensures first[id] == second[id]
    {
      var r :| (r in a || r in b) && r.orderId == id;
    }
  }

  /** The projection shows the index `index` and expects event `next`. */
  ghost predicate Shows(p: Projected, index: map<u64, Resting>, next: u64) {
    p.active == PublicIndex(index) && Add64(p.last, 1) == next
  }

  /** One trade event moves the projection exactly as it moves the index. */
  lemma TradeShows(p: Projected, index: map<u64, Resting>, r: Resting, c: Command, event: u64, trade: u64, q: i64, left: i64)
    requires Shows(p, index, event) && r.orderId in index && index[r.orderId] == r
    requires 0 < q <= r.remaining && r.orderId != 0
    ensures var e := TradeEvent(c, event, trade, r, q, left);
      var v := Project(p, e);
      && v.status == Applied
      && Shows(v.state, Reindexed(index, r.(remaining := r.remaining - q)), Add64(event, 1))
      && v.state.trades == p.trades + [PublicTradeOf(e)]
  {
    var e := TradeEvent(c, event, trade, r, q, left);
    var after := Project(p, e).state.active;
    var index' := Reindexed(index, r.(remaining := r.remaining - q));
    assert after.Keys == index'.Keys;
    assert forall id | id in after :: after[id] == Public(index'[id]);
  }

  /** Feeding the trades of a walk. */
  lemma {:induction false} WalkFeeds(s: Side, c: Command, list: seq<Resting>, left: i64, event: u64, trade: u64,
                                     others: seq<Resting>, index: map<u64, Resting>, p: Projected)
      returns (index': map<u64, Resting>, p': Projected)
    requires left >= 0 && Positive(list)
    requires Matchable(list, others, index) && 0 !in index
    requires Shows(p, index, event)
    ensures var f := Walk(s, c, list, left, event, trade);
      && Feed(p, f.trades) == Some(p')
      && Shows(p', index', Add64(event, |f.trades|))
      && Indexed(index', f.rest, others)
      && p'.trades == p.trades + Tape(f.trades)
    decreases left
  {
    hide Add64, Matchable, Indexed, Shows, Project, Walk, Feed, Tape, AfterTrade, Positive, Reindexed;
    MatchableIndexed(list, others, index);
    if left == 0 || list == [] || !Crosses(s, c.price, list[0].price) {
      WalkStops(s, c, list, left, event, trade);
      FeedNone(p);
      Add64Add(event, 0, 0);
      index', p' := index, p;
    } else {
      var r := list[0];
      var q := if left <= r.remaining then left else r.remaining;
      var e := TradeEvent(c, event, trade, r, q, left - q);
      var after := Reindexed(index, r.(remaining := r.remaining - q));
      var rest := AfterTrade(list, q);
      TradeKeepsMatchable(list, others, index, q);
      TradeShows(p, index, r, c, event, trade, q, left - q);
      WalkTrade(s, c, list, left, event, trade, q);
      ReindexedKeys(index, r, q);
      var v := Project(p, e);
      index', p' := WalkFeeds(s, c, rest, left - q, Add64(event, 1), Add64(trade, 1), others, after, v.state);
      var g := Walk(s, c, rest, left - q, Add64(event, 1), Add64(trade, 1));
      FeedOne(p, e);
      FeedConcat(p, [e], g.trades);
      TapeConcat([e], g.trades);
      Add64Add(event, 1, |g.trades|);
    }
  }

  lemma WalkStops(s: Side, c: Command, list: seq<Resting>, left: i64, event: u64, trade: u64)
    requires left >= 0 && Positive(list)
    requires left == 0 || list == [] || !Crosses(s, c.price, list[0].price)
    ensures Walk(s, c, list, left, event, trade) == Fill([], list, left)
  {
  }

  lemma ReindexedKeys(index: map<u64, Resting>, r: Resting, q: i64)
    requires r.orderId in index && 0 < q <= r.remaining
    ensures Reindexed(index, r.(remaining := r.remaining - q)).Keys <= index.Keys
  {
  }

  lemma FeedNone(p: Projected)
    ensures Feed(p, []) == Some(p) && Tape([]) == []
  {
  }

  lemma MatchableIndexed(list: seq<Resting>, others: seq<Resting>, index: map<u64, Resting>)
    requires Matchable(list, others, index)
    ensures Indexed(index, list, others)
    ensures forall r | r in list :: r.remaining > 0 && r.orderId in index && index[r.orderId] == r
    ensures list != [] ==> list[0] in list
  {
    assert forall r | r in list :: r.orderId in Ids(list);
  }

  lemma FeedOne(p: Projected, e: Event)
    ensures Feed(p, [e]) == if Project(p, e).status == Rejected then None else Some(Project(p, e).state)
    ensures Tape([e]) == if e.eventType == TRADE_EXECUTED then [PublicTradeOf(e)] else []
  {
    assert [e][1..] == [];
  }

  /** The projection shows exactly the book: its orders without the client ids, and its event counter. */
  ghost predicate Agrees(b: Book, p: Projected) {
    Shows(p, IndexOf(b), b.nextEvent) && 0 !in Ids(b.Orders())
  }

  /** No event of the stream puts an order with id 0 in the book. */
  ghost predicate NoZeroRests(events: seq<Event>) {
    forall e | e in events :: !Rests(e, 0)
  }

  /** A stretch of events takes the projection along with the book, appending its trades to the tape. */
  ghost predicate Follows(p: Projected, events: seq<Event>, after: Book) {
    && Feed(p, events).Some?
    && Agrees(after, Feed(p, events).value)
    && Feed(p, events).value.trades == p.trades + Tape(events)
  }

  lemma QuietFeeds(b: Book, p: Projected, e: Event)
    requires Ok(b) && Agrees(b, p)
    requires e.eventType == ORDER_REJECTED && e.eventSequence == b.nextEvent
    ensures Follows(p, [e], b.(nextEvent := Add64(b.nextEvent, 1)))
  {
    hide Ok, Find;
    FeedOne(p, e);
    var b' := b.(nextEvent := Add64(b.nextEvent, 1));
    assert b'.Orders() == b.Orders() && IndexOf(b') == IndexOf(b);
  }

  lemma CancelFeeds(b: Book, p: Projected, c: Command)
    requires Ok(b) && Agrees(b, p) && Find(b.Orders(), c.orderId).Some?
    ensures var o := CancelResting(b, c, Find(b.Orders(), c.orderId).value);
      Ok(o.book) && Follows(p, o.events, o.book)
  {
    hide Find, Remove, Ids, Ok, Indexed;
    var r := Find(b.Orders(), c.orderId).value;
    var o := CancelResting(b, c, r);
    WithoutOk(b, c.orderId);
    KeepsOk(Without(b, r), b.instrument, o.book.nextEvent);
    IndexOfIndexed(b);
    FoundKey(b, c.orderId);
    RemovedIndexed(b, r, IndexOf(b));
    IndexedIsIndexOf(o.book, IndexOf(b) - {c.orderId});
    FeedOne(p, o.events[0]);
    PublicWithout(IndexOf(b), c.orderId);
  }

  lemma FoundKey(b: Book, id: u64)
    requires Find(b.Orders(), id).Some?
    ensures id in IndexOf(b) && Find(b.Orders(), id).value.orderId == id
  {
  }

  lemma PublicWithout(index: map<u64, Resting>, id: u64)
    ensures PublicIndex(index) - {id} == PublicIndex(index - {id})
  {
  }

  lemma PublicWith(index: map<u64, Resting>, r: Resting)
    ensures PublicIndex(index)[r.orderId := Public(r)] == PublicIndex(index[r.orderId := r])
  {
  }

  /** The closing event shows the order when it rests, and is passed over when it does not. */
  lemma ClosingShows(p: Projected, index: map<u64, Resting>, c: Command, sequence: u64, left: i64)
    requires Shows(p, index, sequence) && c.orderId !in index && 0 <= left <= c.quantity
    requires DecodeSide(c.side).Some? && c.price > 0 && (left > 0 ==> c.orderId != 0)
    ensures var v := Project(p, ClosingEvent(c, sequence, left));
      && v.status != Rejected && v.state.trades == p.trades
      && Shows(v.state, if left == 0 then index else index[c.orderId := RestingOrder(c, left)], Add64(sequence, 1))
  {
    hide Add64;
    if left > 0 {
      PublicWith(index, RestingOrder(c, left));
    }
  }

  lemma NewFeeds(b: Book, p: Projected, c: Command)
    requires Ok(b) && Agrees(b, p) && NoZeroRests(ApplyNew(b, c).events)
    ensures Follows(p, ApplyNew(b, c).events, ApplyNew(b, c).book)
  {
    hide Ok, ApplyNew, ValidateNew, Add64, Agrees, Follows;
    UnfoldNew(b, c);
    if ValidateNew(b, c) != NO_REASON {
      QuietFeeds(b, p, RejectionEvent(c, b.nextEvent, ValidateNew(b, c)));
    } else {
      AcceptedFeeds(b, p, c);
    }
  }

  lemma AcceptedFeeds(b: Book, p: Projected, c: Command)
    requires Ok(b) && Agrees(b, p) && NoZeroRests(ApplyNew(b, c).events)
    requires ValidateNew(b, c) == NO_REASON
    ensures Follows(p, ApplyNew(b, c).events, ApplyNew(b, c).book)
  {
    hide Ok, Ids, ApplyNew, ValidateNew, Add64, Walk, Feed, Tape, Project, Agrees, Shows, Indexed, Matchable, Positive,
      Place, IndexOf, Rests, ClosingEvent;
    UnfoldNew(b, c);
    var o := ApplyNew(b, c);
    var s := DecodeSide(c.side).value;
    var list, own := b.Opposite(s), b.Own(s);
    var f := Walk(s, c, list, c.quantity, Add64(b.nextEvent, 1), b.nextTrade);
    var last := Add64(b.nextEvent, 1 + |f.trades|);
    var first := OrderEvent(c, b.nextEvent, ORDER_ACCEPTED, c.quantity, c.quantity);
    var closing := ClosingEvent(c, last, f.left);
    AgreesIndexed(b, p);
    StartMatching(s, c, b, IndexOf(b));
    AcceptedShows(p, IndexOf(b), first);
    var p1 := Project(p, first).state;
    var index, p2 := WalkFeeds(s, c, list, c.quantity, Add64(b.nextEvent, 1), b.nextTrade, own, IndexOf(b), p1);
    Add64Add(b.nextEvent, 1, |f.trades|);
    Add64Add(b.nextEvent, 1 + |f.trades|, 1);
    StillFresh(b, c, index);
    ClosingRests(c, last, f.left);
    assert closing == o.events[|o.events| - 1];
    ClosingShows(p2, index, c, last, f.left);
    EnvelopeFeeds(p, first, f.trades, closing, p2);
    ApplyNewOk(b, c);
    if f.left > 0 {
      IndexedRests(b, c, f, index);
    }
    var index' := if f.left == 0 then index else index[c.orderId := RestingOrder(c, f.left)];
    IndexedFlip(index', f.rest, o.book.Own(s));
    IndexedAgrees(o.book, Project(p2, closing).state, index');
  }

  lemma AgreesIndexed(b: Book, p: Projected)
    requires Ok(b) && Agrees(b, p)
    ensures Indexed(IndexOf(b), b.bids, b.asks) && Shows(p, IndexOf(b), b.nextEvent) && 0 !in IndexOf(b)
  {
    IndexOfIndexed(b);
  }

  lemma IndexedAgrees(b: Book, p: Projected, index: map<u64, Resting>)
    requires Ok(b) && Indexed(index, b.bids, b.asks) && Shows(p, index, b.nextEvent) && 0 !in index
    ensures Agrees(b, p)
  {
    IndexedIsIndexOf(b, index);
  }

  lemma AcceptedShows(p: Projected, index: map<u64, Resting>, e: Event)
    requires Shows(p, index, e.eventSequence) && e.eventType == ORDER_ACCEPTED
    ensures var v := Project(p, e);
      v.status == Ignored && v.state.trades == p.trades && Shows(v.state, index, Add64(e.eventSequence, 1))
  {
    hide Add64;
  }

  /** Matching adds no id, so the new order's id is still free when it comes to rest. */
  lemma StillFresh(b: Book, c: Command, index: map<u64, Resting>)
    requires Ok(b) && ValidateNew(b, c) == NO_REASON
    requires Indexed(index, Matched(b, c).rest, b.Own(DecodeSide(c.side).value))
    ensures c.orderId !in index && index.Keys <= IndexOf(b).Keys
    ensures var s := DecodeSide(c.side).value;
      Matched(b, c) == Walk(s, c, b.Opposite(s), c.quantity, Add64(b.nextEvent, 1), b.nextTrade)
  {
    hide Ok, Walk, Add64, Unique, Find;
    MatchedOk(b, c);
    assert Ids(b.Orders()) == Ids(b.bids) + Ids(b.asks);
  }

  lemma IndexedRests(b: Book, c: Command, f: Fill, index: map<u64, Resting>)
    requires Ok(b) && ValidateNew(b, c) == NO_REASON && f.left > 0 && c.orderId !in index
    requires Indexed(index, f.rest, b.Own(DecodeSide(c.side).value))
    ensures var s := DecodeSide(c.side).value;
      var r := RestingOrder(c, f.left);
      Indexed(index[c.orderId := r], f.rest, Place(s, b.Own(s), r))
  {
    hide Place;
    var s := DecodeSide(c.side).value;
    var r := RestingOrder(c, f.left);
    IndexedFlip(index, f.rest, b.Own(s));
    PlaceIndexed(s, b.Own(s), f.rest, index, r);
    IndexedFlip(index[c.orderId := r], Place(s, b.Own(s), r), f.rest);
  }

  lemma ClosingRests(c: Command, sequence: u64, left: i64)
    requires 0 <= left <= c.quantity
    ensures left > 0 <==> Rests(ClosingEvent(c, sequence, left), c.orderId)
    ensures ClosingEvent(c, sequence, left).eventType != TRADE_EXECUTED
  {
  }

  lemma EnvelopeFeeds(p: Projected, first: Event, trades: seq<Event>, last: Event, p2: Projected)
    requires Project(p, first).status != Rejected && Feed(Project(p, first).state, trades) == Some(p2)
    requires first.eventType != TRADE_EXECUTED && last.eventType != TRADE_EXECUTED
    ensures Feed(p, [first] + trades + [last])
      == if Project(p2, last).status == Rejected then None else Some(Project(p2, last).state)
    ensures Tape([first] + trades + [last]) == Tape(trades)
  {
    FeedOne(p, first);
    FeedOne(p2, last);
    FeedConcat(p, [first], trades);
    FeedConcat(p, [first] + trades, [last]);
    TapeConcat([first], trades);
    TapeConcat([first] + trades, [last]);
  }

  lemma StepFeeds(b: Book, p: Projected, c: Command)
    requires Ok(b) && Agrees(b, p) && NoZeroRests(Step(b, c).events)
    ensures Follows(p, Step(b, c).events, Step(b, c).book)
  {
    hide ApplyNew, Ok, Agrees, Follows;
    if c.commandType == NEW_ORDER {
      NewFeeds(b, p, c);
    } else if c.commandType == CANCEL_ORDER && ValidateCancel(b, c) == NO_REASON {
      CancelFeeds(b, p, c);
    } else if c.commandType == REPLACE_ORDER && ValidateReplace(b, c) == NO_REASON {
      CancelFeeds(b, p, c);
      var cancelled := CancelResting(b, c, Find(b.Orders(), c.orderId).value);
      FollowsAgrees(p, cancelled.events, cancelled.book);
      NewFeeds(cancelled.book, Feed(p, cancelled.events).value, Replacement(c));
      var submitted := ApplyNew(cancelled.book, Replacement(c));
      FollowsConcat(p, cancelled.events, cancelled.book, submitted.events, submitted.book);
    } else {
      QuietFeeds(b, p, Step(b, c).events[0]);
    }
  }

  lemma FollowsAgrees(p: Projected, events: seq<Event>, b: Book)
    requires Follows(p, events, b)
    ensures Feed(p, events).Some? && Agrees(b, Feed(p, events).value)
  {
  }

  lemma FollowsConcat(p: Projected, a: seq<Event>, b: Book, more: seq<Event>, after: Book)
    requires Follows(p, a, b) && Follows(Feed(p, a).value, more, after)
    ensures Follows(p, a + more, after)
  {
    hide Agrees, Feed, Tape;
    FeedConcat(p, a, more);
    TapeConcat(a, more);
  }

  lemma {:induction false} ZeroRestRejected(p: Projected, events: seq<Event>)
    requires Feed(p, events).Some?
    ensures NoZeroRests(events)
    decreases |events|
  {
    if events != [] {
      ZeroRestRejected(Project(p, events[0]).state, events[1..]);
      assert events == [events[0]] + events[1..];
    }
  }

  lemma {:induction false} RunFollows(commands: seq<Command>)
    requires NoZeroRests(Run(Fresh(1), commands).events)
    ensures var o := Run(Fresh(1), commands);
      Follows(NOTHING, o.events, o.book)
  {
    if commands == [] {
      FeedNone(NOTHING);
    } else {
      hide Step, Follows, Agrees;
      var n := |commands| - 1;
      var before := Run(Fresh(1), commands[..n]);
      var last := Step(before.book, commands[n]);
      var o := Run(Fresh(1), commands);
      assert forall e | e in before.events :: e in o.events;
      assert forall e | e in last.events :: e in o.events;
      RunFollows(commands[..n]);
      FollowsAgrees(NOTHING, before.events, before.book);
      StepFeeds(before.book, Feed(NOTHING, before.events).value, commands[n]);
      FollowsConcat(NOTHING, before.events, before.book, last.events, last.book);
    }
  }

  // Which commands put order id 0 in the book

  /**
   A new order with id 0 that passes validation and asks for more lots than the other side offers at
   its price or better; a replacement never has id 0.
   */
  predicate RestsZero(b: Book, c: Command) {
    && c.commandType == NEW_ORDER && c.orderId == 0 && ValidateNew(b, c) == NO_REASON
    && var s := DecodeSide(c.side).value;
       Offered(s, c.price, b.Opposite(s)) < c.quantity
  }

  /** No command of the run rests an order with id 0 in the book it meets. */
  ghost predicate NeverRestsZero(commands: seq<Command>) {
    forall i: nat | i < |commands| :: !RestsZero(Run(Fresh(1), commands[..i]).book, commands[i])
  }

  lemma StepRestsZero(b: Book, c: Command)
    requires Ok(b)
    ensures NoZeroRests(Step(b, c).events) <==> !RestsZero(b, c)
  {
    hide ApplyNew, Ok, OrderLife, ValidateNew, Remove, Walk;
    var events := Step(b, c).events;
    StepGrammar(b, c);
    if c.commandType == NEW_ORDER && ValidateNew(b, c) == NO_REASON {
      NewLife(b, c);
      if c.orderId == 0 {
        NewRestsZero(b, c);
      } else {
        LifeRests(c, events);
      }
    } else if c.commandType == NEW_ORDER {
      UnfoldNew(b, c);
    } else if c.commandType == REPLACE_ORDER && ValidateReplace(b, c) == NO_REASON {
      LifeRests(Replacement(c), events[1..]);
      assert events == events[..1] + events[1..];
    }
  }

  lemma LifeRests(c: Command, events: seq<Event>)
    requires OrderLife(c, events) && c.orderId != 0
    ensures NoZeroRests(events)
  {
    forall k | 0 <= k < |events|
      ensures !Rests(events[k], 0)
    {
    }
  }

  lemma NewRestsZero(b: Book, c: Command)
    requires Ok(b) && ValidateNew(b, c) == NO_REASON && c.orderId == 0
    ensures NoZeroRests(ApplyNew(b, c).events) <==> !RestsZero(b, c)
  {
    hide ApplyNew, Ok, Walk, ClosingEvent;
    UnfoldNew(b, c);
    var f := Matched(b, c);
    var events := ApplyNew(b, c).events;
    var s := DecodeSide(c.side).value;
    WalkNeverRests(s, c, b.Opposite(s), c.quantity, Add64(b.nextEvent, 1), b.nextTrade);
    WalkLeavesOpen(s, c, b.Opposite(s), c.quantity, Add64(b.nextEvent, 1), b.nextTrade);
    ClosingRests(c, Add64(b.nextEvent, 1 + |f.trades|), f.left);
    var closing := events[|events| - 1];
    assert closing in events;
    assert forall e | e in events :: e == events[0] || e in f.trades || e == closing;
  }

  lemma {:induction false} RunRestsZero(commands: seq<Command>)
    ensures NoZeroRests(Run(Fresh(1), commands).events) <==> NeverRestsZero(commands)
  {
    hide RestsZero, Step, Rests, Run, NeverRestsZero;
    if commands == [] {
      RunNone();
      NeverNone();
    } else {
      var n := |commands| - 1;
      NeverExtends(commands);
      RunRestsZero(commands[..n]);
      RunExtends(commands, n);
      assert commands[..n + 1] == commands;
      StepRestsZero(Run(Fresh(1), commands[..n]).book, commands[n]);
    }
  }

  lemma NeverNone()
    ensures NeverRestsZero([])
  {
  }

  lemma NeverExtends(commands: seq<Command>)
    requires commands != []
    ensures var n := |commands| - 1;
      NeverRestsZero(commands) <==>
        NeverRestsZero(commands[..n]) && !RestsZero(Run(Fresh(1), commands[..n]).book, commands[n])
  {
    hide RestsZero, Run;
    var n := |commands| - 1;
    assert forall i: nat | i < n :: commands[..n][..i] == commands[..i];
  }

  lemma NeverPrefix(commands: seq<Command>, n: nat)
    requires NeverRestsZero(commands) && n <= |commands|
    ensures NeverRestsZero(commands[..n])
  {
    hide RestsZero, Run;
    assert forall i: nat | i < n :: commands[..n][..i] == commands[..i];
  }

  /**
   Fed with all events of a run that started at event 1, a fresh projection rejects nothing, shows
   exactly the active orders of the book without their clients, and holds exactly the trades - if and
   only if no new order with id 0 ever came to rest.
   */
  lemma ProjectionAgrees(commands: seq<Command>)
    ensures var o := Run(Fresh(1), commands);
      && (Feed(NOTHING, o.events).Some? <==> NeverRestsZero(commands))
      && (Feed(NOTHING, o.events).Some? ==>
            var p := Feed(NOTHING, o.events).value;
            && p.active == PublicIndex(IndexOf(o.book))
            && p.trades == Tape(o.events)
            && Add64(p.last, 1) == o.book.nextEvent)
  {
    hide Run, NeverRestsZero, NoZeroRests;
    var o := Run(Fresh(1), commands);
    RunRestsZero(commands);
    if NoZeroRests(o.events) {
      RunFollows(commands);
    }
    if Feed(NOTHING, o.events).Some? {
      ZeroRestRejected(NOTHING, o.events);
    }
  }

  /** One valid order with id 0 is enough: the book takes it, the projection refuses it. */
  lemma ZeroIdRefused(c: Command)
    requires c.commandType == NEW_ORDER && c.orderId == 0 && DecodeSide(c.side).Some?
    requires c.price > 0 && c.quantity > 0 && c.timeInForce == GTC
    ensures Feed(NOTHING, Run(Fresh(1), [c]).events) == None
    ensures |Run(Fresh(1), [c]).book.Orders()| == 1
  {
    RunNone();
    RunOne(Fresh(1), c);
    ProjectionAgrees([c]);
    assert [c][..0] == [];
    assert RestsZero(Fresh(1), c);
  }

  /** Two orders of the largest quantity at one price: the book holds both, and the public book shows no bid. */
  lemma LargeOrdersHidden(c1: Command, c2: Command, shown: seq<PublicLevel>)
    requires c1.commandType == c2.commandType == NEW_ORDER && c1.side == c2.side == BUY && c1.orderId != c2.orderId
    requires c1.price == c2.price > 0 && c1.quantity == c2.quantity == I64_LIMIT - 1
    requires c1.instrument == c2.instrument && c1.timeInForce == c2.timeInForce == GTC
    requires IsView(Buy, PublicIndex(IndexOf(Run(Fresh(1), [c1, c2]).book)), shown)
    ensures Run(Fresh(1), [c1, c2]).book.bids
      == [RestingOrder(c1, c1.quantity), RestingOrder(c2, c2.quantity)]
    ensures shown == []
  {
    hide IsView, Run, Step, IndexOf, PublicIndex;
    RunConcat(Fresh(1), [c1], [c2]);
    assert [c1] + [c2] == [c1, c2];
    RunNone();
    RunOne(Fresh(1), c1);
    RestsAlone(Fresh(1), c1);
    var book := Step(Fresh(1), c1).book;
    assert book.Orders() == [RestingOrder(c1, c1.quantity)];
    RunOne(book, c2);
    RestsAlone(book, c2);
    var after := Step(book, c2).book;
    IndexOfTwo(after, RestingOrder(c1, c1.quantity), RestingOrder(c2, c2.quantity));
    OverflowHidesLevel(PublicIndex(IndexOf(after)), c1.orderId, c2.orderId, c1.instrument, c1.price, shown);
  }

  lemma IndexOfTwo(b: Book, r1: Resting, r2: Resting)
    requires b.bids == [r1, r2] && b.asks == [] && r1.orderId != r2.orderId
    ensures PublicIndex(IndexOf(b)) == map[r1.orderId := Public(r1), r2.orderId := Public(r2)]
  {
    assert b.Orders() == [r1, r2] && b.Orders()[1..] == [r2];
    assert r1 in b.Orders() && r2 in b.Orders();
    assert Find(b.Orders(), r1.orderId) == Some(r1) && Find(b.Orders(), r2.orderId) == Some(r2);
    assert IndexOf(b).Keys == {r1.orderId, r2.orderId};
  }

  lemma RestsAlone(b: Book, c: Command)
    requires Ok(b) && ValidateNew(b, c) == NO_REASON && c.side == BUY && b.asks == []
    ensures Step(b, c).book.bids == Place(Buy, b.bids, RestingOrder(c, c.quantity)) && Step(b, c).book.asks == []
    ensures Step(b, c).book.instrument == Some(c.instrument)
  {
  }

  // Depth

  function QueueLots(queue: seq<Resting>): int {
    if queue == [] then 0 else queue[0].remaining + QueueLots(queue[1..])
  }

  /** `shown` is the stored levels with the sums of their queues, in the same order. */
  ghost predicate ShowsLevels(shown: seq<PublicLevel>, levels: seq<Level>) {
    && |shown| == |levels|
    && forall i | 0 <= i < |levels| ::
         shown[i].price == levels[i].price && shown[i].quantity as int == QueueLots(levels[i].queue)
  }

  /** No queue holds more lots than 64 signed bits can count. */
  ghost predicate QueuesFit(levels: seq<Level>) {
    forall l | l in levels :: QueueLots(l.queue) < I64_LIMIT
  }

  /** The lots that `list` offers at `price`. */
  function LotsAt(list: seq<Resting>, price: i64): int {
    if list == [] then 0 else (if list[0].price == price then list[0].remaining else 0) + LotsAt(list[1..], price)
  }

  lemma {:induction false} LotsAtConcat(a: seq<Resting>, b: seq<Resting>, price: i64)
    ensures LotsAt(a + b, price) == LotsAt(a, price) + LotsAt(b, price)
  {
    if a == [] {
      assert a + b == b;
    } else {
      assert (a + b)[1..] == a[1..] + b;
      LotsAtConcat(a[1..], b, price);
    }
  }

  lemma {:induction false} LotsAtQueue(queue: seq<Resting>, price: i64)
    requires AtPrice(queue, price)
    ensures LotsAt(queue, price) == QueueLots(queue)
  {
    if queue != [] {
      LotsAtQueue(queue[1..], price);
      assert queue[0] in queue;
    }
  }

  lemma {:induction false} LotsElsewhere(list: seq<Resting>, price: i64)
    requires forall r | r in list :: r.price != price
    ensures LotsAt(list, price) == 0
  {
    if list != [] {
      LotsElsewhere(list[1..], price);
      assert list[0] in list;
    }
  }

  /** The sum over the projected map is the sum over the list of that side. */
  lemma {:induction false} SumIsLots(s: Side, own: seq<Resting>, others: seq<Resting>, index: map<u64, Resting>, price: i64)
    requires Indexed(index, own, others) && Unique(own) && Unique(others) && Ids(own) !! Ids(others)
    requires (forall r | r in own :: r.side == Code(s)) && (forall r | r in others :: r.side != Code(s))
    ensures SumAt(PublicIndex(index), s, price) == LotsAt(own, price)
    decreases |own| + |others|
  {
    hide SumAt, Unique;
    if own == [] && others == [] {
      assert PublicIndex(index) == map[];
      SumAtNothing(s, price);
    } else {
      var r := if own != [] then own[0] else others[0];
      SplitIndexed(own, others, index);
      SumAtPick(PublicIndex(index), s, price, r.orderId);
      PublicWithout(index, r.orderId);
      if own != [] {
        SumIsLots(s, own[1..], others, index - {r.orderId}, price);
      } else {
        SumIsLots(s, own, others[1..], index - {r.orderId}, price);
      }
    }
  }

  lemma SumAtNothing(s: Side, price: i64)
    ensures SumAt(map[], s, price) == 0
  {
  }

  lemma SplitIndexed(own: seq<Resting>, others: seq<Resting>, index: map<u64, Resting>)
    requires Indexed(index, own, others) && Unique(own) && Unique(others) && Ids(own) !! Ids(others)
    ensures own != [] ==>
      && own[0].orderId in index && index[own[0].orderId] == own[0]
      && Indexed(index - {own[0].orderId}, own[1..], others) && Unique(own[1..]) && Ids(own[1..]) <= Ids(own)
    ensures others != [] ==>
      && others[0].orderId in index && index[others[0].orderId] == others[0]
      && Indexed(index - {others[0].orderId}, own, others[1..]) && Unique(others[1..]) && Ids(others[1..]) <= Ids(others)
  {
    assert forall r | r in own :: r.orderId in Ids(own);
    assert forall r | r in others :: r.orderId in Ids(others);
    if own != [] {
      SplitHead(own);
    }
    if others != [] {
      SplitHead(others);
    }
  }

  lemma LevelLots(s: Side, levels: seq<Level>, i: nat)
    requires LevelsOk(s, levels) && i < |levels|
    ensures LotsAt(Flat(levels), levels[i].price) == QueueLots(levels[i].queue)
  {
    var price := levels[i].price;
    FlatAt(levels, i);
    LotsAtConcat(Flat(levels[..i]) + levels[i].queue, Flat(levels[i + 1..]), price);
    LotsAtConcat(Flat(levels[..i]), levels[i].queue, price);
    assert levels[i] in levels;
    LotsAtQueue(levels[i].queue, price);
    FlatPrices(levels[..i]);
    FlatPrices(levels[i + 1..]);
    LotsElsewhere(Flat(levels[..i]), price);
    LotsElsewhere(Flat(levels[i + 1..]), price);
  }

  lemma {:induction false} QueueLotsPositive(queue: seq<Resting>)
    requires queue != [] && Positive(queue)
    ensures QueueLots(queue) > 0
  {
    assert queue[0] in queue;
    if queue[1..] != [] {
      QueueLotsPositive(queue[1..]);
    }
  }

  /** Levels with the sums of the stored queues are the aggregate of the projected orders ... */
  lemma LevelsAreDepth(s: Side, levels: seq<Level>, others: seq<Resting>, index: map<u64, Resting>,
                       instrument: Option<u32>, shown: seq<PublicLevel>)
    requires LevelsOk(s, levels) && SideOk(s, Flat(levels), instrument) && SideOk(Flip(s), others, instrument)
    requires Unique(Flat(levels)) && Unique(others) && Ids(Flat(levels)) !! Ids(others)
    requires Indexed(index, Flat(levels), others)
    requires ShowsLevels(shown, levels)
    ensures IsDepth(s, PublicIndex(index), shown)
  {
    hide Unique, Indexed, SumAt, QueueLots;
    var active := PublicIndex(index);
    forall i | 0 <= i < |levels|
      ensures shown[i].quantity as int == SumAt(active, s, levels[i].price) > 0
    {
      LevelLots(s, levels, i);
      SumIsLots(s, Flat(levels), others, index, levels[i].price);
      LevelPositive(s, levels, i, instrument);
    }
    forall price: i64
      ensures Shown(active, s, price) <==> exists l :: l in shown && l.price == price
    {
      ShownIsQueued(s, levels, others, index, instrument, price);
      if exists l :: l in levels && l.price == price {
        var l :| l in levels && l.price == price;
        var i :| 0 <= i < |levels| && levels[i] == l;
        assert shown[i] in shown;
      }
      if exists l :: l in shown && l.price == price {
        var l :| l in shown && l.price == price;
        var i :| 0 <= i < |shown| && shown[i] == l;
        assert levels[i] in levels;
      }
    }
  }

  /** ... their sums fit exactly when the projected sums do ... */
  lemma QueuesFitSums(s: Side, levels: seq<Level>, others: seq<Resting>, index: map<u64, Resting>, instrument: Option<u32>)
    requires LevelsOk(s, levels) && SideOk(s, Flat(levels), instrument) && SideOk(Flip(s), others, instrument)
    requires Unique(Flat(levels)) && Unique(others) && Ids(Flat(levels)) !! Ids(others)
    requires Indexed(index, Flat(levels), others)
    ensures QueuesFit(levels) <==> SumsFit(s, PublicIndex(index))
  {
    hide Unique, Indexed, SumAt, QueueLots;
    var active := PublicIndex(index);
    forall i | 0 <= i < |levels|
      ensures SumAt(active, s, levels[i].price) == QueueLots(levels[i].queue)
    {
      LevelLots(s, levels, i);
      SumIsLots(s, Flat(levels), others, index, levels[i].price);
    }
    if QueuesFit(levels) {
      forall price: i64
        ensures SumAt(active, s, price) < I64_LIMIT
      {
        SumIsLots(s, Flat(levels), others, index, price);
        if exists l :: l in levels && l.price == price {
          var l :| l in levels && l.price == price;
          var i :| 0 <= i < |levels| && levels[i] == l;
        } else {
          FlatPrices(levels);
          LotsElsewhere(Flat(levels), price);
        }
      }
    }
    if SumsFit(s, active) {
      forall l | l in levels
        ensures QueueLots(l.queue) < I64_LIMIT
      {
        var i :| 0 <= i < |levels| && levels[i] == l;
        assert SumAt(active, s, levels[i].price) < I64_LIMIT;
      }
    }
  }

  lemma LevelPositive(s: Side, levels: seq<Level>, i: nat, instrument: Option<u32>)
    requires LevelsOk(s, levels) && SideOk(s, Flat(levels), instrument) && i < |levels|
    ensures QueueLots(levels[i].queue) > 0
  {
    FlatAt(levels, i);
    assert levels[i] in levels;
    assert forall r | r in levels[i].queue :: r in Flat(levels);
    QueueLotsPositive(levels[i].queue);
  }

  lemma ShownIsQueued(s: Side, levels: seq<Level>, others: seq<Resting>, index: map<u64, Resting>,
                      instrument: Option<u32>, price: i64)
    requires LevelsOk(s, levels) && SideOk(s, Flat(levels), instrument) && SideOk(Flip(s), others, instrument)
    requires Indexed(index, Flat(levels), others)
    ensures Shown(PublicIndex(index), s, price) <==> exists l :: l in levels && l.price == price
  {
    hide Sorted, SideOk, LevelsOk, Indexed, PublicIndex;
    if Shown(PublicIndex(index), s, price) {
      ShownThenQueued(s, levels, others, index, instrument, price);
    }
    if exists l :: l in levels && l.price == price {
      var l :| l in levels && l.price == price;
      QueuedThenShown(s, levels, others, index, instrument, l);
    }
  }

  lemma ShownThenQueued(s: Side, levels: seq<Level>, others: seq<Resting>, index: map<u64, Resting>,
                        instrument: Option<u32>, price: i64)
    requires LevelsOk(s, levels) && SideOk(Flip(s), others, instrument) && Indexed(index, Flat(levels), others)
    requires Shown(PublicIndex(index), s, price)
    ensures exists l :: l in levels && l.price == price
  {
    hide Sorted;
    FlatPrices(levels);
    var id :| id in index && index[id].side == Code(s) && index[id].price == price;
    var r :| (r in Flat(levels) || r in others) && r.orderId == id;
    assert r in Flat(levels);
  }

  lemma QueuedThenShown(s: Side, levels: seq<Level>, others: seq<Resting>, index: map<u64, Resting>,
                        instrument: Option<u32>, l: Level)
    requires LevelsOk(s, levels) && SideOk(s, Flat(levels), instrument) && Indexed(index, Flat(levels), others)
    requires l in levels
    ensures Shown(PublicIndex(index), s, l.price)
  {
    hide Sorted;
    FlatPrices(levels);
    var r := l.queue[0];
    assert r in l.queue && r in Flat(levels) && r.orderId in Ids(Flat(levels));
    assert r.orderId in PublicIndex(index);
  }

  /** ... so what a projection shows of a side is the book's levels if and only if no queue is too long to count. */
  lemma SideShown(s: Side, levels: seq<Level>, others: seq<Resting>, index: map<u64, Resting>,
                  instrument: Option<u32>, shown: seq<PublicLevel>)
    requires LevelsOk(s, levels) && SideOk(s, Flat(levels), instrument) && SideOk(Flip(s), others, instrument)
    requires Unique(Flat(levels)) && Unique(others) && Ids(Flat(levels)) !! Ids(others)
    requires Indexed(index, Flat(levels), others)
    requires Live(PublicIndex(index)) && IsView(s, PublicIndex(index), shown)
    ensures ShowsLevels(shown, levels) <==> QueuesFit(levels)
  {
    hide LevelsOk, SideOk, Unique, Indexed, QueueLots, SumsFit, IsDepth, IsView, PublicIndex, Live;
    var active := PublicIndex(index);
    QueuesFitSums(s, levels, others, index, instrument);
    AggregateIffFits(s, active, shown);
    if ShowsLevels(shown, levels) {
      LevelsAreDepth(s, levels, others, index, instrument, shown);
    }
    if QueuesFit(levels) {
      forall i | 0 <= i < |levels|
        ensures 0 < QueueLots(levels[i].queue) < I64_LIMIT
      {
        LevelPositive(s, levels, i, instrument);
        assert levels[i] in levels;
      }
      var depth := seq(|levels|, i requires 0 <= i < |levels| => PublicLevel(levels[i].price, QueueLots(levels[i].queue)));
      LevelsAreDepth(s, levels, others, index, instrument, depth);
      DepthIsView(s, active, depth);
      ViewUnique(s, active, shown, depth);
    }
  }

  /** A projection of a book's orders shows each side as the book stores it if and only if its queues can be counted. */
  lemma ViewIsDepth(b: Book, bids: seq<Level>, asks: seq<Level>, active: map<u64, OrderState>,
                    shownBids: seq<PublicLevel>, shownAsks: seq<PublicLevel>)
    requires Ok(b) && LevelsOk(Buy, bids) && LevelsOk(Sell, asks) && Flat(bids) == b.bids && Flat(asks) == b.asks
    requires active == PublicIndex(IndexOf(b)) && Live(active)
    requires IsView(Buy, active, shownBids) && IsView(Sell, active, shownAsks)
    ensures ShowsLevels(shownBids, bids) <==> QueuesFit(bids)
    ensures ShowsLevels(shownAsks, asks) <==> QueuesFit(asks)
  {
    hide IsView, Indexed, LevelsOk, IndexOf, ShowsLevels, QueuesFit, Live;
    IndexOfIndexed(b);
    IndexedFlip(IndexOf(b), b.bids, b.asks);
    SideShown(Buy, bids, b.asks, IndexOf(b), b.instrument, shownBids);
    SideShown(Sell, asks, b.bids, IndexOf(b), b.instrument, shownAsks);
  }

  /** All orders of a book carry its instrument, so the view names it whatever order the map is read in. */
  lemma InstrumentIsBook(b: Book, active: map<u64, OrderState>, instrument: u32)
    requires Ok(b) && active == PublicIndex(IndexOf(b)) && InstrumentOk(active, instrument)
    ensures if active == map[] then instrument == 0 else b.instrument == Some(instrument)
  {
    hide Sorted, Unique, Uncrossed;
    if active != map[] {
      var id :| id in active && active[id].instrument == instrument;
      var r := IndexOf(b)[id];
      assert r in b.bids || r in b.asks;
    }
  }

  /**
   Engine and projection side by side, after any list of commands: orders, tape and instrument agree, and
   each side of the view is the book's if and only if the lots at each of its prices can be counted.
   */
  method Publish(engine: InstrumentEngine, projection: MarketDataProjection, commands: seq<Command>)
    requires engine.Valid() && projection.Valid() && engine.book.Abs() == Fresh(1) && projection.Abs() == NOTHING
    requires NeverRestsZero(commands)
    modifies engine.book, projection
    ensures engine.Valid() && projection.Valid()
    ensures engine.book.Abs() == Run(Fresh(1), commands).book
    ensures projection.active == PublicIndex(engine.book.active)
    ensures projection.trades == Tape(Run(Fresh(1), commands).events)
    ensures ShowsLevels(projection.bids, engine.book.bids) <==> QueuesFit(engine.book.bids)
    ensures ShowsLevels(projection.asks, engine.book.asks) <==> QueuesFit(engine.book.asks)
    ensures if engine.book.active == map[] then projection.instrument == 0
            else engine.book.instrument == Some(projection.instrument)
  {
    hide Run, Step, Feed, Tape, IsView, IsDepth, Live, InstrumentOk, ShowsLevels, QueuesFit, Ok, IndexOf, LevelsOk, Indexed, NoZeroRests, NeverRestsZero, Agrees;
    ghost var log: seq<Event> := [];
    FeedNone(NOTHING);
    RunNone();
    for i := 0 to |commands|
      invariant engine.Valid() && projection.Valid()
      invariant Outcome(engine.book.Abs(), log) == Run(Fresh(1), commands[..i])
      invariant Feed(NOTHING, log) == Some(projection.Abs())
    {
      RunExtends(commands, i);
      NeverPrefix(commands, i + 1);
      RunRestsZero(commands[..i + 1]);
      RunFollows(commands[..i + 1]);
      var events := engine.Apply(commands[i]);
      FeedConcat(NOTHING, log, events);
      FeedAll(projection, events);
      log := log + events;
    }
    assert commands[..|commands|] == commands;
    RunRestsZero(commands);
    RunFollows(commands);
    ShownBook(engine.book.Abs(), projection.Abs());
    IndexedIsIndexOf(engine.book.Abs(), engine.book.active);
    ViewIsDepth(engine.book.Abs(), engine.book.bids, engine.book.asks, projection.active, projection.bids, projection.asks);
    InstrumentIsBook(engine.book.Abs(), projection.active, projection.instrument);
    NothingShown(engine.book.active);
  }

  lemma NothingShown(index: map<u64, Resting>)
    ensures PublicIndex(index) == map[] <==> index == map[]
  {
    assert PublicIndex(index).Keys == index.Keys;
  }

  lemma ShownBook(b: Book, p: Projected)
    requires Agrees(b, p)
    ensures p.active == PublicIndex(IndexOf(b))
  {
  }

  lemma RunNone()
    ensures Run(Fresh(1), []) == Outcome(Fresh(1), [])
  {
  }

  lemma RunExtends(commands: seq<Command>, i: nat)
    requires i < |commands|
    ensures var before := Run(Fresh(1), commands[..i]);
      var last := Step(before.book, commands[i]);
      Run(Fresh(1), commands[..i + 1]) == Outcome(last.book, before.events + last.events)
  {
    assert commands[..i + 1][..i] == commands[..i];
  }

  method FeedAll(projection: MarketDataProjection, events: seq<Event>)
    requires projection.Valid() && Feed(projection.Abs(), events).Some?
    modifies projection
    ensures projection.Valid() && Feed(old(projection.Abs()), events) == Some(projection.Abs())
  {
    hide IsView, IsDepth, SumsFit, Live, Project;
    ghost var start := projection.Abs();
    FeedNone(start);
    for j := 0 to |events|
      invariant projection.Valid() && Feed(start, events[..j]) == Some(projection.Abs())
    {
      assert events == events[..j] + events[j..];
      FeedConcat(start, events[..j], events[j..]);
      assert events[..j + 1] == events[..j] + [events[j]];
      FeedConcat(start, events[..j], [events[j]]);
      FeedOne(projection.Abs(), events[j]);
      var status := projection.Apply(events[j]);
    }
    assert events[..|events|] == events;
  }
}
