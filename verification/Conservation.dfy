/** The quantity ledger that the event stream alone determines. */
module Conservation {
  import opened Domain
  import opened BookModel
  import opened BookInvariant

  /** The orders a ledger is about. */
  datatype Scope = Everyone | Only(id: u64) {
    predicate Has(orderId: u64) {
      Everyone? || orderId == id
    }
  }

  datatype Column = AcceptedLots | TradedLots | CancelledLots

  /** What one event adds to a column, counting only the orders `who` has; a trade counts on both sides. */
  ghost function Entry(column: Column, e: Event, who: Scope): int {
    match column
    case AcceptedLots => if e.eventType == ORDER_ACCEPTED && who.Has(e.orderId) then e.quantity else 0
    case TradedLots =>
      if e.eventType != TRADE_EXECUTED then 0
      else (if who.Has(e.orderId) then e.quantity else 0) + (if who.Has(e.contraOrderId) then e.quantity else 0)
    case CancelledLots => if e.eventType == ORDER_CANCELLED && who.Has(e.orderId) then e.remaining else 0
  }

  ghost function Total(column: Column, events: seq<Event>, who: Scope): int {
    if events == [] then 0 else Entry(column, events[0], who) + Total(column, events[1..], who)
  }

  ghost function RestingLots(list: seq<Resting>, who: Scope): int {
    if list == [] then 0 else Lots(list[0], who) + RestingLots(list[1..], who)
  }

  ghost function Lots(r: Resting, who: Scope): int {
    if who.Has(r.orderId) then r.remaining else 0
  }

  /** All lots that trade, each trade counted once. */
  function Volume(events: seq<Event>): int {
    if events == [] then 0
    else (if events[0].eventType == TRADE_EXECUTED then events[0].quantity else 0) + Volume(events[1..])
  }

  lemma {:induction false} TotalConcat(column: Column, a: seq<Event>, b: seq<Event>, who: Scope)
    ensures Total(column, a + b, who) == Total(column, a, who) + Total(column, b, who)
  {
    if a == [] {
      assert a + b == b;
    } else {
      TotalConcat(column, a[1..], b, who);
      assert (a + b)[1..] == a[1..] + b;
    }
  }

  lemma {:induction false} RestingConcat(a: seq<Resting>, b: seq<Resting>, who: Scope)
    ensures RestingLots(a + b, who) == RestingLots(a, who) + RestingLots(b, who)
  {
    if a == [] {
      assert a + b == b;
    } else {
      RestingConcat(a[1..], b, who);
      assert (a + b)[1..] == a[1..] + b;
    }
  }

  lemma {:induction false} PlaceLots(s: Side, list: seq<Resting>, r: Resting, who: Scope)
    ensures RestingLots(Place(s, list, r), who) == RestingLots(list, who) + Lots(r, who)
  {
    if list == [] || Better(s, r.price, list[0].price) {
      RestingConcat([r], list, who);
    } else {
      PlaceLots(s, list[1..], r, who);
      RestingConcat([list[0]], Place(s, list[1..], r), who);
    }
  }

  lemma {:induction false} RemoveLots(list: seq<Resting>, id: u64, who: Scope)
    ensures RestingLots(Remove(list, id), who)
      == RestingLots(list, who) - if Find(list, id).Some? then Lots(Find(list, id).value, who) else 0
  {
    if list != [] && list[0].orderId != id {
      RemoveLots(list[1..], id, who);
      RestingConcat([list[0]], Remove(list[1..], id), who);
    }
  }

  lemma {:induction false} WalkLots(s: Side, c: Command, list: seq<Resting>, left: i64, event: u64, trade: u64, who: Scope)
    requires left >= 0 && Positive(list)
    ensures var f := Walk(s, c, list, left, event, trade);
      && RestingLots(list, who) + (if who.Has(c.orderId) then left - f.left else 0)
         == RestingLots(f.rest, who) + Total(TradedLots, f.trades, who)
      && Total(AcceptedLots, f.trades, who) == 0 && Total(CancelledLots, f.trades, who) == 0
    decreases |list|
  {
    hide Add64, Total, RestingLots;
    TotalNone(who);
    if !(left == 0 || list == [] || !Crosses(s, c.price, list[0].price)) {
      var r, tail := list[0], list[1..];
      var f := Walk(s, c, list, left, event, trade);
      RestingCons(r, tail, who);
      assert list == [r] + tail;
      if r.remaining <= left {
        WalkLots(s, c, tail, left - r.remaining, Add64(event, 1), Add64(trade, 1), who);
        var g := Walk(s, c, tail, left - r.remaining, Add64(event, 1), Add64(trade, 1));
        TotalCons(f.trades[0], g.trades, who);
      } else {
        TotalCons(f.trades[0], [], who);
        assert f.trades == [f.trades[0]] + [];
        RestingCons(f.rest[0], tail, who);
      }
    }
  }

  lemma TotalNone(who: Scope)
    ensures forall column: Column :: Total(column, [], who) == 0
  {
  }

  lemma TotalCons(e: Event, events: seq<Event>, who: Scope)
    ensures forall column: Column :: Total(column, [e] + events, who) == Entry(column, e, who) + Total(column, events, who)
  {
  }

  lemma RestingCons(r: Resting, list: seq<Resting>, who: Scope)
    ensures RestingLots([r] + list, who) == Lots(r, who) + RestingLots(list, who)
  {
  }

  /** The ledger of one stretch of events: lots in = lots out. */
  ghost predicate Balanced(before: Book, events: seq<Event>, after: Book, who: Scope) {
    RestingLots(before.Orders(), who) + Total(AcceptedLots, events, who)
      == Total(TradedLots, events, who) + Total(CancelledLots, events, who) + RestingLots(after.Orders(), who)
  }

  lemma NewBalanced(b: Book, c: Command, who: Scope)
    requires Ok(b)
    ensures Balanced(b, ApplyNew(b, c).events, ApplyNew(b, c).book, who)
  {
    hide Add64, Walk, Ok, ApplyNew, Total, RestingLots, ValidateNew, Place;
    UnfoldNew(b, c);
    var o := ApplyNew(b, c);
    RestingConcat(b.bids, b.asks, who);
    RestingConcat(o.book.bids, o.book.asks, who);
    if ValidateNew(b, c) == NO_REASON {
      var s := DecodeSide(c.side).value;
      var list := b.Opposite(s);
      var f := Walk(s, c, list, c.quantity, Add64(b.nextEvent, 1), b.nextTrade);
      WalkLots(s, c, list, c.quantity, Add64(b.nextEvent, 1), b.nextTrade, who);
      PlaceLots(s, b.Own(s), RestingOrder(c, f.left), who);
      EnvelopeTotals(o.events[0], f.trades, o.events[1 + |f.trades|], who);
    } else {
      TotalNone(who);
      TotalCons(o.events[0], [], who);
      assert o.events == [o.events[0]] + [];
    }
  }

  lemma EnvelopeTotals(first: Event, trades: seq<Event>, last: Event, who: Scope)
    ensures forall column: Column ::
      Total(column, [first] + trades + [last], who)
      == Entry(column, first, who) + Total(column, trades, who) + Entry(column, last, who)
  {
    hide Entry;
    forall column: Column
      ensures Total(column, [first] + trades + [last], who)
        == Entry(column, first, who) + Total(column, trades, who) + Entry(column, last, who)
    {
      TotalConcat(column, [first], trades, who);
      TotalConcat(column, [first] + trades, [last], who);
    }
  }

  lemma CancelBalanced(b: Book, c: Command, who: Scope)
    requires Ok(b) && Find(b.Orders(), c.orderId).Some?
    ensures var o := CancelResting(b, c, Find(b.Orders(), c.orderId).value);
      Ok(o.book) && Balanced(b, o.events, o.book, who)
  {
    var r := Find(b.Orders(), c.orderId).value;
    WithoutOk(b, c.orderId);
    FindConcat(b.bids, b.asks, c.orderId);
    RemoveLots(b.bids, c.orderId, who);
    RemoveLots(b.asks, c.orderId, who);
    RestingConcat(b.bids, b.asks, who);
    RestingConcat(Without(b, r).bids, Without(b, r).asks, who);
  }

  lemma {:induction false} FindConcat(a: seq<Resting>, b: seq<Resting>, id: u64)
    ensures Find(a + b, id) == if Find(a, id).Some? then Find(a, id) else Find(b, id)
  {
    if a == [] {
      assert a + b == b;
    } else {
      FindConcat(a[1..], b, id);
      assert (a + b)[1..] == a[1..] + b;
    }
  }

  lemma BalancedConcat(a: Book, x: seq<Event>, b: Book, y: seq<Event>, c: Book, who: Scope)
    requires Balanced(a, x, b, who) && Balanced(b, y, c, who)
    ensures Balanced(a, x + y, c, who)
  {
    forall column: Column
      ensures Total(column, x + y, who) == Total(column, x, who) + Total(column, y, who)
    {
      TotalConcat(column, x, y, who);
    }
  }

  lemma StepBalanced(b: Book, c: Command, who: Scope)
    requires Ok(b)
    ensures Balanced(b, Step(b, c).events, Step(b, c).book, who)
  {
    if c.commandType == NEW_ORDER {
      NewBalanced(b, c, who);
    } else if c.commandType == CANCEL_ORDER && ValidateCancel(b, c) == NO_REASON {
      CancelBalanced(b, c, who);
    } else if c.commandType == REPLACE_ORDER && ValidateReplace(b, c) == NO_REASON {
      CancelBalanced(b, c, who);
      var cancelled := CancelResting(b, c, Find(b.Orders(), c.orderId).value);
      NewBalanced(cancelled.book, Replacement(c), who);
      var submitted := ApplyNew(cancelled.book, Replacement(c));
      BalancedConcat(b, cancelled.events, cancelled.book, submitted.events, submitted.book, who);
    }
  }

  /** Over any run, for all orders or for one id, what was accepted was traded, cancelled, or still rests. */
  lemma {:induction false} RunBalanced(b: Book, commands: seq<Command>, who: Scope)
    requires Ok(b)
    ensures var o := Run(b, commands);
      Balanced(b, o.events, o.book, who)
  {
    if commands != [] {
      var n := |commands| - 1;
      RunBalanced(b, commands[..n], who);
      var before := Run(b, commands[..n]);
      var last := Step(before.book, commands[n]);
      StepBalanced(before.book, commands[n], who);
      BalancedConcat(b, before.events, before.book, last.events, last.book, who);
    }
  }

  lemma {:induction false} VolumeTwice(events: seq<Event>)
    ensures Total(TradedLots, events, Everyone) == 2 * Volume(events)
  {
    if events != [] {
      VolumeTwice(events[1..]);
    }
  }

  /** From an empty book: accepted = 2 x traded + cancelled + resting. */
  lemma Conserved(first: u64, commands: seq<Command>)
    ensures var o := Run(Fresh(first), commands);
      Total(AcceptedLots, o.events, Everyone)
        == 2 * Volume(o.events) + Total(CancelledLots, o.events, Everyone) + RestingLots(o.book.Orders(), Everyone)
  {
    var o := Run(Fresh(first), commands);
    RunBalanced(Fresh(first), commands, Everyone);
    VolumeTwice(o.events);
  }

  /** The same ledger for one order id, however often the id is reused. */
  lemma ConservedPerId(first: u64, commands: seq<Command>, id: u64)
    ensures var o := Run(Fresh(first), commands);
      Total(AcceptedLots, o.events, Only(id))
        == Total(TradedLots, o.events, Only(id)) + Total(CancelledLots, o.events, Only(id))
           + (if Find(o.book.Orders(), id).Some? then Find(o.book.Orders(), id).value.remaining else 0)
  {
    var o := Run(Fresh(first), commands);
    RunBalanced(Fresh(first), commands, Only(id));
    var orders := o.book.Orders();
    UniqueOrders(o.book);
    OneOrderLots(orders, id);
  }

  lemma {:induction false} OneOrderLots(list: seq<Resting>, id: u64)
    requires Unique(list)
    ensures RestingLots(list, Only(id)) == if Find(list, id).Some? then Find(list, id).value.remaining else 0
  {
    if list != [] {
      assert Unique(list[1..]);
      OneOrderLots(list[1..], id);
    }
  }
}
