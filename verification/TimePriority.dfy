/** Price-time priority of every reachable book, measured on the event log. */
module TimePriority {
  import opened Domain
  import opened BookModel
  import opened BookInvariant
  import opened Matching

  /** The event says that order `id` now rests at the back of its queue. */
  predicate Rests(e: Event, id: u64) {
    e.orderId == id && (e.eventType == ORDER_RESTED || e.eventType == ORDER_PARTIALLY_FILLED)
  }

  /** Where in the log order `id` last came to rest; -1 when it never did. */
  function RestedAt(events: seq<Event>, id: u64): (k: int)
    ensures -1 <= k < |events|
  {
    if events == [] then -1
    else if Rests(events[|events| - 1], id) then |events| - 1
    else RestedAt(events[..|events| - 1], id)
  }

  /** All orders of `list` have rested, and those of one price queue in the order they came to rest. */
  ghost predicate Timely(list: seq<Resting>, events: seq<Event>) {
    && (forall r | r in list :: RestedAt(events, r.orderId) >= 0)
    && (forall i, j | 0 <= i < j < |list| && list[i].price == list[j].price ::
          RestedAt(events, list[i].orderId) < RestedAt(events, list[j].orderId))
  }

  lemma {:induction false} RestedKeeps(a: seq<Event>, b: seq<Event>, id: u64)
    requires forall e | e in b :: !Rests(e, id)
    ensures RestedAt(a + b, id) == RestedAt(a, id)
  {
    if b == [] {
      assert a + b == a;
    } else {
      RestedKeeps(a, b[..|b| - 1], id);
      assert (a + b)[..|a + b| - 1] == a + b[..|b| - 1];
    }
  }

  /** Events that rest none of the listed orders leave their times alone. */
  lemma TimelyKeeps(list: seq<Resting>, events: seq<Event>, more: seq<Event>)
    requires Timely(list, events)
    requires forall r, e | r in list && e in more :: !Rests(e, r.orderId)
    ensures Timely(list, events + more)
  {
    forall r | r in list
      ensures RestedAt(events + more, r.orderId) == RestedAt(events, r.orderId)
    {
      RestedKeeps(events, more, r.orderId);
    }
  }

  lemma TimelyTrimmed(list: seq<Resting>, k: int, rest: seq<Resting>, events: seq<Event>)
    requires Timely(list, events) && Trimmed(list, k, rest)
    ensures Timely(rest, events)
  {
    forall i | 0 <= i < |rest|
      ensures rest[i].orderId == list[k + i].orderId && rest[i].price == list[k + i].price
    {
      if i > 0 && rest != list[k..] {
        assert rest[i] == rest[1..][i - 1];
      }
    }
  }

  lemma TimelyRemoved(list: seq<Resting>, id: u64, events: seq<Event>)
    requires Timely(list, events)
    ensures Timely(Remove(list, id), events)
  {
    if id in Ids(list) {
      var p := RemoveAt(list, id);
    } else {
      NothingRemoved(list, id);
    }
  }

  lemma NothingRemoved(list: seq<Resting>, id: u64)
    requires id !in Ids(list)
    ensures Remove(list, id) == list
  {
    if list != [] {
      NothingRemoved(list[1..], id);
    }
  }

  /** An order that rests last goes behind all orders of its price. */
  lemma TimelyPlaced(s: Side, list: seq<Resting>, r: Resting, events: seq<Event>)
    requires Timely(list, events) && Sorted(s, list)
    requires RestedAt(events, r.orderId) >= 0
    requires forall o | o in list :: RestedAt(events, o.orderId) < RestedAt(events, r.orderId)
    ensures Timely(Place(s, list, r), events)
  {
    hide Timely, RestedAt;
    var p := PlaceAt(s, list, r);
    TimelyInserted(list, p, r, events);
  }

  lemma TimelyInserted(list: seq<Resting>, p: nat, r: Resting, events: seq<Event>)
    requires Timely(list, events) && p <= |list| && RestedAt(events, r.orderId) >= 0
    requires forall o | o in list :: RestedAt(events, o.orderId) < RestedAt(events, r.orderId)
    requires forall i | p <= i < |list| :: list[i].price != r.price
    ensures Timely(list[..p] + [r] + list[p..], events)
  {
    hide RestedAt;
  }

  ghost predicate BookTimely(b: Book, events: seq<Event>) {
    Timely(b.bids, events) && Timely(b.asks, events)
  }

  lemma RejectTimely(b: Book, events: seq<Event>, c: Command, reason: u16)
    requires Ok(b) && BookTimely(b, events)
    ensures BookTimely(Reject(b, c, reason).book, events + Reject(b, c, reason).events)
  {
    TimelyKeeps(b.bids, events, Reject(b, c, reason).events);
    TimelyKeeps(b.asks, events, Reject(b, c, reason).events);
  }

  lemma CancelTimely(b: Book, events: seq<Event>, c: Command)
    requires Ok(b) && BookTimely(b, events) && Find(b.Orders(), c.orderId).Some?
    ensures var o := CancelResting(b, c, Find(b.Orders(), c.orderId).value);
      Ok(o.book) && BookTimely(o.book, events + o.events)
  {
    hide Timely, Remove;
    var o := CancelResting(b, c, Find(b.Orders(), c.orderId).value);
    WithoutOk(b, c.orderId);
    TimelyKeeps(b.bids, events, o.events);
    TimelyKeeps(b.asks, events, o.events);
    TimelyRemoved(b.bids, c.orderId, events + o.events);
    TimelyRemoved(b.asks, c.orderId, events + o.events);
  }

  lemma NewTimely(b: Book, events: seq<Event>, c: Command)
    requires Ok(b) && BookTimely(b, events)
    ensures BookTimely(ApplyNew(b, c).book, events + ApplyNew(b, c).events)
  {
    hide Ok, ApplyNew, Walk, Timely, ValidateNew, Add64, Place, RestedAt;
    UnfoldNew(b, c);
    if ValidateNew(b, c) != NO_REASON {
      RejectTimely(b, events, c, ValidateNew(b, c));
    } else {
      var s := DecodeSide(c.side).value;
      var list := b.Opposite(s);
      var f := Walk(s, c, list, c.quantity, Add64(b.nextEvent, 1), b.nextTrade);
      var o := ApplyNew(b, c);
      WalkTrims(s, c, list, c.quantity, Add64(b.nextEvent, 1), b.nextTrade);
      WalkNeverRests(s, c, list, c.quantity, Add64(b.nextEvent, 1), b.nextTrade);
      NewIds(b, c);
      forall r, e | r in b.Orders() && e in o.events
        ensures !Rests(e, r.orderId)
      {
        if e in f.trades {
        }
      }
      TimelyKeeps(list, events, o.events);
      TimelyKeeps(b.Own(s), events, o.events);
      TimelyTrimmed(list, |list| - |f.rest|, f.rest, events + o.events);
      if f.left > 0 {
        LastRested(events + o.events, c.orderId);
        forall r | r in b.Own(s)
          ensures RestedAt(events + o.events, r.orderId) < |events + o.events| - 1
        {
          NotLastRested(events + o.events, r.orderId);
        }
        TimelyPlaced(s, b.Own(s), RestingOrder(c, f.left), events + o.events);
      }
    }
  }

  lemma LastRested(events: seq<Event>, id: u64)
    requires events != [] && Rests(events[|events| - 1], id)
    ensures RestedAt(events, id) == |events| - 1
  {
  }

  lemma NotLastRested(events: seq<Event>, id: u64)
    requires events != [] && !Rests(events[|events| - 1], id)
    ensures RestedAt(events, id) < |events| - 1
  {
  }

  lemma NewIds(b: Book, c: Command)
    requires Ok(b) && ValidateNew(b, c) == NO_REASON
    ensures forall r | r in b.Orders() :: r.orderId != c.orderId
    ensures Sorted(Buy, b.bids) && Sorted(Sell, b.asks)
    ensures forall r | r in b.bids || r in b.asks :: r in b.Orders()
  {
    assert forall r | r in b.Orders() :: r.orderId in Ids(b.Orders());
  }

  lemma WalkNeverRests(s: Side, c: Command, list: seq<Resting>, left: i64, event: u64, trade: u64)
    requires left >= 0 && Positive(list)
    ensures forall e | e in Walk(s, c, list, left, event, trade).trades :: e.eventType == TRADE_EXECUTED
  {
    WalkTrades(s, c, list, left, event, trade);
    var trades := Walk(s, c, list, left, event, trade).trades;
    forall e | e in trades
      ensures e.eventType == TRADE_EXECUTED
    {
      var i :| 0 <= i < |trades| && trades[i] == e;
      assert NthTrade(c, list, left, event, trade, trades, i);
    }
  }

  lemma StepTimely(b: Book, events: seq<Event>, c: Command)
    requires Ok(b) && BookTimely(b, events)
    ensures BookTimely(Step(b, c).book, events + Step(b, c).events)
  {
    hide ApplyNew, BookTimely, Ok;
    if c.commandType == NEW_ORDER {
      NewTimely(b, events, c);
    } else if c.commandType == CANCEL_ORDER && ValidateCancel(b, c) == NO_REASON {
      CancelTimely(b, events, c);
    } else if c.commandType == REPLACE_ORDER && ValidateReplace(b, c) == NO_REASON {
      CancelTimely(b, events, c);
      var cancelled := CancelResting(b, c, Find(b.Orders(), c.orderId).value);
      NewTimely(cancelled.book, events + cancelled.events, Replacement(c));
      var submitted := ApplyNew(cancelled.book, Replacement(c));
      assert events + (cancelled.events + submitted.events) == events + cancelled.events + submitted.events;
    } else {
      RejectTimely(b, events, c, Step(b, c).events[0].rejectionReason);
    }
  }

  /** In every reachable book orders stand by price, and within a price by when they came to rest. */
  lemma {:induction false} PriceTimePriority(first: u64, commands: seq<Command>)
    ensures var o := Run(Fresh(first), commands);
      && BookTimely(o.book, o.events)
      && Sorted(Buy, o.book.bids) && Sorted(Sell, o.book.asks)
  {
    if commands != [] {
      var n := |commands| - 1;
      PriceTimePriority(first, commands[..n]);
      var before := Run(Fresh(first), commands[..n]);
      StepTimely(before.book, before.events, commands[n]);
    }
  }
}
