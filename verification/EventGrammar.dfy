/** The shape and the numbering of the event stream. */
module EventGrammar {
  import opened Domain
  import opened BookModel
  import opened BookInvariant
  import opened Matching

  function TradeCount(events: seq<Event>): nat {
    if events == [] then 0
    else TradeCount(events[..|events| - 1]) + if events[|events| - 1].eventType == TRADE_EXECUTED then 1 else 0
  }

  /** Event sequences run on from `event` without a gap, trade ids from `trade`; only trades carry one. */
  ghost predicate Numbered(events: seq<Event>, event: u64, trade: u64) {
    forall k: nat | k < |events| :: NumberedAt(events, k, event, trade)
  }

  ghost predicate NumberedAt(events: seq<Event>, k: nat, event: u64, trade: u64)
    requires k < |events|
  {
    && events[k].eventSequence == Add64(event, k)
    && events[k].tradeId == if events[k].eventType == TRADE_EXECUTED then Add64(trade, TradeCount(events[..k])) else 0
  }

  lemma {:induction false} TradeCountConcat(a: seq<Event>, b: seq<Event>)
    ensures TradeCount(a + b) == TradeCount(a) + TradeCount(b)
  {
    if b == [] {
      assert a + b == a;
    } else {
      TradeCountConcat(a, b[..|b| - 1]);
      assert (a + b)[..|a + b| - 1] == a + b[..|b| - 1];
    }
  }

  lemma NumberedConcat(a: seq<Event>, b: seq<Event>, event: u64, trade: u64)
    requires Numbered(a, event, trade) && Numbered(b, Add64(event, |a|), Add64(trade, TradeCount(a)))
    ensures Numbered(a + b, event, trade)
  {
    forall k: nat | k < |a + b|
      ensures NumberedAt(a + b, k, event, trade)
    {
      if k < |a| {
        assert NumberedAt(a, k, event, trade);
        assert (a + b)[..k] == a[..k];
      } else {
        LaterNumbered(a, b, k - |a|, event, trade);
      }
    }
  }

  lemma LaterNumbered(a: seq<Event>, b: seq<Event>, k: nat, event: u64, trade: u64)
    requires k < |b| && NumberedAt(b, k, Add64(event, |a|), Add64(trade, TradeCount(a)))
    ensures NumberedAt(a + b, |a| + k, event, trade)
  {
    hide Add64;
    assert (a + b)[..|a| + k] == a + b[..k];
    TradeCountConcat(a, b[..k]);
    Add64Add(event, |a|, k);
    Add64Add(trade, TradeCount(a), TradeCount(b[..k]));
  }

  lemma OneNumbered(e: Event, event: u64, trade: u64)
    requires e.eventSequence == event && e.eventType != TRADE_EXECUTED && e.tradeId == 0
    ensures Numbered([e], event, trade) && TradeCount([e]) == 0
  {
  }

  lemma {:induction false} AllTrades(trades: seq<Event>)
    requires forall e | e in trades :: e.eventType == TRADE_EXECUTED
    ensures TradeCount(trades) == |trades|
  {
    if trades != [] {
      AllTrades(trades[..|trades| - 1]);
    }
  }

  lemma WalkNumbered(s: Side, c: Command, list: seq<Resting>, left: i64, event: u64, trade: u64)
    requires left >= 0 && Positive(list)
    ensures var trades := Walk(s, c, list, left, event, trade).trades;
      Numbered(trades, event, trade) && TradeCount(trades) == |trades|
  {
    hide Add64;
    var trades := Walk(s, c, list, left, event, trade).trades;
    WalkTrades(s, c, list, left, event, trade);
    forall k: nat | k < |trades|
      ensures trades[k].eventType == TRADE_EXECUTED && trades[k].eventSequence == Add64(event, k)
      ensures trades[k].tradeId == Add64(trade, k)
    {
      assert NthTrade(c, list, left, event, trade, trades, k);
    }
    AllTrades(trades);
    forall k: nat | k < |trades|
      ensures NumberedAt(trades, k, event, trade)
    {
      AllTrades(trades[..k]);
    }
  }

  /** The event names the command it answers and the order it is about. */
  ghost predicate Answers(e: Event, c: Command) {
    && e.commandSequence == c.commandSequence
    && e.ingressEpoch == c.ingressEpoch && e.ingressSequence == c.ingressSequence
    && e.orderId == c.orderId && e.reserved == 0
  }

  /** ... and describes that order as the command does. */
  ghost predicate Describes(e: Event, c: Command) {
    Answers(e, c) && e.instrument == c.instrument && e.side == c.side && e.rejectionReason == 0
  }

  /** No worse than the limit of the order: at most it when buying, at least it when selling. */
  ghost predicate WithinLimit(price: i64, c: Command) {
    (c.side == 1 ==> price <= c.price) && (c.side == 2 ==> price >= c.price)
  }

  ghost predicate Acceptance(e: Event, c: Command) {
    && Describes(e, c) && e.eventType == 1 && e.contraOrderId == 0 && e.price == c.price
    && e.quantity == c.quantity && e.remaining == c.quantity
  }

  /** One fill of an order of which `traded` lots have traded so far, this fill included. */
  ghost predicate Trade(e: Event, c: Command, traded: int) {
    && Describes(e, c) && e.eventType == 3 && WithinLimit(e.price, c)
    && e.quantity > 0 && e.remaining as int == c.quantity - traded
  }

  /** The end of matching, with `traded` lots filled: rested if none, filled if all, partially filled otherwise. */
  ghost predicate Closing(e: Event, c: Command, traded: int) {
    && Describes(e, c) && e.contraOrderId == 0 && e.price == c.price
    && e.eventType == (if traded == c.quantity as int then 6 else if traded == 0 then 4 else 5)
    && e.quantity as int == traded && 0 <= e.remaining as int == c.quantity - traded
  }

  /** The life of an accepted order: accepted, trades with a running remainder, one closing event. */
  ghost predicate OrderLife(c: Command, events: seq<Event>) {
    && |events| >= 2 && c.quantity > 0
    && Acceptance(events[0], c)
    && (forall k | 0 < k < |events| - 1 :: Trade(events[k], c, Sum(Sizes(events[1..k + 1]))))
    && Closing(events[|events| - 1], c, Sum(Sizes(events[1..|events| - 1])))
    && (events[|events| - 1].eventType == 4 <==> |events| == 2)
  }

  ghost predicate Rejection(e: Event, c: Command) {
    && Answers(e, c) && e.instrument == c.instrument && e.side == c.side
    && e.eventType == 2 && e.contraOrderId == 0 && e.price == c.price && e.quantity == 0 && e.remaining == 0
    && e.rejectionReason != 0
  }

  /** The cancelled order is described as it rested, not as the command has it. */
  ghost predicate Cancellation(b: Book, e: Event, c: Command) {
    && Answers(e, c) && e.eventType == 7 && e.contraOrderId == 0 && e.quantity == 0 && e.rejectionReason == 0
    && exists r :: r in b.Orders() && r.orderId == c.orderId
         && e.price == r.price && e.remaining == r.remaining && e.side == r.side && e.instrument == r.instrument
  }

  /** What one command may emit on a book. */
  ghost predicate Grammar(b: Book, c: Command, events: seq<Event>) {
    || (|events| == 1 && Rejection(events[0], c))
    || (c.commandType == 2 && |events| == 1 && Cancellation(b, events[0], c))
    || (c.commandType == 1 && OrderLife(c, events))
    || (c.commandType == 3 && events != [] && Cancellation(b, events[0], c)
        && OrderLife(c.(commandType := 1, orderId := c.replacementOrderId), events[1..]))
  }

  lemma NewLife(b: Book, c: Command)
    requires Ok(b) && ValidateNew(b, c) == NO_REASON
    ensures OrderLife(c, ApplyNew(b, c).events)
  {
    hide Add64, Walk, ApplyNew, ValidateNew, Ok, OrderLife, ClosingEvent, Sum, Sizes, TradeRun, Place;
    UnfoldNew(b, c);
    var s := DecodeSide(c.side).value;
    var list := b.Opposite(s);
    var e, t := Add64(b.nextEvent, 1), b.nextTrade;
    var f := Walk(s, c, list, c.quantity, e, t);
    WalkBounds(s, c, list, c.quantity, e, t);
    WalkTrades(s, c, list, c.quantity, e, t);
    WalkLeft(s, c, list, c.quantity, e, t);
    WalkWithinLimit(s, c, list, c.quantity, e, t);
    LifeOf(c, list, e, t, b.nextEvent, f.trades, Add64(b.nextEvent, 1 + |f.trades|), f.left);
  }

  lemma LifeOf(c: Command, list: seq<Resting>, event: u64, trade: u64, first: u64, trades: seq<Event>, last: u64, left: i64)
    requires TradeRun(c, list, c.quantity, event, trade, trades)
    requires c.quantity > 0 && 0 <= left <= c.quantity && left == c.quantity - Sum(Sizes(trades)) && (trades == [] <==> left == c.quantity)
    requires forall e | e in trades :: e.quantity > 0 && WithinLimit(e.price, c)
    ensures OrderLife(c, [OrderEvent(c, first, ORDER_ACCEPTED, c.quantity, c.quantity)] + trades + [ClosingEvent(c, last, left)])
  {
    hide Add64, Sum, Sizes, WithinLimit;
    var events := [OrderEvent(c, first, ORDER_ACCEPTED, c.quantity, c.quantity)] + trades + [ClosingEvent(c, last, left)];
    assert events[1..|events| - 1] == trades;
    forall k | 0 < k < |events| - 1
      ensures Trade(events[k], c, Sum(Sizes(events[1..k + 1])))
    {
      assert NthTrade(c, list, c.quantity, event, trade, trades, k - 1);
      assert events[1..k + 1] == trades[..(k - 1) + 1];
      assert events[k] == trades[k - 1] && trades[k - 1] in trades;
    }
    var closing := events[|events| - 1];
    assert closing == ClosingEvent(c, last, left);
    assert Closing(closing, c, Sum(Sizes(trades)));
    assert trades == [] <==> |events| == 2;
  }

  lemma {:induction false} WalkWithinLimit(s: Side, c: Command, list: seq<Resting>, left: i64, event: u64, trade: u64)
    requires left >= 0 && Positive(list) && DecodeSide(c.side) == Some(s)
    ensures forall e | e in Walk(s, c, list, left, event, trade).trades :: WithinLimit(e.price, c)
    decreases |list|
  {
    hide Add64;
    if !(left == 0 || list == [] || !Crosses(s, c.price, list[0].price)) && list[0].remaining <= left {
      WalkWithinLimit(s, c, list[1..], left - list[0].remaining, Add64(event, 1), Add64(trade, 1));
    }
  }

  lemma WalkLeft(s: Side, c: Command, list: seq<Resting>, left: i64, event: u64, trade: u64)
    requires left >= 0 && Positive(list)
    ensures var f := Walk(s, c, list, left, event, trade);
      f.left == left - Sum(Sizes(f.trades)) && forall e | e in f.trades :: e.quantity > 0
  {
    WalkIsGreedy(s, c, list, left, event, trade);
    var f := Walk(s, c, list, left, event, trade);
    assert forall i | 0 <= i < |f.trades| :: Sizes(f.trades)[i] == f.trades[i].quantity;
  }

  lemma RejectionIs(c: Command, sequence: u64, reason: u16)
    requires reason != NO_REASON
    ensures Rejection(RejectionEvent(c, sequence, reason), c)
  {
  }

  lemma CancellationIs(b: Book, c: Command)
    requires Find(b.Orders(), c.orderId).Some?
    ensures Cancellation(b, CancelEvent(c, b.nextEvent, Find(b.Orders(), c.orderId).value), c)
  {
    hide Find;
    var r := Find(b.Orders(), c.orderId).value;
    assert r in b.Orders() && r.orderId == c.orderId;
  }

  /** The events of one command follow the grammar. */
  lemma StepGrammar(b: Book, c: Command)
    requires Ok(b)
    ensures Grammar(b, c, Step(b, c).events)
  {
    if c.commandType == NEW_ORDER {
      NewGrammar(b, c);
    } else if c.commandType == CANCEL_ORDER {
      CancelGrammar(b, c);
    } else if c.commandType == REPLACE_ORDER {
      ReplaceGrammar(b, c);
    } else {
      RejectionIs(c, b.nextEvent, UNSUPPORTED_COMMAND);
    }
  }

  lemma NewGrammar(b: Book, c: Command)
    requires Ok(b) && c.commandType == NEW_ORDER
    ensures Grammar(b, c, ApplyNew(b, c).events)
  {
    hide Ok, ApplyNew, OrderLife, Rejection, ValidateNew;
    UnfoldNew(b, c);
    if ValidateNew(b, c) == NO_REASON {
      NewLife(b, c);
    } else {
      RejectionIs(c, b.nextEvent, ValidateNew(b, c));
    }
  }

  lemma CancelGrammar(b: Book, c: Command)
    requires c.commandType == CANCEL_ORDER
    ensures Grammar(b, c, ApplyCancel(b, c).events)
  {
    hide Find, Rejection, Cancellation, Remove, OrderLife;
    if ValidateCancel(b, c) == NO_REASON {
      CancellationIs(b, c);
    } else {
      RejectionIs(c, b.nextEvent, ValidateCancel(b, c));
    }
  }

  lemma ReplaceGrammar(b: Book, c: Command)
    requires Ok(b) && c.commandType == REPLACE_ORDER
    ensures Grammar(b, c, ApplyReplace(b, c).events)
  {
    hide Ok, Find, ApplyNew, Rejection, Cancellation, Remove, OrderLife, ValidateNew;
    if ValidateReplace(b, c) == NO_REASON {
      var r := Find(b.Orders(), c.orderId).value;
      var cancelled := CancelResting(b, c, r);
      CancellationIs(b, c);
      ReplacementPasses(b, c);
      NewLife(cancelled.book, Replacement(c));
      var events := ApplyReplace(b, c).events;
      assert events == [CancelEvent(c, b.nextEvent, r)] + ApplyNew(cancelled.book, Replacement(c)).events;
      assert events[1..] == ApplyNew(cancelled.book, Replacement(c)).events;
    } else {
      RejectionIs(c, b.nextEvent, ValidateReplace(b, c));
    }
  }

  /** After the cancel half of a valid replace, the new order half is never rejected. */
  lemma ReplacementPasses(b: Book, c: Command)
    requires Ok(b) && ValidateReplace(b, c) == NO_REASON
    ensures var cancelled := CancelResting(b, c, Find(b.Orders(), c.orderId).value);
      Ok(cancelled.book) && ValidateNew(cancelled.book, Replacement(c)) == NO_REASON
  {
    WithoutOk(b, c.orderId);
  }

  lemma NewNumbered(b: Book, c: Command)
    requires Ok(b)
    ensures var o := ApplyNew(b, c);
      && o.events != []
      && Numbered(o.events, b.nextEvent, b.nextTrade)
      && o.book.nextEvent == Add64(b.nextEvent, |o.events|)
      && o.book.nextTrade == Add64(b.nextTrade, TradeCount(o.events))
  {
    hide Add64, Numbered;
    Add64Add(b.nextTrade, 0, 0);
    if ValidateNew(b, c) != NO_REASON {
      OneNumbered(RejectionEvent(c, b.nextEvent, ValidateNew(b, c)), b.nextEvent, b.nextTrade);
    } else {
      AcceptedNumbered(b, c);
    }
  }

  lemma AcceptedNumbered(b: Book, c: Command)
    requires Ok(b) && ValidateNew(b, c) == NO_REASON
    ensures var o := ApplyNew(b, c);
      && Numbered(o.events, b.nextEvent, b.nextTrade)
      && o.book.nextEvent == Add64(b.nextEvent, |o.events|)
      && o.book.nextTrade == Add64(b.nextTrade, TradeCount(o.events))
  {
    hide Add64, Numbered, Walk, TradeCount, Ok, Place, ClosingEvent;
    var s := DecodeSide(c.side).value;
    var list := b.Opposite(s);
    assert forall r | r in list :: r in b.Orders();
    var f := Walk(s, c, list, c.quantity, Add64(b.nextEvent, 1), b.nextTrade);
    WalkBounds(s, c, list, c.quantity, Add64(b.nextEvent, 1), b.nextTrade);
    WalkNumbered(s, c, list, c.quantity, Add64(b.nextEvent, 1), b.nextTrade);
    var first := OrderEvent(c, b.nextEvent, ORDER_ACCEPTED, c.quantity, c.quantity);
    var last := ClosingEvent(c, Add64(b.nextEvent, 1 + |f.trades|), f.left);
    ClosingShape(c, Add64(b.nextEvent, 1 + |f.trades|), f.left);
    Envelope(first, f.trades, last, b.nextEvent, b.nextTrade);
  }

  lemma ClosingShape(c: Command, sequence: u64, left: i64)
    requires 0 <= left <= c.quantity
    ensures var e := ClosingEvent(c, sequence, left);
      e.eventSequence == sequence && e.eventType != TRADE_EXECUTED && e.tradeId == 0
  {
  }

  /** Numbered trades between two numbered events. */
  lemma Envelope(first: Event, trades: seq<Event>, last: Event, event: u64, trade: u64)
    requires first.eventSequence == event && first.eventType != TRADE_EXECUTED && first.tradeId == 0
    requires last.eventSequence == Add64(event, 1 + |trades|) && last.eventType != TRADE_EXECUTED && last.tradeId == 0
    requires Numbered(trades, Add64(event, 1), trade) && TradeCount(trades) == |trades|
    ensures var events := [first] + trades + [last];
      && Numbered(events, event, trade) && TradeCount(events) == |trades|
      && Add64(last.eventSequence, 1) == Add64(event, |events|)
  {
    hide Add64, Numbered, TradeCount;
    OneNumbered(first, event, trade);
    OneNumbered(last, last.eventSequence, Add64(trade, |trades|));
    Add64Add(trade, 0, 0);
    NumberedConcat([first], trades, event, trade);
    TradeCountConcat([first], trades);
    NumberedConcat([first] + trades, [last], event, trade);
    TradeCountConcat([first] + trades, [last]);
    Add64Add(event, 1 + |trades|, 1);
  }

  /** One command numbers its events and trades from where the book stood, and leaves the book where they end. */
  lemma StepNumbered(b: Book, c: Command)
    requires Ok(b)
    ensures var o := Step(b, c);
      && o.events != []
      && Numbered(o.events, b.nextEvent, b.nextTrade)
      && o.book.nextEvent == Add64(b.nextEvent, |o.events|)
      && o.book.nextTrade == Add64(b.nextTrade, TradeCount(o.events))
  {
    hide Add64, Numbered, ApplyNew, Ok, TradeCount, Remove;
    Add64Add(b.nextTrade, 0, 0);
    var o := Step(b, c);
    if c.commandType == NEW_ORDER {
      NewNumbered(b, c);
    } else if c.commandType == REPLACE_ORDER && ValidateReplace(b, c) == NO_REASON {
      var cancelled := CancelResting(b, c, Find(b.Orders(), c.orderId).value);
      ReplacementPasses(b, c);
      NewNumbered(cancelled.book, Replacement(c));
      var submitted := ApplyNew(cancelled.book, Replacement(c));
      OneNumbered(cancelled.events[0], b.nextEvent, b.nextTrade);
      NumberedConcat(cancelled.events, submitted.events, b.nextEvent, b.nextTrade);
      TradeCountConcat(cancelled.events, submitted.events);
      Add64Add(b.nextEvent, 1, |submitted.events|);
    } else {
      OneNumbered(o.events[0], b.nextEvent, b.nextTrade);
    }
  }

  /** Over a whole run, event sequences are gap-free from the first and trade ids are 1, 2, 3, ... */
  lemma {:induction false} RunNumbered(b: Book, commands: seq<Command>)
    requires Ok(b)
    ensures var o := Run(b, commands);
      && |o.events| >= |commands|
      && Numbered(o.events, b.nextEvent, b.nextTrade)
      && o.book.nextEvent == Add64(b.nextEvent, |o.events|)
      && o.book.nextTrade == Add64(b.nextTrade, TradeCount(o.events))
  {
    hide Add64, Numbered, Step;
    if commands == [] {
      Add64Add(b.nextEvent, 0, 0);
      Add64Add(b.nextTrade, 0, 0);
      NoneNumbered(b.nextEvent, b.nextTrade);
    } else {
      var n := |commands| - 1;
      RunNumbered(b, commands[..n]);
      var before := Run(b, commands[..n]);
      var last := Step(before.book, commands[n]);
      StepNumbered(before.book, commands[n]);
      NumberedConcat(before.events, last.events, b.nextEvent, b.nextTrade);
      TradeCountConcat(before.events, last.events);
      Add64Add(b.nextEvent, |before.events|, |last.events|);
      Add64Add(b.nextTrade, TradeCount(before.events), TradeCount(last.events));
    }
  }

  /** From an empty book the first event has the given sequence and the first trade the id 1. */
  lemma FreshNumbered(first: u64, commands: seq<Command>)
    ensures Ok(Fresh(first)) && Numbered(Run(Fresh(first), commands).events, first, 1)
  {
    hide Numbered, Run;
    FreshOk(first);
    RunNumbered(Fresh(first), commands);
  }

  lemma FreshOk(first: u64)
    ensures Ok(Fresh(first)) && Fresh(first).nextEvent == first && Fresh(first).nextTrade == 1
  {
  }

  lemma NoneNumbered(event: u64, trade: u64)
    ensures Numbered([], event, trade)
  {
  }
}
