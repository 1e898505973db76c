/**
 The meaning of the order book, on values. Each side is one list of resting orders in priority
 order (best price first, first come first served within a price); the class `OrderBook.OrderBook`
 keeps price levels, queues and an index instead, and is proved to do exactly this.
 */
module BookModel {
  import opened Domain

  datatype Side = Buy | Sell

  datatype Resting = Resting(
    orderId: u64,
    clientId: u64,
    instrument: u32,
    side: u16,
    price: i64,
    remaining: i64)

  datatype Book = Book(
    instrument: Option<u32>,
    nextEvent: u64,
    nextTrade: u64,
    bids: seq<Resting>,
    asks: seq<Resting>)
  {
    function Orders(): seq<Resting> {
      bids + asks
    }

    /** The list an incoming order on side `s` trades against. */
    function Opposite(s: Side): seq<Resting> {
      if s.Buy? then asks else bids
    }

    function WithOpposite(s: Side, list: seq<Resting>): Book {
      if s.Buy? then this.(asks := list) else this.(bids := list)
    }

    /** The list an order on side `s` rests in. */
    function Own(s: Side): seq<Resting> {
      if s.Buy? then bids else asks
    }

    function WithOwn(s: Side, list: seq<Resting>): Book {
      if s.Buy? then this.(bids := list) else this.(asks := list)
    }
  }

  /** What the diagnostics of a replay show of a book: how many orders rest, and the best prices or 0. */
  datatype Snapshot = Snapshot(activeOrders: nat, bestBid: i64, bestAsk: i64)

  function SnapshotOf(b: Book): Snapshot {
    Snapshot(|b.Orders()|, if b.bids == [] then 0 else b.bids[0].price, if b.asks == [] then 0 else b.asks[0].price)
  }

  /** What one command does: the book it leaves and the events it emits. */
  datatype Outcome = Outcome(book: Book, events: seq<Event>)

  function Fresh(firstEvent: u64): Book {
    Book(None, firstEvent, 1, [], [])
  }

  function DecodeSide(code: u16): Option<Side> {
    if code == BUY then Some(Buy) else if code == SELL then Some(Sell) else None
  }

  function Code(s: Side): u16 {
    if s.Buy? then BUY else SELL
  }

  /** Price `p` has strictly higher priority than `q` among orders resting on side `s`. */
  predicate Better(s: Side, p: i64, q: i64) {
    if s.Buy? then p > q else p < q
  }

  /** An incoming order on side `s` limited to `limit` may trade at the resting price `p`. */
  predicate Crosses(s: Side, limit: i64, p: i64) {
    if s.Buy? then p <= limit else p >= limit
  }

  function Ids(list: seq<Resting>): set<u64> {
    set r | r in list :: r.orderId
  }

  function Find(list: seq<Resting>, id: u64): (r: Option<Resting>)
    ensures r.Some? ==> r.value in list && r.value.orderId == id
    ensures r.None? ==> id !in Ids(list)
  {
    if list == [] then None
    else if list[0].orderId == id then Some(list[0])
    else Find(list[1..], id)
  }

  /** `list` without the first order that carries `id`. */
  function Remove(list: seq<Resting>, id: u64): seq<Resting> {
    if list == [] then []
    else if list[0].orderId == id then list[1..]
    else [list[0]] + Remove(list[1..], id)
  }

  /** `list` with `r` behind every order of the same or a better price. */
  function Place(s: Side, list: seq<Resting>, r: Resting): seq<Resting> {
    if list == [] || Better(s, r.price, list[0].price) then [r] + list
    else [list[0]] + Place(s, list[1..], r)
  }

  // Events

  function OrderEvent(c: Command, sequence: u64, kind: u16, quantity: i64, remaining: i64): Event {
    Event(sequence, c.commandSequence, c.ingressEpoch, c.ingressSequence, c.orderId, 0, 0,
          c.price, quantity, remaining, c.instrument, kind, c.side, NO_REASON, 0)
  }

  function TradeEvent(c: Command, sequence: u64, trade: u64, r: Resting, quantity: i64, left: i64): Event {
    OrderEvent(c, sequence, TRADE_EXECUTED, quantity, left)
      .(contraOrderId := r.orderId, tradeId := trade, price := r.price)
  }

  function RejectionEvent(c: Command, sequence: u64, reason: u16): Event {
    OrderEvent(c, sequence, ORDER_REJECTED, 0, 0).(rejectionReason := reason)
  }

  function CancelEvent(c: Command, sequence: u64, r: Resting): Event {
    OrderEvent(c, sequence, ORDER_CANCELLED, 0, r.remaining)
      .(price := r.price, side := r.side, instrument := r.instrument)
  }

  // Matching

  /** A walk over the opposite side: the trades, the orders left resting, the quantity left to fill. */
  datatype Fill = Fill(trades: seq<Event>, rest: seq<Resting>, left: i64)

  predicate Positive(list: seq<Resting>) {
    forall r | r in list :: r.remaining > 0
  }

  /** Matches `left` lots of `c`, an order on side `s`, against `list`, best order first. */
  function Walk(s: Side, c: Command, list: seq<Resting>, left: i64, event: u64, trade: u64): Fill
    requires left >= 0 && Positive(list)
    decreases |list|
  {
    if left == 0 || list == [] || !Crosses(s, c.price, list[0].price) then
      Fill([], list, left)
    else
      var r := list[0];
      if r.remaining <= left then
        var f := Walk(s, c, list[1..], left - r.remaining, Add64(event, 1), Add64(trade, 1));
        Fill([TradeEvent(c, event, trade, r, r.remaining, left - r.remaining)] + f.trades, f.rest, f.left)
      else
        Fill([TradeEvent(c, event, trade, r, left, 0)],
             [r.(remaining := r.remaining - left)] + list[1..], 0)
  }

  // Commands

  function ValidateNew(b: Book, c: Command): u16 {
    if c.commandType != NEW_ORDER then UNSUPPORTED_COMMAND
    else if DecodeSide(c.side).None? then INVALID_SIDE
    else if c.price <= 0 then INVALID_PRICE
    else if c.quantity <= 0 then INVALID_QUANTITY
    else if c.orderId in Ids(b.Orders()) then DUPLICATE_ORDER_ID
    else if b.instrument.Some? && c.instrument != b.instrument.value then INSTRUMENT_MISMATCH
    else if c.timeInForce != GTC then UNSUPPORTED_TIME_IN_FORCE
    else NO_REASON
  }

  function ValidateCancel(b: Book, c: Command): u16 {
    if c.commandType != CANCEL_ORDER then UNSUPPORTED_COMMAND
    else
      var found := Find(b.Orders(), c.orderId);
      if found.None? then UNKNOWN_ORDER_ID
      else if found.value.instrument != c.instrument then INSTRUMENT_MISMATCH
      else NO_REASON
  }

  function ValidateReplace(b: Book, c: Command): u16 {
    if c.commandType != REPLACE_ORDER then UNSUPPORTED_COMMAND
    else
      var found := Find(b.Orders(), c.orderId);
      if found.None? then UNKNOWN_ORDER_ID
      else if found.value.instrument != c.instrument then INSTRUMENT_MISMATCH
      else if c.replacementOrderId == 0 || c.replacementOrderId == c.orderId then INVALID_REPLACEMENT_ORDER_ID
      else if c.replacementOrderId in Ids(b.Orders()) then REPLACE_WOULD_DUPLICATE_ORDER_ID
      else if DecodeSide(c.side).None? then INVALID_SIDE
      else if c.price <= 0 then INVALID_PRICE
      else if c.quantity <= 0 then INVALID_QUANTITY
      else if c.timeInForce != GTC then UNSUPPORTED_TIME_IN_FORCE
      else NO_REASON
  }

  function Reject(b: Book, c: Command, reason: u16): Outcome {
    Outcome(b.(nextEvent := Add64(b.nextEvent, 1)), [RejectionEvent(c, b.nextEvent, reason)])
  }

  function RestingOrder(c: Command, remaining: i64): Resting {
    Resting(c.orderId, c.clientId, c.instrument, c.side, c.price, remaining)
  }

  /** The walk of an accepted new order; its trades follow the acceptance event. */
  function Matched(b: Book, c: Command): Fill
    requires ValidateNew(b, c) == NO_REASON && Positive(b.Orders())
  {
    var s := DecodeSide(c.side).value;
    assert forall r | r in b.Opposite(s) :: r in b.Orders();
    Walk(s, c, b.Opposite(s), c.quantity, Add64(b.nextEvent, 1), b.nextTrade)
  }

  /** The event that closes an accepted new order. */
  function ClosingEvent(c: Command, sequence: u64, left: i64): Event
    requires 0 <= left <= c.quantity
  {
    if left == 0 then OrderEvent(c, sequence, ORDER_FULLY_FILLED, c.quantity, 0)
    else if left == c.quantity then OrderEvent(c, sequence, ORDER_RESTED, 0, left)
    else OrderEvent(c, sequence, ORDER_PARTIALLY_FILLED, c.quantity - left, left)
  }

  function ApplyNew(b: Book, c: Command): Outcome
    requires Positive(b.Orders())
  {
    var reason := ValidateNew(b, c);
    if reason != NO_REASON then Reject(b, c, reason)
    else
      var s := DecodeSide(c.side).value;
      var f := Matched(b, c);
      WalkBounds(s, c, b.Opposite(s), c.quantity, Add64(b.nextEvent, 1), b.nextTrade);
      var last := Add64(b.nextEvent, 1 + |f.trades|);
      var bound := if b.instrument.Some? then b.instrument else Some(c.instrument);
      var b1 := b.(instrument := bound, nextEvent := Add64(last, 1), nextTrade := Add64(b.nextTrade, |f.trades|))
                 .WithOpposite(s, f.rest);
      var b2 := if f.left == 0 then b1 else b1.WithOwn(s, Place(s, b1.Own(s), RestingOrder(c, f.left)));
      Outcome(b2, [OrderEvent(c, b.nextEvent, ORDER_ACCEPTED, c.quantity, c.quantity)]
                  + f.trades + [ClosingEvent(c, last, f.left)])
  }

  /** Takes the resting order `r` out of the book. */
  function Without(b: Book, r: Resting): Book {
    if DecodeSide(r.side) == Some(Buy) then b.(bids := Remove(b.bids, r.orderId))
    else b.(asks := Remove(b.asks, r.orderId))
  }

  function CancelResting(b: Book, c: Command, r: Resting): Outcome {
    Outcome(Without(b, r).(nextEvent := Add64(b.nextEvent, 1)), [CancelEvent(c, b.nextEvent, r)])
  }

  function ApplyCancel(b: Book, c: Command): Outcome {
    var reason := ValidateCancel(b, c);
    if reason != NO_REASON then Reject(b, c, reason)
    else CancelResting(b, c, Find(b.Orders(), c.orderId).value)
  }

  /** The new order that a replace command submits. */
  function Replacement(c: Command): Command {
    c.(commandType := NEW_ORDER, orderId := c.replacementOrderId)
  }

  function ApplyReplace(b: Book, c: Command): Outcome
    requires Positive(b.Orders())
  {
    var reason := ValidateReplace(b, c);
    if reason != NO_REASON then Reject(b, c, reason)
    else
      var cancelled := CancelResting(b, c, Find(b.Orders(), c.orderId).value);
      RemoveSubset(b.bids, c.orderId);
      RemoveSubset(b.asks, c.orderId);
      var submitted := ApplyNew(cancelled.book, Replacement(c));
      Outcome(submitted.book, cancelled.events + submitted.events)
  }

  function Step(b: Book, c: Command): Outcome
    requires Positive(b.Orders())
  {
    if c.commandType == NEW_ORDER then ApplyNew(b, c)
    else if c.commandType == CANCEL_ORDER then ApplyCancel(b, c)
    else if c.commandType == REPLACE_ORDER then ApplyReplace(b, c)
    else Reject(b, c, UNSUPPORTED_COMMAND)
  }

  // Facts the definitions above need

  lemma {:induction false} WalkBounds(s: Side, c: Command, list: seq<Resting>, left: i64, event: u64, trade: u64)
    requires left >= 0 && Positive(list)
    ensures var f := Walk(s, c, list, left, event, trade);
      0 <= f.left <= left && (|f.trades| == 0 <==> f.left == left) && Positive(f.rest)
    decreases |list|
  {
    if !(left == 0 || list == [] || !Crosses(s, c.price, list[0].price)) && list[0].remaining <= left {
      WalkBounds(s, c, list[1..], left - list[0].remaining, Add64(event, 1), Add64(trade, 1));
    }
  }

  lemma RemoveSubset(list: seq<Resting>, id: u64)
    ensures forall r | r in Remove(list, id) :: r in list
    ensures |Remove(list, id)| <= |list|
  {
    if list != [] {
      RemoveSubset(list[1..], id);
    }
  }
}
