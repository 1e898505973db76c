/** What any fed stream tells of a projection: which events it refuses, and what each of the others does. */
module ProjectionLaws {
  import opened Domain
  import opened Projection
  import opened ProjectionAgreement

  /** The event makes sense to a projection that shows `active`; types by their wire codes. */
  predicate Acceptable(active: map<u64, OrderState>, e: Event) {
    if e.eventType == 3 then
      && e.quantity > 0 && e.contraOrderId != 0
      && e.contraOrderId in active && e.quantity <= active[e.contraOrderId].remaining
    else if e.eventType == 4 || e.eventType == 5 then
      e.remaining > 0 && (e.side == 1 || e.side == 2) && e.orderId != 0 && e.price > 0
    else if e.eventType == 7 then e.orderId in active
    else e.eventType == 1 || e.eventType == 2 || e.eventType == 6
  }

  /** The projection after the first `i` events of a stream, when none of them is refused. */
  ghost predicate Taken(p: Projected, events: seq<Event>, i: nat)
    requires i < |events|
  {
    && Feed(p, events[..i]).Some?
    && events[i].eventSequence == Add64(p.last, i + 1)
    && Acceptable(Feed(p, events[..i]).value.active, events[i])
  }

  /**
   A projection takes a stream if and only if its sequences go on from the last one without a gap, and
   every event makes sense when it comes: no unknown type, no trade with an order that is not shown or
   for more than it has left, no cancel of an order that is not shown, no order resting without id, side,
   price or quantity. The last sequence taken is that of the last event.
   */
  lemma {:induction false} FedExactly(p: Projected, events: seq<Event>)
    ensures Feed(p, events).Some? <==> forall i: nat | i < |events| :: Taken(p, events, i)
    ensures Feed(p, events).Some? ==> Feed(p, events).value.last == Add64(p.last, |events|)
  {
    hide Project, Add64, Feed, Acceptable;
    FeedNone(p);
    Add64Add(p.last, 0, 0);
    if events != [] {
      var n := |events| - 1;
      FedExactly(p, events[..n]);
      FeedConcat(p, events[..n], [events[n]]);
      assert events == events[..n] + [events[n]];
      TakenPrefix(p, events, n);
      if Feed(p, events[..n]).Some? {
        var before := Feed(p, events[..n]).value;
        FeedOne(before, events[n]);
        ProjectTakes(before, events[n]);
        Add64Add(p.last, n, 1);
      }
    }
  }

  lemma TakenPrefix(p: Projected, events: seq<Event>, n: nat)
    requires n + 1 == |events|
    ensures (forall i: nat | i < |events| :: Taken(p, events, i))
      <==> (forall i: nat | i < n :: Taken(p, events[..n], i)) && Taken(p, events, n)
  {
    hide Feed, Acceptable;
    forall i: nat | i < n
      ensures Taken(p, events[..n], i) <==> Taken(p, events, i)
    {
      assert events[..n][..i] == events[..i];
    }
  }

  lemma ProjectTakes(p: Projected, e: Event)
    ensures Project(p, e).status != Rejected <==> e.eventSequence == Add64(p.last, 1) && Acceptable(p.active, e)
    ensures Project(p, e).status != Rejected ==> Project(p, e).state.last == e.eventSequence
    ensures Project(p, e).status == Rejected ==> Project(p, e).state == p
  {
    hide Add64;
  }

  /** The order an event may change. */
  function Touched(e: Event): u64 {
    if e.eventType == 3 then e.contraOrderId else e.orderId
  }

  /** What a taken event does to the order it touches. */
  ghost predicate Changed(before: map<u64, OrderState>, after: map<u64, OrderState>, e: Event) {
    var id := Touched(e);
    if e.eventType == 4 || e.eventType == 5 then
      && id in after && after[id].instrument == e.instrument && after[id].side == e.side
      && after[id].price == e.price && after[id].remaining == e.remaining
    else if e.eventType == 3 then
      && id in before
      && if before[id].remaining == e.quantity then id !in after
         else
           && id in after && after[id].remaining == before[id].remaining - e.quantity
           && after[id].instrument == before[id].instrument && after[id].side == before[id].side
           && after[id].price == before[id].price
    else if e.eventType == 6 || e.eventType == 7 then id !in after
    else (id in after <==> id in before) && (id in after ==> after[id] == before[id])
  }

  /** The trade of the tape repeats the event field by field. */
  ghost predicate Taped(t: PublicTrade, e: Event) {
    && t.tradeId == e.tradeId && t.instrument == e.instrument
    && t.incomingOrderId == e.orderId && t.restingOrderId == e.contraOrderId
    && t.aggressorSide == e.side && t.price == e.price && t.quantity == e.quantity
  }

  /** A taken event changes the one order it touches and no other; a trade, and nothing else, lengthens the tape by itself. */
  lemma TakenEffect(p: Projected, e: Event)
    requires Project(p, e).status != Rejected
    ensures var after := Project(p, e).state;
      && Changed(p.active, after.active, e)
      && (forall id | id != Touched(e) ::
            (id in after.active <==> id in p.active) && (id in after.active ==> after.active[id] == p.active[id]))
      && (if e.eventType == 3 then
            && |after.trades| == |p.trades| + 1 && after.trades[..|p.trades|] == p.trades
            && Taped(after.trades[|p.trades|], e)
          else after.trades == p.trades)
    ensures Project(p, e).status == Ignored
      <==> e.eventType == 1 || e.eventType == 2 || (e.eventType == 6 && e.orderId !in p.active)
  {
    hide Add64;
  }
}
