/** When commands are taken and why they are refused, in the order of the checks, and what a taken order leaves behind. */
module CommandLaws {
  import opened Domain
  import opened BookModel
  import opened BookInvariant
  import opened Matching
  import opened EventGrammar

  datatype Check = Check(failed: bool, reason: u16)

  /** The reason of the first check that fails, or 0. */
  function FirstFailing(checks: seq<Check>): u16 {
    if checks == [] then 0
    else if checks[0].failed then checks[0].reason
    else FirstFailing(checks[1..])
  }

  /** An order with this id rests in the book. */
  ghost predicate InBook(b: Book, id: u64) {
    exists r :: r in b.Orders() && r.orderId == id
  }

  /** ... and trades another instrument. */
  ghost predicate OtherInstrument(b: Book, id: u64, instrument: u32) {
    exists r :: r in b.Orders() && r.orderId == id && r.instrument != instrument
  }

  /** The rejection reason a command deserves, by its wire code; 0 when it is to be carried out. */
  ghost function Verdict(b: Book, c: Command): u16 {
    var badSide := c.side != 1 && c.side != 2;
    if c.commandType == 1 then
      FirstFailing([
        Check(badSide, 2),
        Check(c.price <= 0, 3),
        Check(c.quantity <= 0, 4),
        Check(InBook(b, c.orderId), 5),
        Check(b.instrument.Some? && b.instrument.value != c.instrument, 8),
        Check(c.timeInForce != 1, 6)])
    else if c.commandType == 2 then
      FirstFailing([
        Check(!InBook(b, c.orderId), 7),
        Check(OtherInstrument(b, c.orderId, c.instrument), 8)])
    else if c.commandType == 3 then
      FirstFailing([
        Check(!InBook(b, c.orderId), 7),
        Check(OtherInstrument(b, c.orderId, c.instrument), 8),
        Check(c.replacementOrderId == 0 || c.replacementOrderId == c.orderId, 10),
        Check(InBook(b, c.replacementOrderId), 9),
        Check(badSide, 2),
        Check(c.price <= 0, 3),
        Check(c.quantity <= 0, 4),
        Check(c.timeInForce != 1, 6)])
    else 1
  }

  lemma FirstOfMore(check: Check, more: seq<Check>)
    ensures FirstFailing([check] + more) == if check.failed then check.reason else FirstFailing(more)
  {
    assert ([check] + more)[1..] == more;
  }

  lemma FirstOfTwo(a: Check, b: Check)
    ensures FirstFailing([a, b]) == if a.failed then a.reason else if b.failed then b.reason else 0
  {
    FirstOfMore(a, [b]);
    FirstOfMore(b, []);
    assert [a] + [b] == [a, b] && [b] + [] == [b];
  }

  lemma FirstOfSix(a: Check, b: Check, c: Check, d: Check, e: Check, f: Check)
    ensures FirstFailing([a, b, c, d, e, f]) ==
      if a.failed then a.reason else if b.failed then b.reason else if c.failed then c.reason
      else if d.failed then d.reason else if e.failed then e.reason else if f.failed then f.reason else 0
  {
    hide FirstFailing;
    FirstOfMore(a, [b, c, d, e, f]);
    FirstOfMore(b, [c, d, e, f]);
    FirstOfMore(c, [d, e, f]);
    FirstOfMore(d, [e, f]);
    FirstOfTwo(e, f);
    assert [a] + [b, c, d, e, f] == [a, b, c, d, e, f] && [b] + [c, d, e, f] == [b, c, d, e, f];
    assert [c] + [d, e, f] == [c, d, e, f] && [d] + [e, f] == [d, e, f];
  }

  lemma InBookFound(b: Book, id: u64)
    ensures InBook(b, id) <==> Find(b.Orders(), id).Some?
    ensures InBook(b, id) <==> id in Ids(b.Orders())
  {
  }

  /** An id rests at most once, so the order found is the one in question. */
  lemma OtherFound(b: Book, id: u64, instrument: u32)
    requires Ok(b) && Find(b.Orders(), id).Some?
    ensures OtherInstrument(b, id, instrument) <==> Find(b.Orders(), id).value.instrument != instrument
  {
    WithoutOk(b, id);
    var found := Find(b.Orders(), id).value;
    assert forall r | r in b.Orders() && r.orderId == id :: r.instrument == found.instrument;
  }

  lemma NewVerdict(b: Book, c: Command)
    requires c.commandType == NEW_ORDER
    ensures ValidateNew(b, c) == Verdict(b, c)
  {
    hide Find, Ids, InBook, FirstFailing;
    InBookFound(b, c.orderId);
    FirstOfSix(Check(c.side != 1 && c.side != 2, 2), Check(c.price <= 0, 3), Check(c.quantity <= 0, 4),
               Check(InBook(b, c.orderId), 5),
               Check(b.instrument.Some? && b.instrument.value != c.instrument, 8),
               Check(c.timeInForce != 1, 6));
  }

  lemma CancelVerdict(b: Book, c: Command)
    requires Ok(b) && c.commandType == CANCEL_ORDER
    ensures ValidateCancel(b, c) == Verdict(b, c)
  {
    hide Ok, Find, Ids, InBook, OtherInstrument, FirstFailing;
    InBookFound(b, c.orderId);
    if Find(b.Orders(), c.orderId).Some? {
      OtherFound(b, c.orderId, c.instrument);
    }
    FirstOfTwo(Check(!InBook(b, c.orderId), 7), Check(OtherInstrument(b, c.orderId, c.instrument), 8));
  }

  lemma ReplaceVerdict(b: Book, c: Command)
    requires Ok(b) && c.commandType == REPLACE_ORDER
    ensures ValidateReplace(b, c) == Verdict(b, c)
  {
    hide Ok, Find, Ids, InBook, OtherInstrument, FirstFailing;
    InBookFound(b, c.orderId);
    InBookFound(b, c.replacementOrderId);
    if Find(b.Orders(), c.orderId).Some? {
      OtherFound(b, c.orderId, c.instrument);
    }
    var unknown := Check(!InBook(b, c.orderId), 7);
    var other := Check(OtherInstrument(b, c.orderId, c.instrument), 8);
    var same := Check(c.replacementOrderId == 0 || c.replacementOrderId == c.orderId, 10);
    var taken := Check(InBook(b, c.replacementOrderId), 9);
    var side, price, quantity := Check(c.side != 1 && c.side != 2, 2), Check(c.price <= 0, 3), Check(c.quantity <= 0, 4);
    var force := Check(c.timeInForce != 1, 6);
    FirstOfSix(same, taken, side, price, quantity, force);
    FirstOfMore(other, [same, taken, side, price, quantity, force]);
    FirstOfMore(unknown, [other, same, taken, side, price, quantity, force]);
    assert [other] + [same, taken, side, price, quantity, force] == [other, same, taken, side, price, quantity, force];
    assert [unknown] + [other, same, taken, side, price, quantity, force]
      == [unknown, other, same, taken, side, price, quantity, force];
  }

  /**
   A command is carried out if and only if no check fails. Otherwise it emits one rejection with the
   reason of the first check that fails, and only the event counter of the book moves.
   */
  lemma StepVerdict(b: Book, c: Command)
    requires Ok(b)
    ensures var o := Step(b, c);
      if Verdict(b, c) == 0 then
        && o.events != [] && o.events[0].eventType == (if c.commandType == 1 then 1 else 7)
        && forall e | e in o.events :: e.eventType != 2
      else
        && |o.events| == 1 && o.events[0].eventType == 2 && o.events[0].rejectionReason == Verdict(b, c)
        && o.book == b.(nextEvent := Add64(b.nextEvent, 1))
  {
    hide Ok, Verdict, ApplyNew, ValidateNew, ValidateCancel, ValidateReplace, Find, Remove, OrderLife;
    if c.commandType == NEW_ORDER {
      NewVerdict(b, c);
      UnfoldNew(b, c);
      if ValidateNew(b, c) == NO_REASON {
        NewLife(b, c);
        LifeTypes(c, ApplyNew(b, c).events);
      }
    } else if c.commandType == CANCEL_ORDER {
      CancelVerdict(b, c);
    } else if c.commandType == REPLACE_ORDER {
      ReplaceVerdict(b, c);
      if ValidateReplace(b, c) == NO_REASON {
        FoundToReplace(b, c);
        var cancelled := CancelResting(b, c, Find(b.Orders(), c.orderId).value);
        ReplacementPasses(b, c);
        NewLife(cancelled.book, Replacement(c));
        LifeTypes(Replacement(c), ApplyNew(cancelled.book, Replacement(c)).events);
      }
    } else {
      UnknownVerdict(b, c);
    }
  }

  lemma FoundToReplace(b: Book, c: Command)
    requires ValidateReplace(b, c) == NO_REASON
    ensures Find(b.Orders(), c.orderId).Some?
  {
  }

  lemma LifeTypes(c: Command, events: seq<Event>)
    requires OrderLife(c, events)
    ensures events[0].eventType == 1 && forall e | e in events :: e.eventType != 2
  {
    forall k | 0 <= k < |events|
      ensures events[k].eventType != 2
    {
    }
  }

  lemma UnknownVerdict(b: Book, c: Command)
    requires c.commandType != 1 && c.commandType != 2 && c.commandType != 3
    ensures Verdict(b, c) == 1
  {
  }

  /** An order with the command's own terms and `open` lots rests in the book. */
  ghost predicate Lies(b: Book, c: Command, open: i64) {
    exists r :: r in b.Orders()
      && r.orderId == c.orderId && r.clientId == c.clientId && r.instrument == c.instrument
      && r.side == c.side && r.price == c.price && r.remaining == open
  }

  /**
   What an accepted order leaves: when lots stay open the order rests with exactly the command's own
   terms and those lots, otherwise its id is not in the book; the book is bound to its instrument.
   */
  lemma AcceptedRests(b: Book, c: Command)
    requires Ok(b) && c.commandType == 1 && Verdict(b, c) == 0
    ensures |Step(b, c).events| >= 2
    ensures var o := Step(b, c);
      var open := o.events[|o.events| - 1].remaining;
      && (open > 0 <==> InBook(o.book, c.orderId))
      && (open > 0 ==> Lies(o.book, c, open))
      && o.book.instrument == Some(c.instrument)
  {
    hide Verdict, Ok, Walk, ApplyNew, Place, Sum, Sizes, ClosingEvent;
    NewVerdict(b, c);
    UnfoldNew(b, c);
    NewLife(b, c);
    if b.instrument.Some? {
      BoundOnce(b, c);
    }
    var s := DecodeSide(c.side).value;
    var f := Matched(b, c);
    var o := ApplyNew(b, c);
    MatchedOk(b, c);
    WalkLeft(s, c, b.Opposite(s), c.quantity, Add64(b.nextEvent, 1), b.nextTrade);
    assert o.events[1..|o.events| - 1] == f.trades;
    if f.left > 0 {
      PlaceAdds(s, b.Own(s), RestingOrder(c, f.left));
      assert RestingOrder(c, f.left) in o.book.Orders();
    } else {
      InBookFound(b, c.orderId);
      StillAbsent(b, o.book, s, c.orderId);
    }
  }

  lemma BoundOnce(b: Book, c: Command)
    requires ValidateNew(b, c) == NO_REASON && b.instrument.Some?
    ensures b.instrument == Some(c.instrument)
  {
  }

  lemma StillAbsent(b: Book, after: Book, s: Side, id: u64)
    requires !InBook(b, id) && after.Own(s) == b.Own(s) && Ids(after.Opposite(s)) <= Ids(b.Opposite(s))
    ensures !InBook(after, id)
  {
    InBookFound(b, id);
    InBookFound(after, id);
    assert Ids(b.Orders()) == Ids(b.Own(s)) + Ids(b.Opposite(s));
    assert Ids(after.Orders()) == Ids(after.Own(s)) + Ids(after.Opposite(s));
  }
}
