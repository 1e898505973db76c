/** A replace is all or nothing, and a valid one is a cancel followed by a new order. */
module ReplaceLaw {
  import opened Domain
  import opened BookModel
  import opened BookInvariant
  import opened EventGrammar

  function AsCancel(c: Command): Command {
    c.(commandType := CANCEL_ORDER)
  }

  function AsNew(c: Command): Command {
    c.(commandType := NEW_ORDER, orderId := c.replacementOrderId)
  }

  /** The whole effect of a replace, told by its validation alone. */
  lemma ReplaceIsCancelThenNew(b: Book, c: Command)
    requires Ok(b) && c.commandType == REPLACE_ORDER
    ensures ValidateReplace(b, c) == NO_REASON ==>
      && ValidateCancel(b, AsCancel(c)) == NO_REASON
      && var cancelled := Step(b, AsCancel(c));
         && Ok(cancelled.book)
         && ValidateNew(cancelled.book, AsNew(c)) == NO_REASON
         && var submitted := Step(cancelled.book, AsNew(c));
            Step(b, c) == Outcome(submitted.book, cancelled.events + submitted.events)
    ensures ValidateReplace(b, c) != NO_REASON ==>
      && Step(b, c).book == b.(nextEvent := Add64(b.nextEvent, 1))
      && |Step(b, c).events| == 1 && Step(b, c).events[0].eventType == ORDER_REJECTED
      && Step(b, c).events[0].rejectionReason == ValidateReplace(b, c)
    ensures (exists e :: e in Step(b, c).events && e.eventType == ORDER_REJECTED) <==> ValidateReplace(b, c) != NO_REASON
  {
    if ValidateReplace(b, c) == NO_REASON {
      WithoutOk(b, c.orderId);
      ReplacementPasses(b, c);
      StepGrammar(b, c);
      LifeWithoutRejection(Replacement(c), Step(b, c).events[1..]);
      assert Step(b, c).events == Step(b, c).events[..1] + Step(b, c).events[1..];
    }
  }

  lemma LifeWithoutRejection(c: Command, events: seq<Event>)
    requires OrderLife(c, events)
    ensures forall e | e in events :: e.eventType != ORDER_REJECTED
  {
    forall k | 0 <= k < |events|
      ensures events[k].eventType != ORDER_REJECTED
    {
    }
  }
}
