/** The invariant of every reachable book, and runs of commands. */
module BookInvariant {
  import opened Domain
  import opened BookModel

  /** One side: well formed orders of the bound instrument, best price first. */
  ghost predicate SideOk(s: Side, list: seq<Resting>, instrument: Option<u32>) {
    && (forall r | r in list :: OrderOk(s, r, instrument))
    && Sorted(s, list)
  }

  predicate OrderOk(s: Side, r: Resting, instrument: Option<u32>) {
    r.side == Code(s) && r.price > 0 && r.remaining > 0 && instrument == Some(r.instrument)
  }

  ghost predicate Sorted(s: Side, list: seq<Resting>) {
    forall i, j | 0 <= i < j < |list| :: !Better(s, list[j].price, list[i].price)
  }

  ghost predicate Unique(list: seq<Resting>) {
    forall i, j | 0 <= i < j < |list| :: list[i].orderId != list[j].orderId
  }

  ghost predicate Uncrossed(bids: seq<Resting>, asks: seq<Resting>) {
    forall x, y | x in bids && y in asks :: x.price < y.price
  }

  ghost predicate Ok(b: Book): (ok: bool)
    ensures ok ==> Positive(b.Orders())
  {
    && SideOk(Buy, b.bids, b.instrument)
    && SideOk(Sell, b.asks, b.instrument)
    && Unique(b.bids) && Unique(b.asks) && Ids(b.bids) !! Ids(b.asks)
    && Uncrossed(b.bids, b.asks)
  }

  /** `rest` is `list` without its first `k` orders, the head possibly reduced. */
  ghost predicate Trimmed(list: seq<Resting>, k: int, rest: seq<Resting>) {
    && 0 <= k <= |list|
    && (rest == list[k..]
        || (k < |list| && |rest| == |list| - k && rest[1..] == list[k + 1..]
            && rest[0] == list[k].(remaining := rest[0].remaining)
            && 0 < rest[0].remaining < list[k].remaining))
  }

  lemma {:induction false} WalkTrims(s: Side, c: Command, list: seq<Resting>, left: i64, event: u64, trade: u64)
    requires left >= 0 && Positive(list)
    ensures var f := Walk(s, c, list, left, event, trade);
      Trimmed(list, |list| - |f.rest|, f.rest)
      && (f.left == 0 || f.rest == [] || !Crosses(s, c.price, f.rest[0].price))
    decreases |list|
  {
    if !(left == 0 || list == [] || !Crosses(s, c.price, list[0].price)) && list[0].remaining <= left {
      WalkTrims(s, c, list[1..], left - list[0].remaining, Add64(event, 1), Add64(trade, 1));
      var f := Walk(s, c, list, left, event, trade);
      var k := |list[1..]| - |f.rest|;
      assert list[1..][k..] == list[k + 1..];
      if k < |list[1..]| {
        assert list[1..][k + 1..] == list[k + 2..];
      }
    }
  }

  /** Trimming keeps ids, prices, order and everything the invariant says of one side. */
  lemma TrimmedOk(s: Side, list: seq<Resting>, k: int, rest: seq<Resting>, instrument: Option<u32>)
    requires Trimmed(list, k, rest) && SideOk(s, list, instrument) && Unique(list)
    ensures SideOk(s, rest, instrument) && Unique(rest) && Ids(rest) <= Ids(list)
    ensures forall r | r in rest :: exists o :: o in list && o.price == r.price
  {
    forall i | 0 <= i < |rest|
      ensures rest[i] == list[k + i].(remaining := rest[i].remaining) && list[k + i] in list && rest[i].remaining > 0
    {
      if i > 0 && rest != list[k..] {
        assert rest[i] == rest[1..][i - 1];
      }
    }
  }

  /** Where `Place` puts the order: behind every order of the same or a better price, before the rest. */
  lemma {:induction false} PlaceAt(s: Side, list: seq<Resting>, r: Resting) returns (p: nat)
    requires Sorted(s, list)
    ensures p <= |list| && Place(s, list, r) == list[..p] + [r] + list[p..]
    ensures forall i | 0 <= i < p :: !Better(s, r.price, list[i].price)
    ensures forall i | p <= i < |list| :: Better(s, r.price, list[i].price)
  {
    if list == [] || Better(s, r.price, list[0].price) {
      p := 0;
    } else {
      var q := PlaceAt(s, list[1..], r);
      p := q + 1;
      assert list[..p] == [list[0]] + list[1..][..q];
      assert forall i | 0 < i < |list| :: list[i] == list[1..][i - 1];
    }
  }

  lemma PlaceAdds(s: Side, list: seq<Resting>, r: Resting)
    ensures forall o :: o in Place(s, list, r) <==> o in list || o == r
    ensures Ids(Place(s, list, r)) == Ids(list) + {r.orderId}
  {
    if list != [] && !Better(s, r.price, list[0].price) {
      PlaceAdds(s, list[1..], r);
      assert forall o :: o in list <==> o == list[0] || o in list[1..];
    }
  }

  lemma PlaceOk(s: Side, list: seq<Resting>, r: Resting, instrument: Option<u32>)
    requires SideOk(s, list, instrument) && Unique(list)
    requires OrderOk(s, r, instrument) && r.orderId !in Ids(list)
    ensures SideOk(s, Place(s, list, r), instrument) && Unique(Place(s, list, r))
    ensures forall o :: o in Place(s, list, r) <==> o in list || o == r
    ensures Ids(Place(s, list, r)) == Ids(list) + {r.orderId}
  {
    hide Place, Sorted, Unique, Better;
    var p := PlaceAt(s, list, r);
    InsertSorted(s, list, p, r);
    InsertUnique(list, p, r);
    PlaceAdds(s, list, r);
  }

  lemma InsertSorted(s: Side, list: seq<Resting>, p: nat, r: Resting)
    requires p <= |list| && Sorted(s, list)
    requires forall i | 0 <= i < p :: !Better(s, r.price, list[i].price)
    requires forall i | p <= i < |list| :: Better(s, r.price, list[i].price)
    ensures Sorted(s, list[..p] + [r] + list[p..])
  {
    var placed := list[..p] + [r] + list[p..];
    forall i, j | 0 <= i < j < |placed|
      ensures !Better(s, placed[j].price, placed[i].price)
    {
      assert placed[i] == (if i < p then list[i] else if i == p then r else list[i - 1]);
      assert placed[j] == (if j < p then list[j] else if j == p then r else list[j - 1]);
    }
  }

  lemma InsertUnique(list: seq<Resting>, p: nat, r: Resting)
    requires p <= |list| && Unique(list) && r.orderId !in Ids(list)
    ensures Unique(list[..p] + [r] + list[p..])
  {
    var placed := list[..p] + [r] + list[p..];
    forall i, j | 0 <= i < j < |placed|
      ensures placed[i].orderId != placed[j].orderId
    {
      assert placed[i] == (if i < p then list[i] else if i == p then r else list[i - 1]);
      assert placed[j] == (if j < p then list[j] else if j == p then r else list[j - 1]);
    }
  }

  /** `Remove` takes out exactly the order with the given id. */
  lemma {:induction false} RemoveAt(list: seq<Resting>, id: u64) returns (p: nat)
    requires id in Ids(list)
    ensures p < |list| && list[p].orderId == id
    ensures Remove(list, id) == list[..p] + list[p + 1..]
  {
    if list[0].orderId == id {
      p := 0;
    } else {
      var q := RemoveAt(list[1..], id);
      p := q + 1;
      assert list[..p] == [list[0]] + list[1..][..q];
      assert list[1..][q + 1..] == list[p + 1..];
    }
  }

  lemma RemoveOk(s: Side, list: seq<Resting>, id: u64, instrument: Option<u32>)
    requires id in Ids(list) && SideOk(s, list, instrument) && Unique(list)
    ensures SideOk(s, Remove(list, id), instrument) && Unique(Remove(list, id))
    ensures forall o :: o in Remove(list, id) <==> o in list && o.orderId != id
    ensures Ids(Remove(list, id)) == Ids(list) - {id}
  {
    var p := RemoveAt(list, id);
    DropOk(s, list, p);
    assert list == list[..p] + [list[p]] + list[p + 1..];
    assert forall o :: o in list <==> o in list[..p] || o == list[p] || o in list[p + 1..];
  }

  lemma DropOk(s: Side, list: seq<Resting>, p: nat)
    requires p < |list| && Sorted(s, list) && Unique(list)
    ensures Sorted(s, list[..p] + list[p + 1..]) && Unique(list[..p] + list[p + 1..])
    ensures forall o | o in list[..p] + list[p + 1..] :: o.orderId != list[p].orderId
  {
    var removed := list[..p] + list[p + 1..];
    forall i, j | 0 <= i < j < |removed|
      ensures !Better(s, removed[j].price, removed[i].price) && removed[i].orderId != removed[j].orderId
    {
      assert removed[i] == list[if i < p then i else i + 1];
      assert removed[j] == list[if j < p then j else j + 1];
    }
  }

  /** An order found in the book is found on the side it names, and leaves a valid book. */
  lemma WithoutOk(b: Book, id: u64)
    requires Ok(b) && Find(b.Orders(), id).Some?
    ensures var r := Find(b.Orders(), id).value;
      && Ok(Without(b, r)) && Without(b, r).instrument == b.instrument == Some(r.instrument)
      && (forall o :: o in Without(b, r).Orders() <==> o in b.Orders() && o != r)
      && Ids(Without(b, r).Orders()) == Ids(b.Orders()) - {id}
  {
    var r := Find(b.Orders(), id).value;
    if r in b.bids {
      RemoveOk(Buy, b.bids, id, b.instrument);
    } else {
      RemoveOk(Sell, b.asks, id, b.instrument);
    }
    forall o | o in b.Orders() && o.orderId == id
      ensures o == r
    {
      var i :| 0 <= i < |b.Orders()| && b.Orders()[i] == o;
    }
  }

  /** The clauses of `ApplyNew`, side by side. */
  lemma UnfoldNew(b: Book, c: Command)
    requires Ok(b)
    ensures ValidateNew(b, c) != NO_REASON ==> ApplyNew(b, c) == Reject(b, c, ValidateNew(b, c))
    ensures ValidateNew(b, c) == NO_REASON ==>
      && DecodeSide(c.side).Some? && c.price > 0 && c.quantity > 0 && Positive(b.Opposite(DecodeSide(c.side).value))
      && var s := DecodeSide(c.side).value;
         var f := Walk(s, c, b.Opposite(s), c.quantity, Add64(b.nextEvent, 1), b.nextTrade);
         var last := Add64(b.nextEvent, 1 + |f.trades|);
         var b' := ApplyNew(b, c).book;
         && 0 <= f.left <= c.quantity
         && ApplyNew(b, c).events == [OrderEvent(c, b.nextEvent, ORDER_ACCEPTED, c.quantity, c.quantity)]
                                     + f.trades + [ClosingEvent(c, last, f.left)]
         && b'.instrument == (if b.instrument.Some? then b.instrument else Some(c.instrument))
         && b'.nextEvent == Add64(last, 1) && b'.nextTrade == Add64(b.nextTrade, |f.trades|)
         && b'.Opposite(s) == f.rest
         && b'.Own(s) == if f.left == 0 then b.Own(s) else Place(s, b.Own(s), RestingOrder(c, f.left))
  {
    if ValidateNew(b, c) == NO_REASON {
      var s := DecodeSide(c.side).value;
      assert forall r | r in b.Opposite(s) :: r in b.Orders();
      WalkBounds(s, c, b.Opposite(s), c.quantity, Add64(b.nextEvent, 1), b.nextTrade);
    }
  }

  /** What matching leaves on the opposite side is valid, and the remainder no longer crosses it. */
  lemma MatchedOk(b: Book, c: Command)
    requires Ok(b) && ValidateNew(b, c) == NO_REASON
    ensures var s := DecodeSide(c.side).value;
      var f := Matched(b, c);
      && 0 <= f.left <= c.quantity
      && SideOk(Flip(s), f.rest, b.instrument) && Unique(f.rest) && Ids(f.rest) <= Ids(b.Opposite(s))
      && (forall r | r in f.rest :: exists o :: o in b.Opposite(s) && o.price == r.price)
      && (f.left > 0 ==> forall r | r in f.rest :: !Crosses(s, c.price, r.price))
  {
    hide Walk, Unique, Sorted, Trimmed, Add64;
    var s := DecodeSide(c.side).value;
    var list := b.Opposite(s);
    var f := Matched(b, c);
    WalkBounds(s, c, list, c.quantity, Add64(b.nextEvent, 1), b.nextTrade);
    WalkTrims(s, c, list, c.quantity, Add64(b.nextEvent, 1), b.nextTrade);
    TrimmedOk(Flip(s), list, |list| - |f.rest|, f.rest, b.instrument);
    if f.left > 0 {
      NoneCross(s, c.price, f.rest);
    }
  }

  lemma NoneCross(s: Side, limit: i64, list: seq<Resting>)
    requires Sorted(Flip(s), list) && (list == [] || !Crosses(s, limit, list[0].price))
    ensures forall r | r in list :: !Crosses(s, limit, r.price)
  {
  }

  function Flip(s: Side): Side {
    if s.Buy? then Sell else Buy
  }

  lemma ApplyNewOk(b: Book, c: Command)
    requires Ok(b)
    ensures Ok(ApplyNew(b, c).book)
  {
    hide Walk, Place, ApplyNew, Sorted, Unique, Add64;
    UnfoldNew(b, c);
    if ValidateNew(b, c) == NO_REASON {
      var s := DecodeSide(c.side).value;
      var f := Matched(b, c);
      var own := b.Own(s);
      var b' := ApplyNew(b, c).book;
      MatchedOk(b, c);
      assert c.orderId !in Ids(own) by {
        assert forall r | r in own :: r in b.Orders();
      }
      assert SideOk(s, own, b'.instrument);
      assert SideOk(Flip(s), f.rest, b'.instrument);
      if f.left > 0 {
        PlaceOk(s, own, RestingOrder(c, f.left), b'.instrument);
      }
      assert Uncrossed(b'.bids, b'.asks);
    }
  }

  /** Every command keeps the invariant. */
  lemma StepOk(b: Book, c: Command)
    requires Ok(b)
    ensures Ok(Step(b, c).book)
  {
    if c.commandType == NEW_ORDER {
      ApplyNewOk(b, c);
    } else if c.commandType == CANCEL_ORDER && ValidateCancel(b, c) == NO_REASON {
      WithoutOk(b, c.orderId);
    } else if c.commandType == REPLACE_ORDER && ValidateReplace(b, c) == NO_REASON {
      WithoutOk(b, c.orderId);
      ApplyNewOk(CancelResting(b, c, Find(b.Orders(), c.orderId).value).book, Replacement(c));
    }
  }

  /** Ids are unique across both sides. */
  lemma UniqueOrders(b: Book)
    requires Ok(b)
    ensures Unique(b.Orders())
  {
    var orders := b.Orders();
    forall i, j | 0 <= i < j < |orders|
      ensures orders[i].orderId != orders[j].orderId
    {
      if i < |b.bids| <= j {
        assert orders[i] in b.bids && orders[j] in b.asks;
        assert orders[i].orderId in Ids(b.bids) && orders[j].orderId in Ids(b.asks);
      }
    }
  }

  lemma {:induction false} IdsCount(list: seq<Resting>)
    requires Unique(list)
    ensures |Ids(list)| == |list|
  {
    if list != [] {
      assert Unique(list[1..]);
      IdsCount(list[1..]);
      assert Ids(list) == {list[0].orderId} + Ids(list[1..]);
      assert list[0].orderId !in Ids(list[1..]);
    }
  }

  /** A run of commands: the book it ends in and all events, in order. */
  ghost function Run(b: Book, commands: seq<Command>): (o: Outcome)
    requires Ok(b)
    ensures Ok(o.book)
  {
    if commands == [] then Outcome(b, [])
    else
      var n := |commands| - 1;
      var before := Run(b, commands[..n]);
      StepOk(before.book, commands[n]);
      var last := Step(before.book, commands[n]);
      Outcome(last.book, before.events + last.events)
  }

  /** Runs compose: the second part of a run starts where the first part ended. */
  lemma {:induction false} RunConcat(b: Book, first: seq<Command>, second: seq<Command>)
    requires Ok(b)
    ensures var o1 := Run(b, first);
      var o2 := Run(o1.book, second);
      Run(b, first + second) == Outcome(o2.book, o1.events + o2.events)
  {
    hide Step, Ok;
    if second == [] {
      assert first + second == first;
    } else {
      var n := |second| - 1;
      RunConcat(b, first, second[..n]);
      assert (first + second)[..|first + second| - 1] == first + second[..n];
      assert (first + second)[|first + second| - 1] == second[n];
    }
  }

  lemma RunOne(b: Book, c: Command)
    requires Ok(b)
    ensures Run(b, [c]) == Step(b, c)
  {
    assert [c][..0] == [];
  }
}
