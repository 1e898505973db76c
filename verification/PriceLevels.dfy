/**
 One side of the book as the program stores it: an ordered map from price to a FIFO queue, here the
 sequence of its entries. Flattening the queues gives the list that `BookModel` speaks of.
 */
module PriceLevels {
  import opened Domain
  import opened BookModel
  import opened BookInvariant

  datatype Level = Level(price: i64, queue: seq<Resting>)

  function Flat(levels: seq<Level>): seq<Resting> {
    if levels == [] then [] else levels[0].queue + Flat(levels[1..])
  }

  /** What an ordered map guarantees: one entry per price, best price first. */
  ghost predicate Ordered(s: Side, levels: seq<Level>) {
    forall i, j | 0 <= i < j < |levels| :: Better(s, levels[i].price, levels[j].price)
  }

  ghost predicate AtPrice(queue: seq<Resting>, price: i64) {
    forall r | r in queue :: r.price == price
  }

  ghost predicate LevelsOk(s: Side, levels: seq<Level>) {
    && Ordered(s, levels)
    && forall l | l in levels :: l.queue != [] && AtPrice(l.queue, l.price)
  }

  lemma {:induction false} FlatSplit(a: seq<Level>, b: seq<Level>)
    ensures Flat(a + b) == Flat(a) + Flat(b)
  {
    hide Flat;
    FlatFirst(a);
    FlatFirst(a + b);
    if a == [] {
      assert a + b == b;
    } else {
      FlatSplit(a[1..], b);
      assert (a + b)[1..] == a[1..] + b;
      assert a[0].queue + (Flat(a[1..]) + Flat(b)) == (a[0].queue + Flat(a[1..])) + Flat(b);
    }
  }

  lemma FlatFirst(levels: seq<Level>)
    ensures Flat(levels) == if levels == [] then [] else levels[0].queue + Flat(levels[1..])
  {
  }

  lemma FlatAt(levels: seq<Level>, i: nat)
    requires i < |levels|
    ensures Flat(levels) == Flat(levels[..i]) + levels[i].queue + Flat(levels[i + 1..])
  {
    assert levels == levels[..i] + levels[i..];
    FlatSplit(levels[..i], levels[i..]);
    assert levels[i..][1..] == levels[i + 1..];
  }

  /** Every flattened order is queued at a level of its own price. */
  lemma {:induction false} FlatPrices(levels: seq<Level>)
    requires forall l | l in levels :: AtPrice(l.queue, l.price)
    ensures forall r :: r in Flat(levels) <==> exists l :: l in levels && r in l.queue
    ensures forall r | r in Flat(levels) :: exists l :: l in levels && l.price == r.price && r in l.queue
  {
    if levels != [] {
      FlatPrices(levels[1..]);
      assert forall l :: l in levels <==> l == levels[0] || l in levels[1..];
    }
  }

  /** The flattened list is in price order. */
  lemma {:induction false} FlatSorted(s: Side, levels: seq<Level>)
    requires LevelsOk(s, levels)
    ensures Sorted(s, Flat(levels))
  {
    if levels != [] {
      FlatSorted(s, levels[1..]);
      FlatPrices(levels[1..]);
      forall i, j | 0 <= i < j < |Flat(levels)|
        ensures !Better(s, Flat(levels)[j].price, Flat(levels)[i].price)
      {
        var q := levels[0].queue;
        if i < |q| {
          assert q[i] in q;
          if j < |q| {
            assert q[j] in q;
          } else {
            assert Flat(levels)[j] in Flat(levels[1..]);
          }
        }
      }
    }
  }

  // Resting an order: levels[price].push_back(order)

  function Push(s: Side, levels: seq<Level>, r: Resting): seq<Level> {
    if levels == [] || Better(s, r.price, levels[0].price) then [Level(r.price, [r])] + levels
    else if levels[0].price == r.price then [Level(r.price, levels[0].queue + [r])] + levels[1..]
    else [levels[0]] + Push(s, levels[1..], r)
  }

  lemma {:induction false} PlaceBehind(s: Side, a: seq<Resting>, b: seq<Resting>, r: Resting)
    requires forall o | o in a :: !Better(s, r.price, o.price)
    ensures Place(s, a + b, r) == a + Place(s, b, r)
  {
    if a == [] {
      assert a + b == b;
    } else {
      PlaceBehind(s, a[1..], b, r);
      assert (a + b)[1..] == a[1..] + b;
    }
  }

  lemma ConsOk(s: Side, l: Level, tail: seq<Level>)
    requires LevelsOk(s, tail) && l.queue != [] && AtPrice(l.queue, l.price)
    requires tail != [] ==> Better(s, l.price, tail[0].price)
    ensures LevelsOk(s, [l] + tail)
  {
    var all := [l] + tail;
    forall i, j | 0 <= i < j < |all|
      ensures Better(s, all[i].price, all[j].price)
    {
      assert all[j] == tail[j - 1];
      if i > 0 {
        assert all[i] == tail[i - 1];
      }
    }
  }

  lemma TailOk(s: Side, levels: seq<Level>)
    requires LevelsOk(s, levels) && levels != []
    ensures LevelsOk(s, levels[1..]) && levels[0].queue != [] && AtPrice(levels[0].queue, levels[0].price)
    ensures levels[1..] != [] ==> Better(s, levels[0].price, levels[1..][0].price)
  {
    assert forall i | 0 <= i < |levels| - 1 :: levels[1..][i] == levels[i + 1];
    assert levels[0] in levels;
  }

  lemma {:induction false} PushOk(s: Side, levels: seq<Level>, r: Resting)
    requires LevelsOk(s, levels)
    ensures LevelsOk(s, Push(s, levels, r))
    ensures var p := Push(s, levels, r)[0].price; p == r.price || (levels != [] && p == levels[0].price)
  {
    if levels == [] || Better(s, r.price, levels[0].price) {
      ConsOk(s, Level(r.price, [r]), levels);
    } else {
      TailOk(s, levels);
      if levels[0].price == r.price {
        ConsOk(s, Level(r.price, levels[0].queue + [r]), levels[1..]);
      } else {
        PushOk(s, levels[1..], r);
        ConsOk(s, levels[0], Push(s, levels[1..], r));
      }
    }
  }

  /** Pushing on the level of its price puts an order behind all orders of the same or a better price. */
  lemma {:induction false} PushPlaces(s: Side, levels: seq<Level>, r: Resting)
    requires LevelsOk(s, levels)
    ensures Flat(Push(s, levels, r)) == Place(s, Flat(levels), r)
    decreases |levels|, 1
  {
    if levels == [] {
      assert Flat(Push(s, levels, r)) == [r];
    } else {
      TailOk(s, levels);
      FlatHead(levels);
      if Better(s, r.price, levels[0].price) {
        FlatCons(Level(r.price, [r]), levels);
      } else {
        PushBehind(s, levels, r);
      }
    }
  }

  lemma FlatCons(l: Level, tail: seq<Level>)
    ensures Flat([l] + tail) == l.queue + Flat(tail)
  {
    assert ([l] + tail)[1..] == tail;
  }

  lemma {:induction false} PushBehind(s: Side, levels: seq<Level>, r: Resting)
    requires levels != [] && !Better(s, r.price, levels[0].price)
    requires LevelsOk(s, levels)
    ensures Flat(Push(s, levels, r)) == Place(s, Flat(levels), r)
    decreases |levels|, 0
  {
    var q, tail := levels[0].queue, levels[1..];
    TailOk(s, levels);
    PlaceBehind(s, q, Flat(tail), r);
    if levels[0].price == r.price {
      if tail != [] {
        TailOk(s, tail);
        FlatHead(tail);
      }
      FlatCons(Level(r.price, q + [r]), tail);
      assert q + ([r] + Flat(tail)) == (q + [r]) + Flat(tail);
    } else {
      PushPlaces(s, tail, r);
      FlatCons(levels[0], Push(s, tail, r));
    }
  }

  lemma FlatHead(levels: seq<Level>)
    requires levels != [] && levels[0].queue != [] && AtPrice(levels[0].queue, levels[0].price)
    ensures Flat(levels) != [] && Flat(levels)[0] == levels[0].queue[0]
    ensures Flat(levels)[0].price == levels[0].price
  {
    assert levels[0].queue[0] in levels[0].queue;
  }

  // Erasing an order

  function FindLevel(levels: seq<Level>, price: i64): (i: nat)
    ensures i <= |levels|
    ensures i < |levels| ==> levels[i].price == price
    ensures forall k | 0 <= k < i :: levels[k].price != price
  {
    if levels == [] || levels[0].price == price then 0 else 1 + FindLevel(levels[1..], price)
  }

  function FindInQueue(queue: seq<Resting>, id: u64): (k: nat)
    ensures k <= |queue|
    ensures k < |queue| ==> queue[k].orderId == id
    ensures forall i | 0 <= i < k :: queue[i].orderId != id
  {
    if queue == [] || queue[0].orderId == id then 0 else 1 + FindInQueue(queue[1..], id)
  }

  lemma {:induction false} RemoveFirst(queue: seq<Resting>, k: nat)
    requires k < |queue| && forall i | 0 <= i < k :: queue[i].orderId != queue[k].orderId
    ensures Remove(queue, queue[k].orderId) == queue[..k] + queue[k + 1..]
  {
    if k > 0 {
      RemoveFirst(queue[1..], k - 1);
      assert queue[1..][..k - 1] == queue[1..k] && queue[1..][k..] == queue[k + 1..];
      assert queue[..k] == [queue[0]] + queue[1..k];
    }
  }

  /** Replacing the queue of level `i` by itself without one of its orders removes that order from the list. */
  lemma EraseRemoves(levels: seq<Level>, i: nat, k: nat)
    requires i < |levels| && k < |levels[i].queue| && Unique(Flat(levels))
    ensures var q := levels[i].queue;
      Flat(levels[..i]) + (q[..k] + q[k + 1..]) + Flat(levels[i + 1..]) == Remove(Flat(levels), q[k].orderId)
  {
    hide Unique;
    FlatAt(levels, i);
    RemoveMiddle(Flat(levels[..i]), levels[i].queue, Flat(levels[i + 1..]), k);
  }

  lemma RemoveMiddle(a: seq<Resting>, q: seq<Resting>, b: seq<Resting>, k: nat)
    requires k < |q| && Unique(a + q + b)
    ensures Remove(a + q + b, q[k].orderId) == a + (q[..k] + q[k + 1..]) + b
  {
    var flat := a + q + b;
    var n := |a| + k;
    assert flat[n] == q[k];
    RemoveFirst(flat, n);
    assert flat[..n] == a + q[..k];
    assert flat[n + 1..] == q[k + 1..] + b;
  }

  /** Levels are determined by the flattened list: no two stored sides mean the same list. */
  lemma {:induction false} FlatInjective(s: Side, a: seq<Level>, b: seq<Level>)
    requires LevelsOk(s, a) && LevelsOk(s, b) && Flat(a) == Flat(b)
    ensures a == b
  {
    if a != [] {
      FlatHead(a);
    }
    if b != [] {
      FlatHead(b);
    }
    if a != [] {
      HeadQueueLength(s, a, b);
      HeadQueueLength(s, b, a);
      assert a[0].queue == Flat(a)[..|a[0].queue|] == b[0].queue;
      assert Flat(a[1..]) == Flat(a)[|a[0].queue|..] == Flat(b[1..]);
      FlatInjective(s, a[1..], b[1..]);
      assert a == [a[0]] + a[1..] && b == [b[0]] + b[1..];
    }
  }

  lemma HeadQueueLength(s: Side, a: seq<Level>, b: seq<Level>)
    requires LevelsOk(s, a) && LevelsOk(s, b) && Flat(a) == Flat(b)
    requires a != [] && b != [] && a[0].price == b[0].price
    ensures |a[0].queue| <= |b[0].queue|
  {
    var n := |b[0].queue|;
    if n < |a[0].queue| {
      assert Flat(a)[n] == a[0].queue[n] && a[0].queue[n] in a[0].queue;
      assert Flat(b)[n] == Flat(b[1..])[0] && Flat(b[1..])[0] in Flat(b[1..]);
      FlatPrices(b[1..]);
      assert false;
    }
  }
}
