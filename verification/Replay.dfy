/** Deterministic replay: commands are re-run and the generated events compared with the stored ones. */
module Replay {
  import opened Domain
  import opened BookModel
  import opened BookInvariant
  import opened PriceLevels
  import opened OrderBook

  // Comparing two events

  datatype EventField = NoField | EventType | EventSequence | CommandSequence | SourceIngressEpoch
    | SourceIngressSequence | InstrumentId | OrderId | ContraOrderId | SideField | PriceTicks | QuantityLots
    | RemainingQuantityLots | TradeId | RejectionReason | Reserved

  datatype Comparison = Comparison(equal: bool, field: EventField)

  function Compare(expected: Event, actual: Event): Comparison {
    if expected.eventType != actual.eventType then Comparison(false, EventType)
    else if expected.eventSequence != actual.eventSequence then Comparison(false, EventSequence)
    else if expected.commandSequence != actual.commandSequence then Comparison(false, CommandSequence)
    else if expected.ingressEpoch != actual.ingressEpoch then Comparison(false, SourceIngressEpoch)
    else if expected.ingressSequence != actual.ingressSequence then Comparison(false, SourceIngressSequence)
    else if expected.instrument != actual.instrument then Comparison(false, InstrumentId)
    else if expected.orderId != actual.orderId then Comparison(false, OrderId)
    else if expected.contraOrderId != actual.contraOrderId then Comparison(false, ContraOrderId)
    else if expected.side != actual.side then Comparison(false, SideField)
    else if expected.price != actual.price then Comparison(false, PriceTicks)
    else if expected.quantity != actual.quantity then Comparison(false, QuantityLots)
    else if expected.remaining != actual.remaining then Comparison(false, RemainingQuantityLots)
    else if expected.tradeId != actual.tradeId then Comparison(false, TradeId)
    else if expected.rejectionReason != actual.rejectionReason then Comparison(false, RejectionReason)
    else if expected.reserved != actual.reserved then Comparison(false, Reserved)
    else Comparison(true, NoField)
  }

  /** Equal exactly on equal events. */
  lemma CompareExact(expected: Event, actual: Event)
    ensures Compare(expected, actual).equal <==> expected == actual
    ensures Compare(expected, actual).equal <==> Compare(expected, actual).field == NoField
  {
  }

  /** Otherwise the field named is the one that differs where everything compared before it agrees. */
  lemma CompareNames(e: Event, a: Event)
    ensures var name := Compare(e, a).field;
      var source := e.eventType == a.eventType && e.eventSequence == a.eventSequence
        && e.commandSequence == a.commandSequence && e.ingressEpoch == a.ingressEpoch && e.ingressSequence == a.ingressSequence;
      var order := source && e.instrument == a.instrument && e.orderId == a.orderId
        && e.contraOrderId == a.contraOrderId && e.side == a.side;
      var lots := order && e.price == a.price && e.quantity == a.quantity && e.remaining == a.remaining;
      && (name == EventType <==> e.eventType != a.eventType)
      && (name == EventSequence <==> e.eventType == a.eventType && e.eventSequence != a.eventSequence)
      && (name == CommandSequence ==> e.eventSequence == a.eventSequence && e.commandSequence != a.commandSequence)
      && (name == SourceIngressEpoch ==> e.commandSequence == a.commandSequence && e.ingressEpoch != a.ingressEpoch)
      && (name == SourceIngressSequence ==> e.ingressEpoch == a.ingressEpoch && e.ingressSequence != a.ingressSequence)
      && (name in {InstrumentId, OrderId, ContraOrderId, SideField} ==> source && !order)
      && (name == InstrumentId <==> source && e.instrument != a.instrument)
      && (name == OrderId ==> e.instrument == a.instrument && e.orderId != a.orderId)
      && (name == ContraOrderId ==> e.orderId == a.orderId && e.contraOrderId != a.contraOrderId)
      && (name == SideField ==> e.contraOrderId == a.contraOrderId && e.side != a.side)
      && (name in {PriceTicks, QuantityLots, RemainingQuantityLots} ==> order && !lots)
      && (name == PriceTicks <==> order && e.price != a.price)
      && (name == QuantityLots ==> e.price == a.price && e.quantity != a.quantity)
      && (name == RemainingQuantityLots ==> e.quantity == a.quantity && e.remaining != a.remaining)
      && (name == TradeId <==> lots && e.tradeId != a.tradeId)
      && (name == RejectionReason ==> lots && e.tradeId == a.tradeId && e.rejectionReason != a.rejectionReason)
      && (name == Reserved ==> lots && e.rejectionReason == a.rejectionReason && e.reserved != a.reserved)
  {
  }

  // Logs

  datatype ReadResult<T> = RecordRead(record: T) | EndOfLog | Failed

  /** A replay input: the records it will deliver, `None` standing for a read that fails. */
  class LogReader<T> {
    const log: seq<Option<T>>
    var at: nat

    constructor (log: seq<Option<T>>)
      ensures this.log == log && at == 0
    {
      this.log, at := log, 0;
    }

    ghost function Rest(): seq<Option<T>>
      requires at <= |log|
      reads this
    {
      log[at..]
    }

    method ReadNext() returns (r: ReadResult<T>)
      requires at <= |log|
      modifies this
      ensures at <= |log|
      ensures old(Rest()) == [] ==> r == EndOfLog && Rest() == []
      ensures old(Rest()) != [] ==>
        && Rest() == old(Rest())[1..]
        && r == if old(Rest())[0].None? then Failed else RecordRead(old(Rest())[0].value)
    {
      if at == |log| {
        return EndOfLog;
      }
      r := if log[at].None? then Failed else RecordRead(log[at].value);
      at := at + 1;
    }
  }

  // Results

  datatype FailureClass = CommandReadFailed | StoredEventReadFailed | CommandSequenceBreak | StoredEventMissing
    | ExtraStoredEvent | EventFieldMismatch | InvariantViolation

  datatype Failure = Failure(
    kind: FailureClass,
    command: Option<Command>,
    expected: Option<Event>,
    actual: Option<Event>,
    index: nat,
    globalSequence: u64,
    field: EventField,
    before: Option<Snapshot>,
    after: Option<Snapshot>)
  {
    /** The failure with the snapshots taken around the command. */
    function Around(b: Snapshot, a: Snapshot): Failure {
      this.(before := Some(b), after := Some(a))
    }
  }

  /** A failure names the sequence of the event that was generated, or of the one that should not be there. */
  function NewFailure(kind: FailureClass, command: Option<Command>, expected: Option<Event>, actual: Option<Event>,
                      index: nat, field: EventField): Failure
  {
    var sequence: u64 := if expected.Some? then expected.value.eventSequence
                         else if actual.Some? then actual.value.eventSequence else 0;
    Failure(kind, command, expected, actual, index, sequence, field, None, None)
  }

  datatype ReplayResult = ReplayResult(commandsReplayed: nat, eventsCompared: nat, failure: Option<Failure>)
  {
    predicate Ok() {
      failure.None?
    }
  }

  /** Comparing the events of one command, from `index` on: the failure, if any, and how many agreed. */
  function CompareStored(c: Command, events: seq<Event>, stored: seq<Option<Event>>, index: nat): (nat, Option<Failure>)
    decreases |events|
  {
    if events == [] then (0, None)
    else if stored == [] then
      (0, Some(NewFailure(StoredEventMissing, Some(c), Some(events[0]), None, index, NoField)))
    else if stored[0].None? then
      (0, Some(NewFailure(StoredEventReadFailed, Some(c), None, None, index, NoField)))
    else if !Compare(events[0], stored[0].value).equal then
      (0, Some(NewFailure(EventFieldMismatch, Some(c), Some(events[0]), stored[0], index,
                       Compare(events[0], stored[0].value).field)))
    else
      var more := CompareStored(c, events[1..], stored[1..], index + 1);
      (1 + more.0, more.1)
  }

  function BreakAt(b: Book, c: Command): Failure {
    NewFailure(CommandSequenceBreak, Some(c), None, None, 0, NoField).(before := Some(SnapshotOf(b)))
  }

  /** The meaning of a replay from a book, with what the readers still deliver. */
  ghost function ReplayFrom(b: Book, commands: seq<Option<Command>>, stored: seq<Option<Event>>,
                            previous: Option<u64>, replayed: nat, compared: nat): ReplayResult
    requires BookInvariant.Ok(b)
    decreases |commands|
  {
    if commands == [] then
      if stored == [] then ReplayResult(replayed, compared, None)
      else if stored[0].None? then
        ReplayResult(replayed, compared, Some(NewFailure(StoredEventReadFailed, None, None, None, 0, NoField)))
      else
        ReplayResult(replayed, compared, Some(NewFailure(ExtraStoredEvent, None, None, stored[0], 0, NoField)))
    else if commands[0].None? then
      ReplayResult(replayed, compared, Some(NewFailure(CommandReadFailed, None, None, None, 0, NoField)))
    else
      var c := commands[0].value;
      if previous.Some? && c.commandSequence != Add64(previous.value, 1) then
        ReplayResult(replayed, compared, Some(BreakAt(b, c)))
      else
        var o := Step(b, c);
        var (agreed, failure) := CompareStored(c, o.events, stored, 0);
        StepOk(b, c);
        CompareBounds(c, o.events, stored, 0);
        if failure.Some? then
          ReplayResult(replayed, compared + agreed, Some(failure.value.Around(SnapshotOf(b), SnapshotOf(o.book))))
        else ReplayFrom(o.book, commands[1..], stored[agreed..], Some(c.commandSequence), replayed + 1, compared + agreed)
  }

  lemma {:induction false} CompareBounds(c: Command, events: seq<Event>, stored: seq<Option<Event>>, index: nat)
    ensures var (agreed, failure) := CompareStored(c, events, stored, index);
      && agreed <= |events| && agreed <= |stored|
      && (failure.None? <==> agreed == |events|)
      && (failure.Some? ==> failure.value.kind != InvariantViolation)
    decreases |events|
  {
    if events != [] && stored != [] && stored[0].Some? && Compare(events[0], stored[0].value).equal {
      CompareBounds(c, events[1..], stored[1..], index + 1);
    }
  }

  /** One turn of the replay loop. */
  lemma UnfoldReplay(b: Book, commands: seq<Option<Command>>, stored: seq<Option<Event>>,
                     previous: Option<u64>, replayed: nat, compared: nat)
    requires BookInvariant.Ok(b)
    ensures var r := ReplayFrom(b, commands, stored, previous, replayed, compared);
      if commands == [] then
        r == ReplayResult(replayed, compared,
          if stored == [] then None
          else if stored[0].None? then Some(NewFailure(StoredEventReadFailed, None, None, None, 0, NoField))
          else Some(NewFailure(ExtraStoredEvent, None, None, stored[0], 0, NoField)))
      else if commands[0].None? then
        r == ReplayResult(replayed, compared, Some(NewFailure(CommandReadFailed, None, None, None, 0, NoField)))
      else
        var c := commands[0].value;
        if previous.Some? && c.commandSequence != Add64(previous.value, 1) then
          r == ReplayResult(replayed, compared, Some(BreakAt(b, c)))
        else
          var o := Step(b, c);
          var (agreed, failure) := CompareStored(c, o.events, stored, 0);
          && BookInvariant.Ok(o.book) && agreed <= |stored| && agreed <= |o.events|
          && (failure.None? <==> agreed == |o.events|)
          && r == if failure.Some? then
                    ReplayResult(replayed, compared + agreed,
                                 Some(failure.value.Around(SnapshotOf(b), SnapshotOf(o.book))))
                  else ReplayFrom(o.book, commands[1..], stored[agreed..], Some(c.commandSequence),
                                  replayed + 1, compared + agreed)
  {
    hide Step, BookInvariant.Ok, CompareStored, Add64, SnapshotOf, NewFailure, BreakAt;
    if commands != [] && commands[0].Some? {
      StepOk(b, commands[0].value);
      CompareBounds(commands[0].value, Step(b, commands[0].value).events, stored, 0);
    }
  }

  /** One turn of the comparison loop. */
  lemma UnfoldCompare(c: Command, events: seq<Event>, stored: seq<Option<Event>>, index: nat)
    requires index < |events| && index <= |stored|
    ensures var r := CompareStored(c, events[index..], stored[index..], index);
      if index == |stored| then
        r == (0, Some(NewFailure(StoredEventMissing, Some(c), Some(events[index]), None, index, NoField)))
      else if stored[index].None? then
        r == (0, Some(NewFailure(StoredEventReadFailed, Some(c), None, None, index, NoField)))
      else if !Compare(events[index], stored[index].value).equal then
        r == (0, Some(NewFailure(EventFieldMismatch, Some(c), Some(events[index]), stored[index], index,
                              Compare(events[index], stored[index].value).field)))
      else
        var more := CompareStored(c, events[index + 1..], stored[index + 1..], index + 1);
        r == (1 + more.0, more.1)
    ensures index < |stored| ==> stored[index..][1..] == stored[index + 1..]
  {
    hide Compare;
    assert events[index..][1..] == events[index + 1..];
    if index < |stored| {
      assert stored[index..][1..] == stored[index + 1..];
    }
  }

  /** Compares the events of one command with what the stored log delivers next. */
  method CompareEvents(eventReader: LogReader<Event>, c: Command, events: seq<Event>, before: Snapshot, after: Snapshot)
    returns (agreed: nat, failure: Option<Failure>)
    requires eventReader.at <= |eventReader.log|
    modifies eventReader
    ensures eventReader.at <= |eventReader.log|
    ensures agreed == CompareStored(c, events, old(eventReader.Rest()), 0).0
    ensures var expected := CompareStored(c, events, old(eventReader.Rest()), 0).1;
      failure == if expected.None? then None else Some(expected.value.Around(before, after))
    ensures failure.None? ==> agreed <= |old(eventReader.Rest())| && eventReader.Rest() == old(eventReader.Rest())[agreed..]
  {
    hide Compare, CompareStored;
    ghost var stored := eventReader.Rest();
    ghost var whole := CompareStored(c, events, stored, 0);
    agreed := 0;
    for index := 0 to |events|
      invariant eventReader.at <= |eventReader.log| && index <= |stored| && agreed == index
      invariant eventReader.Rest() == stored[index..]
      invariant CompareStored(c, events[index..], stored[index..], index) == (whole.0 - index, whole.1)
      modifies eventReader
    {
      UnfoldCompare(c, events, stored, index);
      var eventRead := eventReader.ReadNext();
      if eventRead.EndOfLog? {
        return agreed, Some(NewFailure(StoredEventMissing, Some(c), Some(events[index]), None, index, NoField)
                            .Around(before, after));
      }
      if eventRead.Failed? {
        return agreed, Some(NewFailure(StoredEventReadFailed, Some(c), None, None, index, NoField).Around(before, after));
      }
      assert stored[index..][0] == Some(eventRead.record);
      var comparison := Compare(events[index], eventRead.record);
      if !comparison.equal {
        return agreed, Some(NewFailure(EventFieldMismatch, Some(c), Some(events[index]), Some(eventRead.record),
                                       index, comparison.field).Around(before, after));
      }
      agreed := agreed + 1;
    }
    CompareNone(c, stored[|events|..], |events|);
    assert events[|events|..] == [];
    return agreed, None;
  }

  lemma CompareNone(c: Command, stored: seq<Option<Event>>, index: nat)
    ensures CompareStored(c, [], stored, index) == (0, None)
  {
  }

  lemma ReplayEnds(b: Book, stored: seq<Option<Event>>, previous: Option<u64>, replayed: nat, compared: nat)
    requires BookInvariant.Ok(b)
    ensures ReplayFrom(b, [], stored, previous, replayed, compared).commandsReplayed == replayed
    ensures ReplayFrom(b, [], stored, previous, replayed, compared).eventsCompared == compared
    ensures ReplayFrom(b, [], stored, previous, replayed, compared).failure ==
      if stored == [] then None
      else if stored[0].None? then Some(NewFailure(StoredEventReadFailed, None, None, None, 0, NoField))
      else Some(NewFailure(ExtraStoredEvent, None, None, stored[0], 0, NoField))
  {
  }

  lemma ReplayUnread(b: Book, commands: seq<Option<Command>>, stored: seq<Option<Event>>,
                     previous: Option<u64>, replayed: nat, compared: nat)
    requires BookInvariant.Ok(b) && commands != [] && commands[0].None?
    ensures ReplayFrom(b, commands, stored, previous, replayed, compared)
      == ReplayResult(replayed, compared, Some(NewFailure(CommandReadFailed, None, None, None, 0, NoField)))
  {
  }

  lemma ReplayBreaks(b: Book, c: Command, commands: seq<Option<Command>>, stored: seq<Option<Event>>,
                     previous: u64, replayed: nat, compared: nat)
    requires BookInvariant.Ok(b) && commands != [] && commands[0] == Some(c)
    requires c.commandSequence != Add64(previous, 1)
    ensures ReplayFrom(b, commands, stored, Some(previous), replayed, compared)
      == ReplayResult(replayed, compared, Some(BreakAt(b, c)))
  {
    hide Step, BookInvariant.Ok, CompareStored, Add64;
  }

  lemma ReplaySteps(b: Book, c: Command, commands: seq<Option<Command>>, stored: seq<Option<Event>>,
                    previous: Option<u64>, replayed: nat, compared: nat)
    requires BookInvariant.Ok(b) && commands != [] && commands[0] == Some(c)
    requires previous.Some? ==> c.commandSequence == Add64(previous.value, 1)
    ensures BookInvariant.Ok(Step(b, c).book)
    ensures var r := CompareStored(c, Step(b, c).events, stored, 0);
      var all := ReplayFrom(b, commands, stored, previous, replayed, compared);
      if r.1.Some? then
        all == ReplayResult(replayed, compared + r.0,
                            Some(r.1.value.Around(SnapshotOf(b), SnapshotOf(Step(b, c).book))))
      else
        && r.0 <= |stored|
        && all == ReplayFrom(Step(b, c).book, commands[1..], stored[r.0..], Some(c.commandSequence),
                             replayed + 1, compared + r.0)
  {
    hide Step, BookInvariant.Ok, CompareStored, Add64, ReplayFrom;
    UnfoldReplay(b, commands, stored, previous, replayed, compared);
  }

  method Replay(commandReader: LogReader<Command>, eventReader: LogReader<Event>, engine: InstrumentEngine)
    returns (result: ReplayResult)
    requires commandReader.at <= |commandReader.log| && eventReader.at <= |eventReader.log| && engine.Valid()
    modifies commandReader, eventReader, engine.book
    ensures result == ReplayFrom(old(engine.book.Abs()), old(commandReader.Rest()), old(eventReader.Rest()), None, 0, 0)
  {
    hide Step, Compare, BookInvariant.Ok, Add64, ReplayFrom, CompareStored, SnapshotOf, NewFailure, OrderBook.Valid, OrderBook.Abs, LogReader.Rest, Mirrored, Ordered, Flat;
    ValidOrdered(engine.book);
    ghost var outcome := ReplayFrom(engine.book.Abs(), commandReader.Rest(), eventReader.Rest(), None, 0, 0);
    var replayed: nat, compared: nat := 0, 0;
    var previous: Option<u64> := None;
    while true
      invariant commandReader.at <= |commandReader.log| && eventReader.at <= |eventReader.log| && engine.Valid()
      invariant BookInvariant.Ok(engine.book.Abs())
      invariant ReplayFrom(engine.book.Abs(), commandReader.Rest(), eventReader.Rest(), previous, replayed, compared) == outcome
      decreases |commandReader.Rest()|
    {
      ghost var b, commands, stored := engine.book.Abs(), commandReader.Rest(), eventReader.Rest();
      var read := commandReader.ReadNext();
      if read.EndOfLog? {
        break;
      }
      if read.Failed? {
        ReplayUnread(b, commands, stored, previous, replayed, compared);
        return ReplayResult(replayed, compared, Some(NewFailure(CommandReadFailed, None, None, None, 0, NoField)));
      }
      var c := read.record;
      if previous.Some? && c.commandSequence != Add64(previous.value, 1) {
        ReplayBreaks(b, c, commands, stored, previous.value, replayed, compared);
        var broken := NewFailure(CommandSequenceBreak, Some(c), None, None, 0, NoField);
        return ReplayResult(replayed, compared, Some(broken.(before := Some(engine.book.TakeSnapshot()))));
      }
      ReplaySteps(b, c, commands, stored, previous, replayed, compared);
      var before := engine.book.TakeSnapshot();
      var events := engine.Apply(c);
      var after := engine.book.TakeSnapshot();
      var agreed, failure := CompareEvents(eventReader, c, events, before, after);
      compared := compared + agreed;
      if failure.Some? {
        return ReplayResult(replayed, compared, failure);
      }
      var violation := NewFailure(InvariantViolation, Some(c), None, None, 0, NoField).Around(before, after);
      ValidOrdered(engine.book);
      var sound := engine.book.ValidateInvariants();
      if !sound {
        return ReplayResult(replayed, compared, Some(violation));
      }
      previous := Some(c.commandSequence);
      replayed := replayed + 1;
    }
    ReplayEnds(engine.book.Abs(), eventReader.Rest(), previous, replayed, compared);
    var extra := eventReader.ReadNext();
    if extra.RecordRead? {
      return ReplayResult(replayed, compared, Some(NewFailure(ExtraStoredEvent, None, None, Some(extra.record), 0, NoField)));
    }
    if extra.Failed? {
      return ReplayResult(replayed, compared, Some(NewFailure(StoredEventReadFailed, None, None, None, 0, NoField)));
    }
    return ReplayResult(replayed, compared, None);
  }

  // What replay makes of any two logs

  /** The records of a log up to the first that cannot be read. */
  function Good<T>(log: seq<Option<T>>): seq<T> {
    if log == [] || log[0].None? then [] else [log[0].value] + Good(log[1..])
  }

  /** The log has a record that cannot be read. */
  predicate Fails<T>(log: seq<Option<T>>) {
    |Good(log)| != |log|
  }

  lemma {:induction false} GoodLength<T>(log: seq<Option<T>>)
    ensures |Good(log)| <= |log|
  {
    if log != [] && log[0].Some? {
      GoodLength(log[1..]);
    }
  }

  /** Dropping records that can be read drops them from the good part and nothing else. */
  lemma {:induction false} GoodDrop<T>(log: seq<Option<T>>, n: nat)
    requires n <= |Good(log)|
    ensures n <= |log| && Good(log[n..]) == Good(log)[n..] && (Fails(log[n..]) <==> Fails(log))
  {
    GoodLength(log);
    if n == 0 {
      assert log[0..] == log && Good(log)[0..] == Good(log);
    } else {
      GoodDrop(log[1..], n - 1);
      assert log[1..][n - 1..] == log[n..] && Good(log)[n..] == Good(log[1..])[n - 1..];
    }
  }

  /** A log all of whose records can be read. */
  function Readable<T>(records: seq<T>): seq<Option<T>> {
    seq(|records|, i requires 0 <= i < |records| => Some(records[i]))
  }

  lemma {:induction false} ReadableGood<T>(records: seq<T>)
    ensures Good(Readable(records)) == records && !Fails(Readable(records))
  {
    if records != [] {
      ReadableGood(records[1..]);
      assert Readable(records)[1..] == Readable(records[1..]);
    }
  }

  /** How many commands come before the first whose sequence does not follow the one before it. */
  function Reach(previous: Option<u64>, commands: seq<Command>): (k: nat)
    ensures k <= |commands|
    decreases |commands|
  {
    if commands == [] || (previous.Some? && commands[0].commandSequence != Add64(previous.value, 1)) then 0
    else 1 + Reach(Some(commands[0].commandSequence), commands[1..])
  }

  /** Each command sequence follows the one before it. */
  predicate Consecutive(previous: Option<u64>, commands: seq<Command>) {
    Reach(previous, commands) == |commands|
  }

  /** The length of the longest common prefix. */
  function CommonPrefix(a: seq<Event>, b: seq<Event>): nat {
    if a == [] || b == [] || a[0] != b[0] then 0 else 1 + CommonPrefix(a[1..], b[1..])
  }

  lemma {:induction false} CommonPrefixIs(a: seq<Event>, b: seq<Event>)
    ensures var n := CommonPrefix(a, b);
      && n <= |a| && n <= |b| && a[..n] == b[..n]
      && (n < |a| && n < |b| ==> a[n] != b[n])
  {
    if !(a == [] || b == [] || a[0] != b[0]) {
      CommonPrefixIs(a[1..], b[1..]);
      var n := CommonPrefix(a, b);
      assert a[..n] == [a[0]] + a[1..][..n - 1] && b[..n] == [b[0]] + b[1..][..n - 1];
    }
  }

  /** The report when a command's events and the stored ones part behind `n` equal ones. */
  ghost predicate Parts(f: Failure, c: Command, events: seq<Event>, stored: seq<Event>, fails: bool, n: nat) {
    && n < |events| && n <= |stored| && f.command == Some(c)
    && if n < |stored| then
         && f.kind == EventFieldMismatch && f.expected == Some(events[n]) && f.actual == Some(stored[n])
         && events[n] != stored[n] && f.field == Compare(events[n], stored[n]).field
         && f.globalSequence == events[n].eventSequence
       else if fails then f.kind == StoredEventReadFailed && f.expected == None && f.actual == None
       else f.kind == StoredEventMissing && f.expected == Some(events[n]) && f.globalSequence == events[n].eventSequence
  }

  /** Comparing the events of one command finds the longest common prefix with what can be read. */
  lemma {:induction false} CompareGood(c: Command, events: seq<Event>, stored: seq<Option<Event>>, index: nat)
    ensures var (agreed, failure) := CompareStored(c, events, stored, index);
      && agreed == CommonPrefix(events, Good(stored))
      && (failure.None? <==> agreed == |events|)
      && (failure.Some? ==>
            Parts(failure.value, c, events, Good(stored), Fails(stored), agreed) && failure.value.index == index + agreed)
    decreases |events|
  {
    CommonPrefixIs(events, Good(stored));
    GoodLength(stored);
    if events != [] && stored != [] && stored[0].Some? {
      CompareExact(events[0], stored[0].value);
      GoodLength(stored[1..]);
      assert Good(stored)[1..] == Good(stored[1..]);
      if events[0] == stored[0].value {
        CompareGood(c, events[1..], stored[1..], index + 1);
      }
    }
  }

  /**
   The whole verdict of a replay, told by the run of the commands that can be read and follow each other.
   The stored events are compared as far as they are that run's; if they part from it the report says
   where and how; otherwise a sequence break, an unreadable command, an extra event and an unreadable
   event are reported, in this order, and a replay with none of these succeeds.
   */
  ghost predicate Exact(r: ReplayResult, generated: seq<Event>, stored: seq<Event>, storedFails: bool,
                        previous: Option<u64>, commands: seq<Command>, commandsFail: bool, replayed: nat, compared: nat)
  {
    var k, n := Reach(previous, commands), CommonPrefix(generated, stored);
    && r.eventsCompared == compared + n
    && if n < |generated| then
         && r.failure.Some? && r.failure.value.command.Some?
         && Parts(r.failure.value, r.failure.value.command.value, generated, stored, storedFails, n)
         && replayed <= r.commandsReplayed < replayed + k
         && r.failure.value.command == Some(commands[r.commandsReplayed - replayed])
       else
         && r.commandsReplayed == replayed + k
         && if k < |commands| then
              r.failure.Some? && r.failure.value.kind == CommandSequenceBreak && r.failure.value.command == Some(commands[k])
            else if commandsFail then r.failure.Some? && r.failure.value.kind == CommandReadFailed
            else if n < |stored| then
              && r.failure.Some? && r.failure.value.kind == ExtraStoredEvent
              && r.failure.value.actual == Some(stored[n]) && r.failure.value.globalSequence == stored[n].eventSequence
            else if storedFails then
              r.failure.Some? && r.failure.value.kind == StoredEventReadFailed && r.failure.value.command == None
            else r.failure.None?
  }

  /** Exactly this is what replay makes of any two logs on any valid engine. */
  lemma {:induction false} ReplayVerdict(b: Book, commands: seq<Option<Command>>, stored: seq<Option<Event>>,
                                         previous: Option<u64>, replayed: nat, compared: nat)
    requires BookInvariant.Ok(b)
    ensures var reached := Good(commands)[..Reach(previous, Good(commands))];
      Exact(ReplayFrom(b, commands, stored, previous, replayed, compared), Run(b, reached).events,
            Good(stored), Fails(stored), previous, Good(commands), Fails(commands), replayed, compared)
    decreases |commands|
  {
    hide Step, Compare, BookInvariant.Ok, Add64, ReplayFrom, CompareStored, CommonPrefix, Run, Exact, Good, Fails, Reach, Parts;
    UnfoldReplay(b, commands, stored, previous, replayed, compared);
    UnfoldGood(commands);
    if commands == [] {
      ExactAtEnd(b, stored, previous, replayed, compared);
    } else if commands[0].None? {
      ExactAtUnread(b, commands, stored, previous, replayed, compared);
    } else {
      var c := commands[0].value;
      var rest := Good(commands[1..]);
      UnfoldReach(previous, c, rest);
      if previous.Some? && c.commandSequence != Add64(previous.value, 1) {
        ExactAtBreak(b, c, commands, stored, previous, replayed, compared);
      } else {
        var o := Step(b, c);
        var k := Reach(Some(c.commandSequence), rest);
        CompareGood(c, o.events, stored, 0);
        CommonPrefixIs(o.events, Good(stored));
        RunOne(b, c);
        RunConcat(b, [c], rest[..k]);
        assert ([c] + rest)[..k + 1] == [c] + rest[..k];
        var more := Run(o.book, rest[..k]).events;
        var agreed := CompareStored(c, o.events, stored, 0).0;
        var r := ReplayFrom(b, commands, stored, previous, replayed, compared);
        if agreed == |o.events| {
          GoodDrop(stored, agreed);
          assert Good(stored) == o.events + Good(stored)[agreed..];
          ReplayVerdict(o.book, commands[1..], stored[agreed..], Some(c.commandSequence), replayed + 1, compared + agreed);
          ExactAfterStep(r, o.events, more, Good(stored)[agreed..], Fails(stored), previous, c, rest, Fails(commands), replayed, compared);
        } else {
          PrefixStops(o.events, more, Good(stored));
          PartsAround(CompareStored(c, o.events, stored, 0).1.value, c, o.events, Good(stored), Fails(stored), agreed,
                      SnapshotOf(b), SnapshotOf(o.book));
          ExactAtMismatch(r, c, o.events, more, Good(stored), Fails(stored), previous, rest, Fails(commands), replayed, compared);
        }
      }
    }
  }

  /** The report places the parting: the command by its number, the event within it, the book around it. */
  ghost predicate Located(b: Book, r: ReplayResult, commands: seq<Command>, replayed: nat, n: nat)
    requires BookInvariant.Ok(b)
  {
    && r.failure.Some? && replayed <= r.commandsReplayed < replayed + |commands|
    && var j := r.commandsReplayed - replayed;
       var before, after := Run(b, commands[..j]), Run(b, commands[..j + 1]);
       && r.failure.value.before == Some(SnapshotOf(before.book)) && r.failure.value.after == Some(SnapshotOf(after.book))
       && |before.events| + r.failure.value.index == n < |after.events|
  }

  /** A replay that parts from the stored log, or stops at a sequence break, reports the place and the book there. */
  lemma {:induction false} ReplayLocates(b: Book, commands: seq<Option<Command>>, stored: seq<Option<Event>>,
                                         previous: Option<u64>, replayed: nat, compared: nat)
    requires BookInvariant.Ok(b)
    ensures var reached := Good(commands)[..Reach(previous, Good(commands))];
      var r := ReplayFrom(b, commands, stored, previous, replayed, compared);
      var n := CommonPrefix(Run(b, reached).events, Good(stored));
      && (n < |Run(b, reached).events| ==> Located(b, r, reached, replayed, n))
      && (n == |Run(b, reached).events| && |reached| < |Good(commands)| ==>
            r.failure.Some? && r.failure.value.before == Some(SnapshotOf(Run(b, reached).book)) && r.failure.value.after == None)
    decreases |commands|
  {
    hide Step, Compare, BookInvariant.Ok, Add64, ReplayFrom, CompareStored, CommonPrefix, Run, Good, Fails, Reach, Parts, SnapshotOf;
    UnfoldReplay(b, commands, stored, previous, replayed, compared);
    UnfoldGood(commands);
    if commands == [] || commands[0].None? {
      RunNo(b);
    } else {
      var c := commands[0].value;
      var rest := Good(commands[1..]);
      UnfoldReach(previous, c, rest);
      if previous.Some? && c.commandSequence != Add64(previous.value, 1) {
        RunNo(b);
      } else {
        var o := Step(b, c);
        var k := Reach(Some(c.commandSequence), rest);
        CompareGood(c, o.events, stored, 0);
        CommonPrefixIs(o.events, Good(stored));
        RunOne(b, c);
        RunConcat(b, [c], rest[..k]);
        assert ([c] + rest)[..k + 1] == [c] + rest[..k];
        var more := Run(o.book, rest[..k]).events;
        var agreed := CompareStored(c, o.events, stored, 0).0;
        var r := ReplayFrom(b, commands, stored, previous, replayed, compared);
        if agreed == |o.events| {
          GoodDrop(stored, agreed);
          assert Good(stored) == o.events + Good(stored)[agreed..];
          ReplayLocates(o.book, commands[1..], stored[agreed..], Some(c.commandSequence), replayed + 1, compared + agreed);
          PrefixConcat(o.events, more, Good(stored)[agreed..]);
          if CommonPrefix(more, Good(stored)[agreed..]) < |more| {
            LocatedAfter(b, c, r, rest[..k], replayed, CommonPrefix(more, Good(stored)[agreed..]));
          }
        } else {
          PrefixStops(o.events, more, Good(stored));
          LocatedHere(b, c, r, rest[..k], replayed, agreed);
        }
      }
    }
  }

  lemma RunNo(b: Book)
    requires BookInvariant.Ok(b)
    ensures Run(b, []) == Outcome(b, []) && forall s: seq<Event> :: CommonPrefix([], s) == 0
  {
  }

  lemma LocatedHere(b: Book, c: Command, r: ReplayResult, rest: seq<Command>, replayed: nat, n: nat)
    requires BookInvariant.Ok(b) && BookInvariant.Ok(Step(b, c).book)
    requires r.failure.Some? && r.commandsReplayed == replayed && r.failure.value.index == n < |Step(b, c).events|
    requires r.failure.value.before == Some(SnapshotOf(b)) && r.failure.value.after == Some(SnapshotOf(Step(b, c).book))
    ensures Located(b, r, [c] + rest, replayed, n)
  {
    hide Step, Run, BookInvariant.Ok, SnapshotOf;
    RunNo(b);
    RunOne(b, c);
    assert ([c] + rest)[..0] == [] && ([c] + rest)[..1] == [c];
  }

  lemma LocatedAfter(b: Book, c: Command, r: ReplayResult, rest: seq<Command>, replayed: nat, n: nat)
    requires BookInvariant.Ok(b) && BookInvariant.Ok(Step(b, c).book)
    requires Located(Step(b, c).book, r, rest, replayed + 1, n)
    ensures Located(b, r, [c] + rest, replayed, |Step(b, c).events| + n)
  {
    hide Step, Run, BookInvariant.Ok, SnapshotOf;
    var j := r.commandsReplayed - replayed - 1;
    RunOne(b, c);
    RunConcat(b, [c], rest[..j]);
    RunConcat(b, [c], rest[..j + 1]);
    assert ([c] + rest)[..j + 1] == [c] + rest[..j] && ([c] + rest)[..j + 2] == [c] + rest[..j + 1];
  }

  lemma PartsAround(f: Failure, c: Command, events: seq<Event>, stored: seq<Event>, fails: bool, n: nat,
                    before: Snapshot, after: Snapshot)
    requires Parts(f, c, events, stored, fails, n)
    ensures Parts(f.Around(before, after), c, events, stored, fails, n)
  {
    hide Compare;
  }

  lemma UnfoldGood<T>(log: seq<Option<T>>)
    ensures log == [] || log[0].None? ==> Good(log) == []
    ensures log == [] ==> !Fails(log)
    ensures log != [] && log[0].None? ==> Fails(log)
    ensures log != [] && log[0].Some? ==>
      Good(log) == [log[0].value] + Good(log[1..]) && (Fails(log) <==> Fails(log[1..]))
  {
    GoodLength(log);
  }

  lemma UnfoldReach(previous: Option<u64>, c: Command, rest: seq<Command>)
    ensures Reach(previous, [c] + rest) ==
      if previous.Some? && c.commandSequence != Add64(previous.value, 1) then 0
      else 1 + Reach(Some(c.commandSequence), rest)
  {
    assert ([c] + rest)[1..] == rest;
  }

  lemma ExactAtEnd(b: Book, stored: seq<Option<Event>>, previous: Option<u64>, replayed: nat, compared: nat)
    requires BookInvariant.Ok(b)
    ensures Exact(ReplayFrom(b, [], stored, previous, replayed, compared), Run(b, []).events,
                  Good(stored), Fails(stored), previous, [], false, replayed, compared)
  {
    hide Fails;
    UnfoldGood(stored);
  }

  lemma ExactAtUnread(b: Book, commands: seq<Option<Command>>, stored: seq<Option<Event>>, previous: Option<u64>,
                      replayed: nat, compared: nat)
    requires BookInvariant.Ok(b) && commands != [] && commands[0].None?
    ensures Exact(ReplayFrom(b, commands, stored, previous, replayed, compared), Run(b, []).events,
                  Good(stored), Fails(stored), previous, [], true, replayed, compared)
  {
    hide Fails, Good;
  }

  lemma ExactAtBreak(b: Book, c: Command, commands: seq<Option<Command>>, stored: seq<Option<Event>>,
                     previous: Option<u64>, replayed: nat, compared: nat)
    requires BookInvariant.Ok(b) && commands != [] && commands[0] == Some(c) && previous.Some?
    requires c.commandSequence != Add64(previous.value, 1)
    ensures Exact(ReplayFrom(b, commands, stored, previous, replayed, compared), Run(b, []).events,
                  Good(stored), Fails(stored), previous, [c] + Good(commands[1..]), Fails(commands), replayed, compared)
  {
    hide Fails, Good, Add64, Step;
  }

  lemma ExactAfterStep(r: ReplayResult, events: seq<Event>, more: seq<Event>, stored: seq<Event>, storedFails: bool,
                       previous: Option<u64>, c: Command, rest: seq<Command>, commandsFail: bool, replayed: nat, compared: nat)
    requires previous.Some? ==> c.commandSequence == Add64(previous.value, 1)
    requires Exact(r, more, stored, storedFails, Some(c.commandSequence), rest, commandsFail, replayed + 1, compared + |events|)
    ensures Exact(r, events + more, events + stored, storedFails, previous, [c] + rest, commandsFail, replayed, compared)
  {
    hide CommonPrefix, Compare, Add64, Reach;
    UnfoldReach(previous, c, rest);
    PrefixConcat(events, more, stored);
    CommonPrefixIs(more, stored);
  }

  lemma ExactAtMismatch(r: ReplayResult, c: Command, events: seq<Event>, more: seq<Event>, stored: seq<Event>, storedFails: bool,
                        previous: Option<u64>, rest: seq<Command>, commandsFail: bool, replayed: nat, compared: nat)
    requires previous.Some? ==> c.commandSequence == Add64(previous.value, 1)
    requires CommonPrefix(events, stored) < |events|
    requires r.eventsCompared == compared + CommonPrefix(events, stored) && r.commandsReplayed == replayed
    requires r.failure.Some? && Parts(r.failure.value, c, events, stored, storedFails, CommonPrefix(events, stored))
    ensures Exact(r, events + more, stored, storedFails, previous, [c] + rest, commandsFail, replayed, compared)
  {
    hide CommonPrefix, Compare, Add64, Reach;
    UnfoldReach(previous, c, rest);
    PrefixStops(events, more, stored);
  }

  /** With readable logs replay succeeds if and only if the commands follow each other and the stored events are the generated ones. */
  lemma ReplayAccepts(b: Book, commands: seq<Command>, stored: seq<Event>)
    requires BookInvariant.Ok(b)
    ensures var r := ReplayFrom(b, Readable(commands), Readable(stored), None, 0, 0);
      && (r.Ok() <==> Consecutive(None, commands) && stored == Run(b, commands).events)
      && (r.Ok() ==> r.commandsReplayed == |commands| && r.eventsCompared == |stored|)
  {
    hide ReplayFrom, Run, Readable, Good, Fails, Reach, CommonPrefix;
    ReadableGood(commands);
    ReadableGood(stored);
    ReplayVerdict(b, Readable(commands), Readable(stored), None, 0, 0);
    var k := Reach(None, commands);
    var generated := Run(b, commands[..k]).events;
    CommonPrefixIs(generated, stored);
    WholePrefix(stored);
    assert commands[..|commands|] == commands;
  }

  lemma {:induction false} WholePrefix(events: seq<Event>)
    ensures CommonPrefix(events, events) == |events|
  {
    if events != [] {
      WholePrefix(events[1..]);
    }
  }

  lemma {:induction false} PrefixConcat(a: seq<Event>, b: seq<Event>, c: seq<Event>)
    ensures CommonPrefix(a + b, a + c) == |a| + CommonPrefix(b, c)
  {
    if a == [] {
      assert a + b == b && a + c == c;
    } else {
      PrefixConcat(a[1..], b, c);
      assert (a + b)[1..] == a[1..] + b && (a + c)[1..] == a[1..] + c;
    }
  }

  lemma {:induction false} PrefixStops(a: seq<Event>, b: seq<Event>, c: seq<Event>)
    requires CommonPrefix(a, c) < |a|
    ensures CommonPrefix(a + b, c) == CommonPrefix(a, c)
    ensures (a + b)[CommonPrefix(a, c)] == a[CommonPrefix(a, c)]
  {
    if c != [] && a[0] == c[0] {
      PrefixStops(a[1..], b, c[1..]);
      assert (a + b)[1..] == a[1..] + b;
    }
  }
}
