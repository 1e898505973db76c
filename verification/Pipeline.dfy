/** Commands to log, log to engine, events to log, and both logs back through replay. */
module Pipeline {
  import opened Domain
  import opened BookModel
  import opened BookInvariant
  import opened OrderBook
  import opened EventGrammar
  import opened Checksum
  import opened Codec
  import opened WalFormat
  import opened WalScan
  import opened WalReader
  import opened WalSegments
  import opened WalRecovery
  import opened WalWriter
  import CrashSafety
  import opened Replay

  const ORDER_COMMAND: u32 := 200
  const EXECUTION_EVENT: u32 := 300
  const COMMAND_STREAM: u64 := 10
  const EVENT_STREAM: u64 := 20
  const EPOCH: u64 := 1
  const FIRST_SEQUENCE: u64 := 1

  // Records as payload bytes

  /** A signed 64-bit field as the unsigned number its bytes spell. */
  function ToUnsigned(x: i64): u64 {
    if x < 0 then x + U64_LIMIT else x
  }

  function FromUnsigned(x: u64): i64 {
    if x < I64_LIMIT then x else x - U64_LIMIT
  }

  const COMMAND_LAYOUT: seq<nat> := [8, 8, 8, 8, 8, 8, 8, 8, 4, 2, 2, 2, 2, 4]
  const COMMAND_SIZE: nat := 80

  function CommandValues(c: Command): seq<nat> {
    [c.commandSequence, c.ingressEpoch, c.ingressSequence, c.orderId, c.replacementOrderId, c.clientId,
     ToUnsigned(c.price), ToUnsigned(c.quantity), c.instrument, c.commandType, c.side, c.timeInForce, c.reserved, 0]
  }

  function CommandFrom(v: seq<nat>): Command
    requires Fits(COMMAND_LAYOUT, v)
  {
    CommandFits(v);
    Command(v[0], v[1], v[2], v[3], v[4], v[5], FromUnsigned(v[6]), FromUnsigned(v[7]), v[8], v[9], v[10], v[11], v[12])
  }

  lemma CommandFits(v: seq<nat>)
    ensures Fits(COMMAND_LAYOUT, v) <==>
      && |v| == 14
      && v[0] < U64_LIMIT && v[1] < U64_LIMIT && v[2] < U64_LIMIT && v[3] < U64_LIMIT && v[4] < U64_LIMIT
      && v[5] < U64_LIMIT && v[6] < U64_LIMIT && v[7] < U64_LIMIT && v[8] < U32_LIMIT && v[9] < U16_LIMIT
      && v[10] < U16_LIMIT && v[11] < U16_LIMIT && v[12] < U16_LIMIT && v[13] < U32_LIMIT
  {
    Pow256Values();
    hide Pow256;
  }

  lemma LayoutParts()
    ensures Width([8, 8]) == 16 && Width([8, 8, 8, 8]) == 32 && Width([4, 2, 2, 2, 2, 4]) == 16
  {
    assert Width([8]) == 8 && Width([4]) == 4 && [8, 8][1..] == [8] && [2, 4][1..] == [4];
    WidthConcat([8, 8], [8, 8]);
    assert [8, 8] + [8, 8] == [8, 8, 8, 8];
    assert Width([2, 4]) == 6 && [4, 2][1..] == [2] && [2, 2][1..] == [2] && Width([2]) == 2;
    WidthConcat([2, 2], [2, 4]);
    WidthConcat([4, 2], [2, 2] + [2, 4]);
    assert [4, 2] + ([2, 2] + [2, 4]) == [4, 2, 2, 2, 2, 4];
  }

  lemma CommandLayout()
    ensures Width(COMMAND_LAYOUT) == COMMAND_SIZE
  {
    hide Width;
    LayoutParts();
    WidthConcat([8, 8, 8, 8], [4, 2, 2, 2, 2, 4]);
    WidthConcat([8, 8, 8, 8], [8, 8, 8, 8] + [4, 2, 2, 2, 2, 4]);
    assert COMMAND_LAYOUT == [8, 8, 8, 8] + ([8, 8, 8, 8] + [4, 2, 2, 2, 2, 4]);
  }

  function EncodeCommand(c: Command): (bytes: seq<byte>)
    ensures |bytes| == COMMAND_SIZE
  {
    CommandLayout();
    Pack(COMMAND_LAYOUT, CommandValues(c))
  }

  function DecodeCommand(bytes: seq<byte>): Command
    requires |bytes| == COMMAND_SIZE
  {
    CommandLayout();
    PackUnpack(COMMAND_LAYOUT, bytes);
    CommandFrom(Unpack(COMMAND_LAYOUT, bytes))
  }

  lemma CommandRoundTrip(c: Command)
    ensures DecodeCommand(EncodeCommand(c)) == c
  {
    hide Pack, Unpack, Width, Fits;
    CommandFits(CommandValues(c));
    CommandLayout();
    UnpackPack(COMMAND_LAYOUT, CommandValues(c));
  }

  const EVENT_LAYOUT: seq<nat> := [8, 8, 8, 8, 8, 8, 8, 8, 8, 8, 4, 2, 2, 2, 2, 4]
  const EVENT_SIZE: nat := 96

  function EventValues(e: Event): seq<nat> {
    [e.eventSequence, e.commandSequence, e.ingressEpoch, e.ingressSequence, e.orderId, e.contraOrderId, e.tradeId,
     ToUnsigned(e.price), ToUnsigned(e.quantity), ToUnsigned(e.remaining), e.instrument, e.eventType, e.side,
     e.rejectionReason, e.reserved, 0]
  }

  function EventFrom(v: seq<nat>): Event
    requires Fits(EVENT_LAYOUT, v)
  {
    EventFits(v);
    Event(v[0], v[1], v[2], v[3], v[4], v[5], v[6], FromUnsigned(v[7]), FromUnsigned(v[8]), FromUnsigned(v[9]),
          v[10], v[11], v[12], v[13], v[14])
  }

  lemma EventFits(v: seq<nat>)
    ensures Fits(EVENT_LAYOUT, v) <==>
      && |v| == 16
      && v[0] < U64_LIMIT && v[1] < U64_LIMIT && v[2] < U64_LIMIT && v[3] < U64_LIMIT && v[4] < U64_LIMIT
      && v[5] < U64_LIMIT && v[6] < U64_LIMIT && v[7] < U64_LIMIT && v[8] < U64_LIMIT && v[9] < U64_LIMIT
      && v[10] < U32_LIMIT && v[11] < U16_LIMIT && v[12] < U16_LIMIT && v[13] < U16_LIMIT && v[14] < U16_LIMIT
      && v[15] < U32_LIMIT
  {
    Pow256Values();
    hide Pow256;
  }

  lemma EventLayout()
    ensures Width(EVENT_LAYOUT) == EVENT_SIZE
  {
    hide Width;
    LayoutParts();
    CommandLayout();
    WidthConcat([8, 8], COMMAND_LAYOUT);
    assert EVENT_LAYOUT == [8, 8] + COMMAND_LAYOUT;
  }

  function EncodeEvent(e: Event): (bytes: seq<byte>)
    ensures |bytes| == EVENT_SIZE
  {
    EventLayout();
    Pack(EVENT_LAYOUT, EventValues(e))
  }

  function DecodeEvent(bytes: seq<byte>): Event
    requires |bytes| == EVENT_SIZE
  {
    EventLayout();
    PackUnpack(EVENT_LAYOUT, bytes);
    EventFrom(Unpack(EVENT_LAYOUT, bytes))
  }

  lemma EventRoundTrip(e: Event)
    ensures DecodeEvent(EncodeEvent(e)) == e
  {
    hide Pack, Unpack, Width, Fits;
    EventFits(EventValues(e));
    EventLayout();
    UnpackPack(EVENT_LAYOUT, EventValues(e));
  }

  // Logs of records

  function CommandEntry(c: Command): Entry {
    Entry(ORDER_COMMAND, EncodeCommand(c))
  }

  function EventEntry(e: Event): Entry {
    Entry(EXECUTION_EVENT, EncodeEvent(e))
  }

  function CommandEntries(commands: seq<Command>): seq<Entry> {
    seq(|commands|, i requires 0 <= i < |commands| => CommandEntry(commands[i]))
  }

  function EventEntries(events: seq<Event>): seq<Entry> {
    seq(|events|, i requires 0 <= i < |events| => EventEntry(events[i]))
  }

  /** Reading a delivered record as a command: type and size are checked, nothing else. */
  function ReadCommand(d: Delivered): Option<Command> {
    if d.recordType != ORDER_COMMAND || |d.payload| != COMMAND_SIZE then None else Some(DecodeCommand(d.payload))
  }

  function ReadEvent(d: Delivered): Option<Event> {
    if d.recordType != EXECUTION_EVENT || |d.payload| != EVENT_SIZE then None else Some(DecodeEvent(d.payload))
  }

  /** What the replay adapter delivers: the records, then a failed read unless the log simply ended. */
  function CommandLog(records: seq<Delivered>, stop: WalError): seq<Option<Command>> {
    seq(|records|, i requires 0 <= i < |records| => ReadCommand(records[i])) + if stop == WalError.EndOfLog then [] else [None]
  }

  function EventLog(records: seq<Delivered>, stop: WalError): seq<Option<Event>> {
    seq(|records|, i requires 0 <= i < |records| => ReadEvent(records[i])) + if stop == WalError.EndOfLog then [] else [None]
  }

  lemma {:induction false} DeliveryAt(stream: u64, epoch: u64, sequence: u64, entries: seq<Entry>, i: nat)
    requires i < |entries|
    ensures var d := Deliveries(stream, epoch, sequence, entries);
      |d| == |entries| && d[i].recordType == entries[i].recordType && d[i].payload == entries[i].payload
    decreases |entries|
  {
    hide Add64;
    if |entries| > 1 {
      DeliveryAt(stream, epoch, Add64(sequence, 1), entries[1..], if i > 0 then i - 1 else 0);
    } else {
      assert Deliveries(stream, epoch, Add64(sequence, 1), entries[1..]) == [];
    }
  }

  /** Commands written to a log and read back are the same commands. */
  lemma CommandsSurvive(sequence: u64, commands: seq<Command>)
    ensures CommandLog(Deliveries(COMMAND_STREAM, EPOCH, sequence, CommandEntries(commands)), WalError.EndOfLog) == Readable(commands)
  {
    hide EncodeCommand, DecodeCommand, Deliveries;
    var entries := CommandEntries(commands);
    var records := Deliveries(COMMAND_STREAM, EPOCH, sequence, entries);
    DeliveriesLength(COMMAND_STREAM, EPOCH, sequence, entries);
    forall i | 0 <= i < |commands|
      ensures ReadCommand(records[i]) == Some(commands[i])
    {
      DeliveryAt(COMMAND_STREAM, EPOCH, sequence, entries, i);
      CommandRoundTrip(commands[i]);
    }
  }

  lemma EventsSurvive(sequence: u64, events: seq<Event>)
    ensures EventLog(Deliveries(EVENT_STREAM, EPOCH, sequence, EventEntries(events)), WalError.EndOfLog) == Readable(events)
  {
    hide EncodeEvent, DecodeEvent, Deliveries;
    var entries := EventEntries(events);
    var records := Deliveries(EVENT_STREAM, EPOCH, sequence, entries);
    DeliveriesLength(EVENT_STREAM, EPOCH, sequence, entries);
    forall i | 0 <= i < |events|
      ensures ReadEvent(records[i]) == Some(events[i])
    {
      DeliveryAt(EVENT_STREAM, EPOCH, sequence, entries, i);
      EventRoundTrip(events[i]);
    }
  }

  // The program

  /** `n` bytes fit on a stream that takes `budget` bytes before it fails. */
  predicate Room(budget: Option<nat>, n: nat) {
    budget.None? || n <= budget.value
  }

  /** What is in the file of a stream with that budget after `data` was written to it. */
  function Written(data: seq<byte>, budget: Option<nat>): seq<byte> {
    if Room(budget, |data|) then data else data[..budget.value]
  }

  /** A writer on a healthy new file after appending `entries`. */
  ghost predicate Holds(w: Writer, stream: u64, first: u64, entries: seq<Entry>, budget: Option<nat>) {
    var segment := Segment(stream, EPOCH, first, entries);
    && w.error == NoError && !w.file.bad
    && w.stream == stream && w.epoch == EPOCH && w.next == Add64(first, |entries|)
    && w.file.bytes == segment && Room(budget, |segment|)
    && w.file.budget == if budget.None? then None else Some(budget.value - |segment|)
  }

  lemma NewLogHolds(stream: u64, first: u64, budget: Option<nat>)
    ensures var w := Open([], stream, EPOCH, first, false, budget);
      var segment := Segment(stream, EPOCH, first, []);
      if Room(budget, |segment|) then Holds(w, stream, first, [], budget)
      else w.error != NoError && w.file.bytes == Written(segment, budget)
  {
    hide EncodeSegmentHeader, MakeSegmentHeader;
    var header := EncodeSegmentHeader(MakeSegmentHeader(stream, EPOCH, first));
    assert Segment(stream, EPOCH, first, []) == header + [] == header == [] + header;
    assert forall n | 0 <= n <= |header| :: [] + header[..n] == header[..n];
    Add64Add(first, 0, 0);
  }

  lemma AppendHolds(w: Writer, stream: u64, first: u64, entries: seq<Entry>, e: Entry, budget: Option<nat>)
    requires Holds(w, stream, first, entries, budget)
    ensures var segment := Segment(stream, EPOCH, first, entries + [e]);
      if Room(budget, |segment|) then Append(w, e).1.Appended? && Holds(Append(w, e).0, stream, first, entries + [e], budget)
      else Append(w, e).1.AppendFailed? && Append(w, e).0.file.bytes == Written(segment, budget)
  {
    hide EncodeRecord, Segment, Add64;
    SegmentAppend(stream, EPOCH, first, entries, e);
    Add64Add(first, |entries|, 1);
    var before, record := Segment(stream, EPOCH, first, entries), EncodeRecord(stream, EPOCH, Add64(first, |entries|), e);
    if !Room(budget, |before + record|) {
      assert (before + record)[..budget.value] == before + record[..budget.value - |before|];
    }
  }

  /** A stream that is full within a first part of the log holds the same bytes as if it were all written. */
  lemma FullEarly(stream: u64, first: u64, entries: seq<Entry>, n: nat, budget: Option<nat>)
    requires n <= |entries| && !Room(budget, |Segment(stream, EPOCH, first, entries[..n])|)
    ensures var segment := Segment(stream, EPOCH, first, entries);
      && !Room(budget, |segment|)
      && Written(Segment(stream, EPOCH, first, entries[..n]), budget) == Written(segment, budget)
  {
    hide Segment;
    CrashSafety.BytesGrow(CrashSafety.Id(stream, EPOCH, first), entries, n);
  }

  /**
   Writes `entries` to a new log on a stream that takes `budget` bytes; an empty log is not committed. The
   file holds as much of the segment as the stream took, and success means that all of it is there,
   except that an empty log is reported written whatever became of its header.
   */
  method WriteLog(stream: u64, first: u64, entries: seq<Entry>, budget: Option<nat>, flushFails: bool)
    returns (ok: bool, bytes: seq<byte>)
    ensures bytes == Written(Segment(stream, EPOCH, first, entries), budget)
    ensures ok <==> entries == [] || (Room(budget, |Segment(stream, EPOCH, first, entries)|) && !flushFails)
  {
    hide Segment, Append, Open, Add64, Written;
    var writer := new WalSegmentWriter(NoFile, stream, EPOCH, first, false, budget);
    NewLogHolds(stream, first, budget);
    assert entries[..0] == [];
    for i := 0 to |entries|
      invariant fresh(writer) && fresh(writer.file)
      invariant Holds(writer.Abs(), stream, first, entries[..i], budget)
                || (i == 0 && writer.writerError != NoError && !Room(budget, |Segment(stream, EPOCH, first, [])|)
                    && writer.file.bytes == Written(Segment(stream, EPOCH, first, []), budget))
    {
      if writer.writerError != NoError {
        FullEarly(stream, first, entries, 0, budget);
        LatchedAppend(writer.Abs(), entries[i]);
      } else {
        AppendHolds(writer.Abs(), stream, first, entries[..i], entries[i], budget);
        assert entries[..i + 1] == entries[..i] + [entries[i]];
        if !Room(budget, |Segment(stream, EPOCH, first, entries[..i + 1])|) {
          FullEarly(stream, first, entries, i + 1, budget);
        }
      }
      var appended := writer.AppendRecord(entries[i]);
      ok, bytes := appended.Appended?, writer.file.bytes;
      if !ok {
        return;
      }
    }
    assert entries[..|entries|] == entries;
    WrittenWhole(Segment(stream, EPOCH, first, entries), budget);
    if entries == [] {
      return true, writer.file.bytes;
    }
    var committed := writer.CommitRecords(flushFails);
    return committed.Committed?, writer.file.bytes;
  }

  lemma LatchedAppend(w: Writer, e: Entry)
    requires w.error != NoError
    ensures Append(w, e) == (w, AppendFailed(w.error, w.last))
  {
  }

  lemma WrittenWhole(data: seq<byte>, budget: Option<nat>)
    ensures Room(budget, |data|) ==> Written(data, budget) == data
  {
  }

  method WriteCommands(commands: seq<Command>, budget: Option<nat>, flushFails: bool) returns (ok: bool, bytes: seq<byte>)
    ensures var segment := Segment(10, 1, if commands == [] then 1 else commands[0].commandSequence, CommandEntries(commands));
      && bytes == Written(segment, budget)
      && (ok <==> commands == [] || (Room(budget, |segment|) && !flushFails))
  {
    ok, bytes := WriteLog(COMMAND_STREAM, FirstOf(commands), CommandEntries(commands), budget, flushFails);
  }

  function FirstOf(commands: seq<Command>): u64 {
    if commands == [] then FIRST_SEQUENCE else commands[0].commandSequence
  }

  function FirstEventOf(events: seq<Event>): u64 {
    if events == [] then FIRST_SEQUENCE else events[0].eventSequence
  }

  method WriteEvents(events: seq<Event>, budget: Option<nat>, flushFails: bool) returns (ok: bool, bytes: seq<byte>)
    ensures var segment := Segment(20, 1, if events == [] then 1 else events[0].eventSequence, EventEntries(events));
      && bytes == Written(segment, budget)
      && (ok <==> events == [] || (Room(budget, |segment|) && !flushFails))
  {
    ok, bytes := WriteLog(EVENT_STREAM, FirstEventOf(events), EventEntries(events), budget, flushFails);
  }

  method RunEngine(commands: seq<Command>) returns (events: seq<Event>)
    ensures events == Run(Fresh(1), commands).events
  {
    hide Step, Run, Ok;
    var engine := new InstrumentEngine(FIRST_SEQUENCE);
    events := [];
    RunNothing();
    for i := 0 to |commands|
      invariant fresh(engine.book) && engine.Valid()
      invariant Outcome(engine.book.Abs(), events) == Run(Fresh(FIRST_SEQUENCE), commands[..i])
    {
      RunConcat(Fresh(FIRST_SEQUENCE), commands[..i], [commands[i]]);
      RunOne(engine.book.Abs(), commands[i]);
      assert commands[..i + 1] == commands[..i] + [commands[i]];
      var more := engine.Apply(commands[i]);
      events := events + more;
    }
    assert commands[..|commands|] == commands;
  }

  lemma RunNothing()
    ensures BookInvariant.Ok(Fresh(FIRST_SEQUENCE)) && Run(Fresh(FIRST_SEQUENCE), []) == Outcome(Fresh(FIRST_SEQUENCE), [])
  {
  }

  /** The replay of two logs on a fresh engine. */
  ghost function ReplayOf(commands: seq<Option<Command>>, events: seq<Option<Event>>): ReplayResult {
    RunNothing();
    ReplayFrom(Fresh(FIRST_SEQUENCE), commands, events, None, 0, 0)
  }

  /** Replays two log files on a fresh engine. */
  method ReplayWals(commandBytes: seq<byte>, eventBytes: seq<byte>) returns (result: ReplayResult)
    ensures var c, e := ReadFile(commandBytes), ReadFile(eventBytes);
      result == ReplayOf(CommandLog(c.records, c.stop), EventLog(e.records, e.stop))
  {
    hide ReadFile, ReplayFrom, CommandLog, EventLog;
    RunNothing();
    var commandReader := new SegmentReader(Some(commandBytes));
    var commands, commandStop := Drain(commandReader);
    var eventReader := new SegmentReader(Some(eventBytes));
    var events, eventStop := Drain(eventReader);
    var commandLog := new LogReader(CommandLog(commands, commandStop));
    var eventLog := new LogReader(EventLog(events, eventStop));
    var engine := new InstrumentEngine(FIRST_SEQUENCE);
    result := Replay.Replay(commandLog, eventLog, engine);
  }

  /**
   The whole program: commands with consecutive non-zero sequences are written, run, and the two logs
   read back and replayed. The replay always agrees, command for command and event for event.
   */
  method RunScenario(commands: seq<Command>) returns (result: ReplayResult)
    requires Consecutive(None, commands) && FirstOf(commands) != 0
    requires FirstOf(commands) + |commands| <= U64_LIMIT
    requires |Run(Fresh(FIRST_SEQUENCE), commands).events| < U64_LIMIT
    ensures result.Ok() && result.commandsReplayed == |commands|
    ensures result.eventsCompared == |Run(Fresh(FIRST_SEQUENCE), commands).events|
  {
    hide ReplayFrom, Segment, ReadFile, Run, CommandEntries, EventEntries, CommandLog, EventLog, Deliveries, Consecutive, Writable;
    RunNothing();
    var wroteCommands, commandBytes := WriteCommands(commands, None, false);
    var events := RunEngine(commands);
    var wroteEvents, eventBytes := WriteEvents(events, None, false);
    CommandsReadBack(commands);
    FirstEvent(commands);
    EventsReadBack(events);
    result := ReplayWals(commandBytes, eventBytes);
    ReplayAccepts(Fresh(FIRST_SEQUENCE), commands, events);
  }

  /** A log of commands reads back as those commands. */
  lemma CommandsReadBack(commands: seq<Command>)
    requires FirstOf(commands) != 0 && FirstOf(commands) + |commands| <= U64_LIMIT
    ensures var c := ReadFile(Segment(COMMAND_STREAM, EPOCH, FirstOf(commands), CommandEntries(commands)));
      CommandLog(c.records, c.stop) == Readable(commands)
  {
    hide ReadFile, Segment, CommandLog, Deliveries;
    SmallPayloads(commands, []);
    WriteReadRoundTrip(COMMAND_STREAM, EPOCH, FirstOf(commands), CommandEntries(commands));
    CommandsSurvive(FirstOf(commands), commands);
  }

  /** A log of events that starts at event 1 reads back as those events. */
  lemma EventsReadBack(events: seq<Event>)
    requires |events| < U64_LIMIT
    ensures var e := ReadFile(Segment(EVENT_STREAM, EPOCH, FIRST_SEQUENCE, EventEntries(events)));
      EventLog(e.records, e.stop) == Readable(events)
  {
    hide ReadFile, Segment, EventLog, Deliveries;
    SmallPayloads([], events);
    WriteReadRoundTrip(EVENT_STREAM, EPOCH, FIRST_SEQUENCE, EventEntries(events));
    EventsSurvive(FIRST_SEQUENCE, events);
  }

  lemma SmallPayloads(commands: seq<Command>, events: seq<Event>)
    ensures Writable(CommandEntries(commands)) && Writable(EventEntries(events))
  {
    hide EncodeCommand, EncodeEvent;
  }

  /** The program's records of 80 and 96 bytes need no padding, so its logs never end in a fragment of it. */
  lemma ProgramNeverFragment(id: CrashSafety.Id, s: CrashSafety.Sys, commands: seq<Command>, events: seq<Event>)
    requires s.log == CommandEntries(commands) || s.log == EventEntries(events)
    ensures !CrashSafety.Fragment(id, s)
  {
    hide EncodeCommand, EncodeEvent, CrashSafety.Fragment;
    SmallPayloads(commands, events);
    CrashSafety.UnpaddedNeverFragment(id, s);
  }

  lemma FirstEvent(commands: seq<Command>)
    ensures var events := Run(Fresh(FIRST_SEQUENCE), commands).events;
      events != [] ==> events[0].eventSequence == FIRST_SEQUENCE
  {
    hide Run;
    RunNothing();
    RunNumbered(Fresh(FIRST_SEQUENCE), commands);
    var events := Run(Fresh(FIRST_SEQUENCE), commands).events;
    if events != [] {
      assert NumberedAt(events, 0, FIRST_SEQUENCE, 1);
      Add64Add(FIRST_SEQUENCE, 0, 0);
    }
  }
}
