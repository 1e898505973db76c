/** The append writer of one segment: its files, its queues, and its failure latch. */
module WalWriter {
  import opened Domain
  import opened Checksum
  import opened WalFormat
  import opened WalScan
  import opened WalRecovery

  // The output stream

  /** Contents, durable prefix, state bit, and how many more bytes the stream will take before it fails. */
  datatype Out = Out(bytes: seq<byte>, flushed: nat, bad: bool, budget: Option<nat>)

  /** Writing `data`: all of it, or as much as the budget allows and then failure. */
  function Wrote(f: Out, data: seq<byte>): Out {
    if f.bad then f
    else if f.budget.None? then f.(bytes := f.bytes + data)
    else if |data| <= f.budget.value then f.(bytes := f.bytes + data, budget := Some(f.budget.value - |data|))
    else f.(bytes := f.bytes + data[..f.budget.value], bad := true, budget := Some(0))
  }

  lemma WroteConcat(f: Out, a: seq<byte>, b: seq<byte>)
    ensures Wrote(Wrote(f, a), b) == Wrote(f, a + b)
  {
    if !f.bad {
      if f.budget.Some? && |a| <= f.budget.value < |a + b| {
        assert (a + b)[..f.budget.value] == a + b[..f.budget.value - |a|];
      } else if f.budget.Some? && f.budget.value < |a| {
        assert (a + b)[..f.budget.value] == a[..f.budget.value];
      }
      assert f.bytes + a + b == f.bytes + (a + b);
    }
  }

  lemma WroteNothing(f: Out)
    ensures Wrote(f, []) == f
  {
    assert f.bytes + [] == f.bytes;
  }

  class OutputFile {
    var bytes: seq<byte>
    var flushed: nat
    var bad: bool
    var budget: Option<nat>

    constructor (bytes: seq<byte>, bad: bool, budget: Option<nat>)
      ensures Abs() == Out(bytes, |bytes|, bad, budget)
    {
      this.bytes, this.flushed, this.bad, this.budget := bytes, |bytes|, bad, budget;
    }

    function Abs(): Out
      reads this
    {
      Out(bytes, flushed, bad, budget)
    }

    method Write(data: seq<byte>)
      modifies this
      ensures Abs() == Wrote(old(Abs()), data)
    {
      if bad {
        return;
      }
      if budget.None? {
        bytes := bytes + data;
      } else if |data| <= budget.value {
        bytes, budget := bytes + data, Some(budget.value - |data|);
      } else {
        bytes, bad, budget := bytes + data[..budget.value], true, Some(0);
      }
    }

    /** Hands everything to the operating system, unless `fails` says the stream cannot. */
    method Flush(fails: bool)
      modifies this
      ensures Abs() == if old(bad) then old(Abs())
                       else if fails then old(Abs()).(bad := true)
                       else old(Abs()).(flushed := |old(bytes)|)
    {
      if bad {
        return;
      }
      if fails {
        bad := true;
      } else {
        flushed := |bytes|;
      }
    }
  }

  // The writer on values

  datatype AppendResult = Appended(position: Position) | AppendFailed(error: WalError, position: Position)

  datatype CommitResult = Committed(upTo: Position) | CommitFailed(error: WalError, upTo: Position)

  datatype Writer = Writer(
    file: Out,
    stream: u64,
    epoch: u64,
    next: u64,
    last: Position,
    lastCommitted: Position,
    error: WalError,
    pending: seq<Position>,
    committed: seq<Position>)

  function Fail(w: Writer, error: WalError): Writer {
    if w.error == NoError then w.(error := error) else w
  }

  function Append(w: Writer, e: Entry): (Writer, AppendResult) {
    if w.error != NoError then (w, AppendFailed(w.error, w.last))
    else if w.file.bad then (Fail(w, CannotWriteFile), AppendFailed(CannotWriteFile, w.last))
    else
      var wrote := w.(file := Wrote(w.file, EncodeRecord(w.stream, w.epoch, w.next, e)));
      if wrote.file.bad then (Fail(wrote, CannotWriteFile), AppendFailed(CannotWriteFile, w.last))
      else
        var position := Position(w.stream, w.epoch, w.next);
        (wrote.(next := Add64(w.next, 1), last := position, pending := w.pending + [position]), Appended(position))
  }

  function Commit(w: Writer, flushFails: bool): (Writer, CommitResult) {
    if w.error != NoError then (w, CommitFailed(w.error, w.last))
    else if w.file.bad || flushFails then
      (Fail(w.(file := w.file.(bad := true)), CannotFlushFile), CommitFailed(CannotFlushFile, w.last))
    else
      var last := if w.pending == [] then w.lastCommitted else w.pending[|w.pending| - 1];
      (w.(file := w.file.(flushed := |w.file.bytes|), committed := w.committed + w.pending, lastCommitted := last,
          pending := []),
       Committed(last))
  }

  function Pop(w: Writer): (Writer, Option<Position>) {
    if w.committed == [] then (w, None) else (w.(committed := w.committed[1..]), Some(w.committed[0]))
  }

  /** Why an existing file cannot be appended to, or `NoError`. */
  ghost function PrepareError(existing: seq<byte>, stream: u64, epoch: u64, first: u64): WalError {
    if |existing| < SEGMENT_HEADER_SIZE then InvalidSegmentHeader
    else
      var h := DecodeSegmentHeader(existing[..SEGMENT_HEADER_SIZE]);
      if !ValidSegmentFields(h) then InvalidSegmentHeader
      else if h.headerCrc != SegmentHeaderCrc(h) then HeaderChecksumMismatch
      else if h.stream != stream || h.epoch != epoch || h.first != first then InvalidSegmentHeader
      else
        var scan := ScanFile(existing).result;
        if !scan.ok && scan.error != IncompleteTrailingRecord then scan.error else NoError
  }

  /** Opening a writer on a file that holds `existing`; an empty file stands for a missing one too. */
  ghost function Open(existing: seq<byte>, stream: u64, epoch: u64, first: u64, openFails: bool, budget: Option<nat>): Writer {
    var closed := Writer(Out(existing, |existing|, openFails, budget), stream, epoch, first, NOWHERE, NOWHERE, NoError, [], []);
    if existing == [] then
      var wrote := closed.(file := Wrote(closed.file, EncodeSegmentHeader(MakeSegmentHeader(stream, epoch, first))));
      if wrote.file.bad then Fail(wrote, CannotWriteFile) else wrote
    else if PrepareError(existing, stream, epoch, first) != NoError then
      Fail(closed, PrepareError(existing, stream, epoch, first))
    else
      var last := ScanFile(existing).result.lastPosition;
      closed.(file := Out(Recovered(existing), |Recovered(existing)|, openFails, budget),
              last := last, lastCommitted := last,
              next := if last.IsValid() then Add64(last.sequence, 1) else first)
  }

  /** What stands at the path of a segment: nothing, or a file whose contents can or cannot be read, or a directory. */
  datatype Target = NoFile | File(bytes: seq<byte>, readable: bool) | Directory

  function Contents(target: Target): seq<byte> {
    if target.File? then target.bytes else []
  }

  /** Opening a writer on a path. */
  ghost function OpenAt(target: Target, stream: u64, epoch: u64, first: u64, openFails: bool, budget: Option<nat>): Writer {
    var bytes := Contents(target);
    var closed := Writer(Out(bytes, |bytes|, openFails, budget), stream, epoch, first, NOWHERE, NOWHERE, NoError, [], []);
    if target.Directory? then Fail(closed, CannotWriteFile)
    else if bytes != [] && !target.readable then Fail(closed, CannotOpenFile)
    else Open(bytes, stream, epoch, first, openFails, budget)
  }

  // The class

  class WalSegmentWriter {
    var file: OutputFile
    const stream: u64
    const epoch: u64
    var nextSequence: u64
    var lastPosition: Position
    var lastCommittedPosition: Position
    var writerError: WalError
    var pendingPositions: seq<Position>
    var committedPositions: seq<Position>

    ghost function Abs(): Writer
      reads this, file
    {
      Writer(file.Abs(), stream, epoch, nextSequence, lastPosition, lastCommittedPosition, writerError,
             pendingPositions, committedPositions)
    }

    constructor (target: Target, stream: u64, epoch: u64, first: u64, openFails: bool, budget: Option<nat>)
      ensures fresh(file)
      ensures Abs() == OpenAt(target, stream, epoch, first, openFails, budget)
    {
      hide ScanFile, EncodeSegmentHeader, DecodeSegmentHeader, MakeSegmentHeader, SegmentHeaderCrc;
      this.stream, this.epoch, nextSequence := stream, epoch, first;
      lastPosition, lastCommittedPosition, writerError := NOWHERE, NOWHERE, NoError;
      pendingPositions, committedPositions := [], [];
      file := new OutputFile(Contents(target), openFails, budget);
      new;
      if target.Directory? {
        FailWriter(CannotWriteFile);
        return;
      }
      var shouldWriteHeader := Contents(target) == [];
      if !shouldWriteHeader {
        writerError := PrepareExistingSegment(target.readable, first, openFails, budget);
        if writerError != NoError {
          return;
        }
      }
      if shouldWriteHeader {
        WriteSegmentHeader();
        if file.bad {
          FailWriter(CannotWriteFile);
        }
      }
    }

    method FailWriter(error: WalError)
      modifies this`writerError
      ensures writerError == if old(writerError) == NoError then error else old(writerError)
    {
      if writerError == NoError {
        writerError := error;
      }
    }

    method WriteSegmentHeader()
      modifies file
      ensures file.Abs() == Wrote(old(file.Abs()), EncodeSegmentHeader(MakeSegmentHeader(stream, epoch, nextSequence)))
    {
      hide EncodeSegmentHeader, MakeSegmentHeader;
      file.Write(EncodeSegmentHeader(MakeSegmentHeader(stream, epoch, nextSequence)));
    }

    /** Checks, scans and if need be truncates the file before appending goes on behind its last record. */
    method PrepareExistingSegment(readable: bool, first: u64, openFails: bool, budget: Option<nat>) returns (error: WalError)
      modifies this`file, this`lastPosition, this`lastCommittedPosition, this`nextSequence
      ensures var existing := old(file.bytes);
        && error == (if readable then PrepareError(existing, stream, epoch, first) else CannotOpenFile)
        && (error != NoError ==> unchanged(this))
        && (error == NoError ==>
              && fresh(file) && file.Abs() == Out(Recovered(existing), |Recovered(existing)|, openFails, budget)
              && lastPosition == ScanFile(existing).result.lastPosition && lastCommittedPosition == lastPosition
              && nextSequence == if lastPosition.IsValid() then Add64(lastPosition.sequence, 1) else first)
    {
      hide ScanFile, DecodeSegmentHeader, SegmentHeaderCrc, ValidSegmentFields;
      if !readable {
        return CannotOpenFile;
      }
      var existing := file.bytes;
      if |existing| < SEGMENT_HEADER_SIZE {
        return InvalidSegmentHeader;
      }
      var h := DecodeSegmentHeader(existing[..SEGMENT_HEADER_SIZE]);
      if !ValidSegmentFields(h) {
        return InvalidSegmentHeader;
      }
      if h.headerCrc != SegmentHeaderCrc(h) {
        return HeaderChecksumMismatch;
      }
      if h.stream != stream || h.epoch != epoch || h.first != first {
        return InvalidSegmentHeader;
      }
      ScanInside(existing);
      ScanVerdict(existing);
      var scan, accepted := ScanSegment(Some(existing));
      if !scan.ok && scan.error != IncompleteTrailingRecord {
        return scan.error;
      }
      var kept := existing;
      if scan.error == IncompleteTrailingRecord {
        kept := existing[..scan.lastOffset];
      }
      file := new OutputFile(kept, openFails, budget);
      lastPosition := scan.lastPosition;
      lastCommittedPosition := lastPosition;
      nextSequence := if lastPosition.IsValid() then Add64(lastPosition.sequence, 1) else h.first;
      return NoError;
    }

    method AppendRecord(e: Entry) returns (r: AppendResult)
      modifies this, file
      ensures file == old(file) && (Abs(), r) == Append(old(Abs()), e)
    {
      if writerError != NoError {
        return AppendFailed(writerError, lastPosition);
      }
      if file.bad {
        FailWriter(CannotWriteFile);
        return AppendFailed(CannotWriteFile, lastPosition);
      }
      r := WriteRecord(e);
    }

    method WriteRecord(e: Entry) returns (r: AppendResult)
      requires writerError == NoError && !file.bad
      modifies this, file
      ensures file == old(file) && (Abs(), r) == Append(old(Abs()), e)
    {
      hide EncodeRecordHeader, MakeHeader, Padding, Wrote;
      ghost var before := file.Abs();
      var header := MakeHeader(stream, epoch, nextSequence, e);
      file.Write(EncodeRecordHeader(header));
      WroteNothing(file.Abs());
      if e.payload != [] {
        file.Write(e.payload);
      }
      WroteConcat(before, EncodeRecordHeader(header), e.payload);
      var padding := Padding(e);
      WroteNothing(file.Abs());
      assert Zeros(0) == [];
      if padding != 0 {
        file.Write(Zeros(padding));
      }
      WroteConcat(before, EncodeRecordHeader(header) + e.payload, Zeros(padding));
      if file.bad {
        FailWriter(CannotWriteFile);
        return AppendFailed(CannotWriteFile, lastPosition);
      }
      lastPosition := Position(stream, epoch, nextSequence);
      nextSequence := Add64(nextSequence, 1);
      pendingPositions := pendingPositions + [lastPosition];
      return Appended(lastPosition);
    }

    method CommitRecords(flushFails: bool) returns (r: CommitResult)
      modifies this, file
      ensures file == old(file) && (Abs(), r) == Commit(old(Abs()), flushFails)
    {
      if writerError != NoError {
        return CommitFailed(writerError, lastPosition);
      }
      file.Flush(flushFails);
      if file.bad {
        FailWriter(CannotFlushFile);
        return CommitFailed(CannotFlushFile, lastPosition);
      }
      ghost var committed := committedPositions;
      for i := 0 to |pendingPositions|
        invariant file == old(file) && writerError == NoError && pendingPositions == old(pendingPositions)
        invariant nextSequence == old(nextSequence) && lastPosition == old(lastPosition)
        invariant committedPositions == committed + pendingPositions[..i]
        invariant lastCommittedPosition == if i == 0 then old(lastCommittedPosition) else pendingPositions[i - 1]
        modifies this
      {
        committedPositions := committedPositions + [pendingPositions[i]];
        lastCommittedPosition := pendingPositions[i];
      }
      assert pendingPositions[..|pendingPositions|] == pendingPositions;
      pendingPositions := [];
      return Committed(lastCommittedPosition);
    }

    method PopCommittedPosition() returns (popped: Option<Position>)
      modifies this
      ensures file == old(file) && (Abs(), popped) == Pop(old(Abs()))
    {
      if committedPositions == [] {
        return None;
      }
      popped := Some(committedPositions[0]);
      committedPositions := committedPositions[1..];
    }
  }

  // Publication over whole runs

  datatype Op = AppendOp(e: Entry) | CommitOp(flushFails: bool) | PopOp | BreakStream(budget: nat)

  /** A run so far: the writer, what was popped, how much was appended, how much a commit has covered. */
  datatype Session = Session(w: Writer, popped: seq<Position>, appended: nat, covered: nat)

  /** One operation; `BreakStream` lets the environment limit what the stream will still take. */
  function Do(s: Session, op: Op): Session {
    match op
    case AppendOp(e) =>
      var (w, r) := Append(s.w, e);
      s.(w := w, appended := s.appended + if r.Appended? then 1 else 0)
    case CommitOp(flushFails) =>
      var (w, r) := Commit(s.w, flushFails);
      s.(w := w, covered := if r.Committed? then s.appended else s.covered)
    case PopOp =>
      var (w, popped) := Pop(s.w);
      s.(w := w, popped := s.popped + if popped.Some? then [popped.value] else [])
    case BreakStream(budget) =>
      s.(w := s.w.(file := s.w.file.(budget := Some(budget))))
  }

  function DoAll(s: Session, ops: seq<Op>): Session
    decreases |ops|
  {
    if ops == [] then s else Do(DoAll(s, ops[..|ops| - 1]), ops[|ops| - 1])
  }

  /** `n` consecutive positions from `sequence`. */
  function Positions(stream: u64, epoch: u64, sequence: u64, n: nat): seq<Position> {
    seq(n, i requires 0 <= i < n => Position(stream, epoch, Add64(sequence, i)))
  }

  /** The position of the `n`-th record appended since `start`, or `before` when there is none. */
  function Nth(start: Writer, n: nat, before: Position): Position {
    if n == 0 then before else Position(start.stream, start.epoch, Add64(start.next, n - 1))
  }

  ghost predicate Published(s: Session, start: Writer) {
    && s.w.stream == start.stream && s.w.epoch == start.epoch
    && s.covered <= s.appended
    && s.popped + s.w.committed == Positions(start.stream, start.epoch, start.next, s.covered)
    && s.w.pending == Positions(start.stream, start.epoch, start.next, s.appended)[s.covered..]
    && s.w.next == Add64(start.next, s.appended)
    && s.w.last == Nth(start, s.appended, start.last)
    && s.w.lastCommitted == Nth(start, s.covered, start.lastCommitted)
  }

  lemma DoKeepsPublished(s: Session, start: Writer, op: Op)
    requires Published(s, start)
    ensures Published(Do(s, op), start)
    ensures s.w.error != NoError ==>
      && Do(s, op).w.error == s.w.error
      && Do(s, op).appended == s.appended && Do(s, op).covered == s.covered && Do(s, op).w.pending == s.w.pending
  {
    hide EncodeRecord, Wrote, Add64;
    Add64Add(start.next, s.appended, 1);
    MorePositions(start.stream, start.epoch, start.next, s.appended);
    var all := Positions(start.stream, start.epoch, start.next, s.appended);
    assert all[..s.covered] == Positions(start.stream, start.epoch, start.next, s.covered);
    assert all == all[..s.covered] + all[s.covered..];
    assert all[s.appended..] == [];
    if op.PopOp? && s.w.committed != [] {
      assert s.w.committed == [s.w.committed[0]] + s.w.committed[1..];
      assert s.popped + s.w.committed == (s.popped + [s.w.committed[0]]) + s.w.committed[1..];
    }
    assert s.popped + (s.w.committed + s.w.pending) == (s.popped + s.w.committed) + s.w.pending;
  }

  lemma MorePositions(stream: u64, epoch: u64, sequence: u64, n: nat)
    ensures Positions(stream, epoch, sequence, n + 1)
      == Positions(stream, epoch, sequence, n) + [Position(stream, epoch, Add64(sequence, n))]
  {
  }

  /**
   Over any run of appends, commits and pops on a stream that may fail at any byte: what was popped, is
   committed and is pending is one contiguous run of positions, nothing was popped or committed that no
   successful commit covered, and everything appended is in it.
   */
  lemma {:induction false} Publication(start: Writer, ops: seq<Op>)
    requires start.pending == [] && start.committed == []
    ensures var s := DoAll(Session(start, [], 0, 0), ops);
      && s.covered <= s.appended
      && s.popped + s.w.committed == Positions(start.stream, start.epoch, start.next, s.covered)
      && s.popped + s.w.committed + s.w.pending == Positions(start.stream, start.epoch, start.next, s.appended)
      && s.w.last == Nth(start, s.appended, start.last)
      && s.w.lastCommitted == Nth(start, s.covered, start.lastCommitted)
  {
    RunPublished(start, ops);
    var s := DoAll(Session(start, [], 0, 0), ops);
    var all := Positions(start.stream, start.epoch, start.next, s.appended);
    assert all[..s.covered] == Positions(start.stream, start.epoch, start.next, s.covered);
    assert all == all[..s.covered] + all[s.covered..];
  }

  lemma {:induction false} RunPublished(start: Writer, ops: seq<Op>)
    requires start.pending == [] && start.committed == []
    ensures Published(DoAll(Session(start, [], 0, 0), ops), start)
    decreases |ops|
  {
    hide Published, Do;
    if ops == [] {
      NothingPublished(start);
    } else {
      RunPublished(start, ops[..|ops| - 1]);
      DoKeepsPublished(DoAll(Session(start, [], 0, 0), ops[..|ops| - 1]), start, ops[|ops| - 1]);
    }
  }

  lemma NothingPublished(start: Writer)
    requires start.pending == [] && start.committed == []
    ensures Published(Session(start, [], 0, 0), start)
  {
  }

  /** A healthy writer appends and commits unless the stream fails, and then names the operation that failed. */
  lemma FirstFailure(w: Writer, e: Entry, flushFails: bool)
    requires w.error == NoError && !w.file.bad
    ensures var (after, r) := Append(w, e);
      var room := w.file.budget.None? || |EncodeRecord(w.stream, w.epoch, w.next, e)| <= w.file.budget.value;
      && (room ==> r == Appended(Position(w.stream, w.epoch, w.next)) && after.error == NoError)
      && (!room ==> r == AppendFailed(CannotWriteFile, w.last) && after.error == CannotWriteFile)
    ensures var (after, r) := Commit(w, flushFails);
      && (!flushFails ==> r == Committed(after.lastCommitted) && after.file.flushed == |w.file.bytes|)
      && (flushFails ==> r == CommitFailed(CannotFlushFile, w.last) && after.error == CannotFlushFile)
  {
    hide EncodeRecord;
  }

  /**
   After the first failure nothing is appended or published any more, whatever is tried, and every later
   append and every later commit reports that failure, a commit with nothing pending too.
   */
  lemma {:induction false} FailureLatches(start: Writer, before: seq<Op>, after: seq<Op>)
    requires start.pending == [] && start.committed == []
    ensures var s := DoAll(Session(start, [], 0, 0), before);
      var t := DoAll(Session(start, [], 0, 0), before + after);
      s.w.error != NoError ==>
        && t.w.error == s.w.error && t.appended == s.appended && t.covered == s.covered && t.w.pending == s.w.pending
        && (forall e :: Append(t.w, e).1 == AppendFailed(s.w.error, t.w.last))
        && (forall flushFails :: Commit(t.w, flushFails).1 == CommitFailed(s.w.error, t.w.last))
    decreases |after|
  {
    hide Do, Published;
    if after == [] {
      assert before + after == before;
    } else {
      var n := |after| - 1;
      FailureLatches(start, before, after[..n]);
      assert (before + after)[..|before + after| - 1] == before + after[..n];
      RunPublished(start, before + after[..n]);
      DoKeepsPublished(DoAll(Session(start, [], 0, 0), before + after[..n]), start, after[n]);
    }
  }
}
