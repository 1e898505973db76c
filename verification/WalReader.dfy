/** The sequential reader of one segment, the second parser, and its agreement with the scanner. */
module WalReader {
  import opened Domain
  import opened Checksum
  import opened WalFormat
  import opened WalStream
  import opened WalScan

  datatype ReadStatus = ReadRecord | ReadEnd | ReadFailed

  datatype ReadResult = ReadResult(status: ReadStatus, error: WalError, position: Position)

  /** The reader derives the sequence it expects from the last position it accepted. */
  function ExpectedAfter(last: Position, first: u64): u64 {
    if last.IsValid() then Add64(last.sequence, 1) else first
  }

  /** Everything a reader delivers up to its first result that is not a record, and why it stops there. */
  datatype Drained = Drained(records: seq<Delivered>, stop: WalError, last: Position)

  ghost function ReadFrom(file: seq<byte>, offset: nat, h: SegmentHeader, last: Position): Drained
    requires offset <= |file|
    decreases |file| - offset
  {
    NextAdvances(file, offset, h.stream, h.epoch, ExpectedAfter(last, h.first));
    var n := Next(file, offset, h.stream, h.epoch, ExpectedAfter(last, h.first));
    if n.End? then Drained([], EndOfLog, last)
    else if n.Torn? then Drained([], IncompleteTrailingRecord, last)
    else if n.Bad? then Drained([], n.why, last)
    else if n.cut then Drained([n.record], EndOfLog, n.record.position)
    else
      var rest := ReadFrom(file, n.next, h, n.record.position);
      Drained([n.record] + rest.records, rest.stop, rest.last)
  }

  /** What opening a readable file for reading makes of its segment header. */
  function OpenError(file: seq<byte>): WalError {
    if |file| < SEGMENT_HEADER_SIZE then CannotReadFile
    else
      var h := DecodeSegmentHeader(file[..SEGMENT_HEADER_SIZE]);
      if !ValidSegmentFields(h) then InvalidSegmentHeader
      else if h.headerCrc != SegmentHeaderCrc(h) then HeaderChecksumMismatch
      else NoError
  }

  ghost function ReadFile(file: seq<byte>): Drained {
    if OpenError(file) != NoError then Drained([], OpenError(file), NOWHERE)
    else ReadFrom(file, SEGMENT_HEADER_SIZE, DecodeSegmentHeader(file[..SEGMENT_HEADER_SIZE]), NOWHERE)
  }

  /** The first thing wrong with a record header, in the order the reader looks. */
  function HeaderFault(h: RecordHeader, segment: SegmentHeader, last: Position): (fault: WalError)
    ensures fault in {NoError, InvalidRecordHeader, HeaderChecksumMismatch, UnexpectedSequence}
  {
    if !ValidStaticFields(h) then InvalidRecordHeader
    else if h.headerCrc != RecordHeaderCrc(h) then HeaderChecksumMismatch
    else if h.stream != segment.stream || h.epoch != segment.epoch then InvalidRecordHeader
    else if h.sequence != ExpectedAfter(last, segment.first) then UnexpectedSequence
    else NoError
  }

  /** One read, told by the header, the payload and the padding at the cursor. */
  lemma UnfoldRead(file: seq<byte>, offset: nat, segment: SegmentHeader, last: Position)
    requires offset <= |file|
    ensures var d := ReadFrom(file, offset, segment, last);
      var left := |file| - offset;
      if left == 0 then d == Drained([], EndOfLog, last)
      else if left < RECORD_HEADER_SIZE then d == Drained([], IncompleteTrailingRecord, last)
      else
        var start := offset + RECORD_HEADER_SIZE;
        var h := DecodeRecordHeader(file[offset..start]);
        var fault := HeaderFault(h, segment, last);
        if fault != NoError then d == Drained([], fault, last) && fault != EndOfLog
        else if |file| - start < h.payloadLength then d == Drained([], IncompleteTrailingRecord, last)
        else
          var end := start + h.payloadLength;
          if Crc(file[start..end]) != h.payloadCrc then d == Drained([], PayloadChecksumMismatch, last)
          else
            var record := Delivered(Position(h.stream, h.epoch, h.sequence), h.recordType, file[start..end]);
            var padding := PaddingIn(h);
            if padding > |file| - end then d == Drained([record], EndOfLog, record.position)
            else
              var rest := ReadFrom(file, end + (if padding > 0 then padding else 0), segment, record.position);
              d == Drained([record] + rest.records, rest.stop, rest.last)
  {
    hide DecodeRecordHeader, ValidStaticFields, RecordHeaderCrc, Crc, PaddingIn, Position.IsValid, Add64;
    NextAdvances(file, offset, segment.stream, segment.epoch, ExpectedAfter(last, segment.first));
  }

  class SegmentReader {
    const file: InputFile
    var segment: SegmentHeader
    var lastPosition: Position
    var openResult: ReadResult
    var payload: seq<byte>

    ghost predicate Valid()
      reads this, file
    {
      && file.Valid()
      && (openResult.status == ReadRecord ==> file.At(file.pos) || file.RanOut() || file.fail)
      && (openResult.status != ReadRecord ==>
            openResult.status == ReadFailed && openResult.error != NoError && openResult.error != EndOfLog)
    }

    /** What the reader still has to deliver. */
    ghost function Due(): Drained
      requires Valid()
      reads this, file
    {
      if openResult.status != ReadRecord then Drained([], openResult.error, lastPosition)
      else if file.At(file.pos) then ReadFrom(file.bytes, file.pos, segment, lastPosition)
      else if file.RanOut() then Drained([], EndOfLog, lastPosition)
      else Drained([], CannotReadFile, lastPosition)
    }

    constructor (contents: Option<seq<byte>>)
      ensures Valid() && fresh(file)
      ensures lastPosition == NOWHERE
      ensures Due() == if contents.None? then Drained([], CannotOpenFile, NOWHERE) else ReadFile(contents.value)
    {
      hide ReadFrom, DecodeSegmentHeader, ValidSegmentFields, SegmentHeaderCrc, MakeSegmentHeader;
      file := new InputFile(if contents.Some? then contents.value else []);
      segment := MakeSegmentHeader(0, 0, 1);
      lastPosition := NOWHERE;
      payload := [];
      openResult := ReadResult(ReadFailed, CannotOpenFile, NOWHERE);
      new;
      if contents.Some? {
        ReadSegmentHeader();
      }
    }

    method ReadSegmentHeader()
      requires file.At(0) && lastPosition == NOWHERE
      modifies this`segment, this`openResult, file
      ensures file.Valid()
      ensures openResult.error == OpenError(file.bytes)
      ensures openResult.status == if OpenError(file.bytes) == NoError then ReadRecord else ReadFailed
      ensures OpenError(file.bytes) == NoError ==>
        file.At(SEGMENT_HEADER_SIZE) && segment == DecodeSegmentHeader(file.bytes[..SEGMENT_HEADER_SIZE])
    {
      hide DecodeSegmentHeader, ValidSegmentFields, SegmentHeaderCrc;
      var data := file.Read(SEGMENT_HEADER_SIZE);
      if file.fail {
        openResult := ReadResult(ReadFailed, CannotReadFile, lastPosition);
        return;
      }
      segment := DecodeSegmentHeader(data);
      if !ValidSegmentFields(segment) {
        openResult := ReadResult(ReadFailed, InvalidSegmentHeader, lastPosition);
        return;
      }
      if segment.headerCrc != SegmentHeaderCrc(segment) {
        openResult := ReadResult(ReadFailed, HeaderChecksumMismatch, lastPosition);
        return;
      }
      openResult := ReadResult(ReadRecord, NoError, lastPosition);
    }

    /** The header of the next record, and what is wrong with it; does not look at the payload. */
    method ReadRecordHeader() returns (r: ReadResult, h: RecordHeader)
      requires file.At(file.pos) || file.RanOut()
      modifies file
      ensures file.Valid() && file.pos >= old(file.pos)
      ensures r.status == ReadRecord ==>
        && old(file.At(file.pos)) && file.At(old(file.pos) + RECORD_HEADER_SIZE)
        && h == DecodeRecordHeader(file.bytes[old(file.pos)..file.pos])
        && HeaderFault(h, segment, lastPosition) == NoError
      ensures old(file.RanOut()) || old(file.pos) == |file.bytes| ==>
        file.At(|file.bytes|) && r == ReadResult(ReadEnd, EndOfLog, lastPosition)
      ensures old(file.At(file.pos)) && 0 < |file.bytes| - old(file.pos) < RECORD_HEADER_SIZE ==>
        file.fail && r == ReadResult(ReadFailed, IncompleteTrailingRecord, lastPosition)
      ensures old(file.At(file.pos)) && |file.bytes| - old(file.pos) >= RECORD_HEADER_SIZE ==>
        && file.At(old(file.pos) + RECORD_HEADER_SIZE)
        && var fault := HeaderFault(DecodeRecordHeader(file.bytes[old(file.pos)..file.pos]), segment, lastPosition);
           if fault == NoError then r.status == ReadRecord else r == ReadResult(ReadFailed, fault, lastPosition)
    {
      hide DecodeRecordHeader, ValidStaticFields, RecordHeaderCrc;
      h := RecordHeader(RECORD_MAGIC, FORMAT_VERSION, RECORD_HEADER_SIZE, 0, 0, 0, 0, 0, 0, 0, 0, 0);
      var data := file.Read(RECORD_HEADER_SIZE);
      if file.count == 0 && file.eof {
        file.Clear();
        return ReadResult(ReadEnd, EndOfLog, lastPosition), h;
      }
      if file.count != RECORD_HEADER_SIZE {
        return ReadResult(ReadFailed, IncompleteTrailingRecord, lastPosition), h;
      }
      h := DecodeRecordHeader(data);
      if !ValidStaticFields(h) {
        return ReadResult(ReadFailed, InvalidRecordHeader, lastPosition), h;
      }
      if h.headerCrc != RecordHeaderCrc(h) {
        return ReadResult(ReadFailed, HeaderChecksumMismatch, lastPosition), h;
      }
      if h.stream != segment.stream || h.epoch != segment.epoch {
        return ReadResult(ReadFailed, InvalidRecordHeader, lastPosition), h;
      }
      var expected := if lastPosition.IsValid() then Add64(lastPosition.sequence, 1) else segment.first;
      if h.sequence != expected {
        return ReadResult(ReadFailed, UnexpectedSequence, lastPosition), h;
      }
      r := ReadResult(ReadRecord, NoError, Position(h.stream, h.epoch, h.sequence));
    }

    method ReadPayload(h: RecordHeader) returns (r: ReadResult)
      requires file.At(file.pos)
      modifies this`payload, file
      ensures file.Valid() && file.pos >= old(file.pos)
      ensures |file.bytes| - old(file.pos) < h.payloadLength ==>
        file.fail && r == ReadResult(ReadFailed, IncompleteTrailingRecord, lastPosition)
      ensures |file.bytes| - old(file.pos) >= h.payloadLength ==>
        && file.At(old(file.pos) + h.payloadLength) && payload == file.bytes[old(file.pos)..file.pos]
        && if Crc(payload) == h.payloadCrc then r.status == ReadRecord
           else r == ReadResult(ReadFailed, PayloadChecksumMismatch, lastPosition)
    {
      hide Crc;
      payload := [];
      if h.payloadLength != 0 {
        payload := file.Read(h.payloadLength);
        if file.count != h.payloadLength {
          return ReadResult(ReadFailed, IncompleteTrailingRecord, lastPosition);
        }
      }
      var crc := CalculateCrc32(payload);
      if crc != h.payloadCrc {
        return ReadResult(ReadFailed, PayloadChecksumMismatch, lastPosition);
      }
      return ReadResult(ReadRecord, NoError, Position(h.stream, h.epoch, h.sequence));
    }

    /** Where a read that failed with `error` leaves the cursor that stood at `at`; the next one goes on from there. */
    ghost predicate LeftAfter(error: WalError, at: nat)
      reads this, file
    {
      if error == EndOfLog then file.At(|file.bytes|)
      else if error == IncompleteTrailingRecord || error == CannotReadFile then file.fail
      else
        && at + RECORD_HEADER_SIZE <= |file.bytes|
        && var length := DecodeRecordHeader(file.bytes[at..at + RECORD_HEADER_SIZE]).payloadLength;
           file.At(at + RECORD_HEADER_SIZE + if error == PayloadChecksumMismatch then length else 0)
    }

    /** One read: delivers the first record still due, or reports why there is none. */
    method ReadNext() returns (r: ReadResult, view: Delivered)
      requires Valid()
      modifies this`lastPosition, this`payload, file
      ensures Valid() && file.pos >= old(file.pos)
      ensures r.status == ReadEnd <==> r.error == EndOfLog
      ensures old(Due()).records == [] ==>
        r.status != ReadRecord && r.error == old(Due()).stop && lastPosition == old(lastPosition)
      ensures old(Due()).records != [] ==>
        && r.status == ReadRecord && view == old(Due()).records[0] && lastPosition == view.position
        && Due() == old(Due()).(records := old(Due()).records[1..])
      ensures r.status != ReadRecord && openResult.status == ReadRecord ==> LeftAfter(r.error, old(file.pos))
      ensures openResult.status != ReadRecord ==> unchanged(this) && unchanged(file)
    {
      hide ReadFrom, Next, HeaderFault, DecodeRecordHeader, Crc, PaddingIn, Position.IsValid;
      if openResult.status == ReadRecord && file.At(file.pos) {
        UnfoldRead(file.bytes, file.pos, segment, lastPosition);
      }
      view := Delivered(NOWHERE, 0, []);
      if openResult.status != ReadRecord {
        return openResult, view;
      }
      if file.fail {
        return ReadResult(ReadFailed, CannotReadFile, lastPosition), view;
      }
      var h;
      r, h := ReadRecordHeader();
      if r.status != ReadRecord {
        return;
      }
      r := ReadPayload(h);
      if r.status != ReadRecord {
        return;
      }
      var padding := PaddingIn(h);
      if padding != 0 {
        file.Ignore(padding);
        if file.fail {
          return ReadResult(ReadFailed, CannotReadFile, lastPosition), view;
        }
      }
      lastPosition := Position(h.stream, h.epoch, h.sequence);
      view := Delivered(lastPosition, h.recordType, payload);
      return ReadResult(ReadRecord, NoError, lastPosition), view;
    }
  }

  /** Reads to the first result that is not a record. */
  method Drain(reader: SegmentReader) returns (records: seq<Delivered>, stop: WalError)
    requires reader.Valid()
    modifies reader, reader.file
    ensures reader.Valid() && Drained(records, stop, reader.lastPosition) == old(reader.Due())
  {
    hide SegmentReader.Due, SegmentReader.Valid;
    ghost var due := reader.Due();
    records := [];
    while true
      invariant reader.Valid()
      invariant After(records, reader.Due()) == due
      decreases |reader.Due().records|
    {
      DueLast(reader);
      ghost var left := reader.Due();
      var r, view := reader.ReadNext();
      if r.status != ReadRecord {
        stop := r.error;
        return;
      }
      TakeFirst(records, left);
      records := records + [view];
    }
  }

  /** What is due, seen from before `records` were delivered. */
  ghost function After(records: seq<Delivered>, due: Drained): Drained {
    due.(records := records + due.records)
  }

  lemma TakeFirst(records: seq<Delivered>, due: Drained)
    requires due.records != []
    ensures After(records + [due.records[0]], due.(records := due.records[1..])) == After(records, due)
  {
  }

  lemma DueLast(reader: SegmentReader)
    requires reader.Valid()
    ensures reader.Due().records == [] ==> reader.Due().last == reader.lastPosition
  {
  }

  // Agreement of the two parsers

  ghost predicate Corruption(e: WalError) {
    e == InvalidRecordHeader || e == HeaderChecksumMismatch || e == UnexpectedSequence || e == PayloadChecksumMismatch
  }

  /** Scanner and reader saw the same records and stopped for the same reason. */
  ghost predicate SameView(scan: Scan, read: Drained) {
    && read.records == scan.accepted
    && read.last == scan.result.lastPosition
    && (scan.result.ok <==> read.stop == EndOfLog)
    && (scan.result.error == IncompleteTrailingRecord <==> read.stop == IncompleteTrailingRecord)
    && (scan.result.error == CorruptedMiddleRecord <==> Corruption(read.stop))
  }

  lemma NextFault(file: seq<byte>, offset: nat, stream: u64, epoch: u64, expected: u64)
    requires offset <= |file|
    ensures var n := Next(file, offset, stream, epoch, expected);
      n.Bad? ==> Corruption(n.why)
  {
    hide DecodeRecordHeader, ValidStaticFields, RecordHeaderCrc, Crc, PaddingIn;
  }

  lemma ReadByNext(file: seq<byte>, offset: nat, h: SegmentHeader, last: Position)
    requires offset <= |file|
    ensures var d := ReadFrom(file, offset, h, last);
      var n := Next(file, offset, h.stream, h.epoch, ExpectedAfter(last, h.first));
      && (n.End? ==> d == Drained([], EndOfLog, last))
      && (n.Torn? ==> d == Drained([], IncompleteTrailingRecord, last))
      && (n.Bad? ==> d == Drained([], n.why, last))
      && (n.Good? ==> offset + RECORD_HEADER_SIZE <= n.next <= |file|)
      && (n.Good? && n.cut ==> d == Drained([n.record], EndOfLog, n.record.position))
      && (n.Good? && !n.cut ==>
            var rest := ReadFrom(file, n.next, h, n.record.position);
            d == Drained([n.record] + rest.records, rest.stop, rest.last))
  {
    hide Next, ExpectedAfter;
    NextAdvances(file, offset, h.stream, h.epoch, ExpectedAfter(last, h.first));
  }

  /** The header at an offset cannot be due under two sequences. */
  lemma OneSequence(file: seq<byte>, offset: nat, stream: u64, epoch: u64, expected: u64, other: u64)
    requires offset <= |file| && expected != other && Next(file, offset, stream, epoch, expected).Good?
    ensures Next(file, offset, stream, epoch, other).Bad?
  {
    hide DecodeRecordHeader, ValidStaticFields, RecordHeaderCrc, Crc, PaddingIn;
  }

  /** Under sequence 1, which the scanner expects after 0, and under the first one, which the reader does, parsing stops alike. */
  ghost predicate SameStop(file: seq<byte>, offset: nat, h: SegmentHeader)
    requires offset <= |file|
  {
    var scanned := Next(file, offset, h.stream, h.epoch, 1);
    var read := Next(file, offset, h.stream, h.epoch, h.first);
    scanned.End? == read.End? && scanned.Torn? == read.Torn? && scanned.Bad? == read.Bad?
  }

  /** Behind a record with sequence 0 the parsers expect different sequences. */
  lemma AfterZero(file: seq<byte>, offset: nat, h: SegmentHeader, last: Position)
    requires offset <= |file| && h.first != 1 && last.sequence == 0
    ensures var scan := ScanFrom(file, offset, h.stream, h.epoch, 1, last);
      SameView(scan, ReadFrom(file, offset, h, last))
      <==> scan.accepted == [] && SameStop(file, ScanStops(file, offset, h.stream, h.epoch, 1), h)
  {
    hide Next, ScanFrom, ReadFrom, ScanStops;
    UnfoldScan(file, offset, h.stream, h.epoch, 1, last);
    UnfoldStops(file, offset, h.stream, h.epoch, 1);
    ReadByNext(file, offset, h, last);
    NextFault(file, offset, h.stream, h.epoch, h.first);
    if Next(file, offset, h.stream, h.epoch, 1).Good? {
      OneSequence(file, offset, h.stream, h.epoch, 1, h.first);
    }
  }

  /** Accepting the same record first does not change whether the rest agrees. */
  lemma SameViewCons(record: Delivered, scan: Scan, read: Drained)
    ensures SameView(Scan(scan.result, [record] + scan.accepted), Drained([record] + read.records, read.stop, read.last))
      <==> SameView(scan, read)
  {
    assert ([record] + scan.accepted)[1..] == scan.accepted;
    assert ([record] + read.records)[1..] == read.records;
  }

  /** From the `due`-th sequence on, 2^64 counting as 0: the parsers agree until the one behind 0 is due. */
  lemma {:induction false} AgreeFrom(file: seq<byte>, offset: nat, h: SegmentHeader, due: nat, last: Position)
    requires offset <= |file| && h.stream != 0 && h.epoch != 0 && h.first != 1
    requires 0 < due <= U64_LIMIT && ExpectedAfter(last, h.first) == due % U64_LIMIT
    ensures var scan := ScanFrom(file, offset, h.stream, h.epoch, due % U64_LIMIT, last);
      SameView(scan, ReadFrom(file, offset, h, last))
      <==> (due + |scan.accepted| <= U64_LIMIT
            || (due + |scan.accepted| == U64_LIMIT + 1
                && SameStop(file, ScanStops(file, offset, h.stream, h.epoch, due % U64_LIMIT), h)))
    decreases |file| - offset
  {
    hide Next, ScanFrom, ReadFrom, ScanStops, SameView, SameStop;
    var expected: u64 := due % U64_LIMIT;
    UnfoldScan(file, offset, h.stream, h.epoch, expected, last);
    UnfoldStops(file, offset, h.stream, h.epoch, expected);
    ReadByNext(file, offset, h, last);
    NextFault(file, offset, h.stream, h.epoch, expected);
    var n := Next(file, offset, h.stream, h.epoch, expected);
    var scan, read := ScanFrom(file, offset, h.stream, h.epoch, expected, last), ReadFrom(file, offset, h, last);
    if n.Good? && !n.cut {
      var position := n.record.position;
      SameViewCons(n.record, ScanFrom(file, n.next, h.stream, h.epoch, Add64(expected, 1), position),
                   ReadFrom(file, n.next, h, position));
      if due < U64_LIMIT {
        AgreeFrom(file, n.next, h, due + 1, position);
      } else {
        AfterZero(file, n.next, h, position);
      }
    } else {
      StopsAlike(scan, read);
      StopAtEnd(file, h);
    }
  }

  lemma StopsAlike(scan: Scan, read: Drained)
    requires read.records == scan.accepted && read.last == scan.result.lastPosition
    requires
      || (scan.result.ok && scan.result.error == NoError && read.stop == EndOfLog)
      || (!scan.result.ok && scan.result.error == IncompleteTrailingRecord && read.stop == IncompleteTrailingRecord)
      || (!scan.result.ok && scan.result.error == CorruptedMiddleRecord && Corruption(read.stop))
    ensures SameView(scan, read)
  {
  }

  lemma StopAtEnd(file: seq<byte>, h: SegmentHeader)
    ensures SameStop(file, |file|, h)
  {
  }

  /** In a segment that starts at sequence 1 both parsers go on with 1 behind 0. */
  lemma {:induction false} AgreeFromOne(file: seq<byte>, offset: nat, h: SegmentHeader, expected: u64, last: Position)
    requires offset <= |file| && h.stream != 0 && h.epoch != 0 && h.first == 1
    requires expected == ExpectedAfter(last, h.first)
    ensures SameView(ScanFrom(file, offset, h.stream, h.epoch, expected, last), ReadFrom(file, offset, h, last))
    decreases |file| - offset
  {
    hide Next, ScanFrom, ReadFrom, SameView;
    UnfoldScan(file, offset, h.stream, h.epoch, expected, last);
    ReadByNext(file, offset, h, last);
    NextFault(file, offset, h.stream, h.epoch, expected);
    var n := Next(file, offset, h.stream, h.epoch, expected);
    if n.Good? && !n.cut {
      var position := n.record.position;
      SameViewCons(n.record, ScanFrom(file, n.next, h.stream, h.epoch, Add64(expected, 1), position),
                   ReadFrom(file, n.next, h, position));
      AgreeFromOne(file, n.next, h, Add64(expected, 1), position);
    } else {
      StopsAlike(ScanFrom(file, offset, h.stream, h.epoch, expected, last), ReadFrom(file, offset, h, last));
    }
  }

  /**
   When the parsers agree, on any bytes with a valid segment header: on the records, the last position
   and the kind of ending, if and only if the segment starts at sequence 1, or no accepted sequence wraps
   past 2^64 - 1, or exactly the last one does and what stands behind it stops both alike.
   */
  lemma ScannerAndReaderAgree(file: seq<byte>)
    requires HeaderOf(file).Some?
    ensures var h := HeaderOf(file).value;
      var count := h.first + |ScanFile(file).accepted|;
      SameView(ScanFile(file), ReadFile(file))
      <==> (h.first == 1 || count <= U64_LIMIT
            || (count == U64_LIMIT + 1
                && SameStop(file, ScanStops(file, SEGMENT_HEADER_SIZE, h.stream, h.epoch, h.first), h)))
  {
    hide ScanFrom, ReadFrom, ScanStops, SameView, SameStop, DecodeSegmentHeader, SegmentHeaderCrc;
    var h := HeaderOf(file).value;
    if h.first == 1 {
      AgreeFromOne(file, SEGMENT_HEADER_SIZE, h, 1, NOWHERE);
    } else {
      AgreeFrom(file, SEGMENT_HEADER_SIZE, h, h.first, NOWHERE);
    }
  }
}
