/** Recovery scanning of one segment file, and what both parsers mean by the next record. */
module WalScan {
  import opened Domain
  import opened Checksum
  import opened WalFormat
  import opened WalStream

  /** A record as it is handed to a consumer. */
  datatype Delivered = Delivered(position: Position, recordType: u32, payload: seq<byte>)

  /** What stands at an offset of a segment when a record with sequence `expected` is due. */
  datatype Found =
    | End
    | Torn
    | Bad(why: WalError)
    | Good(record: Delivered, next: nat, cut: bool)

  function Next(file: seq<byte>, offset: nat, stream: u64, epoch: u64, expected: u64): Found
    requires offset <= |file|
  {
    var left := |file| - offset;
    if left == 0 then End
    else if left < RECORD_HEADER_SIZE then Torn
    else
      var start := offset + RECORD_HEADER_SIZE;
      var h := DecodeRecordHeader(file[offset..start]);
      if !ValidStaticFields(h) then Bad(InvalidRecordHeader)
      else if h.headerCrc != RecordHeaderCrc(h) then Bad(HeaderChecksumMismatch)
      else if h.stream != stream || h.epoch != epoch then Bad(InvalidRecordHeader)
      else if h.sequence != expected then Bad(UnexpectedSequence)
      else if |file| - start < h.payloadLength then Torn
      else
        var end := start + h.payloadLength;
        if Crc(file[start..end]) != h.payloadCrc then Bad(PayloadChecksumMismatch)
        else
          var record := Delivered(Position(stream, epoch, expected), h.recordType, file[start..end]);
          var padding := PaddingIn(h);
          if padding > |file| - end then Good(record, |file|, true)
          else Good(record, end + if padding > 0 then padding else 0, false)
  }

  lemma NextAdvances(file: seq<byte>, offset: nat, stream: u64, epoch: u64, expected: u64)
    requires offset <= |file|
    ensures var n := Next(file, offset, stream, epoch, expected);
      n.Good? ==> offset + RECORD_HEADER_SIZE <= n.next <= |file| && n.record.position == Position(stream, epoch, expected)
  {
    hide DecodeRecordHeader, ValidStaticFields, RecordHeaderCrc, Crc, PaddingIn;
  }

  datatype ScanResult = ScanResult(ok: bool, error: WalError, lastPosition: Position, lastOffset: nat, torn: bool)

  /** A scan from an offset: its result, and the records it accepts on the way. */
  datatype Scan = Scan(result: ScanResult, accepted: seq<Delivered>)

  ghost function ScanFrom(file: seq<byte>, offset: nat, stream: u64, epoch: u64, expected: u64, last: Position): Scan
    requires offset <= |file|
    decreases |file| - offset
  {
    NextAdvances(file, offset, stream, epoch, expected);
    match Next(file, offset, stream, epoch, expected)
    case End => Scan(ScanResult(true, NoError, last, offset, false), [])
    case Torn => Scan(ScanResult(false, IncompleteTrailingRecord, last, offset, true), [])
    case Bad(_) => Scan(ScanResult(false, CorruptedMiddleRecord, last, offset, false), [])
    case Good(record, next, cut) =>
      if cut then Scan(ScanResult(true, NoError, record.position, NO_OFFSET, false), [record])
      else
        var rest := ScanFrom(file, next, stream, epoch, Add64(expected, 1), record.position);
        Scan(rest.result, [record] + rest.accepted)
  }

  lemma UnfoldScan(file: seq<byte>, offset: nat, stream: u64, epoch: u64, expected: u64, last: Position)
    requires offset <= |file|
    ensures var scan := ScanFrom(file, offset, stream, epoch, expected, last);
      var n := Next(file, offset, stream, epoch, expected);
      && (n.End? ==> scan == Scan(ScanResult(true, NoError, last, offset, false), []))
      && (n.Torn? ==> scan == Scan(ScanResult(false, IncompleteTrailingRecord, last, offset, true), []))
      && (n.Bad? ==> scan == Scan(ScanResult(false, CorruptedMiddleRecord, last, offset, false), []))
      && (n.Good? ==> offset + RECORD_HEADER_SIZE <= n.next <= |file| && n.record.position == Position(stream, epoch, expected))
      && (n.Good? && n.cut ==> scan == Scan(ScanResult(true, NoError, n.record.position, NO_OFFSET, false), [n.record]))
      && (n.Good? && !n.cut ==>
            var rest := ScanFrom(file, n.next, stream, epoch, Add64(expected, 1), n.record.position);
            scan == Scan(rest.result, [n.record] + rest.accepted))
  {
    hide Next, Add64;
    NextAdvances(file, offset, stream, epoch, expected);
  }

  /** Where a scan finds no further record; the end of the file when the last one is cut in its padding. */
  ghost function ScanStops(file: seq<byte>, offset: nat, stream: u64, epoch: u64, expected: u64): (stop: nat)
    requires offset <= |file|
    ensures offset <= stop <= |file|
    decreases |file| - offset
  {
    NextAdvances(file, offset, stream, epoch, expected);
    var n := Next(file, offset, stream, epoch, expected);
    if !n.Good? then offset
    else if n.cut then |file|
    else ScanStops(file, n.next, stream, epoch, Add64(expected, 1))
  }

  lemma UnfoldStops(file: seq<byte>, offset: nat, stream: u64, epoch: u64, expected: u64)
    requires offset <= |file|
    ensures var n := Next(file, offset, stream, epoch, expected);
      && (n.Good? ==> offset <= n.next <= |file|)
      && ScanStops(file, offset, stream, epoch, expected) ==
           if !n.Good? then offset
           else if n.cut then |file|
           else ScanStops(file, n.next, stream, epoch, Add64(expected, 1))
  {
    hide Next, Add64;
    NextAdvances(file, offset, stream, epoch, expected);
  }

  /** A scan that succeeds has come to the end of the file. */
  lemma {:induction false} SoundStops(file: seq<byte>, offset: nat, stream: u64, epoch: u64, expected: u64, last: Position)
    requires offset <= |file| && ScanFrom(file, offset, stream, epoch, expected, last).result.ok
    ensures ScanStops(file, offset, stream, epoch, expected) == |file|
    decreases |file| - offset
  {
    hide Next, Add64, ScanFrom, ScanStops;
    UnfoldScan(file, offset, stream, epoch, expected, last);
    UnfoldStops(file, offset, stream, epoch, expected);
    NextEnds(file, offset, stream, epoch, expected);
    var n := Next(file, offset, stream, epoch, expected);
    if n.Good? && !n.cut {
      SoundStops(file, n.next, stream, epoch, Add64(expected, 1), n.record.position);
    }
  }

  lemma NextEnds(file: seq<byte>, offset: nat, stream: u64, epoch: u64, expected: u64)
    requires offset <= |file|
    ensures Next(file, offset, stream, epoch, expected).End? <==> offset == |file|
  {
    hide DecodeRecordHeader, ValidStaticFields, RecordHeaderCrc, Crc, PaddingIn;
  }

  /** The segment header of a file, when it has a valid one. */
  function HeaderOf(file: seq<byte>): Option<SegmentHeader> {
    if |file| < SEGMENT_HEADER_SIZE then None
    else
      var h := DecodeSegmentHeader(file[..SEGMENT_HEADER_SIZE]);
      if ValidSegmentFields(h) && h.headerCrc == SegmentHeaderCrc(h) then Some(h) else None
  }

  ghost function ScanFile(file: seq<byte>): Scan {
    if HeaderOf(file).Some? then
      var h := HeaderOf(file).value;
      ScanFrom(file, SEGMENT_HEADER_SIZE, h.stream, h.epoch, h.first, NOWHERE)
    else if |file| < SEGMENT_HEADER_SIZE || !ValidSegmentFields(DecodeSegmentHeader(file[..SEGMENT_HEADER_SIZE])) then
      Scan(ScanResult(false, InvalidSegmentHeader, NOWHERE, 0, false), [])
    else
      Scan(ScanResult(false, HeaderChecksumMismatch, NOWHERE, 0, false), [])
  }

  lemma UnfoldFile(file: seq<byte>)
    ensures |file| < SEGMENT_HEADER_SIZE || !ValidSegmentFields(DecodeSegmentHeader(file[..SEGMENT_HEADER_SIZE])) ==>
      ScanFile(file) == Scan(ScanResult(false, InvalidSegmentHeader, NOWHERE, 0, false), [])
    ensures |file| >= SEGMENT_HEADER_SIZE && ValidSegmentFields(DecodeSegmentHeader(file[..SEGMENT_HEADER_SIZE])) ==>
      var h := DecodeSegmentHeader(file[..SEGMENT_HEADER_SIZE]);
      ScanFile(file) == if h.headerCrc != SegmentHeaderCrc(h)
                        then Scan(ScanResult(false, HeaderChecksumMismatch, NOWHERE, 0, false), [])
                        else ScanFrom(file, SEGMENT_HEADER_SIZE, h.stream, h.epoch, h.first, NOWHERE)
  {
  }

  /** A scan, seen from before the records `accepted`. */
  ghost function Behind(accepted: seq<Delivered>, scan: Scan): Scan {
    scan.(accepted := accepted + scan.accepted)
  }

  lemma AcceptOne(accepted: seq<Delivered>, record: Delivered, scan: Scan)
    ensures Behind(accepted, Scan(scan.result, [record] + scan.accepted)) == Behind(accepted + [record], scan)
    ensures Behind([], scan) == scan
  {
  }

  /** A header that may stand where a record with sequence `expected` is due. */
  predicate Due(h: RecordHeader, stream: u64, epoch: u64, expected: u64) {
    && ValidStaticFields(h) && h.headerCrc == RecordHeaderCrc(h)
    && h.stream == stream && h.epoch == epoch && h.sequence == expected
  }

  /** What stands at an offset, told by the header, the payload and the padding there. */
  lemma UnfoldNext(file: seq<byte>, offset: nat, stream: u64, epoch: u64, expected: u64)
    requires offset <= |file|
    ensures var n := Next(file, offset, stream, epoch, expected);
      var left := |file| - offset;
      if left == 0 then n.End?
      else if left < RECORD_HEADER_SIZE then n.Torn?
      else
        var start := offset + RECORD_HEADER_SIZE;
        var h := DecodeRecordHeader(file[offset..start]);
        if !Due(h, stream, epoch, expected) then n.Bad?
        else if |file| - start < h.payloadLength then n.Torn?
        else
          var end := start + h.payloadLength;
          if Crc(file[start..end]) != h.payloadCrc then n.Bad?
          else
            && n.Good? && n.record == Delivered(Position(stream, epoch, expected), h.recordType, file[start..end])
            && n.cut == (PaddingIn(h) > |file| - end)
            && (!n.cut ==> n.next == end + if PaddingIn(h) > 0 then PaddingIn(h) else 0)
  {
    hide DecodeRecordHeader, ValidStaticFields, RecordHeaderCrc, Crc, PaddingIn;
  }

  /** The scan of a file, or of one that cannot be opened. */
  ghost function ScanOf(contents: Option<seq<byte>>): Scan {
    if contents.Some? then ScanFile(contents.value)
    else Scan(ScanResult(false, CannotOpenFile, NOWHERE, 0, false), [])
  }

  /** One turn of the scan: `ended` at the end of the log, otherwise what is wrong, or the record. */
  method ScanRecord(file: InputFile, segment: SegmentHeader, expected: u64)
    returns (ended: bool, error: WalError, record: Delivered)
    requires file.At(file.pos) || (file.Valid() && file.eof && file.fail)
    modifies file
    ensures file.Valid()
    ensures !old(file.At(file.pos)) ==> ended && error == NoError
    ensures old(file.At(file.pos)) ==>
      var found := Next(file.bytes, old(file.pos), segment.stream, segment.epoch, expected);
      && (ended <==> found.End?)
      && error == (if found.Torn? then IncompleteTrailingRecord else if found.Bad? then CorruptedMiddleRecord else NoError)
      && (found.Good? ==> record == found.record && if found.cut then file.RanOut() else file.At(found.next))
  {
    hide Next, DecodeRecordHeader, ValidStaticFields, RecordHeaderCrc, Crc, PaddingIn;
    ghost var at := file.pos;
    UnfoldNext(file.bytes, at, segment.stream, segment.epoch, expected);
    ended, error, record := false, NoError, Delivered(NOWHERE, 0, []);
    var data := file.Read(RECORD_HEADER_SIZE);
    if file.count == 0 && file.eof {
      ended := true;
      return;
    }
    if file.count != RECORD_HEADER_SIZE {
      error := IncompleteTrailingRecord;
      return;
    }
    var h := DecodeRecordHeader(data);
    if !ValidStaticFields(h) || h.headerCrc != RecordHeaderCrc(h) || h.stream != segment.stream
       || h.epoch != segment.epoch || h.sequence != expected {
      error := CorruptedMiddleRecord;
      return;
    }
    var payload: seq<byte> := [];
    if h.payloadLength != 0 {
      payload := file.Read(h.payloadLength);
      if file.count != h.payloadLength {
        error := IncompleteTrailingRecord;
        return;
      }
    }
    ghost var start := at + RECORD_HEADER_SIZE;
    assert file.At(start + h.payloadLength) && payload == file.bytes[start..start + h.payloadLength];
    var crc := CalculateCrc32(payload);
    if crc != h.payloadCrc {
      error := CorruptedMiddleRecord;
      return;
    }
    var padding := PaddingIn(h);
    if padding != 0 {
      file.Ignore(padding);
      if file.fail {
        error := IncompleteTrailingRecord;
        return;
      }
    }
    record := Delivered(Position(h.stream, h.epoch, h.sequence), h.recordType, payload);
  }

  /** Scans a segment file. */
  method ScanSegment(contents: Option<seq<byte>>) returns (result: ScanResult, ghost accepted: seq<Delivered>)
    ensures result == ScanOf(contents).result
    ensures accepted == ScanOf(contents).accepted
  {
    hide ScanFrom, ScanFile, HeaderOf, DecodeSegmentHeader, ValidSegmentFields, SegmentHeaderCrc, Add64, Next;
    if contents.None? {
      return ScanResult(false, CannotOpenFile, NOWHERE, 0, false), [];
    }
    var bytes := contents.value;
    UnfoldFile(bytes);
    var file := new InputFile(bytes);
    accepted := [];
    var data := file.Read(SEGMENT_HEADER_SIZE);
    if file.count != SEGMENT_HEADER_SIZE || !ValidSegmentFields(DecodeSegmentHeader(data)) {
      return ScanResult(false, InvalidSegmentHeader, NOWHERE, 0, false), [];
    }
    var segment := DecodeSegmentHeader(data);
    if segment.headerCrc != SegmentHeaderCrc(segment) {
      return ScanResult(false, HeaderChecksumMismatch, NOWHERE, 0, false), [];
    }
    result := ScanResult(true, NoError, NOWHERE, SEGMENT_HEADER_SIZE, false);
    var expected := segment.first;
    ghost var whole := ScanFile(bytes);
    AcceptOne([], Delivered(NOWHERE, 0, []), whole);
    while true
      invariant file.bytes == bytes
      invariant file.At(file.pos) || (file.Valid() && file.eof && file.fail)
      invariant result.ok && result.error == NoError && !result.torn
      invariant file.At(file.pos) ==>
        whole == Behind(accepted, ScanFrom(bytes, file.pos, segment.stream, segment.epoch, expected, result.lastPosition))
      invariant !file.At(file.pos) ==>
        whole == Behind(accepted, Scan(ScanResult(true, NoError, result.lastPosition, NO_OFFSET, false), []))
      decreases |bytes| - file.pos, !file.eof
    {
      if file.At(file.pos) {
        UnfoldScan(bytes, file.pos, segment.stream, segment.epoch, expected, result.lastPosition);
      }
      ghost var found := Next(bytes, file.pos, segment.stream, segment.epoch, expected);
      var recordOffset := file.Tellg();
      var ended, error, record := ScanRecord(file, segment, expected);
      if ended {
        result := result.(lastOffset := recordOffset);
        return;
      }
      if error != NoError {
        result := result.(ok := false, error := error, torn := error == IncompleteTrailingRecord, lastOffset := recordOffset);
        return;
      }
      AcceptOne(accepted, record,
                if found.cut then Scan(ScanResult(true, NoError, record.position, NO_OFFSET, false), [])
                else ScanFrom(bytes, found.next, segment.stream, segment.epoch, Add64(expected, 1), record.position));
      result := result.(lastPosition := record.position);
      accepted := accepted + [record];
      var offset := file.Tellg();
      result := result.(lastOffset := offset);
      expected := Add64(expected, 1);
    }
  }
}
