/** Where the log does not keep its promise, and exactly when it does. */
module WalDefects {
  import opened Domain
  import opened Checksum
  import opened Codec
  import opened WalFormat
  import opened WalScan
  import opened WalReader
  import opened WalSegments
  import opened WalRecovery
  import opened WalWriter
  import opened CrashSafety

  // A crash inside the padding

  lemma LeStep(x: nat, n: nat)
    requires n > 0
    ensures Le(x, n) == [ToByte(x % 256)] + Le(x / 256, n - 1)
    ensures Le(x, 0) == []
  {
  }

  lemma FieldBytes()
    ensures Le(RECORD_MAGIC, 4) == [ToByte(0x52), ToByte(0x4C), ToByte(0x41), ToByte(0x57)]
    ensures Le(FORMAT_VERSION, 2) == [ToByte(1), ToByte(0)] && Le(RECORD_HEADER_SIZE, 2) == [ToByte(56), ToByte(0)]
  {
    hide Le, ToByte;
    LeStep(0x5741_4C52, 4);
    LeStep(0x57_414C, 3);
    LeStep(0x5741, 2);
    LeStep(0x57, 1);
    LeStep(1, 2);
    LeStep(56, 2);
    LeStep(0, 1);
    LeStep(0, 1);
  }

  lemma HeaderPrefix(h: RecordHeader)
    requires RecordKind(h)
    ensures EncodeRecordHeader(h)[..8] ==
      [ToByte(0x52), ToByte(0x4C), ToByte(0x41), ToByte(0x57), ToByte(1), ToByte(0), ToByte(56), ToByte(0)]
  {
    hide Le, ToByte, Pack, Width;
    FieldBytes();
    var v := RecordValues(h);
    FirstFields(v);
    assert v[0] == RECORD_MAGIC && v[1] == FORMAT_VERSION && v[2] == RECORD_HEADER_SIZE;
  }

  /** Of the first eight bytes of a written header only the first can start a header. */
  lemma HeaderStart(h: RecordHeader, j: nat)
    requires RecordKind(h) && 1 <= j < 8
    ensures FromByte(EncodeRecordHeader(h)[j]) != 0x52
  {
    hide ToByte, FromByte, EncodeRecordHeader;
    HeaderPrefix(h);
    ByteBack(0x4C);
    ByteBack(0x41);
    ByteBack(0x57);
    ByteBack(1);
    ByteBack(0);
    ByteBack(56);
    assert EncodeRecordHeader(h)[..8][j] == EncodeRecordHeader(h)[j];
  }

  lemma FirstFields(v: seq<nat>)
    requires |v| == |RECORD_LAYOUT|
    ensures |Pack(RECORD_LAYOUT, v)| >= 8 && Pack(RECORD_LAYOUT, v)[..8] == Le(v[0], 4) + Le(v[1], 2) + Le(v[2], 2)
  {
    hide Le, Pack, Width;
    PackFirst(RECORD_LAYOUT, v);
    PackFirst(RECORD_LAYOUT[1..], v[1..]);
    PackFirst(RECORD_LAYOUT[2..], v[2..]);
    assert RECORD_LAYOUT[1..][1..] == RECORD_LAYOUT[2..] && v[1..][1..] == v[2..];
  }

  lemma NotAHeader(bytes: seq<byte>)
    requires |bytes| == RECORD_HEADER_SIZE && FromByte(bytes[0]) != 0x52
    ensures !ValidStaticFields(DecodeRecordHeader(bytes))
  {
    hide FromByte, Width;
    RecordLayout();
    FirstValue(bytes);
    LowByte(bytes[..4]);
  }

  lemma FirstValue(bytes: seq<byte>)
    requires |bytes| == Width(RECORD_LAYOUT) == RECORD_HEADER_SIZE
    ensures DecodeRecordHeader(bytes).magic == UnLe(bytes[..4])
  {
    hide UnLe, Width, Fits;
    assert RECORD_LAYOUT[0] == 4;
  }

  lemma LowByte(bytes: seq<byte>)
    requires bytes != []
    ensures UnLe(bytes) % 256 == FromByte(bytes[0])
  {
    hide FromByte;
    ByteThere(bytes[0]);
    Low(FromByte(bytes[0]), UnLe(bytes[1..]));
  }

  lemma Low(a: nat, b: nat)
    requires a < 256
    ensures (a + 256 * b) % 256 == a
  {
  }

  /** A record followed by a cut padding and then other bytes is still found whole: the padding is not looked at. */
  lemma NextOverPadding(before: seq<byte>, stream: u64, epoch: u64, sequence: u64, e: Entry, k: nat, after: seq<byte>)
    requires |e.payload| <= MAX_PAYLOAD && k <= |EncodeRecord(stream, epoch, sequence, e)| && InPadding(e, k)
    requires |after| >= 8
    ensures var record := EncodeRecord(stream, epoch, sequence, e);
      Next(before + record[..k] + after, |before|, stream, epoch, sequence)
      == Good(Delivered(Position(stream, epoch, sequence), e.recordType, e.payload), |before| + |record|, false)
  {
    hide DecodeRecordHeader, EncodeRecordHeader, MakeHeader, ValidStaticFields, RecordHeaderCrc, PaddingIn, Crc, Padding;
    EncodedSize(stream, epoch, sequence, e);
    var header := EncodeRecordHeader(MakeHeader(stream, epoch, sequence, e));
    var record := EncodeRecord(stream, epoch, sequence, e);
    var file := before + record[..k] + after;
    var rest := record[RECORD_HEADER_SIZE..k] + after;
    CutHeader(header, e.payload, Zeros(Padding(e)), k);
    assert file == before + header + rest;
    WrittenHeader(file, before, rest, stream, epoch, sequence, e);
    var start := |before| + RECORD_HEADER_SIZE;
    assert rest[..|e.payload|] == e.payload;
    assert file[start..start + |e.payload|] == rest[..|e.payload|];
  }

  lemma CutHeader(header: seq<byte>, payload: seq<byte>, zeros: seq<byte>, k: nat)
    requires |header| + |payload| <= k <= |header| + |payload| + |zeros|
    ensures var record := header + payload + zeros;
      && record[..k] == header + record[|header|..k]
      && record[|header|..k][..|payload|] == payload
  {
  }

  /** What stands where the parsers look next: the middle of a header, which is no header. */
  lemma NextMisaligned(file: seq<byte>, offset: nat, h: RecordHeader, j: nat, tail: seq<byte>, stream: u64, epoch: u64, expected: u64)
    requires RecordKind(h) && 1 <= j < 8 && offset <= |file|
    requires file[offset..] == EncodeRecordHeader(h)[j..] + tail
    ensures Next(file, offset, stream, epoch, expected) == if |tail| < j then Torn else Bad(InvalidRecordHeader)
  {
    assert |file| - offset == RECORD_HEADER_SIZE - j + |tail|;
    hide DecodeRecordHeader, EncodeRecordHeader, ValidStaticFields, RecordHeaderCrc, PaddingIn, Crc, FromByte;
    HeaderStart(h, j);
    var start := offset + RECORD_HEADER_SIZE;
    if start <= |file| {
      assert file[offset..start][0] == file[offset..][0] == EncodeRecordHeader(h)[j];
      NotAHeader(file[offset..start]);
    }
  }

  /** The file after a crash inside the padding of `e` and the append of `e2` by a reopened writer. */
  function DirtyFile(id: Id, log: seq<Entry>, e: Entry, k: nat, e2: Entry): seq<byte>
    requires k <= |id.Record(|log|, e)|
  {
    id.Bytes(log) + id.Record(|log|, e)[..k] + id.Record(|log| + 1, e2)
  }

  /** The payload and its padding fill whole units of eight bytes. */
  lemma PaddedPayload(e: Entry)
    requires |e.payload| <= MAX_PAYLOAD
    ensures (|e.payload| + Padding(e)) % 8 == 0 && (e.payload == [] <==> |e.payload| + Padding(e) < 8)
  {
    hide AlignUp, PaddingFor;
    PaddingRounds(RECORD_HEADER_SIZE + |e.payload|);
  }

  lemma DirtyScan(id: Id, log: seq<Entry>, e: Entry, k: nat, e2: Entry)
    requires Named(id.stream, id.epoch, id.first) && Writable(log + [e, e2])
    requires 0 < k < |id.Record(|log|, e)| && InPadding(e, k)
    ensures var scan := ScanFile(DirtyFile(id, log, e, k, e2));
      && !scan.result.ok
      && scan.result.error == (if e2.payload == [] then IncompleteTrailingRecord else CorruptedMiddleRecord)
      && scan.accepted == Deliveries(id.stream, id.epoch, id.first, log)
           + [Delivered(Position(id.stream, id.epoch, Add64(id.first, |log|)), e.recordType, e.payload)]
  {
    hide ScanFile, ScanFrom, Segment, Next, EncodeRecordHeader, MakeHeader, Padding, Deliveries, Add64;
    assert e in log + [e, e2] && e2 in log + [e, e2];
    assert forall x | x in log :: x in log + [e, e2];
    PaddedPayload(e2);
    var sequence := Add64(id.first, |log|);
    var record, next := id.Record(|log|, e), id.Record(|log| + 1, e2);
    var before := id.Bytes(log);
    var file := DirtyFile(id, log, e, k, e2);
    var h2 := MakeHeader(id.stream, id.epoch, Add64(id.first, |log| + 1), e2);
    EncodedSize(id.stream, id.epoch, sequence, e);
    ScanSegmentThen(id.stream, id.epoch, id.first, log, record[..k] + next);
    assert before + (record[..k] + next) == file;
    var last := LastOf(id.stream, id.epoch, id.first, |log|, NOWHERE);
    NextOverPadding(before, id.stream, id.epoch, sequence, e, k, next);
    UnfoldScan(file, |before|, id.stream, id.epoch, sequence, last);
    var j := |record| - k;
    assert file[|before| + |record|..] == EncodeRecordHeader(h2)[j..] + (e2.payload + Zeros(Padding(e2)));
    MadeKind(id.stream, id.epoch, Add64(id.first, |log| + 1), e2);
    NextMisaligned(file, |before| + |record|, h2, j, e2.payload + Zeros(Padding(e2)), id.stream, id.epoch, Add64(sequence, 1));
    UnfoldScan(file, |before| + |record|, id.stream, id.epoch, Add64(sequence, 1), Position(id.stream, id.epoch, sequence));
  }

  lemma MadeKind(stream: u64, epoch: u64, sequence: u64, e: Entry)
    ensures RecordKind(MakeHeader(stream, epoch, sequence, e))
  {
    hide Crc, EncodeRecordHeader, AlignUp;
  }

  /** A writer reopened on a segment whose last record was cut after `k` bytes. */
  lemma ReopenCut(id: Id, log: seq<Entry>, e: Entry, k: nat)
    requires Named(id.stream, id.epoch, id.first) && Writable(log) && |e.payload| <= MAX_PAYLOAD
    requires id.first + |log| < U64_LIMIT && k < |id.Record(|log|, e)|
    ensures var w := Open(id.Bytes(log) + id.Record(|log|, e)[..k], id.stream, id.epoch, id.first, false, None);
      && Healthy(w) && w.stream == id.stream && w.epoch == id.epoch && w.file.budget == None
      && if k == 0 || !InPadding(e, k) then w.file.bytes == id.Bytes(log) && w.next == Add64(id.first, |log|)
         else w.file.bytes == id.Bytes(log) + id.Record(|log|, e)[..k] && w.next == Add64(id.first, |log| + 1)
  {
    hide ScanFile, Recovered, EncodeRecord, EncodeSegmentHeader, MakeSegmentHeader, Deliveries, Open, Records, Add64;
    var existing := id.Bytes(log) + id.Record(|log|, e)[..k];
    var header := EncodeSegmentHeader(MakeSegmentHeader(id.stream, id.epoch, id.first));
    assert existing == header + existing[|header|..];
    TornTail(id.stream, id.epoch, id.first, log, e, k);
    CutAfter(id.stream, id.epoch, id.first, log, e, k);
    OpensAs(id, existing, existing[|header|..]);
    ResumesAt(id, |log|);
    ResumesAt(id, |log| + 1);
  }

  /** Reopening a file never shows more records than a scan of it accepted. */
  lemma ReopenAccepts(id: Id, existing: seq<byte>)
    requires existing != []
    ensures var w := Open(existing, id.stream, id.epoch, id.first, false, None);
      && (w.error == NoError ==> ScanFile(w.file.bytes).accepted == ScanFile(existing).accepted)
      && (ScanFile(existing).result.error == CorruptedMiddleRecord ==> w.error != NoError)
  {
    hide ScanFile, DecodeSegmentHeader, SegmentHeaderCrc;
    ScanVerdict(existing);
    if ScanFile(existing).result.error == IncompleteTrailingRecord {
      RecoveredScans(existing);
    }
  }

  /**
   After a crash that cut the last record after `k` bytes, a reopened writer accepts a next record and
   commits it; the file then is a sound segment with that record if and only if the cut was not inside
   the padding. When it was, the committed record is lost to every parser, and the next writer refuses
   the file or, when the record has no payload, opens it without the record.
   */
  lemma AppendAfterCrash(id: Id, log: seq<Entry>, e: Entry, k: nat, e2: Entry)
    requires Named(id.stream, id.epoch, id.first) && Writable(log + [e, e2])
    requires id.first + |log| + 1 < U64_LIMIT && k < |id.Record(|log|, e)|
    ensures var reopened := Open(id.Bytes(log) + id.Record(|log|, e)[..k], id.stream, id.epoch, id.first, false, None);
      var appended := Append(reopened, e2);
      var committed := Commit(appended.0, false);
      var file := committed.0.file.bytes;
      var scan := ScanFile(file);
      var again := Open(file, id.stream, id.epoch, id.first, false, None);
      && appended.1.Appended? && committed.1 == Committed(appended.1.position)
      && (scan.result.ok <==> k == 0 || !InPadding(e, k))
      && (k == 0 || !InPadding(e, k) ==>
            scan.accepted == Deliveries(id.stream, id.epoch, id.first, log + [e2]))
      && (k > 0 && InPadding(e, k) ==>
            && scan.accepted == Deliveries(id.stream, id.epoch, id.first, log)
                 + [Delivered(Position(id.stream, id.epoch, Add64(id.first, |log|)), e.recordType, e.payload)]
            && (again.error == NoError <==> e2.payload == [])
            && (again.error == NoError ==> ScanFile(again.file.bytes).accepted == scan.accepted))
  {
    hide ScanFile, EncodeRecord, Deliveries, Open, Add64, Records, InPadding, EncodeSegmentHeader, MakeSegmentHeader;
    assert e in log + [e, e2] && e2 in log + [e, e2];
    assert forall x | x in log :: x in log + [e, e2];
    ReopenCut(id, log, e, k);
    if k == 0 || !InPadding(e, k) {
      SegmentAppend(id.stream, id.epoch, id.first, log, e2);
      WholeScan(id, log + [e2]);
    } else {
      DirtyScan(id, log, e, k, e2);
      EncodedSize(id.stream, id.epoch, Add64(id.first, |log| + 1), e2);
      var file := DirtyFile(id, log, e, k, e2);
      var header := EncodeSegmentHeader(MakeSegmentHeader(id.stream, id.epoch, id.first));
      assert file == header + file[|header|..];
      ReopenAccepts(id, file);
      if e2.payload == [] {
        OpensAs(id, file, file[|header|..]);
      }
    }
  }

  // Sequences that run past 64 bits

  /** On a well formed segment the parsers agree if and only if no record follows the one with sequence 0, or it starts at 1. */
  lemma SegmentViews(id: Id, entries: seq<Entry>)
    requires Named(id.stream, id.epoch, id.first) && Writable(entries)
    ensures var file := id.Bytes(entries);
      SameView(ScanFile(file), ReadFile(file)) <==> id.first == 1 || id.first + |entries| <= U64_LIMIT + 1
  {
    hide ScanFrom, ReadFile, Records, SameView, SameStop, ScanStops, Deliveries, EncodeSegmentHeader, MakeSegmentHeader;
    var file := id.Bytes(entries);
    var header := EncodeSegmentHeader(MakeSegmentHeader(id.stream, id.epoch, id.first));
    WholeScan(id, entries);
    DeliveriesLength(id.stream, id.epoch, id.first, entries);
    HeaderFields(id.stream, id.epoch, id.first);
    SegmentHeaderFound(file, file[|header|..], id.stream, id.epoch, id.first);
    SoundStops(file, SEGMENT_HEADER_SIZE, id.stream, id.epoch, id.first, NOWHERE);
    StopAtEnd(file, HeaderOf(file).value);
    ScannerAndReaderAgree(file);
  }

  /**
   Three records from sequence 2^64 - 1: the scanner accepts all of them, while the reader restarts its
   count behind sequence 0 and stops after two.
   */
  lemma ParsersPartAfterWrap(a: Entry, b: Entry, c: Entry)
    requires Writable([a, b, c])
    ensures var first: u64 := U64_LIMIT - 1;
      var file := Segment(1, 1, first, [a, b, c]);
      && ScanFile(file).result.ok && |ScanFile(file).accepted| == 3
      && |ReadFile(file).records| == 2 && ReadFile(file).stop == UnexpectedSequence
  {
    hide ScanFile, ReadFile, Segment, Deliveries, Add64;
    var first: u64 := U64_LIMIT - 1;
    WholeScan(Id(1, 1, first), [a, b, c]);
    DeliveriesLength(1, 1, first, [a, b, c]);
    ReaderRestarts(first, a, b, c);
  }

  lemma ReaderRestarts(first: u64, a: Entry, b: Entry, c: Entry)
    requires first == U64_LIMIT - 1 && Writable([a, b, c])
    ensures var file := Segment(1, 1, first, [a, b, c]);
      |ReadFile(file).records| == 2 && ReadFile(file).stop == UnexpectedSequence
  {
    hide ReadFile, ReadFrom, Segment, Next, EncodeRecord, Deliveries, MakeSegmentHeader, Add64;
    assert a in [a, b, c] && b in [a, b, c] && c in [a, b, c];
    WrapValues();
    HeaderFields(1, 1, first);
    DeliveriesLength(1, 1, first, [a]);
    var h := MakeSegmentHeader(1, 1, first);
    var before := Segment(1, 1, first, [a]);
    var rb, rc := EncodeRecord(1, 1, 0, b), EncodeRecord(1, 1, 1, c);
    SegmentAppend(1, 1, first, [a], b);
    SegmentAppend(1, 1, first, [a, b], c);
    assert [a] + [b] == [a, b] && [a, b] + [c] == [a, b, c];
    var file := before + rb + rc;
    assert file == before + (rb + rc);
    ReadSegmentThen(1, 1, first, [a], rb + rc);
    NextWritten(before, rc, 1, 1, 0, b);
    ReadByNext(file, |before|, h, Position(1, 1, first));
    WrongSequence(before + rb, 1, 1, 1, c, first);
    ReadByNext(file, |before + rb|, h, Position(1, 1, 0));
  }

  lemma WrapValues()
    ensures var first: u64 := U64_LIMIT - 1;
      Add64(first, 1) == 0 && Add64(first, 2) == 1 && Add64(first, 0) == first
  {
  }

  /** A sound record under another sequence than the one that is due. */
  lemma WrongSequence(before: seq<byte>, stream: u64, epoch: u64, sequence: u64, e: Entry, expected: u64)
    requires |e.payload| <= MAX_PAYLOAD && expected != sequence
    ensures Next(before + EncodeRecord(stream, epoch, sequence, e), |before|, stream, epoch, expected) == Bad(UnexpectedSequence)
  {
    hide DecodeRecordHeader, EncodeRecordHeader, MakeHeader, ValidStaticFields, RecordHeaderCrc, PaddingIn, Crc, Padding;
    var header := EncodeRecordHeader(MakeHeader(stream, epoch, sequence, e));
    var rest := e.payload + Zeros(Padding(e));
    assert before + EncodeRecord(stream, epoch, sequence, e) == before + header + rest;
    WrittenHeader(before + header + rest, before, rest, stream, epoch, sequence, e);
  }
}
