/** Whole segments: what writers leave in a file, and how every prefix of it parses. */
module WalSegments {
  import opened Domain
  import opened Checksum
  import opened WalFormat
  import opened WalStream
  import opened WalScan
  import opened WalReader

  function Records(stream: u64, epoch: u64, sequence: u64, entries: seq<Entry>): seq<byte>
    decreases |entries|
  {
    if entries == [] then []
    else EncodeRecord(stream, epoch, sequence, entries[0]) + Records(stream, epoch, Add64(sequence, 1), entries[1..])
  }

  function Segment(stream: u64, epoch: u64, first: u64, entries: seq<Entry>): seq<byte> {
    EncodeSegmentHeader(MakeSegmentHeader(stream, epoch, first)) + Records(stream, epoch, first, entries)
  }

  /** What a reader of the segment delivers: the same types and payloads under consecutive positions. */
  function Deliveries(stream: u64, epoch: u64, sequence: u64, entries: seq<Entry>): seq<Delivered>
    decreases |entries|
  {
    if entries == [] then []
    else [Delivered(Position(stream, epoch, sequence), entries[0].recordType, entries[0].payload)]
         + Deliveries(stream, epoch, Add64(sequence, 1), entries[1..])
  }

  lemma {:induction false} DeliveriesLength(stream: u64, epoch: u64, sequence: u64, entries: seq<Entry>)
    ensures |Deliveries(stream, epoch, sequence, entries)| == |entries|
    decreases |entries|
  {
    hide Add64;
    if entries != [] {
      DeliveriesLength(stream, epoch, Add64(sequence, 1), entries[1..]);
    }
  }

  lemma {:induction false} DeliveriesConcat(stream: u64, epoch: u64, sequence: u64, a: seq<Entry>, b: seq<Entry>)
    ensures Deliveries(stream, epoch, sequence, a + b)
      == Deliveries(stream, epoch, sequence, a) + Deliveries(stream, epoch, Add64(sequence, |a|), b)
    decreases |a|
  {
    hide Add64;
    Add64Add(sequence, 0, 0);
    if a == [] {
      assert a + b == b;
    } else {
      assert (a + b)[1..] == a[1..] + b;
      Add64Add(sequence, 1, |a| - 1);
      DeliveriesConcat(stream, epoch, Add64(sequence, 1), a[1..], b);
    }
  }

  predicate Writable(entries: seq<Entry>) {
    forall e | e in entries :: |e.payload| <= MAX_PAYLOAD
  }

  lemma EncodedSize(stream: u64, epoch: u64, sequence: u64, e: Entry)
    requires |e.payload| <= MAX_PAYLOAD
    ensures |EncodeRecord(stream, epoch, sequence, e)| == RECORD_HEADER_SIZE + |e.payload| + Padding(e)
    ensures Padding(e) < 8
  {
    hide MakeHeader, Padding, ValidStaticFields, PaddingIn, EncodeRecordHeader;
    OwnHeaderAccepted(stream, epoch, sequence, e);
  }

  /** The header a parser decodes at the start of a written record, even of a record cut behind its header. */
  lemma WrittenHeader(file: seq<byte>, before: seq<byte>, after: seq<byte>, stream: u64, epoch: u64, sequence: u64, e: Entry)
    requires file == before + EncodeRecordHeader(MakeHeader(stream, epoch, sequence, e)) + after
    requires |e.payload| <= MAX_PAYLOAD
    ensures var h := MakeHeader(stream, epoch, sequence, e);
      && DecodeRecordHeader(file[|before|..|before| + RECORD_HEADER_SIZE]) == h
      && ValidStaticFields(h) && h.headerCrc == RecordHeaderCrc(h) && PaddingIn(h) == Padding(e)
      && h.stream == stream && h.epoch == epoch && h.sequence == sequence && h.recordType == e.recordType
      && h.payloadLength == |e.payload| && h.payloadCrc == Crc(e.payload)
  {
    hide DecodeRecordHeader, EncodeRecordHeader, ValidStaticFields, RecordHeaderCrc, PaddingIn, Crc, Padding;
    var h := MakeHeader(stream, epoch, sequence, e);
    assert file[|before|..|before| + RECORD_HEADER_SIZE] == EncodeRecordHeader(h);
    RecordHeaderRoundTrip(h);
    OwnHeaderAccepted(stream, epoch, sequence, e);
    OwnHeaderChecks(stream, epoch, sequence, e);
  }

  /** A written record is found whole, whatever follows it. */
  lemma NextWritten(before: seq<byte>, after: seq<byte>, stream: u64, epoch: u64, sequence: u64, e: Entry)
    requires |e.payload| <= MAX_PAYLOAD
    ensures var record := EncodeRecord(stream, epoch, sequence, e);
      Next(before + record + after, |before|, stream, epoch, sequence)
      == Good(Delivered(Position(stream, epoch, sequence), e.recordType, e.payload), |before| + |record|, false)
  {
    hide DecodeRecordHeader, EncodeRecordHeader, MakeHeader, ValidStaticFields, RecordHeaderCrc, PaddingIn, Crc, Padding;
    var h := EncodeRecordHeader(MakeHeader(stream, epoch, sequence, e));
    var file := before + EncodeRecord(stream, epoch, sequence, e) + after;
    assert file == before + h + (e.payload + Zeros(Padding(e)) + after);
    WrittenHeader(file, before, e.payload + Zeros(Padding(e)) + after, stream, epoch, sequence, e);
    var start := |before| + RECORD_HEADER_SIZE;
    assert file[start..start + |e.payload|] == e.payload;
  }

  /** A written record that is cut: torn up to the end of its payload, but whole to both parsers within its padding. */
  lemma NextCut(before: seq<byte>, stream: u64, epoch: u64, sequence: u64, e: Entry, k: nat)
    requires |e.payload| <= MAX_PAYLOAD && 0 < k < |EncodeRecord(stream, epoch, sequence, e)|
    ensures var record := EncodeRecord(stream, epoch, sequence, e);
      var file := before + record[..k];
      Next(file, |before|, stream, epoch, sequence) ==
        if k < RECORD_HEADER_SIZE + |e.payload| then Torn
        else Good(Delivered(Position(stream, epoch, sequence), e.recordType, e.payload), |file|, true)
  {
    hide DecodeRecordHeader, EncodeRecordHeader, MakeHeader, ValidStaticFields, RecordHeaderCrc, PaddingIn, Crc, Padding;
    var h := EncodeRecordHeader(MakeHeader(stream, epoch, sequence, e));
    var record := EncodeRecord(stream, epoch, sequence, e);
    var file := before + record[..k];
    if k >= RECORD_HEADER_SIZE {
      assert record[..k] == h + record[RECORD_HEADER_SIZE..k];
      assert file == before + h + record[RECORD_HEADER_SIZE..k];
      WrittenHeader(file, before, record[RECORD_HEADER_SIZE..k], stream, epoch, sequence, e);
      if k >= RECORD_HEADER_SIZE + |e.payload| {
        var start := |before| + RECORD_HEADER_SIZE;
        assert file[start..start + |e.payload|] == e.payload;
      }
    }
  }

  /** The position of the last of `n` records, or nowhere. */
  function LastOf(stream: u64, epoch: u64, sequence: u64, n: nat, last: Position): Position {
    if n == 0 then last else Position(stream, epoch, Add64(sequence, n - 1))
  }

  /** Scanning `entries` followed by anything: the records are accepted and the scan goes on behind them. */
  lemma {:induction false} ScanWritten(before: seq<byte>, entries: seq<Entry>, after: seq<byte>,
                                       stream: u64, epoch: u64, sequence: u64, last: Position)
    requires Writable(entries)
    ensures var records := Records(stream, epoch, sequence, entries);
      var file := before + records + after;
      var rest := ScanFrom(file, |before + records|, stream, epoch, Add64(sequence, |entries|),
                           LastOf(stream, epoch, sequence, |entries|, last));
      ScanFrom(file, |before|, stream, epoch, sequence, last)
      == Scan(rest.result, Deliveries(stream, epoch, sequence, entries) + rest.accepted)
    decreases |entries|
  {
    hide Next, ScanFrom, EncodeRecord, Add64;
    Add64Add(sequence, 0, 0);
    var records := Records(stream, epoch, sequence, entries);
    if entries == [] {
      assert before + records == before;
    } else {
      var e, tail := entries[0], entries[1..];
      var record := EncodeRecord(stream, epoch, sequence, e);
      var more := Records(stream, epoch, Add64(sequence, 1), tail);
      var file := before + records + after;
      assert file == before + record + (more + after);
      assert file == (before + record) + more + after;
      assert before + records == (before + record) + more;
      NextWritten(before, more + after, stream, epoch, sequence, e);
      UnfoldScan(file, |before|, stream, epoch, sequence, last);
      ScanWritten(before + record, tail, after, stream, epoch, Add64(sequence, 1), Position(stream, epoch, sequence));
      Add64Add(sequence, 1, |tail|);
      if tail != [] {
        Add64Add(sequence, 1, |tail| - 1);
      }
    }
  }

  /** Reading them delivers the same, provided the sequences stay below 2^64. */
  lemma {:induction false} ReadWritten(before: seq<byte>, entries: seq<Entry>, after: seq<byte>,
                                       h: SegmentHeader, sequence: u64, last: Position)
    requires Writable(entries) && h.stream != 0 && h.epoch != 0
    requires sequence == ExpectedAfter(last, h.first) && 0 < sequence && sequence + |entries| <= U64_LIMIT
    ensures var records := Records(h.stream, h.epoch, sequence, entries);
      var file := before + records + after;
      var rest := ReadFrom(file, |before + records|, h, LastOf(h.stream, h.epoch, sequence, |entries|, last));
      ReadFrom(file, |before|, h, last)
      == Drained(Deliveries(h.stream, h.epoch, sequence, entries) + rest.records, rest.stop, rest.last)
    decreases |entries|
  {
    hide Next, ReadFrom, EncodeRecord;
    var records := Records(h.stream, h.epoch, sequence, entries);
    if entries == [] {
      assert before + records == before;
    } else {
      var e, tail := entries[0], entries[1..];
      var record := EncodeRecord(h.stream, h.epoch, sequence, e);
      var more := Records(h.stream, h.epoch, Add64(sequence, 1), tail);
      var file := before + records + after;
      assert file == before + record + (more + after);
      assert file == (before + record) + more + after;
      assert before + records == (before + record) + more;
      NextWritten(before, more + after, h.stream, h.epoch, sequence, e);
      ReadByNext(file, |before|, h, last);
      if tail == [] {
        assert more == [];
        assert (before + record) + more == before + record;
      } else {
        ReadWritten(before + record, tail, after, h, Add64(sequence, 1), Position(h.stream, h.epoch, sequence));
        Add64Add(sequence, 1, |tail| - 1);
      }
    }
  }

  /** The ids a segment can carry: the header check refuses zeros. */
  predicate Named(stream: u64, epoch: u64, first: u64) {
    stream != 0 && epoch != 0 && first != 0
  }

  lemma SegmentHeaderFound(file: seq<byte>, after: seq<byte>, stream: u64, epoch: u64, first: u64)
    requires Named(stream, epoch, first)
    requires file == EncodeSegmentHeader(MakeSegmentHeader(stream, epoch, first)) + after
    ensures HeaderOf(file) == Some(MakeSegmentHeader(stream, epoch, first)) && OpenError(file) == NoError
    ensures DecodeSegmentHeader(file[..SEGMENT_HEADER_SIZE]) == MakeSegmentHeader(stream, epoch, first)
  {
    hide DecodeSegmentHeader, EncodeSegmentHeader, SegmentHeaderCrc;
    var h := MakeSegmentHeader(stream, epoch, first);
    assert file[..SEGMENT_HEADER_SIZE] == EncodeSegmentHeader(h);
    SegmentHeaderRoundTrip(h);
    OwnSegmentHeaderChecks(stream, epoch, first);
  }

  lemma ScanSegmentThen(stream: u64, epoch: u64, first: u64, entries: seq<Entry>, after: seq<byte>)
    requires Named(stream, epoch, first) && Writable(entries)
    ensures var segment := Segment(stream, epoch, first, entries);
      var rest := ScanFrom(segment + after, |segment|, stream, epoch, Add64(first, |entries|),
                           LastOf(stream, epoch, first, |entries|, NOWHERE));
      && |segment| >= SEGMENT_HEADER_SIZE
      && ScanFile(segment + after) == Scan(rest.result, Deliveries(stream, epoch, first, entries) + rest.accepted)
  {
    hide EncodeSegmentHeader, ScanFrom, Records, DecodeSegmentHeader, Add64, HeaderOf;
    var h := EncodeSegmentHeader(MakeSegmentHeader(stream, epoch, first));
    var records := Records(stream, epoch, first, entries);
    assert Segment(stream, epoch, first, entries) + after == h + (records + after);
    SegmentHeaderFound(h + (records + after), records + after, stream, epoch, first);
    assert h + records + after == h + (records + after);
    ScanWritten(h, entries, after, stream, epoch, first, NOWHERE);
  }

  /** How a segment scans when its last record was cut after `k` bytes. */
  lemma TornTail(stream: u64, epoch: u64, first: u64, entries: seq<Entry>, e: Entry, k: nat)
    requires Named(stream, epoch, first) && Writable(entries) && |e.payload| <= MAX_PAYLOAD
    requires k < |EncodeRecord(stream, epoch, Add64(first, |entries|), e)|
    ensures var segment := Segment(stream, epoch, first, entries);
      var sequence := Add64(first, |entries|);
      var last := LastOf(stream, epoch, first, |entries|, NOWHERE);
      var whole := Deliveries(stream, epoch, first, entries);
      ScanFile(segment + EncodeRecord(stream, epoch, sequence, e)[..k]) ==
        if k == 0 then Scan(ScanResult(true, NoError, last, |segment|, false), whole)
        else if k < RECORD_HEADER_SIZE + |e.payload| then
          Scan(ScanResult(false, IncompleteTrailingRecord, last, |segment|, true), whole)
        else
          Scan(ScanResult(true, NoError, Position(stream, epoch, sequence), NO_OFFSET, false),
               whole + [Delivered(Position(stream, epoch, sequence), e.recordType, e.payload)])
  {
    hide ScanFile, ScanFrom, Segment, EncodeRecord, Add64, Deliveries, Next;
    var segment := Segment(stream, epoch, first, entries);
    var sequence := Add64(first, |entries|);
    var tail := EncodeRecord(stream, epoch, sequence, e)[..k];
    ScanSegmentThen(stream, epoch, first, entries, tail);
    UnfoldScan(segment + tail, |segment|, stream, epoch, sequence, LastOf(stream, epoch, first, |entries|, NOWHERE));
    if k == 0 {
      NextEnd(segment + tail, stream, epoch, sequence);
      assert Deliveries(stream, epoch, first, entries) + [] == Deliveries(stream, epoch, first, entries);
    } else {
      NextCut(segment, stream, epoch, sequence, e, k);
      assert Deliveries(stream, epoch, first, entries) + [] == Deliveries(stream, epoch, first, entries);
    }
  }

  lemma NextEnd(file: seq<byte>, stream: u64, epoch: u64, expected: u64)
    ensures Next(file, |file|, stream, epoch, expected) == End
  {
  }

  lemma {:induction false} RecordsConcat(stream: u64, epoch: u64, sequence: u64, a: seq<Entry>, b: seq<Entry>)
    ensures Records(stream, epoch, sequence, a + b)
      == Records(stream, epoch, sequence, a) + Records(stream, epoch, Add64(sequence, |a|), b)
    decreases |a|
  {
    hide EncodeRecord, Add64;
    Add64Add(sequence, 0, 0);
    if a == [] {
      assert a + b == b;
    } else {
      assert (a + b)[1..] == a[1..] + b;
      RecordsConcat(stream, epoch, Add64(sequence, 1), a[1..], b);
      Add64Add(sequence, 1, |a| - 1);
    }
  }

  lemma SegmentAppend(stream: u64, epoch: u64, first: u64, entries: seq<Entry>, e: Entry)
    ensures Segment(stream, epoch, first, entries + [e])
      == Segment(stream, epoch, first, entries) + EncodeRecord(stream, epoch, Add64(first, |entries|), e)
  {
    hide EncodeRecord, Add64, EncodeSegmentHeader;
    RecordsConcat(stream, epoch, first, entries, [e]);
    OneRecord(stream, epoch, Add64(first, |entries|), e);
  }

  lemma OneRecord(stream: u64, epoch: u64, sequence: u64, e: Entry)
    ensures Records(stream, epoch, sequence, [e]) == EncodeRecord(stream, epoch, sequence, e)
  {
    hide EncodeRecord;
    assert [e][1..] == [];
  }

  lemma EmptySegment(stream: u64, epoch: u64, first: u64)
    ensures |Segment(stream, epoch, first, [])| == SEGMENT_HEADER_SIZE
  {
  }

  /** Every prefix that keeps the segment header is some whole records and a proper part of the next. */
  lemma {:induction false} CutForm(stream: u64, epoch: u64, first: u64, entries: seq<Entry>, n: nat) returns (m: nat, k: nat)
    requires SEGMENT_HEADER_SIZE <= n < |Segment(stream, epoch, first, entries)|
    ensures m < |entries|
    ensures k < |EncodeRecord(stream, epoch, Add64(first, m), entries[m])|
    ensures Segment(stream, epoch, first, entries)[..n]
      == Segment(stream, epoch, first, entries[..m]) + EncodeRecord(stream, epoch, Add64(first, m), entries[m])[..k]
    decreases |entries|
  {
    hide EncodeRecord, Add64, EncodeSegmentHeader;
    EmptySegment(stream, epoch, first);
    var last := |entries| - 1;
    assert entries == entries[..last] + [entries[last]];
    SegmentAppend(stream, epoch, first, entries[..last], entries[last]);
    var shorter := Segment(stream, epoch, first, entries[..last]);
    if n >= |shorter| {
      m, k := last, n - |shorter|;
    } else {
      m, k := CutForm(stream, epoch, first, entries[..last], n);
      assert Segment(stream, epoch, first, entries)[..n] == shorter[..n];
      assert entries[..last][..m] == entries[..m];
    }
  }
}
