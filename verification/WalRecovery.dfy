/** Recovery of a segment: what it keeps, on any bytes and on cut segments; damage that is detected. */
module WalRecovery {
  import opened Domain
  import opened Checksum
  import opened WalFormat
  import opened WalStream
  import opened WalScan
  import opened WalReader
  import opened WalSegments

  datatype RecoveryResult = RecoveryResult(
    ok: bool, error: WalError, lastPosition: Position, lastOffset: nat, recoveredTail: bool)

  /** What recovery leaves of a file: a torn tail is cut off at the last valid offset. */
  ghost function Recovered(file: seq<byte>): seq<byte> {
    var s := ScanFile(file).result;
    ScanInside(file);
    if s.error == IncompleteTrailingRecord then file[..s.lastOffset] else file
  }

  lemma {:induction false} ScanFromInside(file: seq<byte>, offset: nat, stream: u64, epoch: u64, expected: u64, last: Position)
    requires offset <= |file|
    ensures var s := ScanFrom(file, offset, stream, epoch, expected, last).result;
      && (s.lastOffset != NO_OFFSET ==> offset <= s.lastOffset <= |file|)
      && (!s.ok ==> offset <= s.lastOffset <= |file|)
      && (s.ok <==> s.error == NoError) && (s.error == IncompleteTrailingRecord <==> s.torn)
    decreases |file| - offset
  {
    hide Next, ScanFrom, Add64;
    UnfoldScan(file, offset, stream, epoch, expected, last);
    var n := Next(file, offset, stream, epoch, expected);
    if n.Good? && !n.cut {
      ScanFromInside(file, n.next, stream, epoch, Add64(expected, 1), n.record.position);
    }
  }

  lemma ScanInside(file: seq<byte>)
    ensures ScanFile(file).result.error == IncompleteTrailingRecord ==>
      SEGMENT_HEADER_SIZE <= ScanFile(file).result.lastOffset <= |file|
  {
    hide ScanFrom, DecodeSegmentHeader, ValidSegmentFields, SegmentHeaderCrc;
    if HeaderOf(file).Some? {
      var h := HeaderOf(file).value;
      ScanFromInside(file, SEGMENT_HEADER_SIZE, h.stream, h.epoch, h.first, NOWHERE);
    }
  }

  /** Recovers a segment file, if it can be opened; returns what it then holds. */
  method RecoverSegment(contents: Option<seq<byte>>) returns (r: RecoveryResult, after: Option<seq<byte>>)
    ensures after == if contents.Some? then Some(Recovered(contents.value)) else None
    ensures var s := ScanOf(contents).result;
      r == if s.ok then RecoveryResult(true, NoError, s.lastPosition, s.lastOffset, false)
           else if s.error == IncompleteTrailingRecord then
             RecoveryResult(true, NoError, s.lastPosition, s.lastOffset, true)
           else RecoveryResult(false, s.error, s.lastPosition, s.lastOffset, false)
  {
    hide ScanFile;
    if contents.Some? {
      ScanVerdict(contents.value);
      ScanInside(contents.value);
    }
    var scan, accepted := ScanSegment(contents);
    if scan.ok {
      return RecoveryResult(true, NoError, scan.lastPosition, scan.lastOffset, false), contents;
    }
    if scan.error == IncompleteTrailingRecord {
      return RecoveryResult(true, NoError, scan.lastPosition, scan.lastOffset, true),
             Some(contents.value[..scan.lastOffset]);
    }
    return RecoveryResult(false, scan.error, scan.lastPosition, scan.lastOffset, false), contents;
  }

  lemma ScanVerdict(file: seq<byte>)
    ensures ScanFile(file).result.ok <==> ScanFile(file).result.error == NoError
  {
    hide ScanFrom, DecodeSegmentHeader, ValidSegmentFields, SegmentHeaderCrc;
    if HeaderOf(file).Some? {
      var h := HeaderOf(file).value;
      ScanFromInside(file, SEGMENT_HEADER_SIZE, h.stream, h.epoch, h.first, NOWHERE);
    }
  }

  // Recovery on any bytes

  /** A record that ends before the cut is found the same in the shorter file. */
  lemma NextLocal(file: seq<byte>, n: nat, offset: nat, stream: u64, epoch: u64, expected: u64)
    requires offset <= n <= |file|
    requires var found := Next(file, offset, stream, epoch, expected);
      found.Good? && !found.cut && found.next <= n
    ensures Next(file[..n], offset, stream, epoch, expected) == Next(file, offset, stream, epoch, expected)
  {
    hide DecodeRecordHeader, ValidStaticFields, RecordHeaderCrc, Crc, PaddingIn;
    var start := offset + RECORD_HEADER_SIZE;
    assert file[..n][offset..start] == file[offset..start];
    var h := DecodeRecordHeader(file[offset..start]);
    assert file[..n][start..start + h.payloadLength] == file[start..start + h.payloadLength];
  }

  lemma {:induction false} ScanTruncated(file: seq<byte>, offset: nat, stream: u64, epoch: u64, expected: u64, last: Position)
    requires offset <= |file|
    requires ScanFrom(file, offset, stream, epoch, expected, last).result.error == IncompleteTrailingRecord
    ensures var s := ScanFrom(file, offset, stream, epoch, expected, last);
      && offset <= s.result.lastOffset <= |file|
      && ScanFrom(file[..s.result.lastOffset], offset, stream, epoch, expected, last)
         == Scan(ScanResult(true, NoError, s.result.lastPosition, s.result.lastOffset, false), s.accepted)
    decreases |file| - offset
  {
    hide Next, ScanFrom, Add64;
    UnfoldScan(file, offset, stream, epoch, expected, last);
    var s := ScanFrom(file, offset, stream, epoch, expected, last);
    var found := Next(file, offset, stream, epoch, expected);
    if found.Torn? {
      NextEnd(file[..offset], stream, epoch, expected);
      UnfoldScan(file[..offset], offset, stream, epoch, expected, last);
    } else {
      ScanTruncated(file, found.next, stream, epoch, Add64(expected, 1), found.record.position);
      NextLocal(file, s.result.lastOffset, offset, stream, epoch, expected);
      UnfoldScan(file[..s.result.lastOffset], offset, stream, epoch, expected, last);
    }
  }

  /** After recovery of any torn file a scan succeeds with the same records and last position. */
  lemma RecoveredScans(file: seq<byte>)
    requires ScanFile(file).result.error == IncompleteTrailingRecord
    ensures var s := ScanFile(file);
      ScanFile(Recovered(file)) == Scan(ScanResult(true, NoError, s.result.lastPosition, s.result.lastOffset, false), s.accepted)
  {
    hide ScanFrom, DecodeSegmentHeader, ValidSegmentFields, SegmentHeaderCrc;
    ScanInside(file);
    var h := HeaderOf(file).value;
    ScanTruncated(file, SEGMENT_HEADER_SIZE, h.stream, h.epoch, h.first, NOWHERE);
    var n := ScanFile(file).result.lastOffset;
    assert file[..n][..SEGMENT_HEADER_SIZE] == file[..SEGMENT_HEADER_SIZE];
  }

  /** A second recovery changes nothing. */
  lemma RecoveryIdempotent(file: seq<byte>)
    ensures Recovered(Recovered(file)) == Recovered(file)
  {
    hide ScanFile;
    if ScanFile(file).result.error == IncompleteTrailingRecord {
      RecoveredScans(file);
    }
  }

  // Cut segments

  /** The cut is inside the zero bytes behind a payload: neither parser notices. */
  predicate InPadding(e: Entry, k: nat) {
    k >= RECORD_HEADER_SIZE + |e.payload|
  }

  /**
   A segment cut at any point past its header: the scan succeeds exactly when the cut is at the end of
   a record or in its padding; otherwise recovery keeps exactly the whole records before the cut.
   */
  lemma CutSegment(stream: u64, epoch: u64, first: u64, entries: seq<Entry>, n: nat) returns (m: nat, k: nat)
    requires Named(stream, epoch, first) && Writable(entries)
    requires SEGMENT_HEADER_SIZE <= n < |Segment(stream, epoch, first, entries)|
    ensures m < |entries| && k < |EncodeRecord(stream, epoch, Add64(first, m), entries[m])|
    ensures var file := Segment(stream, epoch, first, entries)[..n];
      var whole := Segment(stream, epoch, first, entries[..m]);
      && file == whole + EncodeRecord(stream, epoch, Add64(first, m), entries[m])[..k]
      && (ScanFile(file).result.ok <==> k == 0 || InPadding(entries[m], k))
      && (!ScanFile(file).result.ok ==> ScanFile(file).result.error == IncompleteTrailingRecord
                                        && ScanFile(file).result.lastOffset == |whole|)
      && (k == 0 || !InPadding(entries[m], k) ==>
            && Recovered(file) == whole
            && ScanFile(file).accepted == Deliveries(stream, epoch, first, entries[..m]))
      && (k > 0 && InPadding(entries[m], k) ==>
            && Recovered(file) == file
            && ScanFile(file).result.lastOffset == NO_OFFSET
            && ScanFile(file).result.lastPosition == Position(stream, epoch, Add64(first, m)))
  {
    m, k := CutForm(stream, epoch, first, entries, n);
    CutAfter(stream, epoch, first, entries[..m], entries[m], k);
  }

  lemma CutAfter(stream: u64, epoch: u64, first: u64, entries: seq<Entry>, e: Entry, k: nat)
    requires Named(stream, epoch, first) && Writable(entries) && |e.payload| <= MAX_PAYLOAD
    requires k < |EncodeRecord(stream, epoch, Add64(first, |entries|), e)|
    ensures var whole := Segment(stream, epoch, first, entries);
      var file := whole + EncodeRecord(stream, epoch, Add64(first, |entries|), e)[..k];
      && (ScanFile(file).result.ok <==> k == 0 || InPadding(e, k))
      && (!ScanFile(file).result.ok ==> ScanFile(file).result.error == IncompleteTrailingRecord
                                        && ScanFile(file).result.lastOffset == |whole|)
      && (k == 0 || !InPadding(e, k) ==>
            && Recovered(file) == whole
            && ScanFile(file).accepted == Deliveries(stream, epoch, first, entries))
      && (k > 0 && InPadding(e, k) ==>
            && Recovered(file) == file
            && ScanFile(file).result.lastOffset == NO_OFFSET
            && ScanFile(file).result.lastPosition == Position(stream, epoch, Add64(first, |entries|)))
  {
    hide ScanFile, Segment, EncodeRecord, Add64, Deliveries;
    TornTail(stream, epoch, first, entries, e, k);
    var whole := Segment(stream, epoch, first, entries);
    assert (whole + EncodeRecord(stream, epoch, Add64(first, |entries|), e)[..k])[..|whole|] == whole;
  }

  // Damage inside a payload

  /**
   A change confined to four consecutive bytes of a stored payload makes the reader fail at exactly
   that record, after delivering all earlier ones, and the scan report a corruption there.
   */
  lemma BurstStopsReader(stream: u64, epoch: u64, first: u64, entries: seq<Entry>, recordType: u32,
                         p: seq<byte>, a: seq<byte>, b: seq<byte>, q: seq<byte>, after: seq<byte>)
    requires Named(stream, epoch, first) && Writable(entries) && |p + a + q| <= MAX_PAYLOAD
    requires |a| == |b| <= 4 && a != b && first + |entries| < U64_LIMIT
    ensures var e := Entry(recordType, p + a + q);
      var sequence := Add64(first, |entries|);
      var header := EncodeRecordHeader(MakeHeader(stream, epoch, sequence, e));
      var damaged := Segment(stream, epoch, first, entries) + (header + (p + b + q) + Zeros(Padding(e)) + after);
      var last := LastOf(stream, epoch, first, |entries|, NOWHERE);
      && ReadFile(damaged) == Drained(Deliveries(stream, epoch, first, entries), PayloadChecksumMismatch, last)
      && ScanFile(damaged) == Scan(ScanResult(false, CorruptedMiddleRecord, last,
                                              |Segment(stream, epoch, first, entries)|, false),
                                   Deliveries(stream, epoch, first, entries))
  {
    hide ReadFile, ScanFile, Deliveries, EncodeRecordHeader, MakeHeader, Crc, Padding, Segment, Add64;
    var e := Entry(recordType, p + a + q);
    ShortBurstDetected(p, a, b, q);
    var header := EncodeRecordHeader(MakeHeader(stream, epoch, Add64(first, |entries|), e));
    assert header + (p + b + q) + Zeros(Padding(e)) + after == header + (p + b + q) + (Zeros(Padding(e)) + after);
    DamageStopsReader(stream, epoch, first, entries, e, p + b + q, Zeros(Padding(e)) + after);
  }

  /** The reader stops at a record whose payload no longer matches its checksum. */
  lemma DamageStopsReader(stream: u64, epoch: u64, first: u64, entries: seq<Entry>, e: Entry, payload: seq<byte>,
                          after: seq<byte>)
    requires Named(stream, epoch, first) && Writable(entries) && first + |entries| < U64_LIMIT
    requires |e.payload| == |payload| <= MAX_PAYLOAD && Crc(payload) != Crc(e.payload)
    ensures var header := EncodeRecordHeader(MakeHeader(stream, epoch, Add64(first, |entries|), e));
      var damaged := Segment(stream, epoch, first, entries) + (header + payload + after);
      var last := LastOf(stream, epoch, first, |entries|, NOWHERE);
      && ReadFile(damaged) == Drained(Deliveries(stream, epoch, first, entries), PayloadChecksumMismatch, last)
      && ScanFile(damaged) == Scan(ScanResult(false, CorruptedMiddleRecord, last,
                                              |Segment(stream, epoch, first, entries)|, false),
                                   Deliveries(stream, epoch, first, entries))
  {
    hide ReadFrom, ReadFile, ScanFrom, ScanFile, Add64, EncodeRecordHeader, MakeHeader, Deliveries, Crc, Next, Segment;
    var sequence := Add64(first, |entries|);
    var rest := EncodeRecordHeader(MakeHeader(stream, epoch, sequence, e)) + payload + after;
    var segment := Segment(stream, epoch, first, entries);
    ReadSegmentThen(stream, epoch, first, entries, rest);
    NextDamaged(segment, stream, epoch, sequence, e, payload, after);
    assert segment + rest == segment + EncodeRecordHeader(MakeHeader(stream, epoch, sequence, e)) + payload + after;
    var h := MakeSegmentHeader(stream, epoch, first);
    ReadByNext(segment + rest, |segment|, h, LastOf(stream, epoch, first, |entries|, NOWHERE));
    ScanSegmentThen(stream, epoch, first, entries, rest);
    UnfoldScan(segment + rest, |segment|, stream, epoch, sequence, LastOf(stream, epoch, first, |entries|, NOWHERE));
    assert Deliveries(stream, epoch, first, entries) + [] == Deliveries(stream, epoch, first, entries);
  }

  lemma NextDamaged(before: seq<byte>, stream: u64, epoch: u64, sequence: u64, e: Entry, payload: seq<byte>, after: seq<byte>)
    requires |e.payload| == |payload| <= MAX_PAYLOAD && Crc(payload) != Crc(e.payload)
    ensures var header := EncodeRecordHeader(MakeHeader(stream, epoch, sequence, e));
      Next(before + header + payload + after, |before|, stream, epoch, sequence) == Bad(PayloadChecksumMismatch)
  {
    hide DecodeRecordHeader, EncodeRecordHeader, MakeHeader, ValidStaticFields, RecordHeaderCrc, PaddingIn, Crc, Padding;
    var header := EncodeRecordHeader(MakeHeader(stream, epoch, sequence, e));
    var file := before + header + payload + after;
    assert file == before + header + (payload + after);
    WrittenHeader(file, before, payload + after, stream, epoch, sequence, e);
    var start := |before| + RECORD_HEADER_SIZE;
    assert file[start..start + |payload|] == payload;
  }

  /** Reading a segment followed by anything, while the sequences stay below 2^64. */
  lemma ReadSegmentThen(stream: u64, epoch: u64, first: u64, entries: seq<Entry>, after: seq<byte>)
    requires Named(stream, epoch, first) && Writable(entries) && first + |entries| <= U64_LIMIT
    ensures var segment := Segment(stream, epoch, first, entries);
      var last := LastOf(stream, epoch, first, |entries|, NOWHERE);
      var rest := ReadFrom(segment + after, |segment|, MakeSegmentHeader(stream, epoch, first), last);
      && ReadFile(segment + after) == Drained(Deliveries(stream, epoch, first, entries) + rest.records, rest.stop, rest.last)
      && (first + |entries| < U64_LIMIT ==>
            ExpectedAfter(last, MakeSegmentHeader(stream, epoch, first).first) == Add64(first, |entries|))
  {
    hide EncodeSegmentHeader, ReadFrom, Records, DecodeSegmentHeader, SegmentHeaderCrc;
    var h := MakeSegmentHeader(stream, epoch, first);
    var bytes := EncodeSegmentHeader(h);
    var records := Records(stream, epoch, first, entries);
    assert Segment(stream, epoch, first, entries) + after == bytes + (records + after);
    SegmentHeaderFound(bytes + (records + after), records + after, stream, epoch, first);
    assert bytes + records + after == bytes + (records + after);
    ReadWritten(bytes, entries, after, h, first, NOWHERE);
  }

  /** Everything appended to a new segment reads back, in order, then the log ends. */
  lemma WriteReadRoundTrip(stream: u64, epoch: u64, first: u64, entries: seq<Entry>)
    requires Named(stream, epoch, first) && Writable(entries) && first + |entries| <= U64_LIMIT
    ensures ReadFile(Segment(stream, epoch, first, entries))
      == Drained(Deliveries(stream, epoch, first, entries), EndOfLog, LastOf(stream, epoch, first, |entries|, NOWHERE))
  {
    hide ReadFrom, ReadFile, Segment, Deliveries, Next;
    var segment := Segment(stream, epoch, first, entries);
    ReadSegmentThen(stream, epoch, first, entries, []);
    assert segment + [] == segment;
    var h := MakeSegmentHeader(stream, epoch, first);
    var last := LastOf(stream, epoch, first, |entries|, NOWHERE);
    NextEnd(segment, stream, epoch, ExpectedAfter(last, h.first));
    ReadByNext(segment, |segment|, h, last);
    assert Deliveries(stream, epoch, first, entries) + [] == Deliveries(stream, epoch, first, entries);
  }
}
