/** What lies where in a header, what its checksum covers, and what the parsers accept as one. */
module HeaderLaws {
  import opened Domain
  import opened Checksum
  import opened Codec
  import opened WalFormat
  import opened WalScan
  import opened WalReader
  import opened WalSegments
  import opened WalRecovery
  import opened WalWriter
  import opened CrashSafety

  // Where the fields lie

  /** The 56 bytes of a record header, field by field. */
  lemma RecordHeaderBytes(h: RecordHeader)
    ensures var b := EncodeRecordHeader(h);
      && b[0..4] == Le(h.magic, 4) && b[4..6] == Le(h.version, 2) && b[6..8] == Le(h.headerSize, 2)
      && b[8..12] == Le(h.recordLength, 4) && b[12..16] == Le(h.recordType, 4)
      && b[16..24] == Le(h.stream, 8) && b[24..32] == Le(h.epoch, 8) && b[32..40] == Le(h.sequence, 8)
      && b[40..44] == Le(h.payloadLength, 4) && b[44..48] == Le(h.payloadCrc, 4)
      && b[48..52] == Le(h.headerCrc, 4) && b[52..56] == Le(h.tail, 4)
  {
    hide Le, Pack, Width;
    var v := RecordValues(h);
    RecordOffsets();
    PackAt(RECORD_LAYOUT, v, 0);
    PackAt(RECORD_LAYOUT, v, 1);
    PackAt(RECORD_LAYOUT, v, 2);
    PackAt(RECORD_LAYOUT, v, 3);
    PackAt(RECORD_LAYOUT, v, 4);
    PackAt(RECORD_LAYOUT, v, 5);
    PackAt(RECORD_LAYOUT, v, 6);
    PackAt(RECORD_LAYOUT, v, 7);
    PackAt(RECORD_LAYOUT, v, 8);
    PackAt(RECORD_LAYOUT, v, 9);
    PackAt(RECORD_LAYOUT, v, 10);
    PackAt(RECORD_LAYOUT, v, 11);
  }

  lemma RecordOffsets()
    ensures Width(RECORD_LAYOUT[..0]) == 0 && Width(RECORD_LAYOUT[..1]) == 4 && Width(RECORD_LAYOUT[..2]) == 6
    ensures Width(RECORD_LAYOUT[..3]) == 8 && Width(RECORD_LAYOUT[..4]) == 12 && Width(RECORD_LAYOUT[..5]) == 16
    ensures Width(RECORD_LAYOUT[..6]) == 24 && Width(RECORD_LAYOUT[..7]) == 32 && Width(RECORD_LAYOUT[..8]) == 40
    ensures Width(RECORD_LAYOUT[..9]) == 44 && Width(RECORD_LAYOUT[..10]) == 48 && Width(RECORD_LAYOUT[..11]) == 52
  {
    hide Width;
    WidthNext(RECORD_LAYOUT, 0);
    WidthNext(RECORD_LAYOUT, 1);
    WidthNext(RECORD_LAYOUT, 2);
    WidthNext(RECORD_LAYOUT, 3);
    WidthNext(RECORD_LAYOUT, 4);
    WidthNext(RECORD_LAYOUT, 5);
    WidthNext(RECORD_LAYOUT, 6);
    WidthNext(RECORD_LAYOUT, 7);
    WidthNext(RECORD_LAYOUT, 8);
    WidthNext(RECORD_LAYOUT, 9);
    WidthNext(RECORD_LAYOUT, 10);
  }

  /** The 40 bytes of a segment header, field by field. */
  lemma SegmentHeaderBytes(h: SegmentHeader)
    ensures var b := EncodeSegmentHeader(h);
      && b[0..4] == Le(h.magic, 4) && b[4..6] == Le(h.version, 2) && b[6..8] == Le(h.headerSize, 2)
      && b[8..16] == Le(h.stream, 8) && b[16..24] == Le(h.epoch, 8) && b[24..32] == Le(h.first, 8)
      && b[32..36] == Le(h.flags, 4) && b[36..40] == Le(h.headerCrc, 4)
  {
    hide Le, Pack, Width;
    var v := SegmentValues(h);
    SegmentOffsets();
    PackAt(SEGMENT_LAYOUT, v, 0);
    PackAt(SEGMENT_LAYOUT, v, 1);
    PackAt(SEGMENT_LAYOUT, v, 2);
    PackAt(SEGMENT_LAYOUT, v, 3);
    PackAt(SEGMENT_LAYOUT, v, 4);
    PackAt(SEGMENT_LAYOUT, v, 5);
    PackAt(SEGMENT_LAYOUT, v, 6);
    PackAt(SEGMENT_LAYOUT, v, 7);
  }

  lemma SegmentOffsets()
    ensures Width(SEGMENT_LAYOUT[..0]) == 0 && Width(SEGMENT_LAYOUT[..1]) == 4 && Width(SEGMENT_LAYOUT[..2]) == 6
    ensures Width(SEGMENT_LAYOUT[..3]) == 8 && Width(SEGMENT_LAYOUT[..4]) == 16 && Width(SEGMENT_LAYOUT[..5]) == 24
    ensures Width(SEGMENT_LAYOUT[..6]) == 32 && Width(SEGMENT_LAYOUT[..7]) == 36
  {
    hide Width;
    WidthNext(SEGMENT_LAYOUT, 0);
    WidthNext(SEGMENT_LAYOUT, 1);
    WidthNext(SEGMENT_LAYOUT, 2);
    WidthNext(SEGMENT_LAYOUT, 3);
    WidthNext(SEGMENT_LAYOUT, 4);
    WidthNext(SEGMENT_LAYOUT, 5);
    WidthNext(SEGMENT_LAYOUT, 6);
  }

  // What the checksum covers

  /** Two strings that are equal outside a window of at most four bytes. */
  ghost predicate SameBut(x: seq<byte>, y: seq<byte>, at: nat, size: nat) {
    && |x| == |y| && size <= 4 && at + size <= |x|
    && x[..at] == y[..at] && x[at + size..] == y[at + size..]
  }

  lemma WindowDetected(x: seq<byte>, y: seq<byte>, at: nat, size: nat)
    requires SameBut(x, y, at, size) && x != y
    ensures Crc(x) != Crc(y)
  {
    hide Crc;
    var a, b := x[at..at + size], y[at..at + size];
    assert x == x[..at] + a + x[at + size..];
    assert y == x[..at] + b + x[at + size..];
    ShortBurstDetected(x[..at], a, b, x[at + size..]);
  }

  /** A header with its checksum cleared: the same bytes but for the four of the checksum. */
  lemma ClearedRecordHeader(h: RecordHeader)
    ensures EncodeRecordHeader(h.(headerCrc := 0)) == EncodeRecordHeader(h)[..48] + Le(0, 4) + EncodeRecordHeader(h)[52..]
  {
    hide EncodeRecordHeader, Le;
    var z := h.(headerCrc := 0);
    var x, y := EncodeRecordHeader(h), EncodeRecordHeader(z);
    RecordHeaderBytes(h);
    RecordHeaderBytes(z);
    assert x[..48] == x[0..4] + x[4..6] + x[6..8] + x[8..12] + x[12..16] + x[16..24] + x[24..32] + x[32..40] + x[40..44] + x[44..48];
    assert y[..48] == y[0..4] + y[4..6] + y[6..8] + y[8..12] + y[12..16] + y[16..24] + y[24..32] + y[32..40] + y[40..44] + y[44..48];
    assert y == y[..48] + y[48..52] + y[52..56];
    assert x[52..] == x[52..56];
  }

  /** Headers with the same checksum field that differ within four consecutive bytes never have the same checksum. */
  lemma RecordHeaderDamage(h: RecordHeader, g: RecordHeader, at: nat, size: nat)
    requires h != g && h.headerCrc == g.headerCrc
    requires SameBut(EncodeRecordHeader(h), EncodeRecordHeader(g), at, size)
    ensures RecordHeaderCrc(h) != RecordHeaderCrc(g)
  {
    hide EncodeRecordHeader, DecodeRecordHeader, Crc, Le;
    ClearedRecordHeader(h);
    ClearedRecordHeader(g);
    RecordHeaderRoundTrip(h.(headerCrc := 0));
    RecordHeaderRoundTrip(g.(headerCrc := 0));
    StillSame(EncodeRecordHeader(h), EncodeRecordHeader(g), at, size, 48, Le(0, 4));
    assert h == h.(headerCrc := 0).(headerCrc := h.headerCrc) && g == g.(headerCrc := 0).(headerCrc := h.headerCrc);
    WindowDetected(EncodeRecordHeader(h.(headerCrc := 0)), EncodeRecordHeader(g.(headerCrc := 0)), at, size);
  }

  /** Putting the same four bytes into both strings keeps them equal outside the window. */
  lemma StillSame(x: seq<byte>, y: seq<byte>, at: nat, size: nat, k: nat, four: seq<byte>)
    requires SameBut(x, y, at, size) && |four| == 4 && k + 4 <= |x|
    ensures SameBut(x[..k] + four + x[k + 4..], y[..k] + four + y[k + 4..], at, size)
  {
    var p, q := x[..k] + four + x[k + 4..], y[..k] + four + y[k + 4..];
    forall i | 0 <= i < |x| && (i < at || i >= at + size)
      ensures p[i] == q[i]
    {
      if i < at {
        assert x[..at][i] == y[..at][i];
      } else {
        assert x[at + size..][i - at - size] == y[at + size..][i - at - size];
      }
    }
  }

  /**
   A written record: the header a reader expects field by field, its checksum taken over the header with
   the checksum bytes at zero, then the payload, then zeros up to a multiple of eight.
   */
  lemma WrittenRecord(stream: u64, epoch: u64, sequence: u64, e: Entry)
    requires |e.payload| <= MAX_PAYLOAD
    ensures var b := EncodeRecord(stream, epoch, sequence, e);
      && |b| >= 56 + |e.payload| && |b| % 8 == 0 && |b| < 56 + |e.payload| + 8
      && b[0..4] == Le(0x5741_4C52, 4) && b[4..6] == Le(1, 2) && b[6..8] == Le(56, 2)
      && b[8..12] == Le(|b|, 4) && b[12..16] == Le(e.recordType, 4)
      && b[16..24] == Le(stream, 8) && b[24..32] == Le(epoch, 8) && b[32..40] == Le(sequence, 8)
      && b[40..44] == Le(|e.payload|, 4) && b[44..48] == Le(Crc(e.payload), 4)
      && b[48..52] == Le(Crc(b[..48] + [0, 0, 0, 0] + b[52..56]), 4) && b[52..56] == [0, 0, 0, 0]
      && b[56..56 + |e.payload|] == e.payload
      && forall i | 56 + |e.payload| <= i < |b| :: b[i] == 0
  {
    hide Le, Crc, EncodeRecordHeader, MakeHeader, Padding;
    var header := EncodeRecordHeader(MakeHeader(stream, epoch, sequence, e));
    var zeros := Zeros(Padding(e));
    WrittenHeaderFields(stream, epoch, sequence, e);
    Laid(header, e.payload, zeros);
    PaddingOf(e);
  }

  lemma Laid(header: seq<byte>, payload: seq<byte>, zeros: seq<byte>)
    requires |header| == 56
    ensures var b := header + payload + zeros;
      && b[0..4] == header[0..4] && b[4..6] == header[4..6] && b[6..8] == header[6..8]
      && b[8..12] == header[8..12] && b[12..16] == header[12..16] && b[16..24] == header[16..24]
      && b[24..32] == header[24..32] && b[32..40] == header[32..40] && b[40..44] == header[40..44]
      && b[44..48] == header[44..48] && b[48..52] == header[48..52] && b[52..56] == header[52..56]
      && b[..48] == header[..48] && b[56..56 + |payload|] == payload && b[56 + |payload|..] == zeros
      && forall i | 56 + |payload| <= i < |b| :: b[i] == zeros[i - 56 - |payload|]
  {
  }

  lemma PaddingOf(e: Entry)
    requires |e.payload| <= MAX_PAYLOAD
    ensures (56 + |e.payload| + Padding(e)) % 8 == 0 && Padding(e) < 8
    ensures AlignUp((RECORD_HEADER_SIZE + |e.payload|) % U32_LIMIT, RECORD_ALIGNMENT) as int == 56 + |e.payload| + Padding(e)
    ensures forall n: nat, i: nat | i < n :: Zeros(n)[i] == 0
  {
    hide AlignUp, PaddingFor;
    PaddingRounds(RECORD_HEADER_SIZE + |e.payload|);
  }

  lemma WrittenHeaderFields(stream: u64, epoch: u64, sequence: u64, e: Entry)
    requires |e.payload| <= MAX_PAYLOAD
    ensures var b := EncodeRecordHeader(MakeHeader(stream, epoch, sequence, e));
      && b[0..4] == Le(0x5741_4C52, 4) && b[4..6] == Le(1, 2) && b[6..8] == Le(56, 2)
      && b[8..12] == Le(56 + |e.payload| + Padding(e), 4) && b[12..16] == Le(e.recordType, 4)
      && b[16..24] == Le(stream, 8) && b[24..32] == Le(epoch, 8) && b[32..40] == Le(sequence, 8)
      && b[40..44] == Le(|e.payload|, 4) && b[44..48] == Le(Crc(e.payload), 4)
      && b[48..52] == Le(Crc(b[..48] + [0, 0, 0, 0] + b[52..56]), 4) && b[52..56] == [0, 0, 0, 0]
  {
    hide Le, Crc, EncodeRecordHeader, MakeHeader, Padding;
    var h := MakeHeader(stream, epoch, sequence, e);
    RecordHeaderBytes(h);
    MadeFields(stream, epoch, sequence, e);
    ClearedRecordHeader(h);
    OwnHeaderChecks(stream, epoch, sequence, e);
    FourZeros();
    assert EncodeRecordHeader(h)[52..] == EncodeRecordHeader(h)[52..56];
  }

  lemma MadeFields(stream: u64, epoch: u64, sequence: u64, e: Entry)
    requires |e.payload| <= MAX_PAYLOAD
    ensures var h := MakeHeader(stream, epoch, sequence, e);
      && h.magic == 0x5741_4C52 && h.version == 1 && h.headerSize == 56
      && h.recordLength as int == 56 + |e.payload| + Padding(e) && h.recordType == e.recordType
      && h.stream == stream && h.epoch == epoch && h.sequence == sequence
      && h.payloadLength == |e.payload| && h.payloadCrc == Crc(e.payload) && h.tail == 0
  {
    hide Crc, EncodeRecordHeader, AlignUp, Padding;
    PaddingOf(e);
  }

  lemma FourZeros()
    ensures Le(0, 4) == [0, 0, 0, 0]
  {
    LeFirst(0, 4);
    LeFirst(0, 3);
    LeFirst(0, 2);
    LeFirst(0, 1);
    LeFirst(0, 0);
  }

  lemma ClearedSegmentHeader(h: SegmentHeader)
    ensures EncodeSegmentHeader(h.(headerCrc := 0)) == EncodeSegmentHeader(h)[..36] + Le(0, 4)
  {
    hide EncodeSegmentHeader, Le;
    var z := h.(headerCrc := 0);
    var x, y := EncodeSegmentHeader(h), EncodeSegmentHeader(z);
    SegmentHeaderBytes(h);
    SegmentHeaderBytes(z);
    assert x[..36] == x[0..4] + x[4..6] + x[6..8] + x[8..16] + x[16..24] + x[24..32] + x[32..36];
    assert y[..36] == y[0..4] + y[4..6] + y[6..8] + y[8..16] + y[16..24] + y[24..32] + y[32..36];
    assert y == y[..36] + y[36..40];
  }

  lemma SegmentHeaderDamage(h: SegmentHeader, g: SegmentHeader, at: nat, size: nat)
    requires h != g && h.headerCrc == g.headerCrc
    requires SameBut(EncodeSegmentHeader(h), EncodeSegmentHeader(g), at, size)
    ensures SegmentHeaderCrc(h) != SegmentHeaderCrc(g)
  {
    hide EncodeSegmentHeader, DecodeSegmentHeader, Crc, Le;
    ClearedSegmentHeader(h);
    ClearedSegmentHeader(g);
    SegmentHeaderRoundTrip(h.(headerCrc := 0));
    SegmentHeaderRoundTrip(g.(headerCrc := 0));
    var x, y := EncodeSegmentHeader(h), EncodeSegmentHeader(g);
    StillSame(x, y, at, size, 36, Le(0, 4));
    assert x[40..] == [] && y[40..] == [];
    assert x[..36] + Le(0, 4) + x[40..] == x[..36] + Le(0, 4) && y[..36] + Le(0, 4) + y[40..] == y[..36] + Le(0, 4);
    assert h == h.(headerCrc := 0).(headerCrc := h.headerCrc) && g == g.(headerCrc := 0).(headerCrc := h.headerCrc);
    WindowDetected(EncodeSegmentHeader(h.(headerCrc := 0)), EncodeSegmentHeader(g.(headerCrc := 0)), at, size);
  }

  /** A written segment header, its checksum taken with the checksum bytes at zero. */
  lemma WrittenSegmentHeader(stream: u64, epoch: u64, first: u64)
    ensures var b := EncodeSegmentHeader(MakeSegmentHeader(stream, epoch, first));
      && b[0..4] == Le(0x5741_4C53, 4) && b[4..6] == Le(1, 2) && b[6..8] == Le(40, 2)
      && b[8..16] == Le(stream, 8) && b[16..24] == Le(epoch, 8) && b[24..32] == Le(first, 8)
      && b[32..36] == [0, 0, 0, 0] && b[36..40] == Le(Crc(b[..36] + [0, 0, 0, 0]), 4)
  {
    hide Le, Crc, EncodeSegmentHeader;
    var h := MakeSegmentHeader(stream, epoch, first);
    SegmentHeaderBytes(h);
    ClearedSegmentHeader(h);
    OwnSegmentHeaderChecks(stream, epoch, first);
    FourZeros();
  }

  // Damaged headers

  /** The header `damaged` differs from `header` within four bytes, all in the checksum field or none. */
  ghost predicate Damage(header: seq<byte>, damaged: seq<byte>, at: nat, size: nat, checksum: nat)
    requires checksum + 4 <= |header|
  {
    && SameBut(header, damaged, at, size) && damaged != header
    && (damaged[checksum..checksum + 4] == header[checksum..checksum + 4]
        || (damaged[..checksum] == header[..checksum] && damaged[checksum + 4..] == header[checksum + 4..]))
  }

  /** A damaged header of the right kind no longer has its checksum. */
  lemma DamagedChecksum(h: RecordHeader, damaged: seq<byte>, at: nat, size: nat)
    requires h.headerCrc == RecordHeaderCrc(h) && Damage(EncodeRecordHeader(h), damaged, at, size, 48)
    ensures DecodeRecordHeader(damaged).headerCrc != RecordHeaderCrc(DecodeRecordHeader(damaged))
  {
    hide EncodeRecordHeader, DecodeRecordHeader, RecordHeaderCrc, Le;
    var g := DecodeRecordHeader(damaged);
    HeaderReencoded(damaged);
    RecordHeaderBytes(h);
    RecordHeaderBytes(g);
    Pow256Values();
    UnLeLe(h.headerCrc, 4);
    UnLeLe(g.headerCrc, 4);
    if damaged[48..52] == EncodeRecordHeader(h)[48..52] {
      RecordHeaderDamage(h, g, at, size);
    } else {
      ClearedRecordHeader(h);
      ClearedRecordHeader(g);
      RecordHeaderRoundTrip(h.(headerCrc := 0));
      RecordHeaderRoundTrip(g.(headerCrc := 0));
      SameCleared(h, g);
    }
  }

  lemma SameCleared(h: RecordHeader, g: RecordHeader)
    requires h.(headerCrc := 0) == g.(headerCrc := 0)
    ensures RecordHeaderCrc(h) == RecordHeaderCrc(g)
  {
  }

  lemma HeaderReencoded(bytes: seq<byte>)
    requires |bytes| == RECORD_HEADER_SIZE
    ensures EncodeRecordHeader(DecodeRecordHeader(bytes)) == bytes
  {
    hide Pack, Unpack, Fits, Width;
    RecordLayout();
    PackUnpack(RECORD_LAYOUT, bytes);
    assert RecordValues(DecodeRecordHeader(bytes)) == Unpack(RECORD_LAYOUT, bytes);
  }

  /** The static check looks at the first twelve bytes and the payload length only. */
  lemma SameStaticFields(h: RecordHeader, bytes: seq<byte>)
    requires |bytes| == 56 && bytes[..12] == EncodeRecordHeader(h)[..12] && bytes[40..44] == EncodeRecordHeader(h)[40..44]
    ensures ValidStaticFields(DecodeRecordHeader(bytes)) <==> ValidStaticFields(h)
  {
    hide EncodeRecordHeader, DecodeRecordHeader, Le, AlignUp;
    var g := DecodeRecordHeader(bytes);
    HeaderReencoded(bytes);
    RecordHeaderBytes(h);
    RecordHeaderBytes(g);
    var x := EncodeRecordHeader(h);
    assert x[0..4] == x[..12][0..4] && x[4..6] == x[..12][4..6] && x[6..8] == x[..12][6..8] && x[8..12] == x[..12][8..12];
    assert bytes[0..4] == bytes[..12][0..4] && bytes[4..6] == bytes[..12][4..6];
    assert bytes[6..8] == bytes[..12][6..8] && bytes[8..12] == bytes[..12][8..12];
    Pow256Values();
    LeInjective(h.magic, g.magic, 4);
    LeInjective(h.version, g.version, 2);
    LeInjective(h.headerSize, g.headerSize, 2);
    LeInjective(h.recordLength, g.recordLength, 4);
    LeInjective(h.payloadLength, g.payloadLength, 4);
  }

  /** What passes the static check starts with the same eight bytes as any written header. */
  lemma KindBytes(stream: u64, epoch: u64, sequence: u64, e: Entry, bytes: seq<byte>)
    requires |bytes| == 56
    ensures ValidStaticFields(DecodeRecordHeader(bytes)) ==>
      bytes[..8] == EncodeRecordHeader(MakeHeader(stream, epoch, sequence, e))[..8]
  {
    hide EncodeRecordHeader, DecodeRecordHeader, Le, AlignUp, Crc, RecordHeaderCrc;
    var g, h := DecodeRecordHeader(bytes), MakeHeader(stream, epoch, sequence, e);
    HeaderReencoded(bytes);
    RecordHeaderBytes(h);
    RecordHeaderBytes(g);
    var x := EncodeRecordHeader(h);
    assert bytes[..8] == bytes[0..4] + bytes[4..6] + bytes[6..8] && x[..8] == x[0..4] + x[4..6] + x[6..8];
  }

  lemma LeInjective(x: nat, y: nat, n: nat)
    requires x < Pow256(n) && y < Pow256(n) && Le(x, n) == Le(y, n)
    ensures x == y
  {
    UnLeLe(x, n);
    UnLeLe(y, n);
  }

  /** A sound record of another stream or epoch is no record here. */
  lemma NextForeign(before: seq<byte>, after: seq<byte>, stream: u64, epoch: u64, sequence: u64, e: Entry,
                    ours: u64, oursEpoch: u64, expected: u64)
    requires |e.payload| <= MAX_PAYLOAD && (stream != ours || epoch != oursEpoch)
    ensures Next(before + EncodeRecord(stream, epoch, sequence, e) + after, |before|, ours, oursEpoch, expected)
      == Bad(InvalidRecordHeader)
  {
    hide DecodeRecordHeader, EncodeRecordHeader, MakeHeader, ValidStaticFields, RecordHeaderCrc, PaddingIn, Crc, Padding;
    var header := EncodeRecordHeader(MakeHeader(stream, epoch, sequence, e));
    var rest := e.payload + Zeros(Padding(e)) + after;
    var file := before + header + rest;
    assert before + EncodeRecord(stream, epoch, sequence, e) + after == file;
    WrittenHeader(file, before, rest, stream, epoch, sequence, e);
  }

  lemma NextDamagedHeader(before: seq<byte>, after: seq<byte>, stream: u64, epoch: u64, sequence: u64, e: Entry,
                          damaged: seq<byte>, at: nat, size: nat)
    requires Damage(EncodeRecordHeader(MakeHeader(stream, epoch, sequence, e)), damaged, at, size, 48)
    ensures Next(before + damaged + after, |before|, stream, epoch, sequence).Bad?
    ensures var header := EncodeRecordHeader(MakeHeader(stream, epoch, sequence, e));
      |e.payload| <= MAX_PAYLOAD && damaged[..12] == header[..12] && damaged[40..44] == header[40..44] ==>
        Next(before + damaged + after, |before|, stream, epoch, sequence) == Bad(HeaderChecksumMismatch)
    ensures damaged[..8] != EncodeRecordHeader(MakeHeader(stream, epoch, sequence, e))[..8] ==>
      Next(before + damaged + after, |before|, stream, epoch, sequence) == Bad(InvalidRecordHeader)
  {
    hide EncodeRecordHeader, DecodeRecordHeader, MakeHeader, RecordHeaderCrc, ValidStaticFields, PaddingIn, Crc;
    var h := MakeHeader(stream, epoch, sequence, e);
    KindBytes(stream, epoch, sequence, e, damaged);
    OwnHeaderChecks(stream, epoch, sequence, e);
    DamagedChecksum(h, damaged, at, size);
    if |e.payload| <= MAX_PAYLOAD && damaged[..12] == EncodeRecordHeader(h)[..12]
       && damaged[40..44] == EncodeRecordHeader(h)[40..44] {
      OwnHeaderAccepted(stream, epoch, sequence, e);
      SameStaticFields(h, damaged);
    }
    assert (before + damaged + after)[|before|..|before| + RECORD_HEADER_SIZE] == damaged;
  }

  /**
   A change within four consecutive bytes of a record's header makes both parsers deliver all earlier
   records and stop at exactly that one: the reader with a corruption, the scan with the record's offset.
   */
  lemma DamagedHeaderStops(id: Id, entries: seq<Entry>, e: Entry, damaged: seq<byte>, at: nat, size: nat, after: seq<byte>)
    requires Named(id.stream, id.epoch, id.first) && Writable(entries) && id.first + |entries| < U64_LIMIT
    requires Damage(EncodeRecordHeader(MakeHeader(id.stream, id.epoch, Add64(id.first, |entries|), e)), damaged, at, size, 48)
    ensures var whole := id.Bytes(entries);
      var file := whole + (damaged + after);
      var records := Deliveries(id.stream, id.epoch, id.first, entries);
      var last := LastOf(id.stream, id.epoch, id.first, |entries|, NOWHERE);
      && ReadFile(file).records == records && ReadFile(file).last == last && Corruption(ReadFile(file).stop)
      && ScanFile(file) == Scan(ScanResult(false, CorruptedMiddleRecord, last, |whole|, false), records)
    ensures var header := EncodeRecordHeader(MakeHeader(id.stream, id.epoch, Add64(id.first, |entries|), e));
      |e.payload| <= MAX_PAYLOAD && damaged[..12] == header[..12] && damaged[40..44] == header[40..44] ==>
        ReadFile(id.Bytes(entries) + (damaged + after)).stop == HeaderChecksumMismatch
    ensures damaged[..8] != EncodeRecordHeader(MakeHeader(id.stream, id.epoch, Add64(id.first, |entries|), e))[..8] ==>
      ReadFile(id.Bytes(entries) + (damaged + after)).stop == InvalidRecordHeader
  {
    hide ScanFile, ReadFile, ReadFrom, ScanFrom, Segment, EncodeRecordHeader, MakeHeader, Next, Deliveries, MakeSegmentHeader, Add64;
    var whole, tail := id.Bytes(entries), damaged + after;
    var file := whole + tail;
    var sequence := Add64(id.first, |entries|);
    var last := LastOf(id.stream, id.epoch, id.first, |entries|, NOWHERE);
    assert file == whole + damaged + after;
    NextDamagedHeader(whole, after, id.stream, id.epoch, sequence, e, damaged, at, size);
    NextFault(file, |whole|, id.stream, id.epoch, sequence);
    HeaderFields(id.stream, id.epoch, id.first);
    ReadSegmentThen(id.stream, id.epoch, id.first, entries, tail);
    ReadByNext(file, |whole|, MakeSegmentHeader(id.stream, id.epoch, id.first), last);
    ScanSegmentThen(id.stream, id.epoch, id.first, entries, tail);
    UnfoldScan(file, |whole|, id.stream, id.epoch, sequence, last);
    assert Deliveries(id.stream, id.epoch, id.first, entries) + [] == Deliveries(id.stream, id.epoch, id.first, entries);
  }

  lemma DamagedSegmentChecksum(h: SegmentHeader, damaged: seq<byte>, at: nat, size: nat)
    requires h.headerCrc == SegmentHeaderCrc(h) && Damage(EncodeSegmentHeader(h), damaged, at, size, 36)
    ensures DecodeSegmentHeader(damaged).headerCrc != SegmentHeaderCrc(DecodeSegmentHeader(damaged))
  {
    hide EncodeSegmentHeader, DecodeSegmentHeader, SegmentHeaderCrc, Le;
    var g := DecodeSegmentHeader(damaged);
    SegmentReencoded(damaged);
    SegmentHeaderBytes(h);
    SegmentHeaderBytes(g);
    Pow256Values();
    UnLeLe(h.headerCrc, 4);
    UnLeLe(g.headerCrc, 4);
    if damaged[36..40] == EncodeSegmentHeader(h)[36..40] {
      SegmentHeaderDamage(h, g, at, size);
    } else {
      ClearedSegmentHeader(h);
      ClearedSegmentHeader(g);
      SegmentHeaderRoundTrip(h.(headerCrc := 0));
      SegmentHeaderRoundTrip(g.(headerCrc := 0));
      SameSegmentCleared(h, g);
    }
  }

  lemma SameSegmentCleared(h: SegmentHeader, g: SegmentHeader)
    requires h.(headerCrc := 0) == g.(headerCrc := 0)
    ensures SegmentHeaderCrc(h) == SegmentHeaderCrc(g)
  {
  }

  lemma SegmentReencoded(bytes: seq<byte>)
    requires |bytes| == SEGMENT_HEADER_SIZE
    ensures EncodeSegmentHeader(DecodeSegmentHeader(bytes)) == bytes
  {
    hide Pack, Unpack, Fits, Width;
    SegmentLayout();
    PackUnpack(SEGMENT_LAYOUT, bytes);
    assert SegmentValues(DecodeSegmentHeader(bytes)) == Unpack(SEGMENT_LAYOUT, bytes);
  }

  /** A change within four consecutive bytes of the segment header makes both parsers and a reopening writer refuse the file. */
  lemma DamagedSegmentRefused(id: Id, damaged: seq<byte>, at: nat, size: nat, after: seq<byte>)
    requires Damage(EncodeSegmentHeader(MakeSegmentHeader(id.stream, id.epoch, id.first)), damaged, at, size, 36)
    ensures var file := damaged + after;
      && ScanFile(file).accepted == [] && !ScanFile(file).result.ok
      && ScanFile(file).result.error in {InvalidSegmentHeader, HeaderChecksumMismatch}
      && ReadFile(file) == Drained([], ScanFile(file).result.error, NOWHERE)
      && Open(file, id.stream, id.epoch, id.first, false, None).error == ScanFile(file).result.error
      && var header := EncodeSegmentHeader(MakeSegmentHeader(id.stream, id.epoch, id.first));
         && (damaged[..8] != header[..8] ==> ScanFile(file).result.error == InvalidSegmentHeader)
         && (Named(id.stream, id.epoch, id.first) && damaged[..32] == header[..32] ==>
               ScanFile(file).result.error == HeaderChecksumMismatch)
  {
    hide EncodeSegmentHeader, DecodeSegmentHeader, SegmentHeaderCrc, ValidSegmentFields, MakeSegmentHeader, ScanFrom, ReadFrom;
    OwnSegmentHeaderChecks(id.stream, id.epoch, id.first);
    DamagedSegmentChecksum(MakeSegmentHeader(id.stream, id.epoch, id.first), damaged, at, size);
    SegmentKind(id, damaged);
    assert (damaged + after)[..SEGMENT_HEADER_SIZE] == damaged;
  }

  /** The static check of a segment header looks at its first 32 bytes, of which eight are the same in every file. */
  lemma SegmentKind(id: Id, bytes: seq<byte>)
    requires |bytes| == 40
    ensures var header := EncodeSegmentHeader(MakeSegmentHeader(id.stream, id.epoch, id.first));
      && (ValidSegmentFields(DecodeSegmentHeader(bytes)) ==> bytes[..8] == header[..8])
      && (Named(id.stream, id.epoch, id.first) && bytes[..32] == header[..32] ==>
            ValidSegmentFields(DecodeSegmentHeader(bytes)))
  {
    hide EncodeSegmentHeader, DecodeSegmentHeader, Le, Crc, SegmentHeaderCrc;
    var g, h := DecodeSegmentHeader(bytes), MakeSegmentHeader(id.stream, id.epoch, id.first);
    SegmentReencoded(bytes);
    SegmentHeaderBytes(h);
    SegmentHeaderBytes(g);
    var x := EncodeSegmentHeader(h);
    assert bytes[..8] == bytes[0..4] + bytes[4..6] + bytes[6..8] && x[..8] == x[0..4] + x[4..6] + x[6..8];
    if bytes[..32] == x[..32] {
      assert x[0..4] == x[..32][0..4] && x[4..6] == x[..32][4..6] && x[6..8] == x[..32][6..8];
      assert x[8..16] == x[..32][8..16] && x[16..24] == x[..32][16..24] && x[24..32] == x[..32][24..32];
      assert bytes[0..4] == bytes[..32][0..4] && bytes[4..6] == bytes[..32][4..6] && bytes[6..8] == bytes[..32][6..8];
      assert bytes[8..16] == bytes[..32][8..16] && bytes[16..24] == bytes[..32][16..24] && bytes[24..32] == bytes[..32][24..32];
      Pow256Values();
      LeInjective(h.magic, g.magic, 4);
      LeInjective(h.version, g.version, 2);
      LeInjective(h.headerSize, g.headerSize, 2);
      LeInjective(h.stream, g.stream, 8);
      LeInjective(h.epoch, g.epoch, 8);
      LeInjective(h.first, g.first, 8);
    }
  }

  /** A file too short for a segment header: each of the three has its own word for it. */
  lemma ShortFileRefused(file: seq<byte>, id: Id)
    requires |file| < 40
    ensures ScanFile(file) == Scan(ScanResult(false, InvalidSegmentHeader, NOWHERE, 0, false), [])
    ensures ReadFile(file) == Drained([], CannotReadFile, NOWHERE)
    ensures file != [] ==> Open(file, id.stream, id.epoch, id.first, false, None).error == InvalidSegmentHeader
  {
  }

  // What is accepted

  /** A record is found only where the bytes are those a writer would have put there, zeros behind the header included. */
  lemma AcceptedIsWritten(file: seq<byte>, offset: nat, stream: u64, epoch: u64, expected: u64)
    requires offset <= |file| && Next(file, offset, stream, epoch, expected).Good?
    requires offset + 56 <= |file| && file[offset + 52..offset + 56] == [0, 0, 0, 0]
    ensures var r := Next(file, offset, stream, epoch, expected).record;
      && r.position == Position(stream, epoch, expected)
      && offset + 56 + |r.payload| <= |file|
      && file[offset..offset + 56 + |r.payload|]
         == EncodeRecordHeader(MakeHeader(stream, epoch, expected, Entry(r.recordType, r.payload))) + r.payload
  {
    hide Next, DecodeRecordHeader, EncodeRecordHeader, Crc, PaddingIn, RecordHeaderCrc, Due, MakeHeader, Le;
    var bytes := file[offset..offset + 56];
    var h := DecodeRecordHeader(bytes);
    UnfoldNext(file, offset, stream, epoch, expected);
    var r := Next(file, offset, stream, epoch, expected).record;
    HeaderReencoded(bytes);
    TailIsZero(h, bytes);
    assert bytes[52..56] == file[offset + 52..offset + 56];
    DueIsMade(h, stream, epoch, expected, Entry(r.recordType, r.payload));
    assert file[offset..offset + 56 + |r.payload|] == bytes + file[offset + 56..offset + 56 + |r.payload|];
  }

  lemma TailIsZero(h: RecordHeader, bytes: seq<byte>)
    requires bytes == EncodeRecordHeader(h)
    ensures bytes[52..56] == [0, 0, 0, 0] ==> h.tail == 0
  {
    hide EncodeRecordHeader, Le;
    RecordHeaderBytes(h);
    FourZeros();
    Pow256Values();
    UnLeLe(h.tail, 4);
    UnLeLe(0, 4);
  }

  lemma DueIsMade(h: RecordHeader, stream: u64, epoch: u64, expected: u64, e: Entry)
    requires Due(h, stream, epoch, expected) && h.tail == 0
    requires h.payloadLength == |e.payload| && h.payloadCrc == Crc(e.payload) && h.recordType == e.recordType
    ensures h == MakeHeader(stream, epoch, expected, e)
  {
    hide Crc, EncodeRecordHeader, AlignUp;
    var made := MakeHeader(stream, epoch, expected, e);
    assert h.(headerCrc := 0) == made.(headerCrc := 0);
  }

  /** A segment header is accepted only if its bytes, flags at zero, are those a writer would have put there. */
  lemma AcceptedHeaderIsWritten(file: seq<byte>)
    requires HeaderOf(file).Some? && |file| >= 40 && file[32..36] == [0, 0, 0, 0]
    ensures var h := HeaderOf(file).value;
      && h.stream != 0 && h.epoch != 0 && h.first != 0
      && file[..40] == EncodeSegmentHeader(MakeSegmentHeader(h.stream, h.epoch, h.first))
  {
    hide DecodeSegmentHeader, EncodeSegmentHeader, SegmentHeaderCrc, MakeSegmentHeader;
    var bytes := file[..40];
    var h := HeaderOf(file).value;
    SegmentReencoded(bytes);
    assert bytes[32..36] == file[32..36];
    FlagsAreZero(h, bytes);
    AcceptedIsMade(h);
  }

  lemma FlagsAreZero(h: SegmentHeader, bytes: seq<byte>)
    requires bytes == EncodeSegmentHeader(h)
    ensures bytes[32..36] == [0, 0, 0, 0] ==> h.flags == 0
  {
    hide EncodeSegmentHeader, Le;
    SegmentHeaderBytes(h);
    FourZeros();
    Pow256Values();
    UnLeLe(h.flags, 4);
    UnLeLe(0, 4);
  }

  lemma AcceptedIsMade(h: SegmentHeader)
    requires ValidSegmentFields(h) && h.headerCrc == SegmentHeaderCrc(h) && h.flags == 0
    ensures h == MakeSegmentHeader(h.stream, h.epoch, h.first)
  {
    hide Crc, EncodeSegmentHeader;
    assert h.(headerCrc := 0) == MakeSegmentHeader(h.stream, h.epoch, h.first).(headerCrc := 0);
  }

  // Whose segment it is

  /** A writer goes on with a well formed segment if and only if it is its own; a foreign one is refused and left alone. */
  lemma OpensOwnOnly(id: Id, other: Id, log: seq<Entry>)
    requires Named(id.stream, id.epoch, id.first) && Named(other.stream, other.epoch, other.first) && Writable(log)
    ensures var w := Open(other.Bytes(log), id.stream, id.epoch, id.first, false, None);
      && (w.error == NoError <==> id == other)
      && (id != other ==> w.error == InvalidSegmentHeader)
      && w.file.bytes == other.Bytes(log) && w.pending == [] && w.committed == []
      && (id == other ==> w.lastCommitted == w.last == LastOf(id.stream, id.epoch, id.first, |log|, NOWHERE))
      && (id == other && id.first + |log| <= U64_LIMIT ==> w.next == Add64(id.first, |log|))
  {
    hide ScanFile, Recovered, Records, EncodeSegmentHeader, DecodeSegmentHeader, SegmentHeaderCrc, ValidSegmentFields, MakeSegmentHeader;
    var file := other.Bytes(log);
    var header := EncodeSegmentHeader(MakeSegmentHeader(other.stream, other.epoch, other.first));
    SegmentHeaderFound(file, file[|header|..], other.stream, other.epoch, other.first);
    HeaderFields(other.stream, other.epoch, other.first);
    WholeScan(other, log);
    if id.first + |log| <= U64_LIMIT {
      ResumesAt(id, |log|);
    }
  }
}
