/** The binary format of a log segment: alignment, headers, and the bytes of well formed records. */
module WalFormat {
  import opened Domain
  import opened Checksum
  import opened Codec

  const RECORD_MAGIC: u32 := 0x5741_4C52
  const SEGMENT_MAGIC: u32 := 0x5741_4C53
  const FORMAT_VERSION: u16 := 1
  const RECORD_ALIGNMENT: u32 := 8
  const RECORD_HEADER_SIZE: nat := 56
  const SEGMENT_HEADER_SIZE: nat := 40

  /** The largest payload whose record length fits in 32 bits. */
  const MAX_PAYLOAD: nat := U32_LIMIT - 64

  datatype WalError = NoError | CannotOpenFile | CannotReadFile | CannotWriteFile | CannotFlushFile
    | InvalidSegmentHeader | InvalidRecordHeader | PayloadChecksumMismatch | HeaderChecksumMismatch
    | UnexpectedSequence | PayloadSizeMismatch | RecordTypeMismatch
    | IncompleteTrailingRecord | CorruptedMiddleRecord | EndOfLog

  datatype Position = Position(stream: u64, epoch: u64, sequence: u64) {
    predicate IsValid() {
      stream != 0 && epoch != 0 && sequence != 0
    }
  }

  const NOWHERE := Position(0, 0, 0)

  // Alignment, in 32-bit arithmetic

  function AlignUp(value: u32, alignment: u32): u32 {
    if alignment == 0 then value
    else
      var remainder := value % alignment;
      if remainder == 0 then value else (value + (alignment - remainder)) % U32_LIMIT
  }

  function PaddingFor(value: u32, alignment: u32): u32 {
    (AlignUp(value, alignment) - value) % U32_LIMIT
  }

  lemma PaddingRounds(value: u32)
    requires value <= U32_LIMIT - RECORD_ALIGNMENT
    ensures var padding := PaddingFor(value, RECORD_ALIGNMENT);
      && padding < 8 && (value as int + padding as int) % 8 == 0 && (value % 8 == 0 ==> padding == 0)
      && AlignUp(value, RECORD_ALIGNMENT) as int == value as int + padding as int
  {
  }

  // Headers

  datatype RecordHeader = RecordHeader(
    magic: u32, version: u16, headerSize: u16, recordLength: u32, recordType: u32,
    stream: u64, epoch: u64, sequence: u64, payloadLength: u32, payloadCrc: u32, headerCrc: u32, tail: u32)

  /** Field widths; the last field is the padding at the end of the struct. */
  const RECORD_LAYOUT: seq<nat> := [4, 2, 2, 4, 4, 8, 8, 8, 4, 4, 4, 4]

  function RecordValues(h: RecordHeader): seq<nat> {
    [h.magic, h.version, h.headerSize, h.recordLength, h.recordType, h.stream, h.epoch, h.sequence,
     h.payloadLength, h.payloadCrc, h.headerCrc, h.tail]
  }

  lemma RecordLayout()
    ensures Width(RECORD_LAYOUT) == RECORD_HEADER_SIZE
  {
    WidthConcat([4, 2, 2, 4, 4, 8], [8, 8, 4, 4, 4, 4]);
    WidthConcat([4, 2, 2], [4, 4, 8]);
    WidthConcat([8, 8, 4], [4, 4, 4]);
    assert RECORD_LAYOUT == [4, 2, 2] + [4, 4, 8] + ([8, 8, 4] + [4, 4, 4]);
  }

  function EncodeRecordHeader(h: RecordHeader): (bytes: seq<byte>)
    ensures |bytes| == RECORD_HEADER_SIZE
  {
    RecordLayout();
    Pack(RECORD_LAYOUT, RecordValues(h))
  }

  lemma RecordFits(values: seq<nat>)
    ensures Fits(RECORD_LAYOUT, values) <==>
      && |values| == 12
      && values[0] < U32_LIMIT && values[1] < U16_LIMIT && values[2] < U16_LIMIT && values[3] < U32_LIMIT
      && values[4] < U32_LIMIT && values[5] < U64_LIMIT && values[6] < U64_LIMIT && values[7] < U64_LIMIT
      && values[8] < U32_LIMIT && values[9] < U32_LIMIT && values[10] < U32_LIMIT && values[11] < U32_LIMIT
  {
    Pow256Values();
    hide Pow256;
  }

  function DecodeRecordHeader(bytes: seq<byte>): RecordHeader
    requires |bytes| == RECORD_HEADER_SIZE
  {
    RecordLayout();
    PackUnpack(RECORD_LAYOUT, bytes);
    var v := Unpack(RECORD_LAYOUT, bytes);
    RecordFits(v);
    RecordHeader(v[0], v[1], v[2], v[3], v[4], v[5], v[6], v[7], v[8], v[9], v[10], v[11])
  }

  lemma RecordHeaderRoundTrip(h: RecordHeader)
    ensures DecodeRecordHeader(EncodeRecordHeader(h)) == h
  {
    hide Pack, Unpack, Fits, Width;
    RecordFits(RecordValues(h));
    RecordLayout();
    UnpackPack(RECORD_LAYOUT, RecordValues(h));
  }

  /** The checksum of a header, taken with its own checksum field cleared. */
  function RecordHeaderCrc(h: RecordHeader): u32 {
    Crc(EncodeRecordHeader(h.(headerCrc := 0)))
  }

  predicate ValidStaticFields(h: RecordHeader) {
    var expected := AlignUp((RECORD_HEADER_SIZE + h.payloadLength) % U32_LIMIT, RECORD_ALIGNMENT);
    && h.magic == RECORD_MAGIC
    && h.version == FORMAT_VERSION
    && h.headerSize == RECORD_HEADER_SIZE
    && h.recordLength >= RECORD_HEADER_SIZE
    && h.recordLength % RECORD_ALIGNMENT == 0
    && h.recordLength == expected
  }

  /** The padding a parser skips: 64-bit unsigned subtraction, then read as a signed stream size. */
  function PaddingIn(h: RecordHeader): int {
    var unsigned := (h.recordLength - RECORD_HEADER_SIZE - h.payloadLength) % U64_LIMIT;
    if unsigned < I64_LIMIT then unsigned else unsigned - U64_LIMIT
  }

  datatype SegmentHeader = SegmentHeader(
    magic: u32, version: u16, headerSize: u16, stream: u64, epoch: u64, first: u64, flags: u32, headerCrc: u32)

  const SEGMENT_LAYOUT: seq<nat> := [4, 2, 2, 8, 8, 8, 4, 4]

  function SegmentValues(h: SegmentHeader): seq<nat> {
    [h.magic, h.version, h.headerSize, h.stream, h.epoch, h.first, h.flags, h.headerCrc]
  }

  lemma SegmentLayout()
    ensures Width(SEGMENT_LAYOUT) == SEGMENT_HEADER_SIZE
  {
    WidthConcat([4, 2, 2, 8], [8, 8, 4, 4]);
    WidthConcat([4, 2], [2, 8]);
    WidthConcat([8, 8], [4, 4]);
    assert SEGMENT_LAYOUT == [4, 2] + [2, 8] + ([8, 8] + [4, 4]);
  }

  function EncodeSegmentHeader(h: SegmentHeader): (bytes: seq<byte>)
    ensures |bytes| == SEGMENT_HEADER_SIZE
  {
    SegmentLayout();
    Pack(SEGMENT_LAYOUT, SegmentValues(h))
  }

  lemma SegmentFits(values: seq<nat>)
    ensures Fits(SEGMENT_LAYOUT, values) <==>
      && |values| == 8
      && values[0] < U32_LIMIT && values[1] < U16_LIMIT && values[2] < U16_LIMIT && values[3] < U64_LIMIT
      && values[4] < U64_LIMIT && values[5] < U64_LIMIT && values[6] < U32_LIMIT && values[7] < U32_LIMIT
  {
    Pow256Values();
    hide Pow256;
  }

  function DecodeSegmentHeader(bytes: seq<byte>): SegmentHeader
    requires |bytes| == SEGMENT_HEADER_SIZE
  {
    SegmentLayout();
    PackUnpack(SEGMENT_LAYOUT, bytes);
    var v := Unpack(SEGMENT_LAYOUT, bytes);
    SegmentFits(v);
    SegmentHeader(v[0], v[1], v[2], v[3], v[4], v[5], v[6], v[7])
  }

  lemma SegmentHeaderRoundTrip(h: SegmentHeader)
    ensures DecodeSegmentHeader(EncodeSegmentHeader(h)) == h
  {
    hide Pack, Unpack, Fits, Width;
    SegmentFits(SegmentValues(h));
    SegmentLayout();
    UnpackPack(SEGMENT_LAYOUT, SegmentValues(h));
  }

  function SegmentHeaderCrc(h: SegmentHeader): u32 {
    Crc(EncodeSegmentHeader(h.(headerCrc := 0)))
  }

  predicate ValidSegmentFields(h: SegmentHeader) {
    && h.magic == SEGMENT_MAGIC
    && h.version == FORMAT_VERSION
    && h.headerSize == SEGMENT_HEADER_SIZE
    && h.stream != 0 && h.epoch != 0 && h.first != 0
  }

  // What a writer produces

  datatype Entry = Entry(recordType: u32, payload: seq<byte>)

  function Zeros(n: nat): seq<byte> {
    seq(n, _ => 0)
  }

  function MakeHeader(stream: u64, epoch: u64, sequence: u64, e: Entry): RecordHeader {
    var length := |e.payload| % U32_LIMIT;
    var h := RecordHeader(RECORD_MAGIC, FORMAT_VERSION, RECORD_HEADER_SIZE,
                          AlignUp((RECORD_HEADER_SIZE + length) % U32_LIMIT, RECORD_ALIGNMENT), e.recordType,
                          stream, epoch, sequence, length, Crc(e.payload), 0, 0);
    h.(headerCrc := RecordHeaderCrc(h))
  }

  /** The zero bytes written behind a payload. */
  function Padding(e: Entry): nat {
    PaddingFor((RECORD_HEADER_SIZE + |e.payload| % U32_LIMIT) % U32_LIMIT, RECORD_ALIGNMENT)
  }

  function EncodeRecord(stream: u64, epoch: u64, sequence: u64, e: Entry): seq<byte> {
    EncodeRecordHeader(MakeHeader(stream, epoch, sequence, e)) + e.payload + Zeros(Padding(e))
  }

  function MakeSegmentHeader(stream: u64, epoch: u64, first: u64): SegmentHeader {
    var h := SegmentHeader(SEGMENT_MAGIC, FORMAT_VERSION, SEGMENT_HEADER_SIZE, stream, epoch, first, 0, 0);
    h.(headerCrc := SegmentHeaderCrc(h))
  }

  // The exact reach of the 32-bit length arithmetic

  ghost predicate RecordKind(h: RecordHeader) {
    h.magic == RECORD_MAGIC && h.version == FORMAT_VERSION && h.headerSize == RECORD_HEADER_SIZE
  }

  /** Up to `MAX_PAYLOAD` the check accepts one record length, and parsers skip what writers pad. */
  lemma LengthFits(h: RecordHeader)
    requires RecordKind(h) && h.payloadLength <= MAX_PAYLOAD
    ensures var padding: int := PaddingFor((RECORD_HEADER_SIZE + h.payloadLength) % U32_LIMIT, RECORD_ALIGNMENT);
      && 0 <= padding < 8 && (RECORD_HEADER_SIZE as int + h.payloadLength as int + padding) % 8 == 0
      && (ValidStaticFields(h) <==> h.recordLength as int == RECORD_HEADER_SIZE as int + h.payloadLength as int + padding)
      && (ValidStaticFields(h) ==> PaddingIn(h) == padding)
  {
  }

  /** Above it the rounded length wraps below the header size and nothing is accepted ... */
  lemma LengthWraps(h: RecordHeader)
    requires RecordKind(h) && MAX_PAYLOAD < h.payloadLength < U32_LIMIT - 7
    ensures !ValidStaticFields(h)
  {
  }

  /** ... until the sum wraps far enough to look like an empty record, with a negative padding. */
  lemma LengthWrapsRound(h: RecordHeader)
    requires RecordKind(h) && h.payloadLength >= U32_LIMIT - 7
    ensures ValidStaticFields(h) <==> h.recordLength == RECORD_HEADER_SIZE
    ensures ValidStaticFields(h) ==> PaddingIn(h) == -(h.payloadLength as int)
  {
  }

  /**
   The writer's own header passes its check exactly when the length, cut to 32 bits, did not wrap when it
   was rounded, or wrapped all the way round.
   */
  lemma OwnHeaderAccepted(stream: u64, epoch: u64, sequence: u64, e: Entry)
    ensures var length := |e.payload| % U32_LIMIT;
      && (ValidStaticFields(MakeHeader(stream, epoch, sequence, e)) <==> length <= MAX_PAYLOAD || length >= U32_LIMIT - 7)
      && (length <= MAX_PAYLOAD ==> PaddingIn(MakeHeader(stream, epoch, sequence, e)) == Padding(e) < 8)
      && MakeHeader(stream, epoch, sequence, e).payloadLength == length
  {
    hide RecordHeaderCrc, Crc, ValidStaticFields, PaddingIn, AlignUp, PaddingFor;
    var h := MakeHeader(stream, epoch, sequence, e);
    if h.payloadLength <= MAX_PAYLOAD {
      PaddingRounds(RECORD_HEADER_SIZE + h.payloadLength);
      LengthFits(h);
    } else if h.payloadLength < U32_LIMIT - 7 {
      LengthWraps(h);
    } else {
      LengthWrapsRound(h);
      WrappedLength(h.payloadLength);
    }
  }

  lemma WrappedLength(length: u32)
    requires length >= U32_LIMIT - 7
    ensures AlignUp((RECORD_HEADER_SIZE + length) % U32_LIMIT, RECORD_ALIGNMENT) == RECORD_HEADER_SIZE
  {
  }

  lemma OwnHeaderChecks(stream: u64, epoch: u64, sequence: u64, e: Entry)
    ensures var h := MakeHeader(stream, epoch, sequence, e);
      h.headerCrc == RecordHeaderCrc(h)
  {
    hide Crc, EncodeRecordHeader, AlignUp;
    var h := MakeHeader(stream, epoch, sequence, e);
    assert h.(headerCrc := 0) == h.(headerCrc := 0).(headerCrc := 0);
  }

  lemma OwnSegmentHeaderChecks(stream: u64, epoch: u64, first: u64)
    ensures var h := MakeSegmentHeader(stream, epoch, first);
      h.headerCrc == SegmentHeaderCrc(h)
  {
    hide Crc, EncodeSegmentHeader;
    var h := MakeSegmentHeader(stream, epoch, first);
    assert h.(headerCrc := 0) == h.(headerCrc := 0).(headerCrc := 0);
  }
}
