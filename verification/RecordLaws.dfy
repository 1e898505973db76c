/** How the program's two kinds of records lie in their payloads, and which payloads are read as them. */
module RecordLaws {
  import opened Domain
  import opened Codec
  import opened WalScan
  import opened Pipeline

  /** A signed number as the unsigned one with the same 64 bits. */
  function TwosComplement(x: i64): u64 {
    (x + 0x1_0000_0000_0000_0000) % 0x1_0000_0000_0000_0000
  }

  lemma SameBits(x: i64)
    ensures ToUnsigned(x) == TwosComplement(x)
  {
  }

  /** The 80 bytes of a command, field by field; the last four are padding. */
  lemma CommandBytes(c: Command)
    ensures var b := EncodeCommand(c);
      && b[0..8] == Le(c.commandSequence, 8) && b[8..16] == Le(c.ingressEpoch, 8) && b[16..24] == Le(c.ingressSequence, 8)
      && b[24..32] == Le(c.orderId, 8) && b[32..40] == Le(c.replacementOrderId, 8) && b[40..48] == Le(c.clientId, 8)
      && b[48..56] == Le(TwosComplement(c.price), 8) && b[56..64] == Le(TwosComplement(c.quantity), 8) && b[64..68] == Le(c.instrument, 4)
      && b[68..70] == Le(c.commandType, 2) && b[70..72] == Le(c.side, 2) && b[72..74] == Le(c.timeInForce, 2)
      && b[74..76] == Le(c.reserved, 2) && b[76..80] == Le(0, 4)
  {
    hide Le, Pack, Width, ToUnsigned, TwosComplement;
    var v := CommandValues(c);
    SameBits(c.price);
    SameBits(c.quantity);
    CommandOffsets();
    PackAt(COMMAND_LAYOUT, v, 0);
    PackAt(COMMAND_LAYOUT, v, 1);
    PackAt(COMMAND_LAYOUT, v, 2);
    PackAt(COMMAND_LAYOUT, v, 3);
    PackAt(COMMAND_LAYOUT, v, 4);
    PackAt(COMMAND_LAYOUT, v, 5);
    PackAt(COMMAND_LAYOUT, v, 6);
    PackAt(COMMAND_LAYOUT, v, 7);
    PackAt(COMMAND_LAYOUT, v, 8);
    PackAt(COMMAND_LAYOUT, v, 9);
    PackAt(COMMAND_LAYOUT, v, 10);
    PackAt(COMMAND_LAYOUT, v, 11);
    PackAt(COMMAND_LAYOUT, v, 12);
    PackAt(COMMAND_LAYOUT, v, 13);
  }

  lemma CommandOffsets()
    ensures Width(COMMAND_LAYOUT[..0]) == 0 && Width(COMMAND_LAYOUT[..1]) == 8 && Width(COMMAND_LAYOUT[..2]) == 16
    ensures Width(COMMAND_LAYOUT[..3]) == 24 && Width(COMMAND_LAYOUT[..4]) == 32 && Width(COMMAND_LAYOUT[..5]) == 40
    ensures Width(COMMAND_LAYOUT[..6]) == 48 && Width(COMMAND_LAYOUT[..7]) == 56 && Width(COMMAND_LAYOUT[..8]) == 64
    ensures Width(COMMAND_LAYOUT[..9]) == 68 && Width(COMMAND_LAYOUT[..10]) == 70 && Width(COMMAND_LAYOUT[..11]) == 72
    ensures Width(COMMAND_LAYOUT[..12]) == 74 && Width(COMMAND_LAYOUT[..13]) == 76
  {
    hide Width;
    WidthNext(COMMAND_LAYOUT, 0);
    WidthNext(COMMAND_LAYOUT, 1);
    WidthNext(COMMAND_LAYOUT, 2);
    WidthNext(COMMAND_LAYOUT, 3);
    WidthNext(COMMAND_LAYOUT, 4);
    WidthNext(COMMAND_LAYOUT, 5);
    WidthNext(COMMAND_LAYOUT, 6);
    WidthNext(COMMAND_LAYOUT, 7);
    WidthNext(COMMAND_LAYOUT, 8);
    WidthNext(COMMAND_LAYOUT, 9);
    WidthNext(COMMAND_LAYOUT, 10);
    WidthNext(COMMAND_LAYOUT, 11);
    WidthNext(COMMAND_LAYOUT, 12);
  }

  /** The 96 bytes of an event, field by field; the last four are padding. */
  lemma EventBytes(e: Event)
    ensures var b := EncodeEvent(e);
      && b[0..8] == Le(e.eventSequence, 8) && b[8..16] == Le(e.commandSequence, 8) && b[16..24] == Le(e.ingressEpoch, 8)
      && b[24..32] == Le(e.ingressSequence, 8) && b[32..40] == Le(e.orderId, 8) && b[40..48] == Le(e.contraOrderId, 8)
      && b[48..56] == Le(e.tradeId, 8) && b[56..64] == Le(TwosComplement(e.price), 8) && b[64..72] == Le(TwosComplement(e.quantity), 8)
      && b[72..80] == Le(TwosComplement(e.remaining), 8) && b[80..84] == Le(e.instrument, 4) && b[84..86] == Le(e.eventType, 2)
      && b[86..88] == Le(e.side, 2) && b[88..90] == Le(e.rejectionReason, 2) && b[90..92] == Le(e.reserved, 2)
      && b[92..96] == Le(0, 4)
  {
    hide Le, Pack, Width, ToUnsigned, TwosComplement;
    var v := EventValues(e);
    SameBits(e.price);
    SameBits(e.quantity);
    SameBits(e.remaining);
    EventOffsets();
    PackAt(EVENT_LAYOUT, v, 0);
    PackAt(EVENT_LAYOUT, v, 1);
    PackAt(EVENT_LAYOUT, v, 2);
    PackAt(EVENT_LAYOUT, v, 3);
    PackAt(EVENT_LAYOUT, v, 4);
    PackAt(EVENT_LAYOUT, v, 5);
    PackAt(EVENT_LAYOUT, v, 6);
    PackAt(EVENT_LAYOUT, v, 7);
    PackAt(EVENT_LAYOUT, v, 8);
    PackAt(EVENT_LAYOUT, v, 9);
    PackAt(EVENT_LAYOUT, v, 10);
    PackAt(EVENT_LAYOUT, v, 11);
    PackAt(EVENT_LAYOUT, v, 12);
    PackAt(EVENT_LAYOUT, v, 13);
    PackAt(EVENT_LAYOUT, v, 14);
    PackAt(EVENT_LAYOUT, v, 15);
  }

  lemma EventOffsets()
    ensures Width(EVENT_LAYOUT[..0]) == 0 && Width(EVENT_LAYOUT[..1]) == 8 && Width(EVENT_LAYOUT[..2]) == 16
    ensures Width(EVENT_LAYOUT[..3]) == 24 && Width(EVENT_LAYOUT[..4]) == 32 && Width(EVENT_LAYOUT[..5]) == 40
    ensures Width(EVENT_LAYOUT[..6]) == 48 && Width(EVENT_LAYOUT[..7]) == 56 && Width(EVENT_LAYOUT[..8]) == 64
    ensures Width(EVENT_LAYOUT[..9]) == 72 && Width(EVENT_LAYOUT[..10]) == 80 && Width(EVENT_LAYOUT[..11]) == 84
    ensures Width(EVENT_LAYOUT[..12]) == 86 && Width(EVENT_LAYOUT[..13]) == 88 && Width(EVENT_LAYOUT[..14]) == 90
    ensures Width(EVENT_LAYOUT[..15]) == 92
  {
    hide Width;
    WidthNext(EVENT_LAYOUT, 0);
    WidthNext(EVENT_LAYOUT, 1);
    WidthNext(EVENT_LAYOUT, 2);
    WidthNext(EVENT_LAYOUT, 3);
    WidthNext(EVENT_LAYOUT, 4);
    WidthNext(EVENT_LAYOUT, 5);
    WidthNext(EVENT_LAYOUT, 6);
    WidthNext(EVENT_LAYOUT, 7);
    WidthNext(EVENT_LAYOUT, 8);
    WidthNext(EVENT_LAYOUT, 9);
    WidthNext(EVENT_LAYOUT, 10);
    WidthNext(EVENT_LAYOUT, 11);
    WidthNext(EVENT_LAYOUT, 12);
    WidthNext(EVENT_LAYOUT, 13);
    WidthNext(EVENT_LAYOUT, 14);
  }

  /** A delivered record is read as a command or an event by its type and size alone. */
  lemma ReadByType(d: Delivered)
    ensures ReadCommand(d).Some? <==> d.recordType == 200 && |d.payload| == 80
    ensures ReadEvent(d).Some? <==> d.recordType == 300 && |d.payload| == 96
    ensures forall c: Command :: d.recordType == 200 && d.payload == EncodeCommand(c) ==> ReadCommand(d) == Some(c)
    ensures forall e: Event :: d.recordType == 300 && d.payload == EncodeEvent(e) ==> ReadEvent(d) == Some(e)
  {
    hide EncodeCommand, DecodeCommand, EncodeEvent, DecodeEvent;
    forall c: Command | d.payload == EncodeCommand(c)
      ensures DecodeCommand(d.payload) == c
    {
      CommandRoundTrip(c);
    }
    forall e: Event | d.payload == EncodeEvent(e)
      ensures DecodeEvent(d.payload) == e
    {
      EventRoundTrip(e);
    }
  }
}
