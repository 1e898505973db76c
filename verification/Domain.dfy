/** The durable records and wire constants shared by the matcher, its consumers and the log. */
module Domain {
  const U16_LIMIT := 0x1_0000
  const U32_LIMIT := 0x1_0000_0000
  const U64_LIMIT := 0x1_0000_0000_0000_0000
  const I64_LIMIT := 0x8000_0000_0000_0000

  type u16 = x: int | 0 <= x < U16_LIMIT
  type u32 = x: int | 0 <= x < U32_LIMIT
  type u64 = x: int | 0 <= x < U64_LIMIT
  type i64 = x: int | -I64_LIMIT <= x < I64_LIMIT

  datatype Option<+T> = None | Some(value: T)

  /** `x + n` in 64-bit unsigned arithmetic. */
  function Add64(x: u64, n: nat): u64 {
    (x + n) % U64_LIMIT
  }

  lemma Add64Add(x: u64, n: nat, m: nat)
    ensures Add64(Add64(x, n), m) == Add64(x, n + m)
    ensures Add64(x, 0) == x
  {
  }

  /** `x` as a 64-bit signed number, two's complement. */
  function Wrap64(x: int): i64 {
    (x + I64_LIMIT) % U64_LIMIT - I64_LIMIT
  }

  lemma Wrap64Add(x: int, y: int)
    ensures Wrap64(Wrap64(x) + y) == Wrap64(x + y)
  {
  }

  lemma Wrap64Exact(x: int)
    ensures Wrap64(x) == x <==> -I64_LIMIT <= x < I64_LIMIT
  {
  }

  const NEW_ORDER: u16 := 1
  const CANCEL_ORDER: u16 := 2
  const REPLACE_ORDER: u16 := 3

  const BUY: u16 := 1
  const SELL: u16 := 2

  const GTC: u16 := 1

  const ORDER_ACCEPTED: u16 := 1
  const ORDER_REJECTED: u16 := 2
  const TRADE_EXECUTED: u16 := 3
  const ORDER_RESTED: u16 := 4
  const ORDER_PARTIALLY_FILLED: u16 := 5
  const ORDER_FULLY_FILLED: u16 := 6
  const ORDER_CANCELLED: u16 := 7

  const NO_REASON: u16 := 0
  const UNSUPPORTED_COMMAND: u16 := 1
  const INVALID_SIDE: u16 := 2
  const INVALID_PRICE: u16 := 3
  const INVALID_QUANTITY: u16 := 4
  const DUPLICATE_ORDER_ID: u16 := 5
  const UNSUPPORTED_TIME_IN_FORCE: u16 := 6
  const UNKNOWN_ORDER_ID: u16 := 7
  const INSTRUMENT_MISMATCH: u16 := 8
  const REPLACE_WOULD_DUPLICATE_ORDER_ID: u16 := 9
  const INVALID_REPLACEMENT_ORDER_ID: u16 := 10

  datatype Command = Command(
    commandSequence: u64,
    ingressEpoch: u64,
    ingressSequence: u64,
    orderId: u64,
    replacementOrderId: u64,
    clientId: u64,
    price: i64,
    quantity: i64,
    instrument: u32,
    commandType: u16,
    side: u16,
    timeInForce: u16,
    reserved: u16)

  datatype Event = Event(
    eventSequence: u64,
    commandSequence: u64,
    ingressEpoch: u64,
    ingressSequence: u64,
    orderId: u64,
    contraOrderId: u64,
    tradeId: u64,
    price: i64,
    quantity: i64,
    remaining: i64,
    instrument: u32,
    eventType: u16,
    side: u16,
    rejectionReason: u16,
    reserved: u16)
}
