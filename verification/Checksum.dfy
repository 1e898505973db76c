/** The CRC-32 of the log: a register step that loses nothing, and the bursts it therefore detects. */
module Checksum {
  import opened Domain

  type byte = bv8

  const POLYNOMIAL: bv32 := 0xEDB8_8320
  const ONES: bv32 := 0xFFFF_FFFF

  function Xor(a: bv32, b: bv32): bv32 {
    a ^ b
  }

  function StepBit(r: bv32): bv32 {
    Xor(r >> 1, if r & 1 == 1 then POLYNOMIAL else 0)
  }

  function StepBits(r: bv32, n: nat): bv32 {
    if n == 0 then r else StepBit(StepBits(r, n - 1))
  }

  function StepByte(r: bv32): bv32 {
    StepBits(r, 8)
  }

  function Absorb(r: bv32, b: byte): bv32 {
    StepByte(Xor(r, b as bv32))
  }

  /** The register after absorbing `bytes`. */
  function Register(r: bv32, bytes: seq<byte>): bv32
    decreases |bytes|
  {
    if bytes == [] then r else Register(Absorb(r, bytes[0]), bytes[1..])
  }

  function Final(r: bv32): u32 {
    AsWord(!r)
  }

  function AsWord(w: bv32): u32 {
    w as int
  }

  function Crc(bytes: seq<byte>): u32 {
    Final(Register(ONES, bytes))
  }

  method CalculateCrc32(bytes: seq<byte>) returns (r: u32)
    ensures r == Crc(bytes)
  {
    hide StepBit, StepBits, Register, Xor, Final;
    var crc := ONES;
    assert bytes[0..] == bytes;
    for i := 0 to |bytes|
      invariant Register(crc, bytes[i..]) == Register(ONES, bytes)
    {
      RegisterCons(crc, bytes, i);
      crc := crc ^ (bytes[i] as bv32);
      ghost var mixed := crc;
      XorIs(mixed);
      for bit := 0 to 8
        invariant crc == StepBits(mixed, bit)
      {
        StepMore(mixed, bit);
        MaskedStep(crc);
        var mask := 0 - (crc & 1);
        crc := (crc >> 1) ^ (POLYNOMIAL & mask);
      }
    }
    assert bytes[|bytes|..] == [];
    RegisterNone(crc);
    FinalIs(crc);
    return (!crc) as int;
  }

  lemma XorIs(mixed: bv32)
    ensures forall r: bv32, w: bv32 :: Xor(r, w) == r ^ w
    ensures StepBits(mixed, 0) == mixed
  {
  }

  lemma StepMore(r: bv32, n: nat)
    ensures StepBits(r, n + 1) == StepBit(StepBits(r, n))
  {
  }

  lemma FinalIs(r: bv32)
    ensures Final(r) == (!r) as int
  {
  }

  lemma RegisterCons(r: bv32, bytes: seq<byte>, i: nat)
    requires i < |bytes|
    ensures Register(r, bytes[i..]) == Register(Absorb(r, bytes[i]), bytes[i + 1..])
  {
    hide Absorb;
    assert bytes[i..][1..] == bytes[i + 1..];
  }

  lemma RegisterNone(r: bv32)
    ensures Register(r, []) == r
  {
  }

  lemma MaskedStep(r: bv32)
    ensures StepBit(r) == (r >> 1) ^ (POLYNOMIAL & (0 - (r & 1)))
  {
    LowBit(r);
    if r & 1 == 1 {
      assert 0 - (r & 1) == ONES;
    } else {
      assert 0 - (r & 1) == 0;
    }
  }

  lemma LowBit(r: bv32)
    ensures r & 1 == 0 || r & 1 == 1
  {
  }

  // The step is injective and linear

  lemma BitInjective(a: bv32, b: bv32)
    requires StepBit(a) == StepBit(b)
    ensures a == b
  {
  }

  lemma {:induction false} BitsInjective(a: bv32, b: bv32, n: nat)
    requires StepBits(a, n) == StepBits(b, n)
    ensures a == b
  {
    hide StepBit;
    if n > 0 {
      BitInjective(StepBits(a, n - 1), StepBits(b, n - 1));
      BitsInjective(a, b, n - 1);
    }
  }

  lemma XorShifted(a: bv32, b: bv32)
    ensures Xor(a, b) >> 1 == (a >> 1) ^ (b >> 1)
  {
  }

  lemma XorOfWords(a: bv32, b: bv32)
    ensures Xor(a, b) == a ^ b
  {
  }

  lemma ShiftXor(a: bv32, b: bv32)
    ensures Xor(a, b) >> 1 == Xor(a >> 1, b >> 1)
  {
    hide Xor;
    XorShifted(a, b);
    XorOfWords(a >> 1, b >> 1);
  }

  lemma LowXor(a: bv32, b: bv32)
    ensures Xor(a, b) & 1 == Xor(a & 1, b & 1)
  {
  }

  lemma XorCommutes(a: bv32, b: bv32)
    ensures Xor(a, b) == Xor(b, a)
  {
    assert a ^ b == b ^ a;
  }

  lemma XorAssociates(a: bv32, b: bv32, c: bv32)
    ensures Xor(Xor(a, b), c) == Xor(a, Xor(b, c))
  {
    assert (a ^ b) ^ c == a ^ (b ^ c);
  }

  lemma XorSwap(a: bv32, b: bv32, c: bv32, d: bv32)
    ensures Xor(Xor(a, b), Xor(c, d)) == Xor(Xor(a, c), Xor(b, d))
  {
    hide Xor;
    XorAssociates(a, b, Xor(c, d));
    XorAssociates(b, c, d);
    XorCommutes(b, c);
    XorAssociates(c, b, d);
    XorAssociates(a, c, Xor(b, d));
  }

  lemma XorConstants(p: bv32)
    ensures Xor(0, 0) == 0 && Xor(p, 0) == p && Xor(0, p) == p && Xor(p, p) == 0
  {
  }

  lemma BitLinear(a: bv32, b: bv32)
    ensures Xor(StepBit(a), StepBit(b)) == StepBit(Xor(a, b))
  {
    hide Xor;
    ShiftXor(a, b);
    LowXor(a, b);
    LowBit(a);
    LowBit(b);
    XorConstants(1);
    XorConstants(POLYNOMIAL);
    XorSwap(a >> 1, if a & 1 == 1 then POLYNOMIAL else 0, b >> 1, if b & 1 == 1 then POLYNOMIAL else 0);
  }

  lemma {:induction false} BitsLinear(a: bv32, b: bv32, n: nat)
    ensures Xor(StepBits(a, n), StepBits(b, n)) == StepBits(Xor(a, b), n)
  {
    hide StepBit, Xor;
    if n > 0 {
      BitsLinear(a, b, n - 1);
      BitLinear(StepBits(a, n - 1), StepBits(b, n - 1));
    }
  }

  lemma Unrolled(r: bv32)
    ensures StepByte(r) == StepBit(StepBit(StepBit(StepBit(StepBit(StepBit(StepBit(StepBit(r))))))))
  {
    hide StepBit;
    StepMore(r, 0);
    StepMore(r, 1);
    StepMore(r, 2);
    StepMore(r, 3);
    StepMore(r, 4);
    StepMore(r, 5);
    StepMore(r, 6);
  }

  /** Bits above the lowest byte are only shifted by a byte step. */
  lemma ByteShifts(d: bv32)
    requires d < 0x100_0000
    ensures StepByte(d << 8) == d
  {
    hide StepBits, StepByte;
    Unrolled(d << 8);
  }

  lemma ByteLinear(a: bv32, b: bv32)
    ensures Xor(StepByte(a), StepByte(b)) == StepByte(Xor(a, b))
  {
    hide StepBits, Xor;
    BitsLinear(a, b, 8);
  }

  lemma ByteInjective(a: bv32, b: bv32)
    requires StepByte(a) == StepByte(b)
    ensures a == b
  {
    hide StepBits;
    BitsInjective(a, b, 8);
  }

  // Bursts

  function Combine(a: byte, b: byte, d: bv32): bv32 {
    Xor(Xor(a as bv32, b as bv32), d << 8)
  }

  /** The difference of two equally long windows of at most four bytes, as one word. */
  function Difference(a: seq<byte>, b: seq<byte>): bv32
    requires |a| == |b|
    decreases |a|
  {
    if a == [] then 0 else Combine(a[0], b[0], Difference(a[1..], b[1..]))
  }

  lemma {:induction false} DifferenceSmall(a: seq<byte>, b: seq<byte>)
    requires |a| == |b| <= 4
    ensures |a| == 0 ==> Difference(a, b) == 0
    ensures |a| <= 1 ==> Difference(a, b) < 0x100
    ensures |a| <= 2 ==> Difference(a, b) < 0x1_0000
    ensures |a| <= 3 ==> Difference(a, b) < 0x100_0000
    decreases |a|
  {
    hide Combine;
    if a != [] {
      DifferenceSmall(a[1..], b[1..]);
      Carry(a[0], b[0], Difference(a[1..], b[1..]));
    }
  }

  lemma Carry(a: byte, b: byte, d: bv32)
    ensures var x := Combine(a, b, d);
      && (d == 0 ==> x < 0x100) && (d < 0x100 ==> x < 0x1_0000) && (d < 0x1_0000 ==> x < 0x100_0000)
      && (x == 0 && d < 0x100_0000 ==> a == b && d == 0)
  {
  }

  lemma {:induction false} DifferenceZero(a: seq<byte>, b: seq<byte>)
    requires |a| == |b| <= 4 && Difference(a, b) == 0
    ensures a == b
    decreases |a|
  {
    hide Combine;
    if a != [] {
      DifferenceSmall(a[1..], b[1..]);
      Carry(a[0], b[0], Difference(a[1..], b[1..]));
      DifferenceZero(a[1..], b[1..]);
      assert a == [a[0]] + a[1..] && b == [b[0]] + b[1..];
    }
  }

  /** Registers that meet after a window of at most four bytes differed by exactly the window's difference. */
  lemma {:induction false} MeetAfterWindow(r: bv32, q: bv32, a: seq<byte>, b: seq<byte>)
    requires |a| == |b| <= 4 && Register(r, a) == Register(q, b)
    ensures Xor(r, q) == Difference(a, b)
    decreases |a|
  {
    hide StepByte, Xor, Combine;
    XorConstants(r);
    if a != [] {
      MeetAfterWindow(Absorb(r, a[0]), Absorb(q, b[0]), a[1..], b[1..]);
      DifferenceSmall(a[1..], b[1..]);
      MeetAfterByte(r, q, a[0], b[0], Difference(a[1..], b[1..]));
    }
  }

  lemma MeetAfterByte(r: bv32, q: bv32, a: byte, b: byte, d: bv32)
    requires Xor(Absorb(r, a), Absorb(q, b)) == d && d < 0x100_0000
    ensures Xor(r, q) == Combine(a, b, d)
  {
    hide StepByte, Xor;
    var x, y := Xor(r, a as bv32), Xor(q, b as bv32);
    ByteLinear(x, y);
    ByteShifts(d);
    ByteInjective(Xor(x, y), d << 8);
    XorBack(r, q, a as bv32, b as bv32);
  }

  lemma XorBack(r: bv32, q: bv32, a: bv32, b: bv32)
    ensures Xor(r, q) == Xor(Xor(a, b), Xor(Xor(r, a), Xor(q, b)))
  {
    hide Xor;
    XorSwap(r, a, q, b);
    XorCommutes(Xor(r, q), Xor(a, b));
    XorAssociates(Xor(a, b), Xor(a, b), Xor(r, q));
    XorConstants(Xor(a, b));
    XorConstants(Xor(r, q));
  }

  lemma {:induction false} RegisterConcat(r: bv32, a: seq<byte>, b: seq<byte>)
    ensures Register(r, a + b) == Register(Register(r, a), b)
    decreases |a|
  {
    hide Absorb;
    if a == [] {
      assert a + b == b;
    } else {
      assert (a + b)[1..] == a[1..] + b;
      RegisterConcat(Absorb(r, a[0]), a[1..], b);
    }
  }

  /** Absorbing the same bytes keeps different registers different. */
  lemma {:induction false} RegisterInjective(r: bv32, q: bv32, bytes: seq<byte>)
    requires Register(r, bytes) == Register(q, bytes)
    ensures r == q
    decreases |bytes|
  {
    hide StepByte, Xor;
    if bytes != [] {
      RegisterInjective(Absorb(r, bytes[0]), Absorb(q, bytes[0]), bytes[1..]);
      ByteInjective(Xor(r, bytes[0] as bv32), Xor(q, bytes[0] as bv32));
      XorCancel(r, q, bytes[0] as bv32);
    }
  }

  lemma XorCancel(r: bv32, q: bv32, a: bv32)
    requires Xor(r, a) == Xor(q, a)
    ensures r == q
  {
  }

  lemma FinalInjective(r: bv32, q: bv32)
    requires Final(r) == Final(q)
    ensures r == q
  {
    AsIntInjective(!r, !q);
    NotInjective(r, q);
  }

  lemma AsIntInjective(a: bv32, b: bv32)
    requires a as int == b as int
    ensures a == b
  {
    assert a == (a as int) as bv32;
    assert b == (b as int) as bv32;
  }

  lemma NotInjective(r: bv32, q: bv32)
    requires !r == !q
    ensures r == q
  {
  }

  /** Two byte strings that differ only inside a window of at most four bytes have different checksums. */
  lemma ShortBurstDetected(before: seq<byte>, a: seq<byte>, b: seq<byte>, after: seq<byte>)
    requires |a| == |b| <= 4 && a != b
    ensures Crc(before + a + after) != Crc(before + b + after)
  {
    hide Register, Final, Xor;
    if Crc(before + a + after) == Crc(before + b + after) {
      FinalInjective(Register(ONES, before + a + after), Register(ONES, before + b + after));
      var r := Register(ONES, before);
      RegisterConcat(ONES, before + a, after);
      RegisterConcat(ONES, before + b, after);
      RegisterConcat(ONES, before, a);
      RegisterConcat(ONES, before, b);
      RegisterInjective(Register(r, a), Register(r, b), after);
      MeetAfterWindow(r, r, a, b);
      XorConstants(r);
      DifferenceZero(a, b);
    }
  }

  // The table-driven form of the same function

  /** The sample code in section 8 of RFC 1952 keeps the byte steps of 0..255 in a table. */
  function TableRegister(r: bv32, bytes: seq<byte>): bv32
    decreases |bytes|
  {
    if bytes == [] then r else TableRegister(TableAbsorb(r, bytes[0]), bytes[1..])
  }

  function TableAbsorb(r: bv32, b: byte): bv32 {
    Xor(StepByte(LowByte(Xor(r, b as bv32))), Above(r))
  }

  function LowByte(r: bv32): bv32 {
    r & 0xFF
  }

  function Above(r: bv32): bv32 {
    r >> 8
  }

  lemma {:induction false} TableAgrees(r: bv32, bytes: seq<byte>)
    ensures TableRegister(r, bytes) == Register(r, bytes)
    decreases |bytes|
  {
    hide Absorb, TableAbsorb;
    if bytes != [] {
      TableByteAgrees(r, bytes[0]);
      TableAgrees(Absorb(r, bytes[0]), bytes[1..]);
    }
  }

  lemma TableByteAgrees(r: bv32, b: byte)
    ensures TableAbsorb(r, b) == Absorb(r, b)
  {
    hide StepByte, Xor, LowByte, Above;
    var x := Xor(r, b as bv32);
    SplitWord(r, b);
    ByteLinear(LowByte(x), Above(r) << 8);
    ByteShifts(Above(r));
  }

  lemma SplitWord(r: bv32, b: byte)
    ensures var x := Xor(r, b as bv32);
      x == Xor(LowByte(x), Above(r) << 8) && Above(r) < 0x100_0000
  {
  }
}
