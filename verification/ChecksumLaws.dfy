/** What the checksum is, told without its polynomial: its residue, and its check values. */
module ChecksumLaws {
  import opened Checksum
  import opened Codec

  function StepBytes(r: bv32, n: nat): bv32
    decreases n
  {
    if n == 0 then r else StepBytes(StepByte(r), n - 1)
  }

  /** Up to four bytes as one little-endian word. */
  function Word(bytes: seq<byte>): bv32 {
    if bytes == [] then 0 else Join(bytes[0], Word(bytes[1..]))
  }

  function Join(b: byte, d: bv32): bv32 {
    Xor(b as bv32, d << 8)
  }

  lemma JoinSmall(b: byte, d: bv32)
    ensures var x := Join(b, d);
      && (d == 0 ==> x < 0x100) && (d < 0x100 ==> x < 0x1_0000) && (d < 0x1_0000 ==> x < 0x100_0000)
  {
  }

  lemma {:induction false} WordSmall(a: seq<byte>)
    requires |a| <= 3
    ensures |a| == 0 ==> Word(a) == 0
    ensures |a| <= 1 ==> Word(a) < 0x100
    ensures |a| <= 2 ==> Word(a) < 0x1_0000
    ensures Word(a) < 0x100_0000
  {
    hide Join;
    if a != [] {
      WordSmall(a[1..]);
      JoinSmall(a[0], Word(a[1..]));
    }
  }

  /** Absorbing up to four bytes is mixing them in at once and stepping over them. */
  lemma {:induction false} RegisterWord(r: bv32, a: seq<byte>)
    requires |a| <= 4
    ensures Register(r, a) == StepBytes(Xor(r, Word(a)), |a|)
    decreases |a|
  {
    hide StepByte, Xor;
    XorConstants(r);
    if a != [] {
      var rest := Word(a[1..]);
      var x := Xor(r, a[0] as bv32);
      RegisterWord(Absorb(r, a[0]), a[1..]);
      WordSmall(a[1..]);
      ByteShifts(rest);
      ByteLinear(x, rest << 8);
      XorAssociates(r, a[0] as bv32, rest << 8);
    }
  }

  lemma JoinValue(b: byte, d: bv32)
    requires d < 0x100_0000
    ensures Join(b, d) as int == FromByte(b) + 256 * (d as int)
  {
    hide Join;
    JoinIsOr(b, d);
    OrValue(b, d);
  }

  lemma JoinIsOr(b: byte, d: bv32)
    ensures Join(b, d) == (d << 8) | (b as bv32)
  {
  }

  lemma OrValue(b: byte, d: bv32)
    requires d < 0x100_0000
    ensures ((d << 8) | (b as bv32)) as int == 256 * (d as int) + b as int
  {
  }

  lemma {:induction false} WordValue(a: seq<byte>)
    requires |a| <= 4
    ensures Word(a) as int == UnLe(a)
  {
    hide Join, FromByte;
    if a != [] {
      WordSmall(a[1..]);
      WordValue(a[1..]);
      JoinValue(a[0], Word(a[1..]));
    }
  }

  lemma XorNot(r: bv32)
    ensures Xor(r, !r) == 0xFFFF_FFFF
  {
  }

  /** A byte step is eight bit steps. */
  lemma Eight(x: bv32, y: bv32)
    requires StepBit(StepBit(StepBit(StepBit(StepBit(StepBit(StepBit(StepBit(x)))))))) == y
    ensures StepByte(x) == y
  {
    hide StepBit;
    Unrolled(x);
  }

  lemma StepOnes()
    ensures StepBytes(0xFFFF_FFFF, 4) == 0xDEBB_20E3
  {
    hide StepByte;
    Eight(0xFFFF_FFFF, 0x2DFD_1072);
    Eight(0x2DFD_1072, 0xBE26_ED00);
    Eight(0xBE26_ED00, 0x00BE_26ED);
    Eight(0x00BE_26ED, 0xDEBB_20E3);
    StepFour(0xFFFF_FFFF);
  }

  lemma StepFour(r: bv32)
    ensures StepBytes(r, 4) == StepByte(StepByte(StepByte(StepByte(r))))
  {
    hide StepByte;
    assert StepBytes(r, 4) == StepBytes(StepByte(StepByte(r)), 2);
  }

  /**
   Any message followed by its checksum, least significant byte first, leaves the register at the residue
   of the CRC-32 of IEEE 802.3, whatever the message is.
   */
  lemma Residue(bytes: seq<byte>)
    ensures Register(0xFFFF_FFFF, bytes + Le(Crc(bytes), 4)) == 0xDEBB_20E3
  {
    hide Register, Le, Pow256, StepBytes, Xor, Final, Word;
    var r := Register(0xFFFF_FFFF, bytes);
    var tail := Le(Crc(bytes), 4);
    RegisterConcat(0xFFFF_FFFF, bytes, tail);
    RegisterWord(r, tail);
    WordValue(tail);
    Pow256Values();
    UnLeLe(Crc(bytes), 4);
    FinalIs(r);
    AsIntInjective(Word(tail), !r);
    XorNot(r);
    StepOnes();
  }

  /** The checksum of nothing is 0. */
  lemma EmptyChecksum()
    ensures Crc([]) == 0
  {
    FinalIs(0xFFFF_FFFF);
  }

  lemma AbsorbTo(r: bv32, b: byte, x: bv32, y: bv32)
    requires Xor(r, b as bv32) == x
    requires StepBit(StepBit(StepBit(StepBit(StepBit(StepBit(StepBit(StepBit(x)))))))) == y
    ensures Absorb(r, b) == y
  {
    hide StepBit, Xor;
    Eight(x, y);
  }

  lemma RegisterThree(r: bv32, a: byte, b: byte, c: byte, rest: seq<byte>)
    ensures Register(r, [a, b, c] + rest) == Register(Absorb(Absorb(Absorb(r, a), b), c), rest)
  {
    hide Absorb, Register;
    var s := [a, b, c] + rest;
    assert s[0..] == s && s[3..] == rest;
    RegisterCons(r, s, 0);
    RegisterCons(Absorb(r, a), s, 1);
    RegisterCons(Absorb(Absorb(r, a), b), s, 2);
  }

  /** The check value of the CRC-32: the checksum of the ASCII digits 1 to 9. */
  lemma CheckValue()
    ensures Crc([0x31, 0x32, 0x33, 0x34, 0x35, 0x36, 0x37, 0x38, 0x39]) == 0xCBF4_3926
  {
    hide Absorb, Register, Final;
    AbsorbTo(0xFFFF_FFFF, 0x31, 0xFFFF_FFCE, 0x7C23_1048);
    AbsorbTo(0x7C23_1048, 0x32, 0x7C23_107A, 0xB0AC_BB32);
    AbsorbTo(0xB0AC_BB32, 0x33, 0xB0AC_BB01, 0x77B7_9C2D);
    AbsorbTo(0x77B7_9C2D, 0x34, 0x77B7_9C19, 0x641C_1F5C);
    AbsorbTo(0x641C_1F5C, 0x35, 0x641C_1F69, 0x340A_C5E3);
    AbsorbTo(0x340A_C5E3, 0x36, 0x340A_C5D5, 0xF68D_2C9E);
    AbsorbTo(0xF68D_2C9E, 0x37, 0xF68D_2CA9, 0xAFFC_9660);
    AbsorbTo(0xAFFC_9660, 0x38, 0xAFFC_9658, 0x651F_2550);
    AbsorbTo(0x651F_2550, 0x39, 0x651F_2569, 0x340B_C6D9);
    var middle: seq<byte>, last: seq<byte> := [0x34, 0x35, 0x36], [0x37, 0x38, 0x39];
    var digits: seq<byte> := [0x31, 0x32, 0x33, 0x34, 0x35, 0x36, 0x37, 0x38, 0x39];
    RegisterThree(0xFFFF_FFFF, 0x31, 0x32, 0x33, middle + last);
    RegisterThree(0x77B7_9C2D, 0x34, 0x35, 0x36, last);
    RegisterThree(0xF68D_2C9E, 0x37, 0x38, 0x39, []);
    RegisterNone(0x340B_C6D9);
    assert last + [] == last && digits == [0x31, 0x32, 0x33] + (middle + last);
    FinalIs(0x340B_C6D9);
  }
}
