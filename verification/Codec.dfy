/** Little-endian fixed-width fields: how the program's structs lie in a file. */
module Codec {
  import opened Domain
  import opened Checksum

  function ToByte(n: nat): byte
    requires n < 256
  {
    n as bv8
  }

  function FromByte(b: byte): nat {
    b as int
  }

  lemma ByteBack(n: nat)
    requires n < 256
    ensures FromByte(ToByte(n)) == n
  {
    BackAndForth(n);
  }

  lemma BackAndForth(n: nat)
    requires n < 256
    ensures (n as bv8) as int == n
  {
    var b := ByteOf(n);
    ForthAndBack(b);
  }

  /** Counting up to `n` in bytes. */
  lemma {:induction false} ByteOf(n: nat) returns (b: byte)
    requires n < 256
    ensures b as int == n
  {
    if n == 0 {
      b := 0;
    } else {
      var before := ByteOf(n - 1);
      NextByte(before);
      b := before + 1;
    }
  }

  lemma NextByte(b: byte)
    requires b as int < 255
    ensures (b + 1) as int == b as int + 1
  {
  }

  lemma ForthAndBack(b: byte)
    ensures (b as int) as bv8 == b
  {
  }

  lemma ByteThere(b: byte)
    ensures FromByte(b) < 256 && ToByte(FromByte(b)) == b
  {
  }

  function Pow256(n: nat): nat {
    if n == 0 then 1 else 256 * Pow256(n - 1)
  }

  /** The low `n` bytes of `x`, least significant first. */
  function Le(x: nat, n: nat): (bytes: seq<byte>)
    ensures |bytes| == n
    decreases n
  {
    if n == 0 then [] else [ToByte(x % 256)] + Le(x / 256, n - 1)
  }

  function UnLe(bytes: seq<byte>): nat {
    if bytes == [] then 0 else FromByte(bytes[0]) + 256 * UnLe(bytes[1..])
  }

  lemma {:induction false} UnLeLe(x: nat, n: nat)
    requires x < Pow256(n)
    ensures UnLe(Le(x, n)) == x
    decreases n
  {
    hide ToByte, FromByte;
    if n > 0 {
      ByteBack(x % 256);
      UnLeLe(x / 256, n - 1);
      assert Le(x, n)[1..] == Le(x / 256, n - 1);
    }
  }

  lemma {:induction false} LeUnLe(bytes: seq<byte>)
    ensures UnLe(bytes) < Pow256(|bytes|) && Le(UnLe(bytes), |bytes|) == bytes
  {
    hide ToByte, FromByte;
    if bytes != [] {
      ByteThere(bytes[0]);
      LeUnLe(bytes[1..]);
    }
  }

  lemma Pow256Values()
    ensures Pow256(2) == U16_LIMIT && Pow256(4) == U32_LIMIT && Pow256(8) == U64_LIMIT
  {
    assert Pow256(1) == 256;
    assert Pow256(3) == 256 * Pow256(2);
    assert Pow256(5) == 256 * Pow256(4);
    assert Pow256(6) == 256 * Pow256(5);
    assert Pow256(7) == 256 * Pow256(6);
  }

  // Structs: a list of field widths

  function Width(layout: seq<nat>): nat {
    if layout == [] then 0 else layout[0] + Width(layout[1..])
  }

  lemma {:induction false} WidthConcat(a: seq<nat>, b: seq<nat>)
    ensures Width(a + b) == Width(a) + Width(b)
  {
    if a == [] {
      assert a + b == b;
    } else {
      assert (a + b)[1..] == a[1..] + b;
      WidthConcat(a[1..], b);
    }
  }

  function Pack(layout: seq<nat>, values: seq<nat>): (bytes: seq<byte>)
    requires |layout| == |values|
    ensures |bytes| == Width(layout)
  {
    if layout == [] then [] else Le(values[0], layout[0]) + Pack(layout[1..], values[1..])
  }

  function Unpack(layout: seq<nat>, bytes: seq<byte>): (values: seq<nat>)
    requires |bytes| == Width(layout)
    ensures |values| == |layout|
  {
    if layout == [] then [] else [UnLe(bytes[..layout[0]])] + Unpack(layout[1..], bytes[layout[0]..])
  }

  ghost predicate Fits(layout: seq<nat>, values: seq<nat>) {
    |layout| == |values| && forall i | 0 <= i < |layout| :: values[i] < Pow256(layout[i])
  }

  lemma {:induction false} UnpackPack(layout: seq<nat>, values: seq<nat>)
    requires Fits(layout, values)
    ensures Unpack(layout, Pack(layout, values)) == values
  {
    hide Pow256, UnLe, Le, Width, Pack, Unpack;
    if layout != [] {
      UnLeLe(values[0], layout[0]);
      UnpackPack(layout[1..], values[1..]);
      PackFirst(layout, values);
      UnpackFirst(layout, Pack(layout, values));
      assert Pack(layout, values)[..layout[0]] == Le(values[0], layout[0]);
      assert Pack(layout, values)[layout[0]..] == Pack(layout[1..], values[1..]);
    }
  }

  lemma PackFirst(layout: seq<nat>, values: seq<nat>)
    requires |layout| == |values| > 0
    ensures Pack(layout, values) == Le(values[0], layout[0]) + Pack(layout[1..], values[1..])
  {
    hide Le, Width;
  }

  lemma UnpackFirst(layout: seq<nat>, bytes: seq<byte>)
    requires layout != [] && |bytes| == Width(layout)
    ensures layout[0] <= |bytes| && |bytes[layout[0]..]| == Width(layout[1..])
    ensures Unpack(layout, bytes) == [UnLe(bytes[..layout[0]])] + Unpack(layout[1..], bytes[layout[0]..])
  {
    hide UnLe;
  }

  lemma {:induction false} PackUnpack(layout: seq<nat>, bytes: seq<byte>)
    requires |bytes| == Width(layout)
    ensures Fits(layout, Unpack(layout, bytes)) && Pack(layout, Unpack(layout, bytes)) == bytes
  {
    hide Pow256, UnLe, Le, Fits;
    if layout == [] {
      FitsNone();
    } else {
      LeUnLe(bytes[..layout[0]]);
      PackUnpack(layout[1..], bytes[layout[0]..]);
      FitsCons(layout, Unpack(layout, bytes));
      assert bytes == bytes[..layout[0]] + bytes[layout[0]..];
    }
  }

  lemma FitsNone()
    ensures Fits([], [])
  {
  }

  lemma FitsCons(layout: seq<nat>, values: seq<nat>)
    requires layout != [] && values != [] && values[0] < Pow256(layout[0]) && Fits(layout[1..], values[1..])
    ensures Fits(layout, values)
  {
    hide Pow256;
  }

  // Where the bytes of a field lie

  /** A field of two bytes, the lower digit first. */
  lemma LeTwo(x: u16)
    ensures var b := Le(x, 2);
      x as int == FromByte(b[0]) + 0x100 * FromByte(b[1])
  {
    hide ToByte, FromByte;
    ByteBack(x % 256);
    ByteBack(x / 256 % 256);
    assert Le(x, 2)[1] == Le(x / 256, 1)[0];
  }

  lemma LeFour(x: u32)
    ensures var b := Le(x, 4);
      x as int == FromByte(b[0]) + 0x100 * FromByte(b[1]) + 0x1_0000 * FromByte(b[2]) + 0x100_0000 * FromByte(b[3])
  {
    hide ToByte, FromByte, Le;
    var low, high := x % 0x1_0000, x / 0x1_0000;
    LeSplit(x);
    LeTwo(low);
    LeTwo(high);
    assert Le(x, 4)[2] == Le(high, 2)[0] && Le(x, 4)[3] == Le(high, 2)[1];
  }

  lemma LeSplit(x: u32)
    ensures Le(x, 4) == Le(x % 0x1_0000, 2) + Le(x / 0x1_0000, 2)
  {
    hide ToByte;
    LeFirst(x, 4);
    LeFirst(x / 256, 3);
    LeFirst(x % 0x1_0000, 2);
    LeFirst(x % 0x1_0000 / 256, 1);
    LeFirst(x / 256 / 256, 2);
    LeFirst(x / 0x1_0000, 2);
    LeFirst(0, 0);
    assert x / 256 / 256 == x / 0x1_0000;
    assert x % 0x1_0000 % 256 == x % 256 && x % 0x1_0000 / 256 % 256 == x / 256 % 256;
  }

  lemma LeFirst(x: nat, n: nat)
    ensures n > 0 ==> Le(x, n) == [ToByte(x % 256)] + Le(x / 256, n - 1)
    ensures Le(x, 0) == []
  {
    hide ToByte;
  }

  /** Field `i` of a struct lies behind the widths of those before it. */
  lemma {:induction false} PackAt(layout: seq<nat>, values: seq<nat>, i: nat)
    requires |layout| == |values| && i < |layout|
    ensures Width(layout[..i]) + layout[i] <= |Pack(layout, values)|
    ensures Pack(layout, values)[Width(layout[..i])..Width(layout[..i]) + layout[i]] == Le(values[i], layout[i])
    decreases i
  {
    hide Le, Pack;
    PackFirst(layout, values);
    if i > 0 {
      PackAt(layout[1..], values[1..], i - 1);
      assert layout[..i][1..] == layout[1..][..i - 1];
    } else {
      assert Width(layout[..0]) == 0;
    }
  }

  lemma LeEight(x: u64)
    ensures Le(x, 8) == Le(x % 0x1_0000_0000, 4) + Le(x / 0x1_0000_0000, 4)
  {
    hide Le, UnLe, Pow256;
    var low, high := x % 0x1_0000_0000, x / 0x1_0000_0000;
    var bytes := Le(low, 4) + Le(high, 4);
    Pow256Values();
    UnLeLe(low, 4);
    UnLeLe(high, 4);
    UnLeFour(bytes);
    UnLeFour(Le(low, 4));
    assert bytes[4..] == Le(high, 4) && Le(low, 4)[4..] == [];
    UnLeNone();
    LeUnLe(bytes);
  }

  lemma UnLeNone()
    ensures UnLe([]) == 0
  {
  }

  lemma UnLeFour(bytes: seq<byte>)
    requires |bytes| >= 4
    ensures UnLe(bytes) == FromByte(bytes[0]) + 0x100 * FromByte(bytes[1]) + 0x1_0000 * FromByte(bytes[2])
                           + 0x100_0000 * FromByte(bytes[3]) + 0x1_0000_0000 * UnLe(bytes[4..])
  {
    hide FromByte, UnLe;
    UnLeFirst(bytes);
    UnLeFirst(bytes[1..]);
    UnLeFirst(bytes[2..]);
    UnLeFirst(bytes[3..]);
    assert bytes[1..][1..] == bytes[2..] && bytes[2..][1..] == bytes[3..] && bytes[3..][1..] == bytes[4..];
  }

  lemma UnLeFirst(bytes: seq<byte>)
    requires bytes != []
    ensures UnLe(bytes) == FromByte(bytes[0]) + 256 * UnLe(bytes[1..])
  {
  }

  lemma WidthNext(layout: seq<nat>, i: nat)
    requires i < |layout|
    ensures Width(layout[..0]) == 0 && Width(layout[..i + 1]) == Width(layout[..i]) + layout[i]
  {
    WidthConcat(layout[..i], [layout[i]]);
    assert layout[..i + 1] == layout[..i] + [layout[i]];
    assert Width([layout[i]]) == layout[i];
  }
}
