/**
 Streaming CRC-32 over bytes, and how strong it is: two equally long messages
 that differ, but only inside a window of four consecutive bytes, never share
 a CRC.
 */
module Crc32 {
  import opened Bytes
  import opened Folds
  import opened Veils
  import opened LinearMaps
  import opened CrcAlgebra

  const INIT: bv32 := 0xFFFF_FFFF

  /** The register after one message byte. */
  function Step(c: bv32, b: byte): bv32 {
    Bits8(Xor(c, (b as bv8) as bv32))
  }

  /** The register after a whole message. */
  function Register(c: bv32, bytes: seq<byte>): bv32 {
    Veil(Folded, (c, bytes), |bytes| + 3)
  }

  function Folded(message: (bv32, seq<byte>)): bv32 {
    Fold(Step, message.0, message.1)
  }

  lemma RegisterIsFold(c: bv32, bytes: seq<byte>)
    ensures Register(c, bytes) == Fold(Step, c, bytes)
  {
    Lift(Folded, (c, bytes), |bytes| + 3);
  }

  function Crc(bytes: seq<byte>): bv32 {
    Complement(Register(INIT, bytes))
  }

  /** Streaming CRC-32 state. */
  class Digest {
    var reg: bv32

    constructor ()
      ensures reg == INIT
    {
      reg := INIT;
    }

    method Update(bytes: seq<byte>)
      modifies this
      ensures reg == Register(old(reg), bytes)
    {
      var c := reg;
      ghost var start := c;
      for i := 0 to |bytes|
        invariant reg == old(reg)
        invariant c == Fold(Step, start, bytes[..i])
      {
        assert bytes[..i + 1][..i] == bytes[..i];
        c := Xor(c, (bytes[i] as bv8) as bv32);
        ghost var mixed := c;
        for k := 0 to 8
          invariant c == Iterate(Bit, mixed, k)
        {
          c := if c & 1 != 0 then (c >> 1) ^ POLY else c >> 1;
        }
      }
      assert bytes[..|bytes|] == bytes;
      RegisterIsFold(start, bytes);
      reg := c;
    }

    method Finish() returns (crc: bv32)
      ensures crc == Complement(reg)
    {
      crc := !reg;
    }
  }

  /** The CRC of one buffer. */
  method Checksum(bytes: seq<byte>) returns (crc: bv32)
    ensures crc == Crc(bytes)
  {
    var d := new Digest();
    d.Update(bytes);
    crc := d.Finish();
  }

  /** Feeding a message in pieces is feeding it whole. */
  lemma RegisterSplit(c: bv32, a: seq<byte>, b: seq<byte>)
    ensures Register(c, a + b) == Register(Register(c, a), b)
  {
    RegisterIsFold(c, a + b);
    RegisterIsFold(c, a);
    RegisterIsFold(Register(c, a), b);
    FoldSplit(Step, c, a, b);
  }

  lemma StepInjective(x: bv32, y: bv32, b: byte)
    requires Step(x, b) == Step(y, b)
    ensures x == y
  {
    var w := (b as bv8) as bv32;
    Bits8Injective(Xor(x, w), Xor(y, w));
    Cancel(x, y, w);
  }

  lemma StepIsLeftInjective()
    ensures LeftInjective(Step)
  {
    forall x, y, b | Step(x, b) == Step(y, b)
      ensures x == y
    {
      StepInjective(x, y, b);
    }
  }

  lemma LaneThroughByte(b: bv8)
    ensures 0 <= b as int < 0x100 && (b as int) as bv8 == b
  {}

  lemma NarrowByte(a: byte, b: byte)
    requires a as bv8 == b as bv8
    ensures a == b
  {
    ByteThroughBv(a);
    ByteThroughBv(b);
  }

  /** Four bytes as one word. */
  function WordAt(w: seq<byte>): bv32
    requires |w| == 4
  {
    Veil(Packed, (w[0], w[1], w[2], w[3]), |w|)
  }

  function Packed(w: (byte, byte, byte, byte)): bv32 {
    Word(w.0 as bv8, w.1 as bv8, w.2 as bv8, w.3 as bv8)
  }

  lemma WordAtIsWord(w: seq<byte>)
    requires |w| == 4
    ensures WordAt(w) == Word(w[0] as bv8, w[1] as bv8, w[2] as bv8, w[3] as bv8)
  {
    Lift(Packed, (w[0], w[1], w[2], w[3]), |w|);
  }

  function FourTimes(c: bv32): bv32 {
    Bits8(Bits8(Bits8(Bits8(c))))
  }

  lemma FourTimesInjective(x: bv32, y: bv32)
    requires FourTimes(x) == FourTimes(y)
    ensures x == y
  {
    Bits8Injective(Bits8(Bits8(Bits8(x))), Bits8(Bits8(Bits8(y))));
    Bits8Injective(Bits8(Bits8(x)), Bits8(Bits8(y)));
    Bits8Injective(Bits8(x), Bits8(y));
    Bits8Injective(x, y);
  }

  /** Four message bytes act on the register as one XORed word. */
  lemma RegisterOfFour(c: bv32, w: seq<byte>)
    requires |w| == 4
    ensures Register(c, w) == FourTimes(Xor(c, WordAt(w)))
  {
    RegisterIsFold(c, w);
    WordAtIsWord(w);
    FoldOfFour(Step, c, w);
    FourBytes(c, w[0] as bv8, w[1] as bv8, w[2] as bv8, w[3] as bv8);
  }

  lemma RegisterOfFourInjective(c: bv32, v: seq<byte>, w: seq<byte>)
    requires |v| == |w| == 4
    requires Register(c, v) == Register(c, w)
    ensures v == w
  {
    RegisterOfFour(c, v);
    RegisterOfFour(c, w);
    FourTimesInjective(Xor(c, WordAt(v)), Xor(c, WordAt(w)));
    Commute(c, WordAt(v));
    Commute(c, WordAt(w));
    Cancel(WordAt(v), WordAt(w), c);
    WordAtIsWord(v);
    WordAtIsWord(w);
    WordInjective(v[0] as bv8, v[1] as bv8, v[2] as bv8, v[3] as bv8, w[0] as bv8, w[1] as bv8, w[2] as bv8, w[3] as bv8);
    NarrowByte(v[0], w[0]);
    NarrowByte(v[1], w[1]);
    NarrowByte(v[2], w[2]);
    NarrowByte(v[3], w[3]);
  }

  lemma StepIsFourInjective()
    ensures FourInjective(Step)
  {
    forall c, v, w | |v| == |w| == 4 && Fold(Step, c, v) == Fold(Step, c, w)
      ensures v == w
    {
      RegisterIsFold(c, v);
      RegisterIsFold(c, w);
      RegisterOfFourInjective(c, v, w);
    }
  }

  /** Equal CRCs rule out a difference confined to four consecutive bytes. */
  lemma BurstChangesRegister(c: bv32, a: seq<byte>, b: seq<byte>, at: nat)
    requires DifferInWindow(a, b, at)
    requires Register(c, a) == Register(c, b)
    ensures a == b
  {
    RegisterIsFold(c, a);
    RegisterIsFold(c, b);
    StepIsLeftInjective();
    StepIsFourInjective();
    BurstDetected(Step, c, a, b, at);
  }

  lemma CrcDeterminesRegister(a: seq<byte>, b: seq<byte>)
    requires Crc(a) == Crc(b)
    ensures Register(INIT, a) == Register(INIT, b)
  {
    ComplementInjective(Register(INIT, a), Register(INIT, b));
  }

  /** Messages of one length that differ, inside four bytes only, have different CRCs. */
  lemma BurstChangesCrc(a: seq<byte>, b: seq<byte>, at: nat)
    requires DifferInWindow(a, b, at)
    ensures Crc(a) == Crc(b) <==> a == b
  {
    if Crc(a) == Crc(b) {
      CrcDeterminesRegister(a, b);
      BurstChangesRegister(INIT, a, b, at);
    }
  }

  // --- the CRC as stored bytes ---------------------------------------------

  /** Little-endian bytes of a CRC. */
  function CrcBytes(v: bv32): (b: seq<byte>)
    ensures |b| == 4
  {
    [Lane0(v) as int, Lane1(v) as int, Lane2(v) as int, Lane3(v) as int]
  }

  lemma CrcBytesRoundTrip(v: bv32)
    ensures WordAt(CrcBytes(v)) == v
  {
    WordAtIsWord(CrcBytes(v));
    LaneThroughByte(Lane0(v));
    LaneThroughByte(Lane1(v));
    LaneThroughByte(Lane2(v));
    LaneThroughByte(Lane3(v));
    WordOfLanes(v);
  }

  lemma ResidueWord(c: bv32, v: bv32)
    ensures FourTimes(Xor(c, v)) == RESIDUE <==> Xor(c, v) == 0xFFFF_FFFF
  {
    ResidueConstant();
    if FourTimes(Xor(c, v)) == RESIDUE {
      FourTimesInjective(Xor(c, v), 0xFFFF_FFFF);
    }
  }

  lemma ComplementFillsLeft(c: bv32, v: bv32)
    ensures Xor(c, v) == 0xFFFF_FFFF <==> v == Complement(c)
  {
    Commute(c, v);
    ComplementFills(c, v);
  }

  /** A message is followed by its own CRC exactly when the register ends at the residue. */
  lemma ResidueIff(body: seq<byte>, tail: seq<byte>)
    requires |tail| == 4
    ensures Register(INIT, body + tail) == RESIDUE <==> WordAt(tail) == Crc(body)
  {
    var c := Register(INIT, body);
    RegisterSplit(INIT, body, tail);
    RegisterOfFour(c, tail);
    ResidueWord(c, WordAt(tail));
    ComplementFillsLeft(c, WordAt(tail));
  }

  // --- the check value -----------------------------------------------------

  lemma EightBits(c: bv32)
    ensures Bits8(c) == Bit(Bit(Bit(Bit(Bit(Bit(Bit(Bit(c))))))))
  {
    assert Iterate(Bit, c, 4) == Bit(Bit(Bit(Bit(c))));
  }

  /** The register after one message byte more; `mixed` and `next` are computed from `c`. */
  lemma OneByte(bytes: seq<byte>, c: bv32, b: byte, mixed: bv32, next: bv32)
    requires Register(INIT, bytes) == c
    requires mixed == Xor(c, (b as bv8) as bv32)
    requires next == Bit(Bit(Bit(Bit(Bit(Bit(Bit(Bit(mixed))))))))
    ensures Register(INIT, bytes + [b]) == next
  {
    RegisterIsFold(INIT, bytes);
    RegisterIsFold(INIT, bytes + [b]);
    assert (bytes + [b])[..|bytes|] == bytes;
    EightBits(mixed);
  }

  lemma Digit1()
    ensures Register(INIT, [0x31]) == 0x7C23_1048
  {
    RegisterIsFold(INIT, []);
    OneByte([], 0xFFFF_FFFF, 0x31, 0xFFFF_FFCE, 0x7C23_1048);
    assert [] + [0x31] == [0x31];
  }

  lemma Digit2()
    ensures Register(INIT, [0x31, 0x32]) == 0xB0AC_BB32
  {
    Digit1();
    OneByte([0x31], 0x7C23_1048, 0x32, 0x7C23_107A, 0xB0AC_BB32);
    assert [0x31] + [0x32] == [0x31, 0x32];
  }

  lemma Digit3()
    ensures Register(INIT, [0x31, 0x32, 0x33]) == 0x77B7_9C2D
  {
    Digit2();
    OneByte([0x31, 0x32], 0xB0AC_BB32, 0x33, 0xB0AC_BB01, 0x77B7_9C2D);
    assert [0x31, 0x32] + [0x33] == [0x31, 0x32, 0x33];
  }

  lemma Digit4()
    ensures Register(INIT, [0x31, 0x32, 0x33, 0x34]) == 0x641C_1F5C
  {
    Digit3();
    OneByte([0x31, 0x32, 0x33], 0x77B7_9C2D, 0x34, 0x77B7_9C19, 0x641C_1F5C);
    assert [0x31, 0x32, 0x33] + [0x34] == [0x31, 0x32, 0x33, 0x34];
  }

  lemma Digit5()
    ensures Register(INIT, [0x31, 0x32, 0x33, 0x34, 0x35]) == 0x340A_C5E3
  {
    Digit4();
    OneByte([0x31, 0x32, 0x33, 0x34], 0x641C_1F5C, 0x35, 0x641C_1F69, 0x340A_C5E3);
    assert [0x31, 0x32, 0x33, 0x34] + [0x35] == [0x31, 0x32, 0x33, 0x34, 0x35];
  }

  lemma Digit6()
    ensures Register(INIT, [0x31, 0x32, 0x33, 0x34, 0x35, 0x36]) == 0xF68D_2C9E
  {
    Digit5();
    OneByte([0x31, 0x32, 0x33, 0x34, 0x35], 0x340A_C5E3, 0x36, 0x340A_C5D5, 0xF68D_2C9E);
    assert [0x31, 0x32, 0x33, 0x34, 0x35] + [0x36] == [0x31, 0x32, 0x33, 0x34, 0x35, 0x36];
  }

  lemma Digit7()
    ensures Register(INIT, [0x31, 0x32, 0x33, 0x34, 0x35, 0x36, 0x37]) == 0xAFFC_9660
  {
    Digit6();
    OneByte([0x31, 0x32, 0x33, 0x34, 0x35, 0x36], 0xF68D_2C9E, 0x37, 0xF68D_2CA9, 0xAFFC_9660);
    assert [0x31, 0x32, 0x33, 0x34, 0x35, 0x36] + [0x37] == [0x31, 0x32, 0x33, 0x34, 0x35, 0x36, 0x37];
  }

  lemma Digit8()
    ensures Register(INIT, [0x31, 0x32, 0x33, 0x34, 0x35, 0x36, 0x37, 0x38]) == 0x651F_2550
  {
    Digit7();
    OneByte([0x31, 0x32, 0x33, 0x34, 0x35, 0x36, 0x37], 0xAFFC_9660, 0x38, 0xAFFC_9658, 0x651F_2550);
    assert [0x31, 0x32, 0x33, 0x34, 0x35, 0x36, 0x37] + [0x38] == [0x31, 0x32, 0x33, 0x34, 0x35, 0x36, 0x37, 0x38];
  }

  lemma Digit9()
    ensures Register(INIT, [0x31, 0x32, 0x33, 0x34, 0x35, 0x36, 0x37, 0x38, 0x39]) == 0x340B_C6D9
  {
    Digit8();
    OneByte([0x31, 0x32, 0x33, 0x34, 0x35, 0x36, 0x37, 0x38], 0x651F_2550, 0x39, 0x651F_2569, 0x340B_C6D9);
    assert [0x31, 0x32, 0x33, 0x34, 0x35, 0x36, 0x37, 0x38] + [0x39] == [0x31, 0x32, 0x33, 0x34, 0x35, 0x36, 0x37, 0x38, 0x39];
  }

  /** The well-known CRC-32 of the digits 1 to 9: generator, bit order and complements are those of clause 3.2.9 of IEEE 802.3. */
  lemma CheckValue()
    ensures Crc([0x31, 0x32, 0x33, 0x34, 0x35, 0x36, 0x37, 0x38, 0x39]) == 0xCBF4_3926
  {
    Digit9();
  }
}
