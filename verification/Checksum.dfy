/** CRC-32 as section 3.2.9 of IEEE 802.3 defines it: bit by bit, and by the lookup table of the page code. */
module Checksum {
  import opened LittleEndian

  const POLYNOMIAL: bv32 := 0xedb8_8320

  function Xor(a: bv32, b: bv32): bv32 {
    a ^ b
  }

  function Wide(b: Byte): bv32 {
    b as bv32
  }

  /** The low byte of the register, and the others moved down by one byte. */
  function LowByte(c: bv32): bv32 {
    c & 0xff
  }

  function HighBytes(c: bv32): bv32 {
    c & 0xffff_ff00
  }

  function ShiftedByte(c: bv32): bv32 {
    c >> 8
  }

  /** One step of the shift register, reflected. */
  function BitStep(c: bv32): bv32 {
    if c & 1 == 1 then POLYNOMIAL ^ (c >> 1) else c >> 1
  }

  function BitSteps(c: bv32, n: nat): bv32
    decreases n
  {
    if n == 0 then c else BitSteps(BitStep(c), n - 1)
  }

  /** The register after taking in one byte, bit by bit. */
  function ByteStep(c: bv32, b: Byte): bv32 {
    BitSteps(Xor(c, Wide(b)), 8)
  }

  /** The register after taking in bytes. */
  function Crc(c: bv32, bytes: Bytes): bv32 {
    if bytes == [] then c else ByteStep(Crc(c, bytes[..|bytes| - 1]), bytes[|bytes| - 1])
  }

  /** The bytes outside the range from `skipStart` to `skipEnd`. */
  function Outside(bytes: Bytes, skipStart: int, skipEnd: int): Bytes {
    if bytes == [] then []
    else
      var i := |bytes| - 1;
      Outside(bytes[..i], skipStart, skipEnd) + if skipStart <= i < skipEnd then [] else [bytes[i]]
  }

  /** Eight steps, written out. */
  lemma EightSteps(c: bv32)
    ensures BitSteps(c, 8) == BitStep(BitStep(BitStep(BitStep(BitStep(BitStep(BitStep(BitStep(c))))))))
  {
    hide BitStep;
    var c1 := BitStep(c);
    var c2 := BitStep(c1);
    var c3 := BitStep(c2);
    var c4 := BitStep(c3);
    assert BitSteps(c, 8) == BitSteps(c1, 7) == BitSteps(c2, 6) == BitSteps(c3, 5) == BitSteps(c4, 4);
    var c5 := BitStep(c4);
    var c6 := BitStep(c5);
    var c7 := BitStep(c6);
    assert BitSteps(c4, 4) == BitSteps(c5, 3) == BitSteps(c6, 2) == BitSteps(c7, 1) == BitSteps(BitStep(c7), 0);
  }

  lemma EmptyRegister(c: bv32)
    ensures Crc(c, []) == c
  {
  }

  lemma NextRegister(c: bv32, bytes: Bytes, b: Byte)
    ensures Crc(c, bytes + [b]) == ByteStep(Crc(c, bytes), b)
  {
    hide ByteStep;
    assert (bytes + [b])[..|bytes|] == bytes;
  }

  /** The registers on the way through the nine bytes of "123456789". */
  lemma CheckRegisters()
    ensures ByteStep(0xffff_ffff, 0x31) == 0x7c23_1048
    ensures ByteStep(0x7c23_1048, 0x32) == 0xb0ac_bb32
    ensures ByteStep(0xb0ac_bb32, 0x33) == 0x77b7_9c2d
    ensures ByteStep(0x77b7_9c2d, 0x34) == 0x641c_1f5c
    ensures ByteStep(0x641c_1f5c, 0x35) == 0x340a_c5e3
    ensures ByteStep(0x340a_c5e3, 0x36) == 0xf68d_2c9e
    ensures ByteStep(0xf68d_2c9e, 0x37) == 0xaffc_9660
    ensures ByteStep(0xaffc_9660, 0x38) == 0x651f_2550
    ensures ByteStep(0x651f_2550, 0x39) == 0x340b_c6d9
  {
    EightSteps(0xffff_ffce);
    EightSteps(0x7c23_107a);
    EightSteps(0xb0ac_bb01);
    EightSteps(0x77b7_9c19);
    EightSteps(0x641c_1f69);
    EightSteps(0x340a_c5d5);
    EightSteps(0xf68d_2ca9);
    EightSteps(0xaffc_9658);
    EightSteps(0x651f_2569);
    hide BitSteps;
  }

  /** The check value of CRC-32: the checksum of the digits from 1 to 9. */
  lemma CheckValue()
    ensures Xor(Crc(0xffff_ffff, [0x31, 0x32, 0x33, 0x34, 0x35, 0x36, 0x37, 0x38, 0x39]), 0xffff_ffff) == 0xcbf4_3926
  {
    CheckRegisters();
    hide ByteStep, Crc;
    EmptyRegister(0xffff_ffff);
    var none: Bytes := [];
    NextRegister(0xffff_ffff, none, 0x31);
    var s1 := none + [0x31];
    NextRegister(0xffff_ffff, s1, 0x32);
    var s2 := s1 + [0x32];
    NextRegister(0xffff_ffff, s2, 0x33);
    var s3 := s2 + [0x33];
    NextRegister(0xffff_ffff, s3, 0x34);
    var s4 := s3 + [0x34];
    NextRegister(0xffff_ffff, s4, 0x35);
    var s5 := s4 + [0x35];
    NextRegister(0xffff_ffff, s5, 0x36);
    var s6 := s5 + [0x36];
    NextRegister(0xffff_ffff, s6, 0x37);
    var s7 := s6 + [0x37];
    NextRegister(0xffff_ffff, s7, 0x38);
    var s8 := s7 + [0x38];
    NextRegister(0xffff_ffff, s8, 0x39);
    var s9 := s8 + [0x39];
    assert s9 == [0x31, 0x32, 0x33, 0x34, 0x35, 0x36, 0x37, 0x38, 0x39];
  }

  // ---------------------------------------------------------------------
  // The table form is the bit-by-bit form
  // ---------------------------------------------------------------------

  lemma ShiftXor(a: bv32, b: bv32)
    ensures (a ^ b) >> 1 == (a >> 1) ^ (b >> 1)
  {
  }

  lemma LowBitXor(a: bv32, b: bv32)
    ensures (a ^ b) & 1 == 1 <==> (a & 1 == 1 <==> b & 1 != 1)
  {
  }

  lemma XorRules(p: bv32, a: bv32, b: bv32)
    ensures (p ^ a) ^ (p ^ b) == a ^ b
    ensures (p ^ a) ^ b == p ^ (a ^ b)
    ensures a ^ (p ^ b) == p ^ (a ^ b)
  {
  }

  lemma BitStepXor(a: bv32, b: bv32)
    ensures BitStep(a ^ b) == BitStep(a) ^ BitStep(b)
  {
    ShiftXor(a, b);
    LowBitXor(a, b);
    XorRules(POLYNOMIAL, a >> 1, b >> 1);
  }

  lemma BitStepLinear(a: bv32, b: bv32)
    ensures BitStep(Xor(a, b)) == Xor(BitStep(a), BitStep(b))
  {
    hide BitStep;
    BitStepXor(a, b);
  }

  lemma {:induction false} BitStepsLinear(a: bv32, b: bv32, n: nat)
    ensures BitSteps(Xor(a, b), n) == Xor(BitSteps(a, n), BitSteps(b, n))
    decreases n
  {
    hide Xor;
    if n > 0 {
      BitStepLinear(a, b);
      hide BitStep;
      BitStepsLinear(BitStep(a), BitStep(b), n - 1);
    }
  }

  /** While the low bits are zero, a step is a shift. */
  lemma EightShifts(c: bv32)
    requires c & 0xff == 0
    ensures BitSteps(c, 8) == ShiftedByte(c)
  {
    var c1, c2, c3, c4 := c >> 1, c >> 2, c >> 3, c >> 4;
    var c5, c6, c7, c8 := c >> 5, c >> 6, c >> 7, c >> 8;
    assert BitStep(c) == c1 && BitStep(c1) == c2 && BitStep(c2) == c3 && BitStep(c3) == c4;
    assert BitStep(c4) == c5 && BitStep(c5) == c6 && BitStep(c6) == c7 && BitStep(c7) == c8;
    hide BitStep;
    assert BitSteps(c, 8) == BitSteps(c1, 7) && BitSteps(c1, 7) == BitSteps(c2, 6) &&
           BitSteps(c2, 6) == BitSteps(c3, 5);
    assert BitSteps(c3, 5) == BitSteps(c4, 4) && BitSteps(c4, 4) == BitSteps(c5, 3) &&
           BitSteps(c5, 3) == BitSteps(c6, 2);
    assert BitSteps(c6, 2) == BitSteps(c7, 1) && BitSteps(c7, 1) == BitSteps(c8, 0);
  }

  lemma LowByteApart(x: bv32)
    ensures x == Xor(HighBytes(x), LowByte(x))
  {
  }

  lemma HighBytesShift(x: bv32)
    ensures BitSteps(HighBytes(x), 8) == ShiftedByte(HighBytes(x))
  {
    EightShifts(HighBytes(x));
  }

  lemma HighBytesKept(c: bv32, b: Byte)
    ensures ShiftedByte(HighBytes(Xor(c, Wide(b)))) == ShiftedByte(c)
  {
  }

  /** One byte taken in by table lookup. */
  function TableStep(c: bv32, b: Byte): bv32 {
    Xor(ShiftedByte(c), BitSteps(LowByte(Xor(c, Wide(b))), 8))
  }

  /** Shifting out a byte at once and correcting by the table entry for its low byte. */
  lemma TableStepIsByteStep(c: bv32, b: Byte)
    ensures TableStep(c, b) == ByteStep(c, b)
  {
    hide BitStep, BitSteps, Xor, Wide, LowByte, HighBytes, ShiftedByte;
    var x := Xor(c, Wide(b));
    LowByteApart(x);
    HighBytesKept(c, b);
    HighBytesShift(x);
    BitStepsLinear(HighBytes(x), LowByte(x), 8);
  }

  // ---------------------------------------------------------------------
  // Every byte step is injective
  // ---------------------------------------------------------------------

  lemma BitStepInjective(a: bv32, b: bv32)
    requires BitStep(a) == BitStep(b)
    ensures a == b
  {
  }

  lemma {:induction false} BitStepsInjective(a: bv32, b: bv32, n: nat)
    requires BitSteps(a, n) == BitSteps(b, n)
    ensures a == b
    decreases n
  {
    if n > 0 {
      hide BitStep;
      BitStepsInjective(BitStep(a), BitStep(b), n - 1);
      BitStepInjective(a, b);
    }
  }

  lemma ByteStepInjective(a: bv32, b: bv32, x: Byte, y: Byte)
    ensures ByteStep(a, x) == ByteStep(b, x) ==> a == b
    ensures ByteStep(a, x) == ByteStep(a, y) ==> x == y
  {
    hide BitStep, BitSteps, Xor, Wide;
    if ByteStep(a, x) == ByteStep(b, x) {
      BitStepsInjective(Xor(a, Wide(x)), Xor(b, Wide(x)), 8);
      XorCancels(a, b, Wide(x));
    }
    if ByteStep(a, x) == ByteStep(a, y) {
      BitStepsInjective(Xor(a, Wide(x)), Xor(a, Wide(y)), 8);
      XorCancels(Wide(x), Wide(y), a);
      SameByte(x, y);
    }
  }

  lemma XorCancels(a: bv32, b: bv32, c: bv32)
    ensures Xor(a, c) == Xor(b, c) ==> a == b
    ensures Xor(c, a) == Xor(c, b) ==> a == b
  {
  }

  lemma SameByte(x: Byte, y: Byte)
    ensures Wide(x) == Wide(y) ==> x == y
  {
  }

  /** Changing one byte changes the register, whatever follows. */
  lemma {:induction false} OneByteMatters(c: bv32, bytes: Bytes, i: nat, v: Byte)
    requires i < |bytes| && v != bytes[i]
    ensures Crc(c, bytes[i := v]) != Crc(c, bytes)
  {
    hide ByteStep;
    var n := |bytes| - 1;
    if i == n {
      assert bytes[i := v][..n] == bytes[..n];
      ByteStepInjective(Crc(c, bytes[..n]), Crc(c, bytes[..n]), v, bytes[n]);
    } else {
      OneByteMatters(c, bytes[..n], i, v);
      assert bytes[i := v][..n] == bytes[..n][i := v];
      ByteStepInjective(Crc(c, bytes[..n][i := v]), Crc(c, bytes[..n]), bytes[n], bytes[n]);
    }
  }

  // ---------------------------------------------------------------------
  // The program's form
  // ---------------------------------------------------------------------

  /** Builds the lookup table. */
  method BuildTable() returns (table: seq<bv32>)
    ensures |table| == 256 && forall i :: 0 <= i < 256 ==> table[i] == BitSteps(i as bv32, 8)
  {
    hide BitStep;
    table := [];
    for i := 0 to 256
      invariant |table| == i && forall j :: 0 <= j < i ==> table[j] == BitSteps(j as bv32, 8)
    {
      var c := i as bv32;
      for bit := 0 to 8
        invariant BitSteps(c, 8 - bit) == BitSteps(i as bv32, 8)
      {
        c := BitStep(c);
      }
      table := table + [c];
    }
  }

  lemma LowByteIndex(c: bv32)
    ensures 0 <= LowByte(c) as int < 256 && (LowByte(c) as int) as bv32 == LowByte(c)
  {
  }

  /** The checksum of a buffer, optionally without a range of bytes. */
  method Crc32(table: seq<bv32>, buffer: Bytes, skipStart: int, skipEnd: int) returns (checksum: bv32)
    requires |table| == 256 && forall i :: 0 <= i < 256 ==> table[i] == BitSteps(i as bv32, 8)
    ensures checksum == Xor(Crc(0xffff_ffff, Outside(buffer, skipStart, skipEnd)), 0xffff_ffff)
  {
    hide BitSteps, ByteStep, Xor, Wide, LowByte, ShiftedByte;
    var crc: bv32 := 0xffff_ffff;
    for i := 0 to |buffer|
      invariant crc == Crc(0xffff_ffff, Outside(buffer[..i], skipStart, skipEnd))
    {
      assert buffer[..i + 1][..i] == buffer[..i];
      ghost var before := Outside(buffer[..i], skipStart, skipEnd);
      if skipStart <= i < skipEnd {
        assert before + [] == before;
      } else {
        assert (before + [buffer[i]])[..|before|] == before;
        TableStepIsByteStep(crc, buffer[i]);
        LowByteIndex(Xor(crc, Wide(buffer[i])));
        crc := Xor(ShiftedByte(crc), table[LowByte(Xor(crc, Wide(buffer[i]))) as int]);
      }
    }
    assert buffer[..|buffer|] == buffer;
    checksum := Xor(crc, 0xffff_ffff);
  }
}
