/** The residue of boot/crc32.c's CRC: what a message followed by its own CRC
    comes to, whatever the message. */
module CrcResidue {
  import opened Words
  import opened Crc32

  /** Feeding j + k bits is feeding the low j and then the rest. */
  lemma {:induction false} SerialParts(c: nat, x: nat, low: nat, high: nat, j: nat, k: nat, p: nat)
    requires p == Power2(j) && low < p && x == low + p * high
    ensures SerialBits(c, x, j + k) == SerialBits(SerialBits(c, low, j), high, k)
    decreases j
  {
    hide SerialBits;
    if j == 0 {
      SerialNone(c, low);
    } else {
      var d, h := ShiftBit(Xor(c, low % 2)), Power2(j - 1);
      HalfOfParts(low, high, h);
      SerialStep(c, x, j + k);
      SerialStep(c, low, j);
      hide ShiftBit, Xor, Power2;
      SerialParts(d, x / 2, low / 2, high, j - 1, k, h);
    }
  }

  lemma SerialNone(c: nat, b: nat)
    ensures SerialBits(c, b, 0) == c
  {
  }

  lemma SerialStep(c: nat, b: nat, k: nat)
    requires k > 0
    ensures SerialBits(c, b, k) == SerialBits(ShiftBit(Xor(c, b % 2)), b / 2, k - 1)
  {
  }

  lemma HalfOfParts(low: nat, high: nat, h: nat)
    ensures (low + 2 * h * high) / 2 == low / 2 + h * high && (low + 2 * h * high) % 2 == low % 2
  {
    assert 2 * h * high == 2 * (h * high);
  }

  /** The bytes of a word, low byte first, are its 32 bits. */
  lemma WordIsBits(c: nat, x: nat)
    requires x < TWO_TO_THE_32
    ensures SerialRegister(c, Pack32(x)) == SerialBits(c, x, 32)
  {
    hide SerialBits;
    Power2Of8();
    BytesFed(c, Pack32(x));
    var y, z := x / 0x100, x / 0x100 / 0x100;
    var c1 := SerialBits(c, x % 0x100, 8);
    var c2 := SerialBits(c1, y % 0x100, 8);
    SerialParts(c, x, x % 0x100, y, 8, 24, 0x100);
    SerialParts(c1, y, y % 0x100, z, 8, 16, 0x100);
    SerialParts(c2, z, z % 0x100, z / 0x100, 8, 8, 0x100);
  }

  lemma BytesFed(c: nat, b: seq<byte>)
    requires |b| == 4
    ensures SerialRegister(c, b)
         == SerialBits(SerialBits(SerialBits(SerialBits(c, b[0], 8), b[1], 8), b[2], 8), b[3], 8)
  {
    hide SerialBits;
    assert b[..3][..2] == b[..2] && b[..2][..1] == b[..1] && b[..1][..0] == [];
    assert SerialRegister(c, b[..1]) == SerialBits(c, b[0], 8);
    assert SerialRegister(c, b[..2]) == SerialBits(SerialRegister(c, b[..1]), b[1], 8);
    assert SerialRegister(c, b[..3]) == SerialBits(SerialRegister(c, b[..2]), b[2], 8);
  }

  const RESIDUE: nat := 0x2144DF1C

  /** A message followed by its own CRC, low byte first, always has the same CRC. */
  lemma CrcResidue(m: seq<byte>)
    ensures Crc(0, m) < TWO_TO_THE_32 && Crc(0, m + Pack32(Crc(0, m))) == RESIDUE
  {
    hide SerialRegister, SerialBits, ShiftBits, Xor, Pack32;
    var c := SerialRegister(Xor(0, ONES), m);
    var x := Crc(0, m);
    CrcBound(0, m);
    RegisterConcat(Xor(0, ONES), m, Pack32(x));
    WordIsBits(c, x);
    PowerTo32();
    SerialIsShift(c, x, 32);
    XorCommutes(c, ONES);
    XorAssociates(c, c, ONES);
    XorAssociates(ONES, c, c);
    XorSelf(c);
    XorCommutes(c, x);
    XorWithZero(ONES);
    ShiftedOnes();
  }

  lemma XorWithZero(x: nat)
    ensures Xor(0, x) == x == Xor(x, 0)
  {
  }

  lemma PowerTo32()
    ensures Power2(32) == TWO_TO_THE_32
  {
    TopIsPower();
    Power2Of8();
    assert Power2(16) == 0x1_0000 by { Power2Sum(8, 8); }
    Power2Sum(16, 16);
  }

  // ---------- The register as a machine word ----------

  /** The number that the low k bits of x stand for. */
  function Val(x: bv32, k: nat): nat {
    if k == 0 then 0 else 2 * Val(x >> 1, k - 1) + (if x & 1 == 1 then 1 else 0)
  }

  /** The low k bits are all there is. */
  predicate Within(x: bv32, k: nat) {
    x == 0 || (k > 0 && Within(x >> 1, k - 1))
  }

  lemma {:induction false} XorVal(x: bv32, y: bv32, k: nat)
    ensures Xor(Val(x, k), Val(y, k)) == Val(x ^ y, k)
    decreases k
  {
    hide Xor, Val;
    if k == 0 {
      ValNone(x, y);
    } else {
      HalfBits(x, y);
      ValHalf(x, k);
      ValHalf(y, k);
      ValHalf(x ^ y, k);
      LowBits(x, y);
      XorVal(x >> 1, y >> 1, k - 1);
      XorByHalves(Val(x, k), Val(y, k), Val(x ^ y, k));
    }
  }

  lemma ValNone(x: bv32, y: bv32)
    ensures Xor(Val(x, 0), Val(y, 0)) == Val(x ^ y, 0)
  {
    XorWithZero(0);
  }

  lemma ValHalf(x: bv32, k: nat)
    requires k > 0
    ensures Val(x, k) / 2 == Val(x >> 1, k - 1) && (Val(x, k) % 2 == 1 <==> x & 1 == 1)
  {
  }

  lemma HalfBits(x: bv32, y: bv32)
    ensures (x ^ y) >> 1 == (x >> 1) ^ (y >> 1)
  {
  }

  lemma LowBits(x: bv32, y: bv32)
    ensures (x ^ y) & 1 == 1 <==> (x & 1 == 1) != (y & 1 == 1)
  {
    assert (x ^ y) & 1 == (x & 1) ^ (y & 1);
    assert (x & 1 == 0 || x & 1 == 1) && (y & 1 == 0 || y & 1 == 1);
  }

  lemma XorByHalves(x: nat, y: nat, z: nat)
    requires Xor(x / 2, y / 2) == z / 2 && z % 2 == if x % 2 == y % 2 then 0 else 1
    ensures Xor(x, y) == z
  {
    hide Xor;
    XorStep(x, y);
  }

  lemma XorStep(x: nat, y: nat)
    ensures Xor(x, y) == 2 * Xor(x / 2, y / 2) + (if x % 2 == y % 2 then 0 else 1)
  {
    if x == 0 || y == 0 {
      XorWithZero(x);
      XorWithZero(y);
      XorWithZero(x / 2);
      XorWithZero(y / 2);
      hide Xor;
    }
  }

  lemma {:induction false} ValWithin(x: bv32, k: nat)
    requires Within(x, k)
    ensures Val(x, k + 1) == Val(x, k)
    decreases k
  {
    if k == 0 {
      assert x >> 1 == 0 && x & 1 == 0;
    } else {
      if x == 0 { assert x >> 1 == 0; }
      ValWithin(x >> 1, k - 1);
    }
  }

  lemma WithinByte(x: bv32, k: nat)
    requires Within(x >> 8, k)
    ensures Within(x, k + 8)
  {
    assert x >> 1 >> 1 >> 1 >> 1 >> 1 >> 1 >> 1 >> 1 == x >> 8;
    var y := x >> 1 >> 1 >> 1 >> 1;
    assert Within(y >> 1 >> 1 >> 1, k + 1);
    assert Within(y >> 1, k + 3);
    assert Within(y, k + 4);
    assert Within(x >> 1 >> 1, k + 6);
  }

  lemma WithinWord(x: bv32)
    ensures Within(x >> 1, 31)
  {
    hide Within;
    SevenLeft(x);
    WithinBytes(x >> 1);
  }

  lemma WithinBytes(y: bv32)
    requires y >> 8 >> 8 >> 8 < 0x80
    ensures Within(y, 31)
  {
    hide Within;
    WithinSeven(y >> 8 >> 8 >> 8);
    WithinByte(y >> 8 >> 8, 7);
    WithinByte(y >> 8, 15);
    WithinByte(y, 23);
  }

  lemma SevenLeft(x: bv32)
    ensures x >> 1 >> 8 >> 8 >> 8 < 0x80
  {
  }

  lemma WithinSeven(z: bv32)
    requires z < 0x80
    ensures Within(z, 7)
  {
    assert z >> 1 < 0x40 && z >> 1 >> 1 < 0x20 && z >> 1 >> 1 >> 1 < 0x10;
    var y := z >> 1 >> 1 >> 1;
    assert y >> 1 >> 1 >> 1 >> 1 == 0;
    assert Within(y >> 1 >> 1 >> 1, 1);
    assert Within(y >> 1, 3);
    assert Within(y, 4);
    assert Within(z >> 1, 6);
  }

  const POLY_WORD: bv32 := 0xedb88320

  /** One shift of a machine word. */
  function ShiftWord(c: bv32): bv32 {
    if c & 1 == 1 then POLY_WORD ^ (c >> 1) else c >> 1
  }

  lemma ShiftIsWord(c: bv32)
    ensures ShiftBit(Val(c, 32)) == Val(ShiftWord(c), 32)
  {
    hide Xor, Val, Within;
    WithinWord(c);
    ValWithin(c >> 1, 31);
    ValHalf(c, 32);
    if c & 1 == 1 {
      XorVal(POLY_WORD, c >> 1, 32);
      ValPoly();
    }
  }

  lemma ValBits(x: bv32, k: nat)
    ensures Val(x, k + 2) == 4 * Val(x >> 2, k) + Val(x, 2)
  {
    assert x >> 1 >> 1 == x >> 2;
    assert Val(x >> 1, k + 1) == 2 * Val(x >> 1 >> 1, k) + Val(x >> 1, 1);
    assert Val(x, 2) == 2 * Val(x >> 1, 1) + Val(x, 1);
  }

  lemma ValNibble(x: bv32, k: nat)
    ensures Val(x, k + 4) == 0x10 * Val(x >> 4, k) + Val(x, 4)
  {
    hide Val;
    assert x >> 2 >> 2 == x >> 4;
    ValBits(x, k + 2);
    ValBits(x >> 2, k);
    ValBits(x, 2);
  }

  lemma ValByte(x: bv32, k: nat)
    ensures Val(x, k + 8) == 0x100 * Val(x >> 8, k) + Val(x, 8)
  {
    hide Val;
    assert x >> 4 >> 4 == x >> 8;
    ValNibble(x, k + 4);
    ValNibble(x >> 4, k);
    ValNibble(x, 4);
  }

  /** The value of a word by its bytes. */
  lemma ValWord(x: bv32, y: bv32, z: bv32, w: bv32)
    requires y == x >> 8 && z == y >> 8 && w == z >> 8
    ensures Val(x, 32) == 0x100_0000 * Val(w, 8) + 0x1_0000 * Val(z, 8) + 0x100 * Val(y, 8) + Val(x, 8)
  {
    hide Val;
    ValByte(x, 24);
    ValByte(y, 16);
    ValByte(z, 8);
  }

  function LowBit(x: bv32): nat {
    if x & 1 == 1 then 1 else 0
  }

  function FourBits(x: bv32): nat {
    8 * LowBit(x >> 3) + 4 * LowBit(x >> 2) + 2 * LowBit(x >> 1) + LowBit(x)
  }

  lemma ValFour(x: bv32)
    ensures Val(x, 4) == FourBits(x)
  {
    ValBits(x, 2);
    assert x >> 2 >> 1 == x >> 3;
    assert Val(x >> 2, 2) == 2 * Val(x >> 2 >> 1, 1) + LowBit(x >> 2);
    assert Val(x, 2) == 2 * Val(x >> 1, 1) + LowBit(x);
  }

  /** The value of a byte, by its bits; y is x without its low four bits. */
  lemma ValEight(x: bv32, y: bv32)
    requires y == x >> 4
    ensures Val(x, 8) == 0x10 * FourBits(y) + FourBits(x)
  {
    hide Val, FourBits;
    ValNibble(x, 4);
    ValFour(x);
    ValFour(y);
  }

  lemma ValPoly()
    ensures Val(0xedb88320, 32) == POLY
  {
    hide Val;
    ValWord(0xedb88320, 0xedb883, 0xedb8, 0xed);
    ValEight(0xed, 0xe);
    ValEight(0xedb8, 0xedb);
    ValEight(0xedb883, 0xedb88);
    ValEight(0xedb88320, 0xedb8832);
  }

  lemma ValOnes()
    ensures Val(0xffffffff, 32) == ONES
  {
    hide Val;
    ValWord(0xffffffff, 0xffffff, 0xffff, 0xff);
    ValEight(0xff, 0xf);
    ValEight(0xffff, 0xfff);
    ValEight(0xffffff, 0xfffff);
    ValEight(0xffffffff, 0xfffffff);
  }

  lemma ValResidue()
    ensures Val(0x2144df1c, 32) == RESIDUE
  {
    hide Val;
    ValWord(0x2144df1c, 0x2144df, 0x2144, 0x21);
    ValEight(0x21, 0x2);
    ValEight(0x2144, 0x214);
    ValEight(0x2144df, 0x2144d);
    ValEight(0x2144df1c, 0x2144df1);
  }

  function ShiftEight(c: bv32): bv32 {
    ShiftWord(ShiftWord(ShiftWord(ShiftWord(ShiftWord(ShiftWord(ShiftWord(ShiftWord(c))))))))
  }

  lemma ShiftEightIs(c: bv32, k: nat)
    ensures ShiftBits(Val(c, 32), k + 8) == ShiftBits(Val(ShiftEight(c), 32), k)
  {
    hide ShiftBit, ShiftWord, Val;
    var c4 := ShiftWord(ShiftWord(ShiftWord(ShiftWord(c))));
    ShiftFourIs(c, k + 4);
    ShiftFourIs(c4, k);
  }

  lemma ShiftFourIs(c: bv32, k: nat)
    ensures ShiftBits(Val(c, 32), k + 4) == ShiftBits(Val(ShiftWord(ShiftWord(ShiftWord(ShiftWord(c)))), 32), k)
  {
    hide ShiftBit, ShiftWord, Val;
    var c1 := ShiftWord(c);
    var c2 := ShiftWord(c1);
    var c3 := ShiftWord(c2);
    ShiftIsWord(c);
    ShiftIsWord(c1);
    ShiftIsWord(c2);
    ShiftIsWord(c3);
    assert ShiftBits(Val(c, 32), k + 4) == ShiftBits(Val(c1, 32), k + 3);
    assert ShiftBits(Val(c1, 32), k + 3) == ShiftBits(Val(c2, 32), k + 2);
    assert ShiftBits(Val(c2, 32), k + 2) == ShiftBits(Val(c3, 32), k + 1);
  }

  lemma ShiftedWords()
    ensures ShiftEight(0xffffffff) == 0x2dfd1072 && ShiftEight(0x2dfd1072) == 0xbe26ed00
    ensures ShiftEight(0xbe26ed00) == 0xbe26ed && ShiftEight(0xbe26ed) == 0xdebb20e3
    ensures 0xdebb20e3 as bv32 ^ 0xffffffff == 0x2144DF1C
  {
  }

  lemma ShiftedOnes()
    ensures Xor(ShiftBits(ONES, 32), ONES) == RESIDUE
  {
    hide Xor, Val, ShiftEight, ShiftBit;
    ValOnes();
    ShiftedWords();
    ShiftEightIs(0xffffffff, 24);
    ShiftEightIs(0x2dfd1072, 16);
    ShiftEightIs(0xbe26ed00, 8);
    ShiftEightIs(0xbe26ed, 0);
    XorVal(0xdebb20e3, 0xffffffff, 32);
    ValResidue();
  }
}
