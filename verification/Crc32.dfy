/** boot/crc32.c: the table-driven CRC, against the bit-serial CRC of
    section 8 of RFC 1952. */
module Crc32 {
  import opened Words

  const POLY: nat := 0xedb88320
  const ONES: nat := 0xffffffff

  /** One shift of the division register. */
  function ShiftBit(c: nat): nat {
    if c % 2 == 1 then Xor(POLY, c / 2) else c / 2
  }

  function ShiftBits(c: nat, k: nat): nat
    decreases k
  {
    if k == 0 then c else ShiftBits(ShiftBit(c), k - 1)
  }

  /** The reference definition: the low k bits of b enter the register one at a
      time, least significant bit first. */
  function SerialBits(c: nat, b: nat, k: nat): nat
    decreases k
  {
    if k == 0 then c else SerialBits(ShiftBit(Xor(c, b % 2)), b / 2, k - 1)
  }

  function SerialRegister(c: nat, buf: seq<byte>): nat {
    if buf == [] then c
    else SerialBits(SerialRegister(c, buf[..|buf| - 1]), buf[|buf| - 1], 8)
  }

  /** The bit-by-bit CRC that continues from crc over buf. */
  function Crc(crc: nat, buf: seq<byte>): nat {
    Xor(SerialRegister(Xor(crc, ONES), buf), ONES)
  }

  // ---------- The table ----------

  lemma ShiftBitLinear(a: nat, b: nat)
    ensures ShiftBit(Xor(a, b)) == Xor(ShiftBit(a), ShiftBit(b))
  {
    XorHalf(a, b);
    var x, y := a / 2, b / 2;
    if a % 2 == 1 && b % 2 == 1 {
      XorCommutes(POLY, x);
      XorAssociates(x, POLY, Xor(POLY, y));
      XorAssociates(POLY, POLY, y);
      XorSelf(POLY);
    } else if a % 2 == 1 {
      XorAssociates(POLY, x, y);
    } else if b % 2 == 1 {
      XorCommutes(POLY, y);
      XorAssociates(x, y, POLY);
      XorCommutes(POLY, Xor(x, y));
    }
  }

  /** Shifting is linear over exclusive or. */
  lemma {:induction false} ShiftBitsLinear(a: nat, b: nat, k: nat)
    ensures ShiftBits(Xor(a, b), k) == Xor(ShiftBits(a, k), ShiftBits(b, k))
    decreases k
  {
    if k > 0 {
      ShiftBitLinear(a, b);
      ShiftBitsLinear(ShiftBit(a), ShiftBit(b), k - 1);
    }
  }

  /** A number whose low k bits are zero shifts k times without feedback. */
  lemma {:induction false} ShiftZeros(c: nat, p: nat, k: nat)
    requires p == Power2(k)
    ensures ShiftBits(c * p, k) == c
    decreases k
  {
    if k > 0 {
      var h := Power2(k - 1);
      assert c * p == 2 * (c * h);
      ShiftZeros(c, h, k - 1);
    }
  }

  /** Feeding k bits one at a time is adding them all and shifting k times. */
  lemma {:induction false} SerialIsShift(c: nat, b: nat, k: nat)
    requires b < Power2(k)
    ensures SerialBits(c, b, k) == ShiftBits(Xor(c, b), k)
    decreases k
  {
    hide ShiftBit;
    if k > 0 {
      var low, d := b % 2, ShiftBit(Xor(c, b % 2));
      SerialIsShift(d, b / 2, k - 1);
      SplitLowBit(b);
      XorAssociates(c, low, 2 * (b / 2));
      ShiftBitLinear(Xor(c, low), 2 * (b / 2));
      ShiftEven(b / 2);
    }
  }

  lemma ShiftEven(x: nat)
    ensures ShiftBit(2 * x) == x
  {
  }

  lemma SplitLowBit(b: nat)
    ensures b == Xor(b % 2, 2 * (b / 2))
  {
    if b % 2 == 1 && b / 2 > 0 {
      assert Xor(1, 2 * (b / 2)) == 2 * Xor(0, b / 2) + 1;
    }
  }

  /** The identity the table rests on: feeding the k bits of b to a register
      shifts the low k bits of their sum, and adds the rest moved down. */
  lemma SerialByParts(c: nat, b: nat, low: nat, high: nat, k: nat)
    requires b < Power2(k) && low < Power2(k)
    requires Xor(c, b) == low + high * Power2(k)
    ensures SerialBits(c, b, k) == Xor(ShiftBits(low, k), high)
  {
    hide *;
    var p := Power2(k);
    SerialIsShift(c, b, k);
    SplitBits(low, high, k);
    ShiftBitsLinear(low, high * p, k);
    ShiftZeros(high, p, k);
  }

  lemma XorOfEven(low: nat, h: nat)
    ensures Xor(low, 2 * h) == 2 * Xor(low / 2, h) + low % 2
  {
    XorHalf(low, 2 * h);
  }

  /** Adding bits that do not overlap is exclusive or. */
  lemma {:induction false} SplitBits(low: nat, high: nat, k: nat)
    requires low < Power2(k)
    ensures Xor(low, high * Power2(k)) == low + high * Power2(k)
    decreases k
  {
    if k > 0 {
      var h := high * Power2(k - 1);
      assert high * Power2(k) == 2 * h;
      SplitBits(low / 2, high, k - 1);
      XorOfEven(low, h);
    }
  }

  /** One step of the table-driven loop is eight bit-serial steps. */
  lemma TableStep(c: nat, b: byte)
    ensures SerialBits(c, b, 8) == Xor(ShiftBits(Xor(c, b) % 0x100, 8), c / 0x100)
  {
    hide *;
    Power2Of8();
    var low, high := c % 0x100, c / 0x100;
    SplitBits(low, high, 8);
    XorCommutes(c, b);
    XorAssociates(b, low, high * 0x100);
    PowerIsPower(8);
    XorBound(b, low, 0x100);
    SplitBits(Xor(b, low), high, 8);
    SerialByParts(c, b, Xor(b, low), high, 8);
  }

  // ---------- The laws of the CRC ----------

  lemma {:induction false} RegisterConcat(c: nat, a: seq<byte>, b: seq<byte>)
    ensures SerialRegister(c, a + b) == SerialRegister(SerialRegister(c, a), b)
  {
    if b == [] {
      assert a + b == a;
    } else {
      var init := b[..|b| - 1];
      assert (a + b)[..|a + b| - 1] == a + init;
      RegisterConcat(c, a, init);
    }
  }

  /** A CRC can be computed piecewise. */
  lemma CrcConcat(c: nat, a: seq<byte>, b: seq<byte>)
    ensures Crc(Crc(c, a), b) == Crc(c, a + b)
  {
    RegisterConcat(Xor(c, ONES), a, b);
    XorTwice(SerialRegister(Xor(c, ONES), a), ONES);
  }

  const TOP: nat := 0x8000_0000

  lemma TopIsPower()
    ensures IsPowerOfTwo(TOP) && IsPowerOfTwo(TWO_TO_THE_32)
  {
    Power2Of8();
    assert Power2(16) == 0x1_0000 by { Power2Sum(8, 8); }
    assert Power2(31) == TOP by { Power2Sum(16, 15); assert Power2(16) == 2 * Power2(15); }
    PowerIsPower(31);
    PowerIsPower(32);
  }

  lemma {:induction false} Power2Sum(j: nat, k: nat)
    ensures Power2(j + k) == Power2(j) * Power2(k)
  {
    if k > 0 { Power2Sum(j, k - 1); }
  }

  /** A 32-bit register stays a 32-bit register. */
  lemma ShiftBitBound(c: nat)
    requires c < TWO_TO_THE_32
    ensures ShiftBit(c) < TWO_TO_THE_32
  {
    TopIsPower();
    XorBound(POLY, c / 2, TWO_TO_THE_32);
  }

  lemma {:induction false} SerialBitsBound(c: nat, b: nat, k: nat)
    requires c < TWO_TO_THE_32
    ensures SerialBits(c, b, k) < TWO_TO_THE_32
    decreases k
  {
    if k > 0 {
      TopIsPower();
      XorBound(c, b % 2, TWO_TO_THE_32);
      ShiftBitBound(Xor(c, b % 2));
      SerialBitsBound(ShiftBit(Xor(c, b % 2)), b / 2, k - 1);
    }
  }

  lemma {:induction false} RegisterBound(c: nat, buf: seq<byte>)
    requires c < TWO_TO_THE_32
    ensures SerialRegister(c, buf) < TWO_TO_THE_32
  {
    if buf != [] {
      RegisterBound(c, buf[..|buf| - 1]);
      SerialBitsBound(SerialRegister(c, buf[..|buf| - 1]), buf[|buf| - 1], 8);
    }
  }

  lemma CrcBound(crc: nat, buf: seq<byte>)
    requires crc < TWO_TO_THE_32
    ensures Crc(crc, buf) < TWO_TO_THE_32
  {
    TopIsPower();
    XorBound(crc, ONES, TWO_TO_THE_32);
    RegisterBound(Xor(crc, ONES), buf);
    XorBound(SerialRegister(Xor(crc, ONES), buf), ONES, TWO_TO_THE_32);
  }

  /** The CRC notices any change confined to one byte. */
  lemma CrcDetectsByte(crc: nat, a: seq<byte>, x: byte, y: byte, b: seq<byte>)
    requires crc < TWO_TO_THE_32 && x != y
    ensures Crc(crc, a + [x] + b) != Crc(crc, a + [y] + b)
  {
    var s := Xor(crc, ONES);
    TopIsPower();
    XorBound(crc, ONES, TWO_TO_THE_32);
    RegisterBound(s, a);
    var c := SerialRegister(s, a);
    assert (a + [x])[..|a|] == a && (a + [y])[..|a|] == a;
    RegisterConcat(s, a + [x], b);
    RegisterConcat(s, a + [y], b);
    RegisterBound(s, a + [x]);
    RegisterBound(s, a + [y]);
    BytesInjective(c, c, x, y);
    RegisterInjective(SerialBits(c, x, 8), SerialBits(c, y, 8), b);
    XorTwice(SerialRegister(SerialBits(c, x, 8), b), ONES);
    XorTwice(SerialRegister(SerialBits(c, y, 8), b), ONES);
  }

  lemma {:induction false} RegisterInjective(c: nat, d: nat, b: seq<byte>)
    requires c < TWO_TO_THE_32 && d < TWO_TO_THE_32 && c != d
    ensures SerialRegister(c, b) != SerialRegister(d, b)
  {
    if b != [] {
      var init, last := b[..|b| - 1], b[|b| - 1];
      RegisterInjective(c, d, init);
      RegisterBound(c, init);
      RegisterBound(d, init);
      BytesInjective(SerialRegister(c, init), SerialRegister(d, init), last, last);
    }
  }

  /** Changing either the register or the byte, but not both, changes the
      register after the byte. */
  lemma BytesInjective(c: nat, d: nat, x: byte, y: byte)
    requires c < TWO_TO_THE_32 && d < TWO_TO_THE_32
    requires (c == d) != (x == y)
    ensures SerialBits(c, x, 8) != SerialBits(d, y, 8)
  {
    Power2Of8();
    SerialIsShift(c, x, 8);
    SerialIsShift(d, y, 8);
    TopIsPower();
    XorBound(c, x, TWO_TO_THE_32);
    XorBound(d, y, TWO_TO_THE_32);
    XorTwice(c, x);
    XorTwice(d, y);
    XorCommutes(c, x);
    XorCommutes(d, y);
    XorTwice(x, c);
    XorTwice(y, d);
    ShiftBitsInjective(Xor(c, x), Xor(d, y), 8);
  }

  lemma {:induction false} ShiftBitsInjective(a: nat, b: nat, k: nat)
    requires a < TWO_TO_THE_32 && b < TWO_TO_THE_32 && a != b
    ensures ShiftBits(a, k) != ShiftBits(b, k)
    decreases k
  {
    if k > 0 {
      ShiftBitInjective(a, b);
      ShiftBitBound(a);
      ShiftBitBound(b);
      ShiftBitsInjective(ShiftBit(a), ShiftBit(b), k - 1);
    }
  }

  /** The polynomial has its top bit set, so the bit shifted out can be read
      off the result. */
  lemma ShiftBitInjective(a: nat, b: nat)
    requires a < TWO_TO_THE_32 && b < TWO_TO_THE_32 && a != b
    ensures ShiftBit(a) != ShiftBit(b)
  {
    TopIsPower();
    XorTopBit(POLY, a / 2, TOP);
    XorTopBit(POLY, b / 2, TOP);
    XorCommutes(POLY, a / 2);
    XorCommutes(POLY, b / 2);
    XorTwice(a / 2, POLY);
    XorTwice(b / 2, POLY);
  }

  // ---------- The code ----------

  /** The static table and its flag. The flag is never set, so every call of
      Crc32 rebuilds the table. */
  class CrcTable {
    const table: array<nat>
    var computed: bool

    ghost predicate Valid()
      reads this, table
    {
      table.Length == 256 && (computed ==> IsTable(table[..], 256))
    }

    constructor ()
      ensures Valid() && fresh(table)
    {
      table := new nat[256];
      computed := false;
    }

    method MakeTable()
      requires table.Length == 256
      modifies table
      ensures IsTable(table[..], 256)
    {
      var n := 0;
      while n < 256
        invariant 0 <= n <= 256
        invariant IsTable(table[..], n)
      {
        var c := n;
        var k := 0;
        while k < 8
          invariant 0 <= k <= 8 && 0 <= c
          invariant ShiftBits(c, 8 - k) == ShiftBits(n, 8)
        {
          if c % 2 == 1 {
            c := Xor(POLY, c / 2);
          } else {
            c := c / 2;
          }
          k := k + 1;
        }
        table[n] := c;
        n := n + 1;
      }
    }

    method Crc32(crc: nat, buf: seq<byte>) returns (r: nat)
      requires Valid()
      modifies table
      ensures Valid() && computed == old(computed)
      ensures r == Crc(crc, buf)
    {
      var c := Xor(crc, ONES);
      if !computed {
        MakeTable();
      }
      var n := 0;
      while n < |buf|
        invariant 0 <= n <= |buf| && 0 <= c
        invariant IsTable(table[..], 256)
        invariant c == SerialRegister(Xor(crc, ONES), buf[..n])
      {
        assert buf[..n + 1][..n] == buf[..n];
        TableStep(c, buf[n]);
        c := Xor(table[Xor(c, buf[n]) % 0x100], c / 0x100);
        n := n + 1;
      }
      assert buf[..|buf|] == buf;
      r := Xor(c, ONES);
    }
  }

  /** The first n entries are filled with eight-shift remainders. */
  ghost predicate IsTable(t: seq<nat>, n: nat) {
    n <= |t| && forall i :: 0 <= i < n ==> t[i] == ShiftBits(i, 8)
  }
}
