/** Bytes, little-endian words and bitwise operations on natural numbers. */
module Words {

  datatype Option<T> = None | Some(value: T)

  type byte = b: int | 0 <= b < 256

  const TWO_TO_THE_32: nat := 0x1_0000_0000

  type word = w: int | 0 <= w < 0x1_0000_0000

  lemma ConcatAssociates<T>(a: seq<T>, b: seq<T>, c: seq<T>)
    ensures a + (b + c) == (a + b) + c
  {
  }

  function Sum(s: seq<nat>): nat {
    if s == [] then 0 else s[0] + Sum(s[1..])
  }

  lemma {:induction false} SumConcat(a: seq<nat>, b: seq<nat>)
    ensures Sum(a + b) == Sum(a) + Sum(b)
    decreases |a|
  {
    if a == [] {
      assert a + b == b;
    } else {
      assert (a + b)[1..] == a[1..] + b;
      SumConcat(a[1..], b);
    }
  }

  /** The value an unsigned 32-bit variable holds after x is stored in it. */
  function U32(x: int): (r: nat)
    ensures r < TWO_TO_THE_32
    ensures 0 <= x < TWO_TO_THE_32 ==> r == x
  {
    x % TWO_TO_THE_32
  }

  /** The value a signed 32-bit variable holds after x is stored in it. */
  function I32(x: int): (r: int)
    ensures -0x8000_0000 <= r < 0x8000_0000
    ensures -0x8000_0000 <= x < 0x8000_0000 ==> r == x
  {
    var u := U32(x);
    if u < 0x8000_0000 then u else u - TWO_TO_THE_32
  }

  function Le16(s: seq<byte>, i: nat): (r: nat)
    requires i + 2 <= |s|
    ensures r < 0x1_0000
  {
    s[i] as int + 0x100 * (s[i + 1] as int)
  }

  function Le32(s: seq<byte>, i: nat): (r: nat)
    requires i + 4 <= |s|
    ensures r < TWO_TO_THE_32
  {
    s[i] as int + 0x100 * (s[i + 1] as int) + 0x1_0000 * (s[i + 2] as int) + 0x100_0000 * (s[i + 3] as int)
  }

  function Pack16(x: nat): (s: seq<byte>)
    requires x < 0x1_0000
    ensures |s| == 2 && Le16(s, 0) == x
  {
    [x % 0x100, x / 0x100]
  }

  function Pack32(x: nat): (s: seq<byte>)
    requires x < TWO_TO_THE_32
    ensures |s| == 4
  {
    [x % 0x100, x / 0x100 % 0x100, x / 0x1_0000 % 0x100, x / 0x100_0000]
  }

  lemma Le32OfPack32(x: nat)
    requires x < TWO_TO_THE_32
    ensures Le32(Pack32(x), 0) == x
  {
    assert x / 0x1_0000 == x / 0x100 / 0x100;
    assert x / 0x100_0000 == x / 0x1_0000 / 0x100;
  }

  /** Bitwise conjunction. */
  function And(x: nat, y: nat): (r: nat)
    ensures r <= x && r <= y
  {
    if x == 0 || y == 0 then 0
    else 2 * And(x / 2, y / 2) + (if x % 2 == 1 && y % 2 == 1 then 1 else 0)
  }

  /** x & ~mask: the bits of x that are not in mask. */
  function AndNot(x: nat, mask: nat): nat {
    x - And(x, mask)
  }

  predicate IsPowerOfTwo(p: nat) {
    p == 1 || (p > 0 && p % 2 == 0 && IsPowerOfTwo(p / 2))
  }

  function Power2(k: nat): (p: nat)
    ensures p > 0
  {
    if k == 0 then 1 else 2 * Power2(k - 1)
  }

  lemma Power2Of8()
    ensures Power2(8) == 0x100
  {
    assert Power2(4) == 16;
  }

  lemma {:induction false} PowerIsPower(k: nat)
    ensures IsPowerOfTwo(Power2(k))
  {
    if k > 0 { PowerIsPower(k - 1); }
  }

  /** Masking with a power of two less one is taking the remainder. */
  lemma {:induction false} AndMask(x: nat, p: nat)
    requires IsPowerOfTwo(p)
    ensures And(x, p - 1) == x % p
    decreases p
  {
    if p > 1 {
      var h := p / 2;
      AndMask(x / 2, h);
      AndOddMask(x, h);
      ModDouble(x, h);
    }
  }

  lemma AndOddMask(x: nat, h: nat)
    requires h > 0
    ensures And(x, 2 * h - 1) == 2 * And(x / 2, h - 1) + x % 2
  {
    assert (2 * h - 1) / 2 == h - 1;
  }

  lemma ModDouble(x: nat, h: nat)
    requires h > 0
    ensures x % (2 * h) == 2 * (x / 2 % h) + x % 2
  {
    var q, r := x / 2 / h, x / 2 % h;
    assert x / 2 == q * h + r;
    DivModUnique(x, 2 * h, q, 2 * r + x % 2);
  }

  /** Quotient and remainder are determined by the division equation. */
  lemma DivModUnique(x: int, d: int, q: int, r: int)
    requires d > 0 && x == q * d + r && 0 <= r < d
    ensures x / d == q && x % d == r
  {
    var q', r' := x / d, x % d;
    assert x == q' * d + r';
    assert (q' - q) * d == r - r';
    if q' - q >= 1 { MulAtLeast(q' - q, 1, d); }
    if q' - q <= -1 { MulAtLeast(-1, q' - q, d); }
  }

  /** Dividing by a product is dividing twice. */
  lemma DivTwice(x: nat, d: nat, e: nat)
    requires d > 0 && e > 0
    ensures d * e > 0 && x / (d * e) == x / d / e
    ensures x % (d * e) == x / d % e * d + x % d
  {
    var y, r := x / d, x % d;
    var q, t := y / e, y % e;
    assert x == y * d + r && y == q * e + t;
    assert x == q * (d * e) + (t * d + r) by {
      assert y * d == (q * e) * d + t * d;
      assert (q * e) * d == q * (d * e);
    }
    assert t * d + r < d * e by {
      MulAtLeast(e - 1, t, d);
      assert (e - 1) * d == d * e - d;
    }
    DivModUnique(x, d * e, q, t * d + r);
  }

  lemma FloorMultiple(p: nat, q: nat, d: nat)
    requires d > 0 && q / d >= p / d
    ensures p - p % d == p / d * d <= q
  {
    assert p == p / d * d + p % d;
    assert q == q / d * d + q % d;
    MulAtLeast(q / d, p / d, d);
  }

  /** A number beyond k whole multiples has quotient at least k. */
  lemma QuotientAtLeast(x: nat, k: nat, d: nat)
    requires d > 0 && x >= k * d
    ensures x / d >= k
  {
    assert x == x / d * d + x % d;
    assert (k - 1) * d == k * d - d;
    if x / d < k {
      MulAtLeast(k - 1, x / d, d);
    }
  }

  lemma {:induction false} PowerTimes(p: nat, q: nat)
    requires IsPowerOfTwo(p) && IsPowerOfTwo(q)
    ensures IsPowerOfTwo(p * q)
  {
    if q > 1 {
      PowerTimes(p, q / 2);
      assert p * q == 2 * (p * (q / 2));
      PowerDouble(p * (q / 2));
    }
  }

  lemma PowerDouble(p: nat)
    requires IsPowerOfTwo(p)
    ensures IsPowerOfTwo(2 * p)
  {
    assert 2 * p / 2 == p;
  }

  lemma MulAtLeast(a: int, b: int, d: int)
    requires a >= b && d >= 0
    ensures a * d >= b * d
  {
  }

  /** The test b & (b - 1) used by the boot-record check. */
  lemma {:induction false} PowerOfTwoTest(b: nat)
    requires b > 0
    ensures And(b, b - 1) == 0 <==> IsPowerOfTwo(b)
  {
    if b % 2 == 0 {
      PowerOfTwoTest(b / 2);
      assert (b - 1) / 2 == b / 2 - 1;
    } else if b > 1 {
      assert (b - 1) / 2 == b / 2;
      AndSelf(b / 2);
    }
  }

  lemma {:induction false} AndSelf(x: nat)
    ensures And(x, x) == x
  {
    if x > 0 { AndSelf(x / 2); }
  }

  /** Programming an erased flash byte (all ones) stores the byte. */
  lemma AndErased(b: byte)
    ensures And(0xFF, b) == b
  {
    AndCommutes(0xFF, b);
    assert 0xFF == 0x100 - 1;
    assert IsPowerOfTwo(0x100) by { assert IsPowerOfTwo(64); }
    AndMask(b, 0x100);
  }

  lemma {:induction false} AndCommutes(x: nat, y: nat)
    ensures And(x, y) == And(y, x)
  {
    if x > 0 && y > 0 { AndCommutes(x / 2, y / 2); }
  }

  /** Bitwise exclusive or. */
  function Xor(x: nat, y: nat): (r: nat)
    ensures r % 2 == 0 <==> x % 2 == y % 2
  {
    if x == 0 then y
    else if y == 0 then x
    else 2 * Xor(x / 2, y / 2) + (if x % 2 == y % 2 then 0 else 1)
  }

  lemma XorHalf(x: nat, y: nat)
    ensures Xor(x, y) / 2 == Xor(x / 2, y / 2)
  {
  }

  lemma {:induction false} XorCommutes(x: nat, y: nat)
    ensures Xor(x, y) == Xor(y, x)
  {
    if x > 0 && y > 0 { XorCommutes(x / 2, y / 2); }
  }

  lemma {:induction false} XorAssociates(x: nat, y: nat, z: nat)
    ensures Xor(Xor(x, y), z) == Xor(x, Xor(y, z))
  {
    if x > 0 && y > 0 && z > 0 {
      XorAssociates(x / 2, y / 2, z / 2);
      XorHalf(x, y);
      XorHalf(y, z);
      XorHalf(Xor(x, y), z);
      XorHalf(x, Xor(y, z));
    }
  }

  lemma {:induction false} XorSelf(x: nat)
    ensures Xor(x, x) == 0
  {
    if x > 0 { XorSelf(x / 2); }
  }

  lemma XorTwice(x: nat, y: nat)
    ensures Xor(Xor(x, y), y) == x
  {
    XorAssociates(x, y, y);
    XorSelf(y);
  }

  /** Exclusive or stays within any number of bits both operands stay within. */
  lemma {:induction false} XorBound(x: nat, y: nat, p: nat)
    requires IsPowerOfTwo(p) && x < p && y < p
    ensures Xor(x, y) < p
  {
    if p > 1 { XorBound(x / 2, y / 2, p / 2); }
  }

  /** A top bit set in only one operand is set in the result. */
  lemma {:induction false} XorTopBit(x: nat, y: nat, p: nat)
    requires IsPowerOfTwo(p) && p <= x && y < p
    ensures p <= Xor(x, y)
  {
    if p > 1 { XorTopBit(x / 2, y / 2, p / 2); }
  }
}
