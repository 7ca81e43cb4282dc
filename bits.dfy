/** JavaScript's bitwise operators as the STUN codec uses them: `&` and
    `|` on the 32-bit patterns of their operands, and the byte-wise XOR of
    the bitwise-xor package. Bits are defined arithmetically, one bit at a
    time, so that every fact about them is linear arithmetic. */
module Bits {
  import opened Buffers

  function Pow2(n: nat): (p: nat)
    ensures p >= 1
  {
    if n == 0 then 1 else 2 * Pow2(n - 1)
  }

  /** The powers of two the codec's masks are made of. */
  lemma Pow2Values()
    ensures Pow2(3) == 0x8 && Pow2(4) == 0x10 && Pow2(6) == 0x40 && Pow2(7) == 0x80 && Pow2(8) == 0x100 && Pow2(14) == 0x4000 && Pow2(16) == 0x10000 && Pow2(32) == 0x100000000
  {
    assert Pow2(1) == 0x2;
    assert Pow2(2) == 0x4;
    assert Pow2(3) == 0x8;
    assert Pow2(4) == 0x10;
    assert Pow2(5) == 0x20;
    assert Pow2(6) == 0x40;
    assert Pow2(7) == 0x80;
    assert Pow2(8) == 0x100;
    assert Pow2(9) == 0x200;
    assert Pow2(10) == 0x400;
    assert Pow2(11) == 0x800;
    assert Pow2(12) == 0x1000;
    assert Pow2(13) == 0x2000;
    assert Pow2(14) == 0x4000;
    assert Pow2(15) == 0x8000;
    assert Pow2(16) == 0x10000;
    assert Pow2(17) == 0x20000;
    assert Pow2(18) == 0x40000;
    assert Pow2(19) == 0x80000;
    assert Pow2(20) == 0x100000;
    assert Pow2(21) == 0x200000;
    assert Pow2(22) == 0x400000;
    assert Pow2(23) == 0x800000;
    assert Pow2(24) == 0x1000000;
    assert Pow2(25) == 0x2000000;
    assert Pow2(26) == 0x4000000;
    assert Pow2(27) == 0x8000000;
    assert Pow2(28) == 0x10000000;
    assert Pow2(29) == 0x20000000;
    assert Pow2(30) == 0x40000000;
    assert Pow2(31) == 0x80000000;
    assert Pow2(32) == 0x100000000;
  }

  datatype BitOp = AndBits | OrBits | XorBits

  /** `op` on two single bits. */
  function CombineBits(op: BitOp, x: nat, y: nat): nat
    requires x < 2 && y < 2
  {
    match op
    case AndBits => if x == 1 && y == 1 then 1 else 0
    case OrBits => if x == 1 || y == 1 then 1 else 0
    case XorBits => if x != y then 1 else 0
  }

  /** `op` applied bit by bit to the low `n` bits of `a` and `b`. */
  function Bitwise(op: BitOp, a: nat, b: nat, n: nat): (r: nat)
    ensures r < Pow2(n)
  {
    if n == 0 then 0 else 2 * Bitwise(op, a / 2, b / 2, n - 1) + CombineBits(op, a % 2, b % 2)
  }

  /** Bit `j` of `a`. */
  function Bit(a: nat, j: nat): nat {
    if j == 0 then a % 2 else Bit(a / 2, j - 1)
  }

  /** The number made of the low `k` bits of `a`. */
  function Low(a: nat, k: nat): nat {
    if k == 0 then 0 else 2 * Low(a / 2, k - 1) + a % 2
  }

  /** The bit pattern JavaScript's bitwise operators work on: ToInt32 keeps
      an integer's residue modulo 2^32 (read here as unsigned). */
  function ToUint32(x: int): uint32 {
    x % 0x1_0000_0000
  }

  /** JavaScript `x & y`, for results that are non-negative as int32. */
  function And32(x: int, y: int): uint32 {
    Pow2Values();
    Bitwise(AndBits, ToUint32(x), ToUint32(y), 32)
  }

  /** JavaScript `x | y`, read as an unsigned 32-bit pattern. */
  function Or32(x: int, y: int): uint32 {
    Pow2Values();
    Bitwise(OrBits, ToUint32(x), ToUint32(y), 32)
  }

  /** Exclusive or of two bytes. */
  function XorByte(a: byte, k: byte): byte {
    Pow2Values();
    Bitwise(XorBits, a, k, 8)
  }

  /** XOR of the low `n` bits with the same key twice gives them back. */
  lemma {:induction false} XorBitsSelfInverse(a: nat, k: nat, n: nat)
    requires a < Pow2(n)
    ensures Bitwise(XorBits, Bitwise(XorBits, a, k, n), k, n) == a
  {
    if n > 0 {
      var r := Bitwise(XorBits, a, k, n);
      var r' := Bitwise(XorBits, a / 2, k / 2, n - 1);
      assert r / 2 == r' && r % 2 == CombineBits(XorBits, a % 2, k % 2);
      XorBitsSelfInverse(a / 2, k / 2, n - 1);
    }
  }

  lemma XorByteSelfInverse(a: byte, k: byte)
    ensures XorByte(XorByte(a, k), k) == a
  {
    Pow2Values();
    XorBitsSelfInverse(a, k, 8);
  }

  /** `xor(a, k)` of the bitwise-xor package: byte `i` of the result is
      `a[i] ^ k[i]`, for as many positions as the shorter operand has. */
  function Xor(a: seq<byte>, k: seq<byte>): (r: seq<byte>)
    ensures |r| == Min(|a|, |k|)
    ensures forall i | 0 <= i < |r| :: r[i] == XorByte(a[i], k[i])
  {
    if a == [] || k == [] then [] else [XorByte(a[0], k[0])] + Xor(a[1..], k[1..])
  }

  /** XOR with the same key undoes itself. */
  lemma {:induction false} XorSelfInverse(a: seq<byte>, k: seq<byte>)
    requires |a| <= |k|
    ensures Xor(Xor(a, k), k) == a
  {
    if a != [] {
      XorByteSelfInverse(a[0], k[0]);
      XorSelfInverse(a[1..], k[1..]);
      assert Xor(a, k)[1..] == Xor(a[1..], k[1..]);
    }
  }

  lemma {:induction false} AndZero(a: nat, n: nat)
    ensures Bitwise(AndBits, a, 0, n) == 0
  {
    if n > 0 {
      AndZero(a / 2, n - 1);
    }
  }

  /** An AND never has a bit its mask lacks, so it is at most the mask. */
  lemma {:induction false} AndWithinMask(a: nat, m: nat, n: nat)
    ensures Bitwise(AndBits, a, m, n) <= m
  {
    if n > 0 {
      AndWithinMask(a / 2, m / 2, n - 1);
    }
  }

  /** A mask of `k` low ones keeps the low `k` bits. */
  lemma {:induction false} AndLowOnes(a: nat, k: nat, n: nat)
    requires k <= n
    ensures Bitwise(AndBits, a, Pow2(k) - 1, n) == Low(a, k)
  {
    if k == 0 {
      AndZero(a, n);
    } else {
      assert (Pow2(k) - 1) / 2 == Pow2(k - 1) - 1 && (Pow2(k) - 1) % 2 == 1;
      AndLowOnes(a / 2, k - 1, n - 1);
    }
  }

  lemma {:induction false} LowOfSmall(a: nat, k: nat)
    requires a < Pow2(k)
    ensures Low(a, k) == a
  {
    if k > 0 {
      LowOfSmall(a / 2, k - 1);
    }
  }

  lemma AndEvenMask(a: nat, m: nat, n: nat)
    requires n > 0
    ensures Bitwise(AndBits, a, 2 * m, n) == 2 * Bitwise(AndBits, a / 2, m, n - 1)
  {
    assert (2 * m) / 2 == m && (2 * m) % 2 == 0;
  }

  lemma AndOddMask(a: nat, m: nat, n: nat)
    requires n > 0
    ensures Bitwise(AndBits, a, 2 * m + 1, n) == 2 * Bitwise(AndBits, a / 2, m, n - 1) + a % 2
  {
    assert (2 * m + 1) / 2 == m && (2 * m + 1) % 2 == 1;
  }

  /** A single-bit mask 2^j keeps bit `j` in place. */
  lemma {:induction false} AndSingleBit(a: nat, j: nat, n: nat)
    requires j < n
    ensures Bitwise(AndBits, a, Pow2(j), n) == if Bit(a, j) == 1 then Pow2(j) else 0
  {
    if j == 0 {
      AndZero(a / 2, n - 1);
    } else {
      AndEvenMask(a, Pow2(j - 1), n);
      AndSingleBit(a / 2, j - 1, n - 1);
    }
  }

  lemma {:induction false} OrZero(a: nat, n: nat)
    requires a < Pow2(n)
    ensures Bitwise(OrBits, a, 0, n) == a
  {
    if n > 0 {
      OrZero(a / 2, n - 1);
    }
  }

  /** OR with 1 sets bit 0 of an even number. */
  lemma OrOne(a: nat, n: nat)
    requires n > 0 && a % 2 == 0 && a + 1 < Pow2(n)
    ensures Bitwise(OrBits, a, 1, n) == a + 1
  {
    OrZero(a / 2, n - 1);
  }

  lemma MulAtLeast(d: int, k: int)
    requires d > 0 && k >= 1
    ensures d * k >= d
  {
  }

  /** Quotient and remainder are the only ones with `a == d * q + s`. */
  lemma DivModUnique(a: int, d: int, q: int, s: int)
    requires d > 0 && a == d * q + s && 0 <= s < d
    ensures a / d == q && a % d == s
  {
    var q', s' := a / d, a % d;
    assert a == d * q' + s';
    assert d * (q - q') == s' - s;
    if q > q' {
      MulAtLeast(d, q - q');
    } else if q < q' {
      MulAtLeast(d, q' - q);
    }
  }

  /** Dividing by `2 * c` is halving, then dividing by `c`. */
  lemma DivModDouble(a: nat, c: nat)
    requires c > 0
    ensures a / (2 * c) == (a / 2) / c
    ensures a % (2 * c) == 2 * ((a / 2) % c) + a % 2
  {
    var q := a / 2;
    var bigQ, r := q / c, q % c;
    assert q == c * bigQ + r;
    assert a == (2 * c) * bigQ + (2 * r + a % 2);
    DivModUnique(a, 2 * c, bigQ, 2 * r + a % 2);
  }

  /** Bit `j` is the last binary digit of `a / 2^j`. */
  lemma {:induction false} BitAsDivision(a: nat, j: nat)
    ensures Bit(a, j) == a / Pow2(j) % 2
  {
    if j > 0 {
      BitAsDivision(a / 2, j - 1);
      DivModDouble(a, Pow2(j - 1));
    }
  }

  /** The low `k` bits are the remainder modulo 2^k. */
  lemma {:induction false} LowAsRemainder(a: nat, k: nat)
    ensures Low(a, k) == a % Pow2(k)
  {
    if k > 0 {
      LowAsRemainder(a / 2, k - 1);
      DivModDouble(a, Pow2(k - 1));
    }
  }

  /** `block & 0x80` and `block & 0x40` are both zero exactly when the
      byte is below 0x40. */
  lemma TopBitsClear(block: byte)
    ensures (And32(block, 0x80) == 0 && And32(block, 0x40) == 0) <==> block < 0x40
  {
    Pow2Values();
    assert ToUint32(block) == block && ToUint32(0x80) == Pow2(7) && ToUint32(0x40) == Pow2(6);
    AndSingleBit(block, 7, 32);
    AndSingleBit(block, 6, 32);
    BitAsDivision(block, 7);
    BitAsDivision(block, 6);
  }

  /** `x & 0x0110` keeps exactly bits 4 and 8. */
  lemma AndMethodMask(x: uint32)
    ensures And32(x, 0x0110) == (x / 0x100 % 2) * 0x100 + (x / 0x10 % 2) * 0x10
  {
    Pow2Values();
    assert ToUint32(x) == x && ToUint32(0x0110) == 0x0110;
    var x1 := x / 2;
    var x2 := x1 / 2;
    var x3 := x2 / 2;
    var x4 := x3 / 2;
    AndEvenMask(x, 0x88, 32);
    AndEvenMask(x1, 0x44, 31);
    AndEvenMask(x2, 0x22, 30);
    AndEvenMask(x3, 0x11, 29);
    AndOddMask(x4, 0x08, 28);
    AndSingleBit(x4 / 2, 3, 27);
    BitAsDivision(x4 / 2, 3);
    assert x4 == x / 0x10;
    assert x4 / 2 / 8 == x / 0x100;
  }

  /** `x & 0xff` is the low byte. */
  lemma AndLowByte(x: int)
    ensures And32(x, 0xff) == ToUint32(x) % 0x100
  {
    Pow2Values();
    AndLowOnes(ToUint32(x), 8, 32);
    LowAsRemainder(ToUint32(x), 8);
  }

  /** `x & 0x700` keeps bits 8-10 in place. */
  lemma AndClassMask(x: uint32)
    ensures And32(x, 0x700) == (x / 0x100 % 8) * 0x100
  {
    Pow2Values();
    assert ToUint32(x) == x && ToUint32(0x700) == 0x700;
    var x1 := x / 2;
    var x2 := x1 / 2;
    var x3 := x2 / 2;
    var x4 := x3 / 2;
    var x5 := x4 / 2;
    var x6 := x5 / 2;
    var x7 := x6 / 2;
    var x8 := x7 / 2;
    AndEvenMask(x, 0x380, 32);
    AndEvenMask(x1, 0x1c0, 31);
    AndEvenMask(x2, 0xe0, 30);
    AndEvenMask(x3, 0x70, 29);
    AndEvenMask(x4, 0x38, 28);
    AndEvenMask(x5, 0x1c, 27);
    AndEvenMask(x6, 0x0e, 26);
    AndEvenMask(x7, 0x07, 25);
    AndLowOnes(x8, 3, 24);
    LowAsRemainder(x8, 3);
    assert x8 == x / 0x100;
  }

  lemma ModOfMultiplePlus(q: int, r: int)
    requires 0 <= r < 0x100
    ensures (0x100 * q + r) % 0x100 == r
  {
  }

  /** ToUint32 of a value below 2^33 wraps at most once. */
  lemma WrapOnce(x: int)
    requires 0 <= x < 2 * 0x1_0000_0000
    ensures ToUint32(x) == if x < 0x1_0000_0000 then x else x - 0x1_0000_0000
  {
  }
}
