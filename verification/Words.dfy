/** 64-bit machine words as integers below 2^64, and their eight bytes. */
module Words {

  const TWO32: nat := 0x1_0000_0000
  const TWO64: nat := 0x1_0000_0000_0000_0000

  type Word = x: nat | x < TWO64

  /** The two's-complement reading of a word. */
  function Signed(x: Word): (i: int)
    ensures -0x8000_0000_0000_0000 <= i < 0x8000_0000_0000_0000
    ensures i % TWO64 == x
  {
    if x < 0x8000_0000_0000_0000 then x else x - TWO64
  }

  /** The low 32 bits of `x`, read as a signed number. */
  function Signed32(x: int): (i: int)
    ensures -0x8000_0000 <= i < 0x8000_0000
    ensures i % TWO32 == x % TWO32
  {
    if x % TWO32 < 0x8000_0000 then x % TWO32 else x % TWO32 - TWO32
  }

  /** Sign extension of the low 32 bits to a word. */
  function Sext32(x: int): (w: Word)
    ensures Signed(w) == Signed32(x)
  {
    Signed32(x) % TWO64
  }

  /** Sign extension of a 12-bit immediate. */
  function Sext12(imm: bv12): Word {
    if imm < 0x800 then imm as int else TWO64 - 0x1000 + imm as int
  }

  /** Sign extension of a 20-bit immediate. */
  function Sext20(imm: bv20): Word {
    if imm < 0x80000 then imm as int else TWO64 - 0x100000 + imm as int
  }

  /** Shift left, dropping what leaves the word. */
  function Shl(x: Word, n: nat): Word
    decreases n
  {
    if n == 0 then x else Shl(2 * x % TWO64, n - 1)
  }

  /** Logical shift right. */
  function Shr(x: Word, n: nat): (w: Word)
    ensures w <= x
    ensures n > 0 ==> w <= x / 2
    decreases n
  {
    if n == 0 then x else Shr(x / 2, n - 1)
  }

  /** Arithmetic shift right of a signed number: halving rounds down. */
  function Halve(i: int, n: nat): (h: int)
    ensures i >= 0 ==> 0 <= h <= i
    ensures i < 0 ==> i <= h < 0
    decreases n
  {
    if n == 0 then i else Halve(i / 2, n - 1)
  }

  /** Arithmetic shift right. */
  function Sar(x: Word, n: nat): Word { Halve(Signed(x), n) % TWO64 }

  datatype BitOp = BitAnd | BitOr | BitXor

  function Bit(op: BitOp, x: bool, y: bool): bool {
    match op
    case BitAnd => x && y
    case BitOr => x || y
    case BitXor => x != y
  }

  /** The operation on every bit of two numbers. */
  function Bitwise(op: BitOp, x: nat, y: nat): nat
    decreases x + y
  {
    if x == 0 && y == 0 then 0
    else 2 * Bitwise(op, x / 2, y / 2) + if Bit(op, x % 2 == 1, y % 2 == 1) then 1 else 0
  }

  function Bits(op: BitOp, x: Word, y: Word): Word { Bitwise(op, x, y) % TWO64 }

  function Pow2(n: nat): (p: nat)
    ensures p > 0
  {
    if n == 0 then 1 else 2 * Pow2(n - 1)
  }

  lemma Pow2Of64()
    ensures Pow2(64) == TWO64
  {
    assert Pow2(8) == 0x100;
    assert Pow2(16) == 0x10000;
    assert Pow2(24) == 0x100_0000;
    assert Pow2(32) == TWO32;
    assert Pow2(40) == 0x100 * TWO32;
    assert Pow2(48) == 0x10000 * TWO32;
    assert Pow2(56) == 0x100_0000 * TWO32;
  }

  /** Bitwise operations do not lengthen their operands. */
  lemma {:induction false} BitwiseBound(op: BitOp, n: nat, x: nat, y: nat)
    requires x < Pow2(n) && y < Pow2(n)
    ensures Bitwise(op, x, y) < Pow2(n)
  {
    if n > 0 {
      BitwiseBound(op, n - 1, x / 2, y / 2);
    }
  }

  /** Bitwise operations on two words never reach past bit 63. */
  lemma BitsIsBitwise(op: BitOp, x: Word, y: Word)
    ensures Bits(op, x, y) == Bitwise(op, x, y)
  {
    hide Bitwise, Pow2;
    Pow2Of64();
    BitwiseBound(op, 64, x, y);
  }

  lemma {:induction false} BitwiseXorTwice(x: nat, m: nat)
    ensures Bitwise(BitXor, Bitwise(BitXor, x, m), m) == x
    decreases x + m
  {
    if x != 0 || m != 0 {
      BitwiseXorTwice(x / 2, m / 2);
    }
  }

  lemma {:induction false} BitwiseXorZero(x: nat)
    ensures Bitwise(BitXor, x, 0) == x
  {
    if x != 0 {
      BitwiseXorZero(x / 2);
    }
  }

  /** The halves and the last bit of an exclusive or. */
  lemma BitwiseXorHalves(x: nat, y: nat)
    ensures var z := Bitwise(BitXor, x, y);
      z / 2 == Bitwise(BitXor, x / 2, y / 2) && (z % 2 == 1 <==> x % 2 != y % 2)
  {
  }

  lemma {:induction false} BitwiseXorAssociative(x: nat, y: nat, z: nat)
    ensures Bitwise(BitXor, Bitwise(BitXor, x, y), z) == Bitwise(BitXor, x, Bitwise(BitXor, y, z))
    decreases x + y + z
  {
    if x + y + z > 0 {
      BitwiseXorAssociative(x / 2, y / 2, z / 2);
      BitwiseXorHalves(x, y);
      BitwiseXorHalves(y, z);
      BitwiseXorHalves(Bitwise(BitXor, x, y), z);
      BitwiseXorHalves(x, Bitwise(BitXor, y, z));
      hide Bitwise;
      Halves(Bitwise(BitXor, Bitwise(BitXor, x, y), z), Bitwise(BitXor, x, Bitwise(BitXor, y, z)));
    }
  }

  lemma Halves(x: nat, y: nat)
    requires x / 2 == y / 2 && (x % 2 == 1 <==> y % 2 == 1)
    ensures x == y
  {
  }

  /** Flipping the same bits twice restores a word. */
  lemma XorTwice(x: Word, m: Word)
    ensures Bits(BitXor, Bits(BitXor, x, m), m) == x
  {
    hide Bitwise, Bits;
    BitsIsBitwise(BitXor, x, m);
    BitsIsBitwise(BitXor, Bits(BitXor, x, m), m);
    BitwiseXorTwice(x, m);
  }

  lemma XorZero(x: Word)
    ensures Bits(BitXor, x, 0) == x
  {
    hide Bitwise, Bits;
    BitsIsBitwise(BitXor, x, 0);
    BitwiseXorZero(x);
  }

  /** Two flips are one flip with the masks combined. */
  lemma XorAssociative(x: Word, m: Word, n: Word)
    ensures Bits(BitXor, Bits(BitXor, x, m), n) == Bits(BitXor, x, Bits(BitXor, m, n))
  {
    hide Bitwise, Bits;
    BitsIsBitwise(BitXor, x, m);
    BitsIsBitwise(BitXor, m, n);
    BitsIsBitwise(BitXor, Bits(BitXor, x, m), n);
    BitsIsBitwise(BitXor, x, Bits(BitXor, m, n));
    BitwiseXorAssociative(x, m, n);
  }

  // ----- bytes -----

  type Byte = b: nat | b < 0x100

  /** The low `n` bytes of a number, least significant first. */
  function LowBytes(x: nat, n: nat): (bytes: seq<Byte>)
    ensures |bytes| == n
  {
    if n == 0 then [] else [x % 0x100] + LowBytes(x / 0x100, n - 1)
  }

  /** The number that bytes spell, least significant first. */
  function Value(bytes: seq<Byte>): (x: nat)
    ensures x < Pow256(|bytes|)
  {
    if bytes == [] then 0 else bytes[0] + 0x100 * Value(bytes[1..])
  }

  function Pow256(n: nat): (p: nat)
    ensures p > 0
  {
    if n == 0 then 1 else 0x100 * Pow256(n - 1)
  }

  lemma Pow256Of8()
    ensures Pow256(1) == 0x100 && Pow256(2) == 0x10000 && Pow256(4) == TWO32 && Pow256(8) == TWO64
  {
    assert Pow256(3) == 0x1000000;
    assert Pow256(5) == 0x100 * TWO32;
    assert Pow256(6) == 0x10000 * TWO32;
    assert Pow256(7) == 0x1000000 * TWO32;
  }

  lemma {:induction false} ValueOfLowBytes(x: nat, n: nat)
    requires x < Pow256(n)
    ensures Value(LowBytes(x, n)) == x
  {
    if n > 0 {
      assert LowBytes(x, n)[1..] == LowBytes(x / 0x100, n - 1);
      ValueOfLowBytes(x / 0x100, n - 1);
    }
  }

  lemma {:induction false} LowBytesOfValue(bytes: seq<Byte>)
    ensures LowBytes(Value(bytes), |bytes|) == bytes
  {
    if bytes != [] {
      var rest := Value(bytes[1..]);
      LowBytesOfValue(bytes[1..]);
      assert Value(bytes) / 0x100 == rest && Value(bytes) % 0x100 == bytes[0];
    }
  }

  /** A 64-bit datum as its eight bytes. */
  type Lanes = l: seq<Byte> | |l| == 8 witness [0, 0, 0, 0, 0, 0, 0, 0]

  function ToLanes(x: Word): Lanes { LowBytes(x, 8) }

  function FromLanes(l: Lanes): Word { Value(l) % TWO64 }

  /** The eight bytes and the word determine each other. */
  lemma LanesRoundTrip(x: Word, l: Lanes)
    ensures FromLanes(ToLanes(x)) == x && ToLanes(FromLanes(l)) == l
  {
    hide Value, LowBytes, Pow256;
    Pow256Of8();
    ValueOfLowBytes(x, 8);
    LowBytesOfValue(l);
  }
}
