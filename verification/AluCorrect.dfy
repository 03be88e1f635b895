/** The ALU against the instruction set: what each control code computes, and the
    two places where the hardware departs from it. */
module AluCorrect {
  import opened Words
  import opened Isa
  import opened Rtl

  /** The control code the decoder chooses for an operation. */
  function ControlCode(f: AluOp): bv4 {
    match f
    case Add => 2 case Sub => 6 case Sll => 7 case Slt => 14 case Sltu => 10
    case Xor => 9 case Srl => 3 case Sra => 11 case Or => 1 case And => 0
  }

  lemma DecodesRegisterForm(f: AluOp)
    ensures AluDec(AluAlternate(f), AluFunct3(f), 2) == ControlCode(f)
  {
  }

  /** In immediate forms bit 30 belongs to the immediate, except for shifts. */
  lemma DecodesImmediateForm(f: AluOp, funct7: bv7)
    requires !f.Sub?
    requires f.Srl? || f.Sra? ==> funct7 & 0x20 == AluAlternate(f)
    ensures AluDec(funct7, AluFunct3(f), 3) == ControlCode(f)
  {
  }

  /** Reducing to 65 bits first changes nothing below bit 64. */
  lemma DropCarry(x: int)
    ensures x % (2 * TWO64) % TWO64 == x % TWO64
  {
  }

  /** Numbers that differ by a multiple of 2^32 have the same low half. */
  lemma SameLowHalf(x: int, y: int, k: int)
    requires x == y + k * TWO32
    ensures x % TWO32 == y % TWO32
  {
  }

  /** Reducing to 64 bits first changes nothing below bit 32. */
  lemma DropHighHalf(x: int)
    ensures x % TWO64 % TWO32 == x % TWO32
  {
    SameLowHalf(x, x % TWO64, x / TWO64 * TWO32);
  }

  lemma Alu64(f: AluOp, a: Word, b: Word)
    ensures Alu(a, b, false, ControlCode(f)).result == Compute(f, a, b)
  {
    match f
    case Add => DropCarry(a + b);
    case Sub => DropCarry(a - b);
    case _ =>
  }

  lemma DoubleLowHalf(x: Word)
    ensures 2 * x % TWO64 % TWO32 == 2 * (x % TWO32) % TWO32
  {
    DropHighHalf(2 * x);
    SameLowHalf(2 * x, 2 * (x % TWO32), 2 * (x / TWO32));
  }

  /** Shifting a word left and shifting its low half left agree on the low half. */
  lemma {:induction false} ShlLowHalf(x: Word, n: nat)
    ensures Shl(x, n) % TWO32 == Shl32(x % TWO32, n)
    decreases n
  {
    if n > 0 {
      DoubleLowHalf(x);
      ShlLowHalf(2 * x % TWO64, n - 1);
    }
  }

  /** On a number without sign, arithmetic and logical shifts agree. */
  lemma {:induction false} HalveIsShr(x: Word, n: nat)
    ensures Halve(x, n) == Shr(x, n)
    decreases n
  {
    if n > 0 {
      HalveIsShr(x / 2, n - 1);
    }
  }

  lemma Sext32Cong(x: int, y: int)
    requires x % TWO32 == y % TWO32
    ensures Sext32(x) == Sext32(y)
  {
  }

  /** Sums and differences of low halves, as the ALU forms them. */
  lemma AddSubLowHalf(a: Word, b: Word)
    ensures (a % TWO32 + b % TWO32) % TWO32 == (a + b) % TWO32
    ensures (a % TWO32 - b % TWO32) % TWO32 == (a - b) % TWO32
  {
    SameLowHalf(a + b, a % TWO32 + b % TWO32, a / TWO32 + b / TWO32);
    SameLowHalf(a - b, a % TWO32 - b % TWO32, a / TWO32 - b / TWO32);
  }

  lemma Add32(a: Word, b: Word)
    ensures Sext32(Alu(a % TWO32, b % TWO32, true, 2).result) == Compute32(Add, a, b)
    ensures Sext32(Alu(a % TWO32, b % TWO32, true, 6).result) == Compute32(Sub, a, b)
  {
    var sum, difference := a % TWO32 + b % TWO32, a % TWO32 - b % TWO32;
    DropCarry(sum);
    DropCarry(difference);
    DropHighHalf(sum);
    DropHighHalf(difference);
    AddSubLowHalf(a, b);
    Sext32Cong(sum % TWO64, a + b);
    Sext32Cong(difference % TWO64, a - b);
  }

  lemma LowFive(y: Word)
    ensures y % TWO32 % 32 == y % 32
  {
  }

  /** The arithmetic shifter sees no sign in a zero-extended word. */
  lemma SarIsShr(x: Word, n: nat)
    requires x < TWO32
    ensures Sar(x, n) == Shr(x, n)
  {
    hide Shr, Halve;
    HalveIsShr(x, n);
  }

  /** The three shifters on 32-bit operands. */
  lemma Shifts32(x: Word, y: Word)
    requires x < TWO32
    ensures Alu(x, y % TWO32, true, 7).result == Shl(x, y % 32)
    ensures Alu(x, y % TWO32, true, 3).result == Shr(x, y % 32)
    ensures Alu(x, y % TWO32, true, 11).result == Shr(x, y % 32)
  {
    hide Shl, Shr, Sar, Bits;
    LowFive(y);
    SarIsShr(x, y % 32);
  }

  lemma Sll32(a: Word, b: Word)
    ensures Sext32(Alu(a % TWO32, b % TWO32, true, 7).result) == Compute32(Sll, a, b)
  {
    hide Alu, Shl, Shl32, Sext32;
    var x, n := a % TWO32, b % 32;
    Shifts32(x, b);
    ShlLowHalf(x, n);
    Sext32Cong(Shl(x, n), Shl32(x, n));
  }

  lemma Srl32(a: Word, b: Word)
    ensures Sext32(Alu(a % TWO32, b % TWO32, true, 3).result) == Compute32(Srl, a, b)
  {
    Shifts32(a % TWO32, b);
  }

  /** The 32-bit forms, except arithmetic right shifts. */
  lemma Alu32(f: AluOp, a: Word, b: Word)
    requires f.Add? || f.Sub? || f.Sll? || f.Srl?
    ensures Sext32(Alu(a % TWO32, b % TWO32, true, ControlCode(f)).result) == Compute32(f, a, b)
  {
    if f.Add? || f.Sub? { Add32(a, b); } else if f.Sll? { Sll32(a, b); } else { Srl32(a, b); }
  }

  /** SRAW and SRAIW shift a zero-extended word: they are right exactly when the
      low half is not negative or is not shifted at all. */
  predicate Sra32Holds(a: Word, b: Word) { Signed32(a) >= 0 || b % 32 == 0 }

  /** A shifted word with its top bit gone is not negative; a negative number stays negative. */
  lemma SignsDiffer(x: Word, i: int, n: nat)
    requires x < TWO32 && n > 0 && -0x8000_0000 <= i < 0
    ensures Sext32(Shr(x, n)) != Sext32(Halve(i, n))
  {
    assert Shr(x, n) < 0x8000_0000;
    assert Signed(Sext32(Shr(x, n))) >= 0;
    assert Signed(Sext32(Halve(i, n))) < 0;
  }

  lemma Alu32Sra(a: Word, b: Word)
    ensures Sext32(Alu(a % TWO32, b % TWO32, true, ControlCode(Sra)).result) == Compute32(Sra, a, b)
            <==> Sra32Holds(a, b)
  {
    var x, n := a % TWO32, b % 32;
    Shifts32(x, b);
    HalveIsShr(x, n);
    if Signed32(a) < 0 && n > 0 {
      SignsDiffer(x, Signed32(a), n);
    } else if n == 0 {
      Sext32Cong(x, Signed32(a));
    }
  }

  /** A concrete departure: SRAW of the word 0x8000_0000 by one. */
  lemma Sra32Departs(a: Word, b: Word)
    requires a == 0x8000_0000 && b == 1
    ensures Sext32(Alu(a % TWO32, b % TWO32, true, ControlCode(Sra)).result) != Compute32(Sra, a, b)
  {
    Alu32Sra(a, b);
  }

  // ----- branches -----

  function BranchCode(c: Cond): bv3 {
    match c case Eq => 1 case Ne => 3 case Lt => 5 case Ge => 4 case Ltu => 6 case Geu => 2
  }

  /** The branch unit on the flags of a subtraction. */
  predicate BranchUnit(c: Cond, a: Word, b: Word) {
    var d := Alu(a, b, false, 6);
    Branching(BranchCode(c), d.result == 0, d.result >= 0x8000_0000_0000_0000, d.overflow)
  }

  /** BLT and BGE look at the sign of the wrapped difference only. */
  predicate BranchHolds(c: Cond, a: Word, b: Word) {
    c.Lt? || c.Ge? ==> -0x8000_0000_0000_0000 <= Signed(a) - Signed(b) < 0x8000_0000_0000_0000
  }

  /** What a subtraction puts on the wires. */
  lemma DifferenceFlags(a: Word, b: Word)
    ensures var d := Alu(a, b, false, 6);
      d.result == (if a >= b then a - b else a - b + TWO64) && (d.overflow <==> a < b)
  {
  }

  /** The branch decision is the instruction set's exactly when that difference does not overflow. */
  lemma BranchDecision(c: Cond, a: Word, b: Word)
    ensures BranchUnit(c, a, b) == Taken(c, a, b) <==> BranchHolds(c, a, b)
  {
    hide Alu;
    DifferenceFlags(a, b);
  }

  /** A concrete departure: BLT with the most negative word against one. */
  lemma BranchDeparts(a: Word, b: Word)
    requires a == 0x8000_0000_0000_0000 && b == 1
    ensures BranchUnit(Lt, a, b) != Taken(Lt, a, b)
  {
    BranchDecision(Lt, a, b);
  }
}
