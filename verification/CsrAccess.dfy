/** The instructions that read and change control and status registers, bit by bit. */
module CsrAccess {
  import opened Words
  import opened Isa
  import opened Rtl
  import opened Core
  import opened Decoding

  /** Write, set and clear; the operand is a register or five immediate bits. */
  datatype CsrOp = Rw | Rs | Rc

  datatype CsrInstr = CsrInstr(op: CsrOp, immediate: bool, rd: Reg, src: bv5, csr: bv12)

  function CsrFunct3(op: CsrOp, immediate: bool): bv3 {
    match op
    case Rw => if immediate then 5 else 1
    case Rs => if immediate then 6 else 2
    case Rc => if immediate then 7 else 3
  }

  function Encoded(i: CsrInstr): bv32 { IType(i.csr, i.src, CsrFunct3(i.op, i.immediate), i.rd, 0x73) }

  // ----- meaning -----

  predicate TestBit(x: nat, k: nat) { if k == 0 then x % 2 == 1 else TestBit(x / 2, k - 1) }

  /** What becomes of one bit of the register (chapter 9 of the RISC-V Unprivileged ISA). */
  predicate UpdatedBit(op: CsrOp, was: bool, operand: bool) {
    match op
    case Rw => operand
    case Rs => was || operand
    case Rc => was && !operand
  }

  /** The operand: immediates are zero-extended. */
  function Operand(i: CsrInstr, regs: Regs): Word { if i.immediate then i.src as int else Read(regs, i.src) }

  /** The operand that reaches the hardware: immediates are sign-extended. */
  function WiredOperand(i: CsrInstr, regs: Regs): Word {
    if i.immediate && i.src >= 0x10 then TWO64 - 0x20 + i.src as int else Operand(i, regs)
  }

  /** The immediates of the hardware are the instruction set's exactly below sixteen. */
  lemma OperandIff(i: CsrInstr, regs: Regs)
    ensures WiredOperand(i, regs) == Operand(i, regs) <==> !(i.immediate && i.src >= 0x10)
  {
  }

  // ----- bits -----

  lemma TestBitHalves(x: nat, k: nat)
    requires k > 0
    ensures TestBit(x, k) == TestBit(x / 2, k - 1)
  {
  }

  lemma {:induction false} BitwiseBit(op: BitOp, x: nat, y: nat, k: nat)
    ensures TestBit(Bitwise(op, x, y), k) == Bit(op, TestBit(x, k), TestBit(y, k))
    decreases k
  {
    BitwiseHalves(op, x, y);
    if k > 0 {
      hide Bitwise, TestBit;
      TestBitHalves(x, k);
      TestBitHalves(y, k);
      TestBitHalves(Bitwise(op, x, y), k);
      BitwiseBit(op, x / 2, y / 2, k - 1);
    }
  }

  lemma BitwiseHalves(op: BitOp, x: nat, y: nat)
    ensures var z := Bitwise(op, x, y);
      z / 2 == Bitwise(op, x / 2, y / 2) && (z % 2 == 1 <==> Bit(op, x % 2 == 1, y % 2 == 1))
  {
  }

  lemma {:induction false} ComplementBit(n: nat, x: nat, k: nat)
    requires x < Pow2(n) && k < n
    ensures TestBit(Pow2(n) - 1 - x, k) == !TestBit(x, k)
    decreases n
  {
    var p, y := Pow2(n - 1), Pow2(n) - 1 - x;
    assert y / 2 == p - 1 - x / 2 && (y % 2 == 1 <==> x % 2 != 1);
    if k > 0 {
      hide TestBit;
      TestBitHalves(x, k);
      TestBitHalves(y, k);
      ComplementBit(n - 1, x / 2, k - 1);
    } else {
      assert Pow2(0) == 1;
    }
  }

  function UpdateCode(op: CsrOp): bv4 { match op case Rw => 0 case Rs => 1 case Rc => 3 }

  /** The atomic unit hands out the old value and updates every bit as the instruction says. */
  lemma AtomUpdates(op: CsrOp, operand: Word, was: Word, k: nat)
    requires k < 64
    ensures var (result, csrIn) := AtomAlu(operand, was, UpdateCode(op));
      result == was && TestBit(csrIn, k) == UpdatedBit(op, TestBit(was, k), TestBit(operand, k))
  {
    hide TestBit, AtomAlu;
    match op
    case Rw => AtomWrites(operand, was);
    case Rs => AtomSets(operand, was, k);
    case Rc => AtomClears(operand, was, TWO64 - 1 - operand, k);
  }

  lemma AtomWrites(operand: Word, was: Word)
    ensures AtomAlu(operand, was, 0) == (was, operand)
  {
  }

  lemma AtomSets(operand: Word, was: Word, k: nat)
    ensures var (result, csrIn) := AtomAlu(operand, was, 1);
      result == was && TestBit(csrIn, k) == (TestBit(was, k) || TestBit(operand, k))
  {
    hide TestBit, Bits;
    BitsBit(BitOr, operand, was, k);
  }

  lemma AtomClears(operand: Word, was: Word, complement: Word, k: nat)
    requires k < 64 && complement == TWO64 - 1 - operand
    ensures var (result, csrIn) := AtomAlu(operand, was, 3);
      result == was && TestBit(csrIn, k) == (TestBit(was, k) && !TestBit(operand, k))
  {
    hide TestBit, Bits;
    ComplementOfWord(operand, k);
    BitsBit(BitAnd, complement, was, k);
  }

  lemma BitsBit(op: BitOp, x: Word, y: Word, k: nat)
    ensures TestBit(Bits(op, x, y), k) == Bit(op, TestBit(x, k), TestBit(y, k))
  {
    hide TestBit, Bitwise, Bits;
    BitsIsBitwise(op, x, y);
    BitwiseBit(op, x, y, k);
  }

  lemma ComplementOfWord(x: Word, k: nat)
    requires k < 64
    ensures TestBit(TWO64 - 1 - x, k) == !TestBit(x, k)
  {
    hide TestBit, Pow2;
    Pow2Of64();
    ComplementBit(64, x, k);
  }

  // ----- the clock -----

  lemma CsrFields(i: CsrInstr)
    ensures var w := Encoded(i);
      && Opcode(w) == 0x73 && RdField(w) == i.rd && Rs1Field(w) == i.src && ImmField(w) == i.csr
      && Funct3Field(w) == CsrFunct3(i.op, i.immediate)
      && ((w >> 15) & 0x1f) as int == i.src as int
  {
    ITypeFields(i.csr, i.src, CsrFunct3(i.op, i.immediate), i.rd, 0x73);
    hide CsrFunct3, IType;
    var w := Encoded(i);
    assert ((w >> 15) & 0x1f) as bv5 == i.src;
    SmallField((w >> 15) & 0x1f);
  }

  lemma SmallField(x: bv32)
    requires x <= 0x1f
    ensures (x as bv5) as int == x as int
  {
  }

  lemma CsrImmediate(i: CsrInstr, regs: Regs)
    requires i.immediate
    ensures Signext(Encoded(i)) == WiredOperand(i, regs)
  {
    CsrFields(i);
    SmallSource(i.src);
    hide Encoded, Opcode, RdField, Rs1Field, ImmField, Funct3Field, CsrFunct3;
  }

  lemma SmallSource(src: bv5)
    ensures src < 0x10 <==> src as int < 0x10
  {
  }

  const CSR_FORM: Control := Signal(3, 0, 0, 0, 1, 0, 0, 0, 0, 2)
  const CSR_IMMEDIATE_FORM: Control := Signal(3, 0, 0, 0, 5, 0, 0, 0, 0, 2)

  lemma DecodesCsr(i: CsrInstr)
    ensures var d := Decode(Encoded(i), false);
      && d.c == (if i.immediate then CSR_IMMEDIATE_FORM else CSR_FORM) && d.aluControl == UpdateCode(i.op)
      && d.rd == i.rd && d.rs1 == i.src && d.csrAddr == i.csr && !d.jalr && d.imm == Signext(Encoded(i))
  {
    CsrFields(i);
    hide Encoded, Opcode, RdField, Rs1Field, ImmField, Funct3Field, Funct7Field, Rs2Field, Signext, AluDec;
  }

  /** What a running core's wires carry for such an instruction. */
  lemma CsrWires(rom: Rom, s: State, p: Port, i: CsrInstr)
    requires Fetch(rom, s.pc) == Encoded(i) && !Stalled(s, p)
    ensures var w := WiresOf(rom, s, p);
      var atom := AtomAlu(WiredOperand(i, s.regs), CsrRead(s, i.csr), UpdateCode(i.op));
      && w.writeBack == atom.0 && w.ex.csrIn == atom.1 && w.rd == i.rd && w.csrAddr == i.csr
      && w.c == (if i.immediate then CSR_IMMEDIATE_FORM else CSR_FORM)
      && !w.branchTaken && !Exception(w)
  {
    hide Decode, Encoded, AtomAlu, CsrRead, Alu, Fetch, AlignDetect, MemReadMask;
    DecodesCsr(i);
    if i.immediate {
      CsrImmediate(i, s.regs);
    }
  }

  /** One clock of a running core at such an instruction: the register gets the old value;
      mstatus and mtvec take the updated bits where they are writable; the program counter
      moves on and nothing else changes. */
  lemma CsrClock(rom: Rom, s: State, p: Port, i: CsrInstr)
    requires Fetch(rom, s.pc) == Encoded(i) && !Stalled(s, p) && !p.reset
    ensures var t, put := Next(rom, s, p), AtomAlu(WiredOperand(i, s.regs), CsrRead(s, i.csr), UpdateCode(i.op)).1;
      && t.pc == (s.pc + 4) % TWO64 && t.regs == Write(s.regs, i.rd, CsrRead(s, i.csr))
      && t.ram == s.ram && t.q == s.q && t.mode == s.mode && t.mcause == s.mcause && t.mepc == s.mepc
      && t.mstatus == (if i.csr == 0x300 then
                         s.mstatus.(mpp := put / 0x800 % 4, mpie := put / 0x80 % 2 == 1, mie := put / 8 % 2 == 1)
                       else s.mstatus)
      && t.mtvec == if i.csr == 0x305 then Merged(s.mtvec, put) else s.mtvec
  {
    AtomUpdates(i.op, WiredOperand(i, s.regs), CsrRead(s, i.csr), 0);
    hide WiresOf, AtomAlu, CsrRead, Write, Fetch, Cause;
    CsrWires(rom, s, p, i);
  }

  /** Bits 23 to 2 of `put`, all others of `was`. */
  function Merged(was: Word, put: Word): Word {
    (was - was % 0x1000000) + was % 4 + (put % 0x1000000 - put % 4)
  }

  lemma PowersHere()
    ensures Pow2(2) == 4 && Pow2(3) == 8 && Pow2(7) == 0x80 && Pow2(11) == 0x800 && Pow2(12) == 0x1000
    ensures Pow2(22) == 0x40_0000 && Pow2(24) == 0x100_0000
  {
    assert Pow2(5) == 0x20 && Pow2(9) == 0x200 && Pow2(15) == 0x8000 && Pow2(18) == 0x4_0000 && Pow2(20) == 0x10_0000;
  }

  /** The bits of a number put together from a high and a low part. */
  lemma {:induction false} SplitBit(n: nat, high: nat, low: nat, k: nat)
    requires low < Pow2(n)
    ensures TestBit(high * Pow2(n) + low, k) == if k < n then TestBit(low, k) else TestBit(high, k - n)
    decreases n
  {
    if n > 0 {
      var p, x := Pow2(n - 1), high * Pow2(n) + low;
      assert high * Pow2(n) == 2 * (high * p);
      assert x / 2 == high * p + low / 2 && x % 2 == low % 2;
      if k > 0 {
        hide TestBit;
        TestBitHalves(x, k);
        if k < n {
          TestBitHalves(low, k);
        }
        SplitBit(n - 1, high, low / 2, k - 1);
      } else {
        assert Pow2(0) == 1;
      }
    } else {
      assert Pow2(0) == 1;
    }
  }

  lemma MergedBits(was: Word, put: Word, k: nat)
    requires k < 64
    ensures TestBit(Merged(was, put), k) == if 2 <= k < 24 then TestBit(put, k) else TestBit(was, k)
  {
    PowersHere();
    hide TestBit, Pow2;
    BitsOfParts(was, k);
    BitsOfParts(put, k);
    var merged := Merged(was, put);
    PartsOfMerged(was, put);
    BitsOfParts(merged, k);
  }

  /** A word in three parts. */
  lemma BitsOfParts(x: Word, k: nat)
    ensures var high, middle, low := x / 0x1000000, x / 4 % 0x400000, x % 4;
      TestBit(x, k) == if k < 2 then TestBit(low, k) else if k < 24 then TestBit(middle, k - 2) else TestBit(high, k - 24)
  {
    PowersHere();
    hide TestBit, Pow2;
    SplitBit(2, x / 4, x % 4, k);
    if k >= 2 {
      assert x / 4 == (x / 0x1000000) * 0x400000 + x / 4 % 0x400000;
      SplitBit(22, x / 0x1000000, x / 4 % 0x400000, k - 2);
    }
  }

  lemma PartsOfMerged(was: Word, put: Word)
    ensures var m := Merged(was, put);
      m / 0x1000000 == was / 0x1000000 && m / 4 % 0x400000 == put / 4 % 0x400000 && m % 4 == was % 4
  {
    var middle := put / 4 % 0x400000;
    assert put % 0x1000000 == 4 * middle + put % 4;
    assert Merged(was, put) == 0x1000000 * (was / 0x1000000) + 4 * middle + was % 4;
  }

  // ----- mstatus -----

  /** Each field in its bits. */
  predicate MstatusFits(m: Mstatus) {
    m.above < 0x8_0000_0000_0000 && m.mpp < 4 && m.bits10to8 < 8 && m.bits6to4 < 8 && m.bits2to0 < 8
  }

  lemma MstatusParts(m: Mstatus)
    requires MstatusFits(m)
    ensures var x := MstatusWord(m);
      && (x / 8 % 2 == 1 <==> m.mie) && (x / 0x80 % 2 == 1 <==> m.mpie) && x / 0x800 % 4 == m.mpp
  {
    hide MstatusWord;
    var mpie, mie := if m.mpie then 1 else 0, if m.mie then 1 else 0;
    WordInLayers(m, mpie, mie);
    Layers(m.above, m.mpp, m.bits10to8, mpie, m.bits6to4, mie, m.bits2to0, MstatusWord(m));
  }

  lemma WordInLayers(m: Mstatus, mpie: nat, mie: nat)
    requires MstatusFits(m) && mpie == (if m.mpie then 1 else 0) && mie == if m.mie then 1 else 0
    ensures MstatusWord(m)
            == m.above * 0x2000 + m.mpp * 0x800 + m.bits10to8 * 0x100 + mpie * 0x80 + m.bits6to4 * 0x10 + mie * 8 + m.bits2to0
  {
  }

  lemma Layers(above: nat, mpp: nat, c: nat, mpie: nat, b: nat, mie: nat, a: nat, word: Word)
    requires above < 0x8_0000_0000_0000 && mpp < 4 && c < 8 && mpie < 2 && b < 8 && mie < 2 && a < 8
    requires word == above * 0x2000 + mpp * 0x800 + c * 0x100 + mpie * 0x80 + b * 0x10 + mie * 8 + a
    ensures word / 8 % 2 == mie && word / 0x80 % 2 == mpie && word / 0x800 % 4 == mpp
  {
    var top := above * 4 + mpp;
    var middle := top * 16 + c * 2 + mpie;
    var low := middle * 16 + b * 2 + mie;
    assert word == low * 8 + a;
    Layers8(word, low, a);
    Layers80(word, middle, b * 0x10 + mie * 8 + a);
    Layers800(word, top, c * 0x100 + mpie * 0x80 + b * 0x10 + mie * 8 + a);
  }

  lemma Layers8(x: nat, q: nat, r: nat)
    requires x == q * 8 + r && r < 8
    ensures x / 8 == q
  {
  }

  lemma Layers80(x: nat, q: nat, r: nat)
    requires x == q * 0x80 + r && r < 0x80
    ensures x / 0x80 == q
  {
  }

  lemma Layers800(x: nat, q: nat, r: nat)
    requires x == q * 0x800 + r && r < 0x800
    ensures x / 0x800 == q
  {
  }

  /** The four bits by division. */
  lemma BitsByDivision(x: nat)
    ensures TestBit(x, 3) <==> x / 8 % 2 == 1
    ensures TestBit(x, 7) <==> x / 0x80 % 2 == 1
    ensures TestBit(x, 11) <==> x / 0x800 % 2 == 1
    ensures TestBit(x, 12) <==> x / 0x1000 % 2 == 1
  {
    ThreeDown(x, 3);
    FourDown(x / 8, 4);
    FourDown(x / 0x80, 4);
    FourDown(x, 7);
    FourDown(x, 11);
    FourDown(x, 12);
    FourDown(x / 0x10, 7);
    FourDown(x / 0x10, 8);
    FourDown(x / 0x100, 4);
    ThreeDown(x / 0x10, 3);
    ThreeDown(x / 0x100, 3);
    assert x / 0x10 / 8 == x / 0x80 && x / 0x10 / 0x10 == x / 0x100 && x / 0x100 / 8 == x / 0x800 && x / 0x100 / 0x10 == x / 0x1000;
  }

  lemma ThreeDown(x: nat, k: nat)
    requires k >= 3
    ensures TestBit(x, k) == TestBit(x / 8, k - 3)
  {
    TestBitHalves(x, k);
    TestBitHalves(x / 2, k - 1);
    TestBitHalves(x / 4, k - 2);
    hide TestBit;
    assert x / 2 / 2 == x / 4 && x / 4 / 2 == x / 8;
  }

  lemma FourDown(x: nat, k: nat)
    requires k >= 4
    ensures TestBit(x, k) == TestBit(x / 0x10, k - 4)
  {
    ThreeDown(x, k);
    TestBitHalves(x / 8, k - 3);
    hide TestBit;
    assert x / 8 / 2 == x / 0x10;
  }

  /** MIE, MPIE and MPP after such an instruction on mstatus, from their bits before and
      those of the operand. */
  lemma MstatusUpdated(rom: Rom, s: State, p: Port, i: CsrInstr)
    requires Fetch(rom, s.pc) == Encoded(i) && !Stalled(s, p) && !p.reset && i.csr == 0x300 && MstatusFits(s.mstatus)
    ensures var t, x := Next(rom, s, p).mstatus, WiredOperand(i, s.regs);
      && t.mie == UpdatedBit(i.op, s.mstatus.mie, TestBit(x, 3))
      && t.mpie == UpdatedBit(i.op, s.mstatus.mpie, TestBit(x, 7))
      && (t.mpp % 2 == 1) == UpdatedBit(i.op, s.mstatus.mpp % 2 == 1, TestBit(x, 11))
      && (t.mpp / 2 == 1) == UpdatedBit(i.op, s.mstatus.mpp / 2 == 1, TestBit(x, 12))
      && t.mpp < 4 && t == s.mstatus.(mpp := t.mpp, mpie := t.mpie, mie := t.mie)
  {
    hide Next, AtomAlu, Fetch, Encoded, TestBit, UpdatedBit, MstatusWord, WiredOperand, MstatusFits;
    var was, x := MstatusWord(s.mstatus), WiredOperand(i, s.regs);
    MstatusParts(s.mstatus);
    CsrClock(rom, s, p, i);
    AtomUpdates(i.op, x, was, 3);
    AtomUpdates(i.op, x, was, 7);
    AtomUpdates(i.op, x, was, 11);
    AtomUpdates(i.op, x, was, 12);
    BitsByDivision(was);
    BitsByDivision(AtomAlu(x, was, UpdateCode(i.op)).1);
    TwoBits(was);
    TwoBits(AtomAlu(x, was, UpdateCode(i.op)).1);
  }

  lemma TwoBits(x: nat)
    ensures (x / 0x800 % 4 % 2 == 1 <==> x / 0x800 % 2 == 1) && (x / 0x800 % 4 / 2 == 1 <==> x / 0x1000 % 2 == 1)
  {
    assert x / 0x1000 == x / 0x800 / 2;
    TwoLowBits(x / 0x800);
  }

  lemma TwoLowBits(y: nat)
    ensures y % 4 % 2 == y % 2 && y % 4 / 2 == y / 2 % 2
  {
    var q, r := y / 4, y % 4;
    LastBit(2 * q + r / 2, r % 2, y);
    LastBit(q, r / 2, y / 2);
  }

  lemma LastBit(q: nat, c: nat, y: nat)
    requires y == 2 * q + c && c < 2
    ensures y % 2 == c && y / 2 == q
  {
  }

  /** The instruction `csrsi mstatus, 8`: exceptions are enabled, and nothing else of
      mstatus changes. */
  lemma ExceptionsEnabled(rom: Rom, s: State, p: Port)
    requires Fetch(rom, s.pc) == 0x3004_6073 && !Stalled(s, p) && !p.reset && MstatusFits(s.mstatus)
    ensures Next(rom, s, p).mstatus == s.mstatus.(mie := true)
  {
    var i := CsrInstr(Rs, true, 0, 8, 0x300);
    EnablingWord(i, s.regs);
    EightHasBitThree();
    hide Next, Fetch, Encoded, MstatusFits, TestBit, WiredOperand;
    MstatusUpdated(rom, s, p, i);
    var t := Next(rom, s, p).mstatus;
    assert t.mpp == s.mstatus.mpp by {
      SameTwoBits(t.mpp, s.mstatus.mpp);
    }
  }

  lemma SameTwoBits(x: nat, y: nat)
    requires x < 4 && y < 4 && (x % 2 == 1) == (y % 2 == 1) && (x / 2 == 1) == (y / 2 == 1)
    ensures x == y
  {
  }

  lemma EnablingWord(i: CsrInstr, regs: Regs)
    requires i == CsrInstr(Rs, true, 0, 8, 0x300)
    ensures Encoded(i) == 0x3004_6073 && WiredOperand(i, regs) == 8
  {
  }

  lemma EightHasBitThree()
    ensures TestBit(8, 3) && !TestBit(8, 7) && !TestBit(8, 11) && !TestBit(8, 12)
  {
    BitsByDivision(8);
  }

  /** For instance `csrwi mstatus, 24`, whose operand has no bit above the fourth: it sets
      MPIE too. */
  lemma ImmediateDeparts(rom: Rom, s: State, p: Port, i: CsrInstr)
    requires i == CsrInstr(Rw, true, 0, 24, 0x300)
    requires Fetch(rom, s.pc) == Encoded(i) && !Stalled(s, p) && !p.reset && MstatusFits(s.mstatus)
    ensures Next(rom, s, p).mstatus.mpie && !UpdatedBit(i.op, s.mstatus.mpie, TestBit(Operand(i, s.regs), 7))
  {
    hide Next, Fetch, Encoded, MstatusFits, TestBit, WiredOperand, Operand;
    TwentyFour(i, s.regs);
    MstatusUpdated(rom, s, p, i);
  }

  lemma TwentyFour(i: CsrInstr, regs: Regs)
    requires i == CsrInstr(Rw, true, 0, 24, 0x300)
    ensures !TestBit(Operand(i, regs), 7) && TestBit(WiredOperand(i, regs), 7)
  {
    assert Operand(i, regs) == 24 && WiredOperand(i, regs) == TWO64 - 8;
    hide TestBit;
    BitsByDivision(24);
    BitsByDivision(TWO64 - 8);
  }

  /** mtvec after such an instruction, bit by bit. */
  lemma MtvecUpdated(rom: Rom, s: State, p: Port, i: CsrInstr, k: nat)
    requires Fetch(rom, s.pc) == Encoded(i) && !Stalled(s, p) && !p.reset && i.csr == 0x305 && k < 64
    ensures TestBit(Next(rom, s, p).mtvec, k)
            == if 2 <= k < 24 then UpdatedBit(i.op, TestBit(s.mtvec, k), TestBit(WiredOperand(i, s.regs), k))
               else TestBit(s.mtvec, k)
  {
    hide Next, AtomAlu, Fetch, Encoded, Merged, TestBit, UpdatedBit, WiredOperand;
    CsrClock(rom, s, p, i);
    AtomUpdates(i.op, WiredOperand(i, s.regs), s.mtvec, k);
    MergedBits(s.mtvec, AtomAlu(WiredOperand(i, s.regs), s.mtvec, UpdateCode(i.op)).1, k);
  }

  /** What the exception handler reads: `csrr t0, mcause` and `csrr t1, mepc` leave the cause
      and the address that the last trap has saved. */
  lemma HandlerReads(rom: Rom, s: State, p: Port)
    requires !Stalled(s, p) && !p.reset
    ensures Fetch(rom, s.pc) == 0x3420_22f3 ==> Next(rom, s, p).regs == Write(s.regs, 5, s.mcause)
    ensures Fetch(rom, s.pc) == 0x3410_2373 ==> Next(rom, s, p).regs == Write(s.regs, 6, s.mepc)
  {
    var cause, epc := CsrInstr(Rs, false, 5, 0, 0x342), CsrInstr(Rs, false, 6, 0, 0x341);
    HandlerWords(cause, epc);
    hide Next, Fetch, Encoded;
    if Fetch(rom, s.pc) == 0x3420_22f3 {
      CsrClock(rom, s, p, cause);
    } else if Fetch(rom, s.pc) == 0x3410_2373 {
      CsrClock(rom, s, p, epc);
    }
  }

  /** What the numbers stand for: a 64-bit machine with user mode and the base integer set
      alone, the registers of the trap unit, and the cycle counter. */
  lemma CsrNumbers(s: State)
    ensures CsrRead(s, 0x301) == 2 * 0x4000_0000_0000_0000 + 0x10_0000 + 0x100
    ensures CsrRead(s, 0x300) == MstatusWord(s.mstatus) && CsrRead(s, 0x305) == s.mtvec
    ensures CsrRead(s, 0x341) == s.mepc && CsrRead(s, 0x342) == s.mcause && CsrRead(s, 0xc00) == s.cycles
    ensures forall addr: bv12 :: addr !in {0x301, 0x300, 0x305, 0x341, 0x342, 0xc00} ==> CsrRead(s, addr) == 0
  {
  }

  lemma HandlerWords(cause: CsrInstr, epc: CsrInstr)
    requires cause == CsrInstr(Rs, false, 5, 0, 0x342) && epc == CsrInstr(Rs, false, 6, 0, 0x341)
    ensures Encoded(cause) == 0x3420_22f3 && Encoded(epc) == 0x3410_2373
  {
  }

  /** No clock takes a field of mstatus out of its bits, or the mode out of its two. */
  lemma MstatusStaysFit(rom: Rom, s: State, p: Port)
    requires MstatusFits(s.mstatus) && s.mode < 4
    ensures MstatusFits(Next(rom, s, p).mstatus) && Next(rom, s, p).mode < 4
  {
    hide WiresOf, NextRegs, NextRam, NextQ, NextPcReg, NextMtvec, Cause, Trap, Stalled;
  }
}
