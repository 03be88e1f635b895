/** One clock cycle of the core executes one instruction of the instruction set. */
module CoreIsa {
  import opened Words
  import opened Isa
  import opened Rtl
  import opened Core
  import opened Decoding
  import opened AluCorrect
  import opened ByteMemory

  function EffectiveAddress(s: State, i: Instr): Word
    requires i.Load? || i.Store?
  {
    Address(s.regs, i.rs1, i.imm)
  }

  // ----- what a clock does -----

  /** What the core writes back: the instruction set's result, except that the 32-bit
      register forms and shifts go through the 64-bit ALU, and that a load finds what the
      RAM's output register presents. */
  function CoreResult(i: Instr, pc: Word, regs: Regs, q: Lanes): Word
    requires Encodable(i)
  {
    match i
    case Op32(f, _, rs1, rs2) => AluResult32(f, Read(regs, rs1), Read(regs, rs2))
    case ShiftImm32(f, _, rs1, shamt) => AluResult32(f, Read(regs, rs1), shamt as int)
    case Load(w, unsigned, _, rs1, imm) =>
      FromLanes(MemReadMask(q, !unsigned, WidthCode(w), Address(regs, rs1, imm) % 8))
    case _ => Result(i, pc, regs, 0)
  }

  function AluResult32(f: AluOp, a: Word, b: Word): Word {
    Sext32(Alu(a % TWO32, b % TWO32, true, ControlCode(f)).result)
  }

  function CorePc(i: Instr, pc: Word, regs: Regs): Word {
    match i
    case Branch(c, rs1, rs2, half) =>
      if BranchUnit(c, Read(regs, rs1), Read(regs, rs2)) then (pc + 2 * Sext12(half)) % TWO64 else (pc + 4) % TWO64
    case _ => NextPc(i, pc, regs)
  }

  function CoreRam(i: Instr, regs: Regs, ram: Ram): Ram {
    if i.Store? then
      var a := Address(regs, i.rs1, i.imm);
      ram[a / 8 % 4096 := RamWrite(ram[a / 8 % 4096], ToLanes(Read(regs, i.rs2)), WidthCode(i.w), a % 8)]
    else ram
  }

  /** The state after a clock that executes `i` and takes no trap. */
  function CoreNext(s: State, i: Instr): State
    requires Encodable(i)
  {
    s.(pc := CorePc(i, s.pc, s.regs),
       regs := Write(s.regs, Dest(i), CoreResult(i, s.pc, s.regs, s.q)),
       ram := CoreRam(i, s.regs, s.ram),
       q := if i.Load? then s.ram[EffectiveAddress(s, i) / 8 % 4096] else s.q,
       cycles := (s.cycles + 1) % TWO64,
       stallAt := 0)
  }

  /** The instruction memory holds `i` at the pc. */
  predicate At(rom: Rom, s: State, i: Instr) {
    Encodable(i) && Fetch(rom, s.pc) == Encode(i)
  }

  /** The state after an instruction that writes a register and sets the pc. */
  function After(s: State, rd: Reg, v: Word, pc: Word): State {
    s.(pc := pc, regs := Write(s.regs, rd, v), cycles := (s.cycles + 1) % TWO64, stallAt := 0)
  }

  /** The cycle in which the core executes `i`. */
  function Cycle(s: State, i: Instr): State
    requires Encodable(i)
  {
    Edge(s, Decode(Encode(i), false))
  }

  function Edge(s: State, d: Decoded): State { ClockEdge(s, IDLE, Settle(s, IDLE, d)) }

  const REGISTER_FORM: Control := Signal(0, 0, 0, 0, 1, 0, 0, 0, 0, 2)
  const REGISTER_FORM_32: Control := Signal(0, 0, 1, 0, 1, 0, 0, 0, 0, 2)
  const IMMEDIATE_FORM: Control := Signal(0, 0, 0, 0, 5, 0, 0, 0, 0, 3)
  const IMMEDIATE_FORM_32: Control := Signal(0, 0, 1, 0, 5, 0, 0, 0, 0, 3)
  const LUI_FORM: Control := Signal(0, 0, 0, 1, 5, 0, 0, 0, 0, 0)
  const AUIPC_FORM: Control := Signal(0, 0, 0, 2, 5, 0, 0, 0, 0, 0)
  const JAL_FORM: Control := Signal(0, 0, 0, 0, 1, 0, 0, 0, 7, 1)
  const JALR_FORM: Control := Signal(0, 0, 0, 0, 5, 0, 0, 0, 7, 1)

  // ----- cycles by control word -----

  lemma RegisterCycle(s: State, d: Decoded)
    requires d.c == REGISTER_FORM && !d.jalr
    ensures Edge(s, d) == After(s, d.rd, Alu(Read(s.regs, d.rs1), Read(s.regs, d.rs2), false, d.aluControl).result,
                                (s.pc + 4) % TWO64)
  {
    var w := Settle(s, IDLE, d);
    assert w.writeBack == Alu(Read(s.regs, d.rs1), Read(s.regs, d.rs2), false, d.aluControl).result;
    assert !w.branchTaken && !Exception(w);
  }

  lemma ImmediateCycle(s: State, d: Decoded)
    requires d.c == IMMEDIATE_FORM && !d.jalr
    ensures Edge(s, d) == After(s, d.rd, Alu(Read(s.regs, d.rs1), d.imm, false, d.aluControl).result, (s.pc + 4) % TWO64)
  {
  }

  lemma Register32Cycle(s: State, d: Decoded)
    requires d.c == REGISTER_FORM_32 && !d.jalr
    ensures var v := Alu(Read(s.regs, d.rs1) % TWO32, Read(s.regs, d.rs2) % TWO32, true, d.aluControl).result;
      Edge(s, d) == After(s, d.rd, Sext32(v), (s.pc + 4) % TWO64)
  {
  }

  lemma Immediate32Cycle(s: State, d: Decoded)
    requires d.c == IMMEDIATE_FORM_32 && !d.jalr
    ensures var v := Alu(Read(s.regs, d.rs1) % TWO32, d.imm % TWO32, true, d.aluControl).result;
      Edge(s, d) == After(s, d.rd, Sext32(v), (s.pc + 4) % TWO64)
  {
  }

  lemma UpperCycle(s: State, d: Decoded)
    requires (d.c == LUI_FORM && d.rs1 == 0) || d.c == AUIPC_FORM
    requires !d.jalr && d.aluControl == 2
    ensures var base := if d.c == LUI_FORM then 0 else s.pc;
      Edge(s, d) == After(s, d.rd, (base + d.imm) % TWO64, (s.pc + 4) % TWO64)
  {
    DropCarry((if d.c == LUI_FORM then 0 else s.pc) + d.imm);
  }

  lemma JalCycle(s: State, d: Decoded)
    requires d.c == JAL_FORM && !d.jalr
    ensures Edge(s, d) == After(s, d.rd, (s.pc + 4) % TWO64, (2 * d.imm % TWO64 + s.pc) % TWO64)
  {
    var w := Settle(s, IDLE, d);
    assert w.branchTaken && !Exception(w);
    assert w.ex.branchPc == (2 * d.imm % TWO64 + s.pc) % TWO64;
  }

  lemma JalrCycle(s: State, d: Decoded)
    requires d.c == JALR_FORM && d.jalr
    ensures var target := (Read(s.regs, d.rs1) + d.imm) % TWO64;
      Edge(s, d) == After(s, d.rd, (s.pc + 4) % TWO64, target - target % 2)
  {
  }

  /** Reducing a summand first changes nothing. */
  lemma ReduceSummand(x: int, y: int)
    ensures (x % TWO64 + y) % TWO64 == (y + x) % TWO64
  {
  }

  // ----- register and immediate arithmetic -----

  lemma DecodeOp(i: Instr)
    requires i.Op?
    ensures var d := Decode(Encode(i), false);
      && d.c == REGISTER_FORM && d.aluControl == ControlCode(i.f)
      && d.rd == i.rd && d.rs1 == i.rs1 && d.rs2 == i.rs2 && !d.jalr
  {
    RTypeFields(AluAlternate(i.f), i.rs2, i.rs1, AluFunct3(i.f), i.rd, 0x33);
    DecodesRegisterForm(i.f);
  }

  lemma CycleOp(s: State, i: Instr)
    requires i.Op?
    ensures Cycle(s, i) == CoreNext(s, i)
  {
    hide Edge, Decode, Encode;
    DecodeOp(i);
    Alu64(i.f, Read(s.regs, i.rs1), Read(s.regs, i.rs2));
    RegisterCycle(s, Decode(Encode(i), false));
  }

  lemma DecodeOpImm(i: Instr)
    requires Encodable(i) && i.OpImm?
    ensures var d := Decode(Encode(i), false);
      && d.c == IMMEDIATE_FORM && d.aluControl == ControlCode(i.f)
      && d.rd == i.rd && d.rs1 == i.rs1 && d.imm == Sext12(i.imm) && !d.jalr
  {
    ITypeFields(i.imm, i.rs1, AluFunct3(i.f), i.rd, 0x13);
    ITypeImmediate(i.imm, i.rs1, AluFunct3(i.f), i.rd, 0x13);
    DecodesImmediateForm(i.f, (i.imm >> 5) as bv7);
  }

  lemma CycleOpImm(s: State, i: Instr)
    requires Encodable(i) && i.OpImm?
    ensures Cycle(s, i) == CoreNext(s, i)
  {
    hide Edge, Decode, Encode;
    DecodeOpImm(i);
    Alu64(i.f, Read(s.regs, i.rs1), Sext12(i.imm));
    ImmediateCycle(s, Decode(Encode(i), false));
  }

  /** The immediate field of a shift: bit 10 selects the kind, the low bits the amount. */
  function ShiftField(f: AluOp, shamt: bv6): bv12 { ((AluAlternate(f) as bv12) << 5) | (shamt as bv12) }

  lemma AmountUnderBit(shamt: bv6, field: bv12)
    requires field == 0x400 | (shamt as bv12)
    ensures field as int == 0x400 + shamt as int
  {
  }

  lemma ShiftImmediate(f: AluOp, shamt: bv6)
    requires f.Sll? || f.Srl? || f.Sra?
    ensures ((ShiftField(f, shamt) >> 5) as bv7) & 0x20 == AluAlternate(f)
    ensures Sext12(ShiftField(f, shamt)) == (if f.Sra? then 0x400 else 0) + shamt as int
  {
    if f.Sra? {
      AmountUnderBit(shamt, ShiftField(f, shamt));
    } else {
      assert ShiftField(f, shamt) == shamt as bv12;
    }
  }

  lemma DecodeShiftImm(i: Instr)
    requires Encodable(i) && i.ShiftImm?
    ensures var d := Decode(Encode(i), false);
      && d.c == IMMEDIATE_FORM && d.aluControl == ControlCode(i.f)
      && d.rd == i.rd && d.rs1 == i.rs1
      && d.imm == (if i.f.Sra? then 0x400 else 0) + i.shamt as int && !d.jalr
  {
    hide IType, Opcode, ImmField, RdField, Rs1Field, Funct3Field, Funct7Field, Signext, Sext12;
    var imm := ShiftField(i.f, i.shamt);
    ITypeFields(imm, i.rs1, AluFunct3(i.f), i.rd, 0x13);
    ITypeImmediate(imm, i.rs1, AluFunct3(i.f), i.rd, 0x13);
    ShiftImmediate(i.f, i.shamt);
    DecodesImmediateForm(i.f, (imm >> 5) as bv7);
  }

  /** Only the low six bits of a shift amount matter. */
  lemma ShiftResult(f: AluOp, a: Word, b: Word, n: Word)
    requires f.Sll? || f.Srl? || f.Sra?
    requires b == n || b == 0x400 + n
    ensures Alu(a, b, false, ControlCode(f)).result == Compute(f, a, n)
  {
    assert b % 64 == n % 64;
    Alu64(f, a, b);
  }

  lemma CycleShiftImm(s: State, i: Instr)
    requires Encodable(i) && i.ShiftImm?
    ensures Cycle(s, i) == CoreNext(s, i)
  {
    hide Edge, Decode, Encode;
    DecodeShiftImm(i);
    var d := Decode(Encode(i), false);
    ShiftResult(i.f, Read(s.regs, i.rs1), d.imm, i.shamt as int);
    ImmediateCycle(s, d);
  }

  // ----- 32-bit forms -----

  lemma DecodeOp32(i: Instr)
    requires Encodable(i) && i.Op32?
    ensures var d := Decode(Encode(i), false);
      && d.c == REGISTER_FORM_32 && d.aluControl == ControlCode(i.f)
      && d.rd == i.rd && d.rs1 == i.rs1 && d.rs2 == i.rs2 && !d.jalr
  {
    RTypeFields(AluAlternate(i.f), i.rs2, i.rs1, AluFunct3(i.f), i.rd, 0x3b);
    DecodesRegisterForm(i.f);
  }

  lemma DecodeAddImm32(i: Instr)
    requires i.AddImm32?
    ensures var d := Decode(Encode(i), false);
      && d.c == IMMEDIATE_FORM_32 && d.aluControl == 2
      && d.rd == i.rd && d.rs1 == i.rs1 && d.imm == Sext12(i.imm) % TWO32 && !d.jalr
  {
    ITypeFields(i.imm, i.rs1, 0, i.rd, 0x1b);
    ITypeImmediate(i.imm, i.rs1, 0, i.rd, 0x1b);
    DecodesImmediateForm(Add, (i.imm >> 5) as bv7);
  }

  /** SLLIW, SRLIW and SRAIW take the I-format route with a five-bit amount. */
  lemma Shift32Immediate(f: AluOp, shamt: bv5, rs1: Reg, rd: Reg)
    requires f.Sll? || f.Srl? || f.Sra?
    ensures Signext(RType(AluAlternate(f), shamt, rs1, AluFunct3(f), rd, 0x1b)) == (if f.Sra? then 0x400 else 0) + shamt as int
  {
    var w := RType(AluAlternate(f), shamt, rs1, AluFunct3(f), rd, 0x1b);
    RTypeFields(AluAlternate(f), shamt, rs1, AluFunct3(f), rd, 0x1b);
    assert (shamt as bv6) as bv12 == shamt as bv12 && (shamt as bv6) as int == shamt as int;
    ShiftImmediate(f, shamt as bv6);
    assert Opcode(w) == 0x1b;
  }

  lemma DecodeShiftImm32(i: Instr)
    requires Encodable(i) && i.ShiftImm32?
    ensures var d := Decode(Encode(i), false);
      && d.c == IMMEDIATE_FORM_32 && d.aluControl == ControlCode(i.f)
      && d.rd == i.rd && d.rs1 == i.rs1
      && d.imm == (if i.f.Sra? then 0x400 else 0) + i.shamt5 as int && !d.jalr
  {
    RTypeFields(AluAlternate(i.f), i.shamt5, i.rs1, AluFunct3(i.f), i.rd, 0x1b);
    DecodesImmediateForm(i.f, AluAlternate(i.f));
    Shift32Immediate(i.f, i.shamt5, i.rs1, i.rd);
  }

  /** The 32-bit result the hardware writes; see AluCorrect for when it is the right one. */
  lemma CycleOp32(s: State, i: Instr)
    requires i.Op32? && Encodable(i)
    ensures Cycle(s, i) == CoreNext(s, i)
  {
    hide Edge, Decode, Encode;
    DecodeOp32(i);
    Register32Cycle(s, Decode(Encode(i), false));
  }

  lemma CycleAddImm32(s: State, i: Instr)
    requires i.AddImm32?
    ensures Cycle(s, i) == CoreNext(s, i)
  {
    hide Edge, Decode, Encode, Alu, Compute32;
    assert Sext12(i.imm) % TWO32 % TWO32 == Sext12(i.imm) % TWO32;
    DecodeAddImm32(i);
    Alu32(Add, Read(s.regs, i.rs1), Sext12(i.imm));
    Immediate32Cycle(s, Decode(Encode(i), false));
  }

  lemma CycleShiftImm32(s: State, i: Instr)
    requires i.ShiftImm32? && Encodable(i)
    ensures Cycle(s, i) == CoreNext(s, i)
  {
    hide Edge, Decode, Encode;
    DecodeShiftImm32(i);
    var d := Decode(Encode(i), false);
    Immediate32Cycle(s, d);
    SameAmount32(i.f, Read(s.regs, i.rs1) % TWO32, d.imm, i.shamt5 as int);
  }

  lemma SameAmount32(f: AluOp, x: Word, b: Word, n: Word)
    requires f.Sll? || f.Srl? || f.Sra?
    requires x < TWO32 && n < 32 && (b == n || b == 0x400 + n)
    ensures Alu(x, b % TWO32, true, ControlCode(f)).result == Alu(x, n % TWO32, true, ControlCode(f)).result
  {
    hide Alu, Shl, Shr;
    Shifts32(x, b);
    Shifts32(x, n);
    assert b % 32 == n % 32;
  }

  // ----- upper immediates and jumps -----

  lemma DecodeUpper(i: Instr)
    requires i.Lui? || i.Auipc?
    ensures var d := Decode(Encode(i), false);
      && d.c == (if i.Lui? then LUI_FORM else AUIPC_FORM) && d.aluControl == 2
      && d.rd == i.rd && (i.Lui? ==> d.rs1 == 0) && d.imm == Sext32(i.upper as int * 0x1000) && !d.jalr
  {
    UTypeImmediate(i.upper, i.rd, if i.Lui? then 0x37 else 0x17);
  }

  lemma CycleUpper(s: State, i: Instr)
    requires i.Lui? || i.Auipc?
    ensures Cycle(s, i) == CoreNext(s, i)
  {
    hide Edge, Decode, Encode, Sext12, Sext32, Write;
    DecodeUpper(i);
    UpperCycle(s, Decode(Encode(i), false));
  }

  lemma DecodeJump(i: Instr)
    requires i.Jal? || i.Jalr?
    ensures var d := Decode(Encode(i), false);
      && d.rd == i.rd && d.jalr == i.Jalr?
      && d.c == (if i.Jal? then JAL_FORM else JALR_FORM)
      && d.imm == (if i.Jal? then Sext20(i.half) else Sext12(i.imm))
      && (i.Jalr? ==> d.rs1 == i.rs1)
  {
    if i.Jal? {
      JTypeImmediate(i.half, i.rd);
    } else {
      ITypeFields(i.imm, i.rs1, 0, i.rd, 0x67);
      ITypeImmediate(i.imm, i.rs1, 0, i.rd, 0x67);
    }
  }

  lemma CycleJump(s: State, i: Instr)
    requires i.Jal? || i.Jalr?
    ensures Cycle(s, i) == CoreNext(s, i)
  {
    hide Edge, Decode, Encode, Sext12, Sext20, Write;
    DecodeJump(i);
    if i.Jal? {
      JalCycle(s, Decode(Encode(i), false));
      ReduceSummand(2 * Sext20(i.half), s.pc);
    } else {
      JalrCycle(s, Decode(Encode(i), false));
    }
  }

  // ----- branches -----

  function BranchForm(c: Cond): Control { Signal(0, 0, 0, 0, 0, 0, 0, 0, BranchCode(c), 1) }

  lemma BranchCycle(s: State, d: Decoded, c: Cond)
    requires d.c == BranchForm(c) && d.aluControl == 6 && !d.jalr
    ensures Edge(s, d) == After(s, 0, 0, if BranchUnit(c, Read(s.regs, d.rs1), Read(s.regs, d.rs2))
                                         then (2 * d.imm % TWO64 + s.pc) % TWO64 else (s.pc + 4) % TWO64)
  {
    var w := Settle(s, IDLE, d);
    assert w.branchTaken == BranchUnit(c, Read(s.regs, d.rs1), Read(s.regs, d.rs2));
    assert w.ex.branchPc == (2 * d.imm % TWO64 + s.pc) % TWO64;
    assert !Exception(w) && !d.c.regWrite;
  }

  lemma DecodeBranch(i: Instr)
    requires i.Branch?
    ensures var d := Decode(Encode(i), false);
      && d.c == BranchForm(i.c) && d.aluControl == 6
      && d.rs1 == i.rs1 && d.rs2 == i.rs2 && d.imm == Sext12(i.half12) && !d.jalr
  {
    BTypeImmediate(i.half12, i.rs2, i.rs1, CondFunct3(i.c));
    RTypeFields(((i.half12 >> 5) & 0x40) as bv7 | ((i.half12 >> 4) & 0x3f) as bv7, i.rs2, i.rs1, CondFunct3(i.c),
                ((i.half12 << 1) & 0x1e) as bv5 | ((i.half12 >> 10) & 1) as bv5, 0x63);
  }

  lemma CycleBranch(s: State, i: Instr)
    requires i.Branch?
    ensures Cycle(s, i) == CoreNext(s, i)
  {
    hide Edge, Decode, Encode, Sext12, Sext32, Write;
    DecodeBranch(i);
    BranchCycle(s, Decode(Encode(i), false), i.c);
    ReduceSummand(2 * Sext12(i.half12), s.pc);
  }

  // ----- loads and stores -----

  function LoadForm(w: Width, unsigned: bool): Control {
    Control(false, false, false, false, false, false, false, false, false,
            true, true, true, !unsigned, true, false, WidthCode(w), 0, 0)
  }

  function StoreForm(w: Width): Control {
    Control(false, false, false, false, false, false, false, false, false,
            true, false, false, false, false, true, WidthCode(w), 0, 0)
  }

  /** With MIE set, an access that crosses a doubleword traps instead. */
  predicate Crosses(s: State, i: Instr) {
    (i.Load? || i.Store?) && s.mstatus.mie && !Fits(i.w, EffectiveAddress(s, i) % 8)
  }

  lemma LoadCycle(s: State, d: Decoded, w: Width, unsigned: bool, a: Word)
    requires d.c == LoadForm(w, unsigned) && d.aluControl == 2 && !d.jalr
    requires a == (Read(s.regs, d.rs1) + d.imm) % TWO64
    requires s.mstatus.mie ==> Fits(w, a % 8)
    ensures Edge(s, d) == After(s, d.rd, FromLanes(MemReadMask(s.q, !unsigned, WidthCode(w), a % 8)), (s.pc + 4) % TWO64)
                    .(q := s.ram[a / 8 % 4096])
  {
    DropCarry(Read(s.regs, d.rs1) + d.imm);
    AlignDetectsCrossing(w, a % 8);
    var wires := Settle(s, IDLE, d);
    assert wires.ex.result == a;
    assert !wires.branchTaken && !Trap(s, wires);
  }

  lemma StoreCycle(s: State, d: Decoded, w: Width, a: Word)
    requires d.c == StoreForm(w) && d.aluControl == 2 && !d.jalr
    requires a == (Read(s.regs, d.rs1) + d.imm) % TWO64
    requires s.mstatus.mie ==> Fits(w, a % 8)
    ensures var i := a / 8 % 4096;
      Edge(s, d) == After(s, 0, 0, (s.pc + 4) % TWO64)
                    .(ram := s.ram[i := RamWrite(s.ram[i], ToLanes(Read(s.regs, d.rs2)), WidthCode(w), a % 8)])
  {
    DropCarry(Read(s.regs, d.rs1) + d.imm);
    AlignDetectsCrossing(w, a % 8);
    var wires := Settle(s, IDLE, d);
    assert wires.ex.result == a;
    assert !wires.branchTaken && !Trap(s, wires);
  }

  lemma MemoryControl(w: Width, unsigned: bool, funct12: bv12)
    requires w.Double8? ==> !unsigned
    ensures MainDec(false, 0x03, WidthFunct3(w, unsigned), funct12) == LoadForm(w, unsigned)
    ensures MainDec(false, 0x23, WidthFunct3(w, false), funct12) == StoreForm(w)
  {
  }

  lemma LoadWord(imm: bv12, rs1: Reg, funct3: bv3, rd: Reg)
    ensures var d := Decode(IType(imm, rs1, funct3, rd, 0x03), false);
      && d.c == MainDec(false, 0x03, funct3, imm) && d.aluControl == 2
      && d.rd == rd && d.rs1 == rs1 && d.imm == Sext12(imm) && !d.jalr
  {
    ITypeFields(imm, rs1, funct3, rd, 0x03);
    ITypeImmediate(imm, rs1, funct3, rd, 0x03);
  }

  lemma StoreWord(imm: bv12, rs2: Reg, rs1: Reg, funct3: bv3)
    ensures var instr := SType(imm, rs2, rs1, funct3, 0x23);
      var d := Decode(instr, false);
      && d.c == MainDec(false, 0x23, funct3, ImmField(instr)) && d.aluControl == 2
      && d.rs1 == rs1 && d.rs2 == rs2 && d.imm == Sext12(imm) && !d.jalr
  {
    RTypeFields((imm >> 5) as bv7, rs2, rs1, funct3, (imm & 0x1f) as bv5, 0x23);
    STypeImmediate(imm, rs2, rs1, funct3);
  }

  lemma DecodeLoad(i: Instr)
    requires Encodable(i) && i.Load?
    ensures var d := Decode(Encode(i), false);
      && d.c == LoadForm(i.w, i.unsigned) && d.aluControl == 2
      && d.rd == i.rd && d.rs1 == i.rs1 && d.imm == Sext12(i.imm) && !d.jalr
  {
    LoadWord(i.imm, i.rs1, WidthFunct3(i.w, i.unsigned), i.rd);
    MemoryControl(i.w, i.unsigned, i.imm);
  }

  lemma DecodeStore(i: Instr)
    requires i.Store?
    ensures var d := Decode(Encode(i), false);
      && d.c == StoreForm(i.w) && d.aluControl == 2
      && d.rs1 == i.rs1 && d.rs2 == i.rs2 && d.imm == Sext12(i.imm) && !d.jalr
  {
    StoreWord(i.imm, i.rs2, i.rs1, WidthFunct3(i.w, false));
    MemoryControl(i.w, false, ImmField(Encode(i)));
  }

  lemma LoadMatches(s: State, i: Instr, t: State)
    requires Encodable(i) && i.Load?
    requires var a := EffectiveAddress(s, i);
      t == After(s, i.rd, FromLanes(MemReadMask(s.q, !i.unsigned, WidthCode(i.w), a % 8)), (s.pc + 4) % TWO64)
           .(q := s.ram[a / 8 % 4096])
    ensures t == CoreNext(s, i)
  {
  }

  lemma CycleLoad(s: State, i: Instr)
    requires Encodable(i) && i.Load? && !Crosses(s, i)
    ensures Cycle(s, i) == CoreNext(s, i)
  {
    hide Edge, Decode, Encode, MemReadMask, FromLanes;
    DecodeLoad(i);
    LoadCycle(s, Decode(Encode(i), false), i.w, i.unsigned, EffectiveAddress(s, i));
    LoadMatches(s, i, Cycle(s, i));
  }

  lemma CycleStore(s: State, i: Instr)
    requires i.Store? && !Crosses(s, i)
    ensures Cycle(s, i) == CoreNext(s, i)
  {
    hide Edge, Decode, Encode, Sext12, Sext32, Write;
    DecodeStore(i);
    StoreCycle(s, Decode(Encode(i), false), i.w, EffectiveAddress(s, i));
  }

  lemma NextIsCycle(rom: Rom, s: State, i: Instr)
    requires At(rom, s, i)
    ensures Next(rom, s, IDLE) == Cycle(s, i)
  {
  }

  /** A clock that executes `i` is `CoreNext`, unless it traps. */
  lemma ClockExecutes(rom: Rom, s: State, i: Instr)
    requires At(rom, s, i) && !Crosses(s, i)
    ensures Next(rom, s, IDLE) == CoreNext(s, i)
  {
    hide Next, Cycle, CoreNext, Encode;
    NextIsCycle(rom, s, i);
    match i
    case Op(_, _, _, _) => CycleOp(s, i);
    case OpImm(_, _, _, _) => CycleOpImm(s, i);
    case ShiftImm(_, _, _, _) => CycleShiftImm(s, i);
    case Op32(_, _, _, _) => CycleOp32(s, i);
    case AddImm32(_, _, _) => CycleAddImm32(s, i);
    case ShiftImm32(_, _, _, _) => CycleShiftImm32(s, i);
    case Lui(_, _) => CycleUpper(s, i);
    case Auipc(_, _) => CycleUpper(s, i);
    case Jal(_, _) => CycleJump(s, i);
    case Jalr(_, _, _) => CycleJump(s, i);
    case Branch(_, _, _, _) => CycleBranch(s, i);
    case Load(_, _, _, _, _) => CycleLoad(s, i);
    case Store(_, _, _, _) => CycleStore(s, i);
  }
}
