/** The RV64I base instruction set as the RISC-V Unprivileged ISA (20191213)
    describes it: instruction formats (section 2.2 and 2.3), and what each
    instruction computes (sections 2.4, 2.5, 2.6, 5.2 and 5.3). */
module Isa {
  import opened Words

  type Reg = bv5

  /** A register file: 32 words, and x0 reads zero. */
  type Regs = r: seq<Word> | |r| == 32 && r[0] == 0 witness seq(32, _ => 0)

  function Read(regs: Regs, r: Reg): Word { regs[r as int] }

  function Write(regs: Regs, rd: Reg, v: Word): (regs': Regs)
    ensures forall r: Reg :: Read(regs', r) == if r == rd && rd != 0 then v else Read(regs, r)
  {
    if rd == 0 then regs else regs[rd as int := v]
  }

  datatype AluOp = Add | Sub | Sll | Slt | Sltu | Xor | Srl | Sra | Or | And

  datatype Cond = Eq | Ne | Lt | Ge | Ltu | Geu

  datatype Width = Byte1 | Half2 | Word4 | Double8

  datatype Instr =
    | Op(f: AluOp, rd: Reg, rs1: Reg, rs2: Reg)
    | OpImm(f: AluOp, rd: Reg, rs1: Reg, imm: bv12)
    | ShiftImm(f: AluOp, rd: Reg, rs1: Reg, shamt: bv6)
    | Op32(f: AluOp, rd: Reg, rs1: Reg, rs2: Reg)
    | AddImm32(rd: Reg, rs1: Reg, imm: bv12)
    | ShiftImm32(f: AluOp, rd: Reg, rs1: Reg, shamt5: bv5)
    | Lui(rd: Reg, upper: bv20)
    | Auipc(rd: Reg, upper: bv20)
    | Jal(rd: Reg, half: bv20)        // offset in halfwords
    | Jalr(rd: Reg, rs1: Reg, imm: bv12)
    | Branch(c: Cond, rs1: Reg, rs2: Reg, half12: bv12)  // offset in halfwords
    | Load(w: Width, unsigned: bool, rd: Reg, rs1: Reg, imm: bv12)
    | Store(w: Width, rs1: Reg, rs2: Reg, imm: bv12)

  /** The combinations the instruction formats can express. */
  predicate Encodable(i: Instr)
  {
    match i
    case OpImm(f, _, _, _) => !f.Sub? && !f.Sll? && !f.Srl? && !f.Sra?
    case ShiftImm(f, _, _, _) => f.Sll? || f.Srl? || f.Sra?
    case Op32(f, _, _, _) => f.Add? || f.Sub? || f.Sll? || f.Srl? || f.Sra?
    case ShiftImm32(f, _, _, _) => f.Sll? || f.Srl? || f.Sra?
    case Load(w, unsigned, _, _, _) => w.Double8? ==> !unsigned
    case _ => true
  }

  // ----- encoding -----

  function AluFunct3(f: AluOp): bv3 {
    match f
    case Add => 0 case Sub => 0 case Sll => 1 case Slt => 2 case Sltu => 3
    case Xor => 4 case Srl => 5 case Sra => 5 case Or => 6 case And => 7
  }

  /** Bit 30 of the instruction. */
  function AluAlternate(f: AluOp): bv7 { if f.Sub? || f.Sra? then 0x20 else 0 }

  function CondFunct3(c: Cond): bv3 {
    match c
    case Eq => 0 case Ne => 1 case Lt => 4 case Ge => 5 case Ltu => 6 case Geu => 7
  }

  function WidthFunct3(w: Width, unsigned: bool): bv3 {
    match w
    case Byte1 => if unsigned then 4 else 0
    case Half2 => if unsigned then 5 else 1
    case Word4 => if unsigned then 6 else 2
    case Double8 => 3
  }

  function RType(funct7: bv7, rs2: bv5, rs1: Reg, funct3: bv3, rd: bv5, opcode: bv7): bv32 {
    ((funct7 as bv32) << 25) | ((rs2 as bv32) << 20) | ((rs1 as bv32) << 15)
    | ((funct3 as bv32) << 12) | ((rd as bv32) << 7) | (opcode as bv32)
  }

  function IType(imm: bv12, rs1: Reg, funct3: bv3, rd: Reg, opcode: bv7): bv32 {
    ((imm as bv32) << 20) | ((rs1 as bv32) << 15)
    | ((funct3 as bv32) << 12) | ((rd as bv32) << 7) | (opcode as bv32)
  }

  function SType(imm: bv12, rs2: Reg, rs1: Reg, funct3: bv3, opcode: bv7): bv32 {
    RType((imm >> 5) as bv7, rs2, rs1, funct3, (imm & 0x1f) as bv5, opcode)
  }

  /** imm[12|10:5] and imm[4:1|11], where `half` is imm[12:1]. */
  function BType(half: bv12, rs2: Reg, rs1: Reg, funct3: bv3, opcode: bv7): bv32 {
    RType(((half >> 5) & 0x40) as bv7 | ((half >> 4) & 0x3f) as bv7, rs2, rs1, funct3,
          ((half << 1) & 0x1e) as bv5 | ((half >> 10) & 1) as bv5, opcode)
  }

  function UType(upper: bv20, rd: Reg, opcode: bv7): bv32 {
    ((upper as bv32) << 12) | ((rd as bv32) << 7) | (opcode as bv32)
  }

  /** imm[20|10:1|11|19:12], where `half` is imm[20:1]. */
  function JType(half: bv20, rd: Reg, opcode: bv7): bv32 {
    UType((half & 0x80000) | ((half & 0x3ff) << 9) | ((half >> 2) & 0x100) | ((half >> 11) & 0xff), rd, opcode)
  }

  function Encode(i: Instr): bv32
    requires Encodable(i)
  {
    match i
    case Op(f, rd, rs1, rs2) => RType(AluAlternate(f), rs2, rs1, AluFunct3(f), rd, 0x33)
    case OpImm(f, rd, rs1, imm) => IType(imm, rs1, AluFunct3(f), rd, 0x13)
    case ShiftImm(f, rd, rs1, shamt) =>
      IType(((AluAlternate(f) as bv12) << 5) | (shamt as bv12), rs1, AluFunct3(f), rd, 0x13)
    case Op32(f, rd, rs1, rs2) => RType(AluAlternate(f), rs2, rs1, AluFunct3(f), rd, 0x3b)
    case AddImm32(rd, rs1, imm) => IType(imm, rs1, 0, rd, 0x1b)
    case ShiftImm32(f, rd, rs1, shamt) => RType(AluAlternate(f), shamt, rs1, AluFunct3(f), rd, 0x1b)
    case Lui(rd, upper) => UType(upper, rd, 0x37)
    case Auipc(rd, upper) => UType(upper, rd, 0x17)
    case Jal(rd, half) => JType(half, rd, 0x6f)
    case Jalr(rd, rs1, imm) => IType(imm, rs1, 0, rd, 0x67)
    case Branch(c, rs1, rs2, half) => BType(half, rs2, rs1, CondFunct3(c), 0x63)
    case Load(w, unsigned, rd, rs1, imm) => IType(imm, rs1, WidthFunct3(w, unsigned), rd, 0x03)
    case Store(w, rs1, rs2, imm) => SType(imm, rs2, rs1, WidthFunct3(w, false), 0x23)
  }

  // ----- meaning -----

  /** Integer register-register operations on 64-bit words (section 2.4.2). */
  function Compute(f: AluOp, a: Word, b: Word): Word {
    match f
    case Add => (a + b) % TWO64
    case Sub => (a - b) % TWO64
    case Sll => Shl(a, b % 64)
    case Slt => if Signed(a) < Signed(b) then 1 else 0
    case Sltu => if a < b then 1 else 0
    case Xor => Bits(BitXor, a, b)
    case Srl => Shr(a, b % 64)
    case Sra => Sar(a, b % 64)
    case Or => Bits(BitOr, a, b)
    case And => Bits(BitAnd, a, b)
  }

  /** Shift left within 32 bits. */
  function Shl32(x: nat, n: nat): (y: nat)
    requires x < TWO32
    ensures y < TWO32
    decreases n
  {
    if n == 0 then x else Shl32(2 * x % TWO32, n - 1)
  }

  /** Operations on the low 32 bits, result sign-extended (section 5.2). */
  function Compute32(f: AluOp, a: Word, b: Word): Word
    requires f.Add? || f.Sub? || f.Sll? || f.Srl? || f.Sra?
  {
    match f
    case Add => Sext32(a + b)
    case Sub => Sext32(a - b)
    case Sll => Sext32(Shl32(a % TWO32, b % 32))
    case Srl => Sext32(Shr(a % TWO32, b % 32))
    case Sra => Sext32(Halve(Signed32(a), b % 32))
  }

  /** Conditional branches (section 2.5.2). */
  predicate Taken(c: Cond, a: Word, b: Word) {
    match c
    case Eq => a == b
    case Ne => a != b
    case Lt => Signed(a) < Signed(b)
    case Ge => Signed(a) >= Signed(b)
    case Ltu => a < b
    case Geu => a >= b
  }

  /** The address of a load or store. */
  function Address(regs: Regs, rs1: Reg, imm: bv12): Word { (Read(regs, rs1) + Sext12(imm)) % TWO64 }

  function Bytes(w: Width): (n: nat)
    ensures n == 1 || n == 2 || n == 4 || n == 8
  {
    match w case Byte1 => 1 case Half2 => 2 case Word4 => 4 case Double8 => 8
  }

  /** A loaded datum of `|bytes|` bytes, extended to a word (sections 2.6 and 5.3). */
  function Extend(bytes: seq<Byte>, unsigned: bool): Word
    requires |bytes| == 1 || |bytes| == 2 || |bytes| == 4 || |bytes| == 8
  {
    var u := Value(bytes);
    (if unsigned || |bytes| == 8 || u < Pow256(|bytes|) / 2 then u else u - Pow256(|bytes|)) % TWO64
  }

  /** What an instruction writes to its destination, from the pc, the registers and,
      for a load, the loaded datum. */
  function Result(i: Instr, pc: Word, regs: Regs, loaded: Word): Word
    requires Encodable(i)
  {
    match i
    case Op(f, _, rs1, rs2) => Compute(f, Read(regs, rs1), Read(regs, rs2))
    case OpImm(f, _, rs1, imm) => Compute(f, Read(regs, rs1), Sext12(imm))
    case ShiftImm(f, _, rs1, shamt) => Compute(f, Read(regs, rs1), shamt as int)
    case Op32(f, _, rs1, rs2) => Compute32(f, Read(regs, rs1), Read(regs, rs2))
    case AddImm32(_, rs1, imm) => Compute32(Add, Read(regs, rs1), Sext12(imm))
    case ShiftImm32(f, _, rs1, shamt) => Compute32(f, Read(regs, rs1), shamt as int)
    case Lui(_, upper) => Sext32(upper as int * 0x1000)
    case Auipc(_, upper) => (pc + Sext32(upper as int * 0x1000)) % TWO64
    case Jal(_, _) => (pc + 4) % TWO64
    case Jalr(_, _, _) => (pc + 4) % TWO64
    case Load(_, _, _, _, _) => loaded
    case _ => 0
  }

  /** The destination register, x0 for instructions that have none. */
  function Dest(i: Instr): Reg {
    if i.Branch? || i.Store? then 0 else i.rd
  }

  function NextPc(i: Instr, pc: Word, regs: Regs): Word {
    match i
    case Jal(_, half) => (pc + 2 * Sext20(half)) % TWO64
    case Jalr(_, rs1, imm) =>
      var target := (Read(regs, rs1) + Sext12(imm)) % TWO64;
      target - target % 2
    case Branch(c, rs1, rs2, half) =>
      if Taken(c, Read(regs, rs1), Read(regs, rs2)) then (pc + 2 * Sext12(half)) % TWO64 else (pc + 4) % TWO64
    case _ => (pc + 4) % TWO64
  }

  // ----- one instruction -----

  const MEM_SIZE: nat := 0x8000

  /** The platform's memory: 32768 bytes, repeated throughout the address space. */
  type Memory = m: seq<Byte> | |m| == MEM_SIZE witness seq(MEM_SIZE, _ => 0)

  /** The `n` bytes from address `a` on. */
  function LoadBytes(m: Memory, a: Word, n: nat): (bytes: seq<Byte>)
    ensures |bytes| == n
  {
    seq(n, k requires 0 <= k < n => m[(a + k) % MEM_SIZE])
  }

  /** Memory after `bytes` are stored from address `a` on. */
  function StoreBytes(m: Memory, a: Word, bytes: seq<Byte>): Memory {
    seq(MEM_SIZE, x requires 0 <= x < MEM_SIZE =>
      var k := (x - a) % MEM_SIZE;
      if k < |bytes| then bytes[k] else m[x])
  }

  /** What a program sees of the machine. */
  datatype Arch = Arch(pc: Word, regs: Regs, mem: Memory)

  /** With IALIGN 32 a jump or taken branch goes to a multiple of four only (section 2.5). */
  predicate TargetMisaligned(i: Instr, pc: Word, regs: Regs) {
    && (i.Jal? || i.Jalr? || (i.Branch? && Taken(i.c, Read(regs, i.rs1), Read(regs, i.rs2))))
    && NextPc(i, pc, regs) % 4 != 0
  }

  /** The cause of the exception such an instruction raises. */
  const TARGET_MISALIGNED: nat := 0

  /** An instruction retires, or raises an exception and does nothing else. */
  datatype Outcome = Retired(arch: Arch) | Raised(cause: nat)

  /** The instruction set's meaning of an instruction.  The execution environment is one
      that carries out loads and stores at any address (section 2.6): they move the
      addressed bytes of memory, lowest first. */
  function IsaStep(a: Arch, i: Instr): Outcome
    requires Encodable(i)
  {
    if TargetMisaligned(i, a.pc, a.regs) then Raised(TARGET_MISALIGNED) else Retired(Effect(a, i))
  }

  /** What an instruction that retires does. */
  function Effect(a: Arch, i: Instr): Arch
    requires Encodable(i)
  {
    var loaded := if i.Load? then Extend(LoadBytes(a.mem, Address(a.regs, i.rs1, i.imm), Bytes(i.w)), i.unsigned) else 0;
    Arch(NextPc(i, a.pc, a.regs),
         Write(a.regs, Dest(i), Result(i, a.pc, a.regs, loaded)),
         if i.Store? then StoreBytes(a.mem, Address(a.regs, i.rs1, i.imm), LowBytes(Read(a.regs, i.rs2), Bytes(i.w)))
         else a.mem)
  }

  /** From a multiple of four the program counter goes to multiples of four only. */
  lemma PcStaysAligned(a: Arch, i: Instr)
    requires Encodable(i) && a.pc % 4 == 0 && IsaStep(a, i).Retired?
    ensures IsaStep(a, i).arch.pc % 4 == 0
  {
    hide Effect, NextPc, Taken;
    NextWordAligned(a.pc);
    PcOfEffect(a, i);
    if !i.Jal? && !i.Jalr? && (i.Branch? ==> !Taken(i.c, Read(a.regs, i.rs1), Read(a.regs, i.rs2))) {
      NotTransferred(i, a.pc, a.regs);
    }
  }

  lemma PcOfEffect(a: Arch, i: Instr)
    requires Encodable(i)
    ensures Effect(a, i).pc == NextPc(i, a.pc, a.regs)
  {
    hide NextPc, Result, Write, StoreBytes, LoadBytes, Extend;
  }

  lemma NotTransferred(i: Instr, pc: Word, regs: Regs)
    requires !i.Jal? && !i.Jalr? && (i.Branch? ==> !Taken(i.c, Read(regs, i.rs1), Read(regs, i.rs2)))
    ensures NextPc(i, pc, regs) == (pc + 4) % TWO64
  {
    hide Taken;
  }

  lemma NextWordAligned(pc: Word)
    requires pc % 4 == 0
    ensures (pc + 4) % TWO64 % 4 == 0
  {
    QuarterKept(pc + 4, pc / 4 + 1, 0);
  }

  /** Which offsets of jumps and taken branches are misaligned: the odd numbers of halfwords. */
  lemma OddOffsets(pc: Word, half: bv20, half12: bv12)
    requires pc % 4 == 0
    ensures (pc + 2 * Sext20(half)) % TWO64 % 4 != 0 <==> half as int % 2 == 1
    ensures (pc + 2 * Sext12(half12)) % TWO64 % 4 != 0 <==> half12 as int % 2 == 1
  {
    hide Sext12, Sext20;
    ExtensionKeepsParity(half, half12);
    DoubledOffset(pc, Sext20(half), half as int);
    DoubledOffset(pc, Sext12(half12), half12 as int);
  }

  lemma ExtensionKeepsParity(half: bv20, half12: bv12)
    ensures Sext20(half) % 2 == half as int % 2 && Sext12(half12) % 2 == half12 as int % 2
  {
    EvenOffset(half as int, 0x100000);
    EvenOffset(half12 as int, 0x1000);
  }

  lemma EvenOffset(n: nat, m: nat)
    requires m == 0x100000 || m == 0x1000
    ensures (TWO64 - m + n) % 2 == n % 2
  {
  }

  lemma DoubledOffset(pc: Word, x: Word, n: nat)
    requires pc % 4 == 0 && x % 2 == n % 2
    ensures (pc + 2 * x) % TWO64 % 4 != 0 <==> n % 2 == 1
  {
    var r := x % 2;
    assert pc + 2 * x == 4 * (pc / 4 + x / 2) + 2 * r;
    QuarterKept(pc + 2 * x, pc / 4 + x / 2, 2 * r);
  }

  /** Reducing to a word first changes nothing below bit 2. */
  lemma QuarterKept(y: nat, k: nat, r: nat)
    requires y == 4 * k + r && r < 4
    ensures y % TWO64 % 4 == r
  {
    var q, z := y / TWO64, y % TWO64;
    assert z == y - q * TWO64;
    assert z == 4 * (k - q * 0x4000_0000_0000_0000) + r;
  }
}
