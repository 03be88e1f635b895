/** The combinational blocks of the core, one function per SystemVerilog module.

    A 64-bit bus is a `Word`, or its eight `Lanes` where the source moves whole
    bytes; a one-bit signal is a `bool`. */
module Rtl {
  import opened Words
  import opened Isa

  // ----- maindec -----

  datatype Control = Control(
    trapReturn: bool, aluSelect: bool, csrWrite: bool,
    illegal: bool, ecall: bool, ebreak: bool,
    wArith: bool, regSelPc: bool, regSelZero: bool,
    aluSrc: bool, memToReg: bool, regWrite: bool,
    readSigned: bool, memRead: bool, memWrite: bool,
    memWidth: bv3, branch: bv3, aluOp: bv2)

  /** The 23 output bits, in the groups the source writes them in. */
  function Signal(sys: bv3, exc: bv3, w: bv1, regSel: bv2, src: bv3, read: bv2, write: bv1,
                  width: bv3, branch: bv3, aluOp: bv2): Control
  {
    Control(sys & 4 != 0, sys & 2 != 0, sys & 1 != 0,
            exc & 4 != 0, exc & 2 != 0, exc & 1 != 0,
            w != 0, regSel & 2 != 0, regSel & 1 != 0,
            src & 4 != 0, src & 2 != 0, src & 1 != 0,
            read & 2 != 0, read & 1 != 0, write != 0,
            width, branch, aluOp)
  }

  const NoSignal: Control := Signal(0, 0, 0, 0, 0, 0, 0, 0, 0, 0)
  const Illegal: Control := Signal(0, 4, 0, 0, 0, 0, 0, 0, 0, 0)

  function MainDec(stall: bool, op: bv7, funct3: bv3, funct12: bv12): Control {
    if stall then NoSignal
    else if op == 0x63 then
      Signal(0, 0, 0, 0, 0, 0, 0, 0, if funct3 == 0 then 1 else if funct3 == 1 then 3
                                     else if funct3 == 4 then 5 else if funct3 == 5 then 4
                                     else if funct3 == 6 then 6 else if funct3 == 7 then 2 else 0, 1)
    else if op == 0x33 then Signal(0, 0, 0, 0, 1, 0, 0, 0, 0, 2)
    else if op == 0x3b then Signal(0, 0, 1, 0, 1, 0, 0, 0, 0, 2)
    else if op == 0x13 then Signal(0, 0, 0, 0, 5, 0, 0, 0, 0, 3)
    else if op == 0x1b then Signal(0, 0, 1, 0, 5, 0, 0, 0, 0, 3)
    else if op == 0x03 then
      if funct3 == 0 then Signal(0, 0, 0, 0, 7, 3, 0, 0, 0, 0)
      else if funct3 == 4 then Signal(0, 0, 0, 0, 7, 1, 0, 0, 0, 0)
      else if funct3 == 1 then Signal(0, 0, 0, 0, 7, 3, 0, 1, 0, 0)
      else if funct3 == 5 then Signal(0, 0, 0, 0, 7, 1, 0, 1, 0, 0)
      else if funct3 == 2 then Signal(0, 0, 0, 0, 7, 3, 0, 3, 0, 0)
      else if funct3 == 6 then Signal(0, 0, 0, 0, 7, 1, 0, 3, 0, 0)
      else Signal(0, 0, 0, 0, 7, 3, 0, 7, 0, 0)
    else if op == 0x23 then
      if funct3 == 0 then Signal(0, 0, 0, 0, 4, 0, 1, 0, 0, 0)
      else if funct3 == 1 then Signal(0, 0, 0, 0, 4, 0, 1, 1, 0, 0)
      else if funct3 == 2 then Signal(0, 0, 0, 0, 4, 0, 1, 3, 0, 0)
      else Signal(0, 0, 0, 0, 4, 0, 1, 7, 0, 0)
    else if op == 0x37 then Signal(0, 0, 0, 1, 5, 0, 0, 0, 0, 0)
    else if op == 0x17 then Signal(0, 0, 0, 2, 5, 0, 0, 0, 0, 0)
    else if op == 0x6f then Signal(0, 0, 0, 0, 1, 0, 0, 0, 7, 1)
    else if op == 0x67 then Signal(0, 0, 0, 0, 5, 0, 0, 0, 7, 1)
    else if op == 0x73 then
      if funct3 == 0 then
        if funct12 == 0x001 then Signal(0, 1, 0, 0, 0, 0, 0, 0, 0, 0)
        else if funct12 == 0x000 then Signal(0, 2, 0, 0, 0, 0, 0, 0, 0, 0)
        else if funct12 == 0x302 then Signal(4, 0, 0, 0, 0, 0, 0, 0, 0, 0)
        else Illegal
      else if funct3 == 1 || funct3 == 2 || funct3 == 3 then Signal(3, 0, 0, 0, 1, 0, 0, 0, 0, 2)
      else if funct3 == 5 || funct3 == 6 || funct3 == 7 then Signal(3, 0, 0, 0, 5, 0, 0, 0, 0, 2)
      else Illegal
    else if op == 0x0f then NoSignal
    else Illegal
  }

  // ----- aludec -----

  function AluDec(funct7: bv7, funct3: bv3, aluOp: bv2): bv4 {
    var alt := funct7 & 0x20 != 0;
    if aluOp == 0 then 2
    else if aluOp == 1 then 6
    else if aluOp == 2 then
      if !alt && funct3 == 0 then 2
      else if alt && funct3 == 0 then 6
      else if !alt && funct3 == 7 then 0
      else if !alt && funct3 == 6 then 1
      else if !alt && funct3 == 4 then 9
      else if !alt && funct3 == 2 then 14
      else if !alt && funct3 == 3 then 10
      else if funct3 == 1 then 7
      else if !alt && funct3 == 5 then 3
      else if alt && funct3 == 5 then 11
      else 15
    else
      if funct3 == 0 then 2
      else if funct3 == 7 then 0
      else if funct3 == 6 then 1
      else if funct3 == 4 then 9
      else if funct3 == 2 then 14
      else if funct3 == 3 then 10
      else if funct3 == 1 then 7
      else if !alt && funct3 == 5 then 3
      else if alt && funct3 == 5 then 11
      else 15
  }

  function AluDecAtomic(funct3: bv3, aluOp: bv2): bv4 {
    if aluOp != 2 then 15
    else if funct3 == 1 || funct3 == 5 then 0
    else if funct3 == 2 || funct3 == 6 then 1
    else if funct3 == 3 || funct3 == 7 then 3
    else 15
  }

  // ----- the fields of an instruction -----

  function Opcode(w: bv32): bv7 { (w & 0x7f) as bv7 }
  function RdField(w: bv32): bv5 { ((w >> 7) & 0x1f) as bv5 }
  function Funct3Field(w: bv32): bv3 { ((w >> 12) & 7) as bv3 }
  function Rs1Field(w: bv32): bv5 { ((w >> 15) & 0x1f) as bv5 }
  function Rs2Field(w: bv32): bv5 { ((w >> 20) & 0x1f) as bv5 }
  function Funct7Field(w: bv32): bv7 { (w >> 25) as bv7 }
  function ImmField(w: bv32): bv12 { (w >> 20) as bv12 }

  // ----- signext -----

  /** The scattered immediates. */
  function StoreField(a: bv32): bv12 { ((a >> 20) & 0xfe0) as bv12 | ((a >> 7) & 0x1f) as bv12 }

  function BranchField(a: bv32): bv12 {
    ((a >> 20) & 0x800) as bv12 | ((a << 3) & 0x400) as bv12 | ((a >> 21) & 0x3f0) as bv12 | ((a >> 8) & 0xf) as bv12
  }

  function JumpField(a: bv32): bv20 {
    ((a >> 12) & 0x80000) as bv20 | ((a >> 1) & 0x7f800) as bv20 | ((a >> 10) & 0x400) as bv20 | ((a >> 21) & 0x3ff) as bv20
  }

  function UpperField(a: bv32): bv20 { (a >> 12) as bv20 }

  function Signext(a: bv32): Word {
    var op := Opcode(a);
    if op == 0x23 then
      Sext12(StoreField(a))
    else if op == 0x63 then
      Sext12(BranchField(a))
    else if op == 0x13 || op == 0x67 || op == 0x03 then
      Sext12(ImmField(a))
    else if op == 0x6f then
      Sext20(JumpField(a))
    else if op == 0x37 || op == 0x17 then
      Sext32(UpperField(a) as int * 0x1000)
    else if op == 0x1b then
      Sext12(ImmField(a)) % TWO32
    else if op == 0x73 then
      var zimm := ((a >> 15) & 0x1f) as int;
      if zimm < 0x10 then zimm else TWO64 - 0x20 + zimm
    else
      Sext32(a as int)
  }

  // ----- alu, atom_alu, execute, branching -----

  datatype AluOut = AluOut(result: Word, overflow: bool)

  /** `overflow` is bit 64 of the 65-bit sum or difference. */
  function Alu(a: Word, b: Word, wArith: bool, control: bv4): AluOut {
    var shift := if wArith then b % 32 else b % 64;
    if control == 0 then AluOut(Bits(BitAnd, a, b), false)
    else if control == 1 then AluOut(Bits(BitOr, a, b), false)
    else if control == 9 then AluOut(Bits(BitXor, a, b), false)
    else if control == 2 then
      var sum := (a + b) % (2 * TWO64);
      AluOut(sum % TWO64, sum >= TWO64)
    else if control == 6 then
      var difference := (a - b) % (2 * TWO64);
      AluOut(difference % TWO64, difference >= TWO64)
    else if control == 14 then AluOut(if Signed(a) < Signed(b) then 1 else 0, false)
    else if control == 10 then AluOut(if a < b then 1 else 0, false)
    else if control == 3 then AluOut(Shr(a, shift), false)
    else if control == 11 then AluOut(Sar(a, shift), false)
    else if control == 7 then AluOut(Shl(a, shift), false)
    else AluOut(b, false)
  }

  /** Old CSR value for the register, new value for the CSR. */
  function AtomAlu(a: Word, b: Word, control: bv4): (Word, Word) {
    if control == 0 then (b, a)
    else if control == 1 then (b, Bits(BitOr, a, b))
    else if control == 3 then (b, Bits(BitAnd, TWO64 - 1 - a, b))
    else (a, b)
  }

  datatype ExecuteOut = ExecuteOut(result: Word, branchPc: Word, csrIn: Word, zero: bool, overflow: bool, sign: bool)

  function Execute(c: Control, aluControl: bv4, pc: Word, rd1: Word, rd2: Word, signImm: Word, csrRead: Word): ExecuteOut {
    var a := if c.regSelPc then pc else rd1;
    var b := if c.aluSrc then signImm else rd2;
    var alu := Alu(if c.wArith then a % TWO32 else a, if c.wArith then b % TWO32 else b, c.wArith, aluControl);
    var (atomic, csrIn) := AtomAlu(if c.aluSrc then signImm else rd1, csrRead, aluControl);
    ExecuteOut(
      if c.aluSelect then atomic else if c.wArith then Sext32(alu.result) else alu.result,
      if c.aluSrc then signImm - signImm % 2 else (2 * signImm % TWO64 + pc) % TWO64,
      csrIn,
      alu.result == 0, alu.overflow, alu.result >= 0x8000_0000_0000_0000)
  }

  predicate Branching(branch: bv3, zero: bool, sign: bool, overflow: bool) {
    if branch == 1 then zero
    else if branch == 3 then !zero
    else if branch == 5 then sign && !zero
    else if branch == 4 then !sign || zero
    else if branch == 6 then overflow && !zero
    else if branch == 2 then !overflow || zero
    else branch == 7
  }

  // ----- memReadMask, memWriteMask, except_e -----

  /** Byte `k` of the mask {4{w[2]}, 2{w[1]}, w[0], 1}. */
  predicate InMask(width: bv3, k: nat) {
    || k == 0
    || (k == 1 && width & 1 != 0)
    || (2 <= k < 4 && width & 2 != 0)
    || (4 <= k < 8 && width & 4 != 0)
  }

  type Offset = o: nat | o < 8

  function ShiftDown(word: Lanes, offset: Offset): Lanes {
    seq(8, k requires 0 <= k < 8 => if k + offset < 8 then word[k + offset] else 0)
  }

  function Fill(top: Byte): Byte { if top >= 0x80 then 0xff else 0 }

  function MemReadMask(word: Lanes, signedRead: bool, width: bv3, offset: Offset): Lanes {
    var s := ShiftDown(word, offset);
    if signedRead && width == 3 then s[..4] + seq(4, _ => Fill(s[3]))
    else if signedRead && width == 1 then s[..2] + seq(6, _ => Fill(s[1]))
    else if signedRead && width == 0 then s[..1] + seq(7, _ => Fill(s[0]))
    else seq(8, k requires 0 <= k < 8 => if InMask(width, k) then s[k] else 0)
  }

  predicate ByteEnable(width: bv3, offset: Offset, k: nat) {
    k >= offset && InMask(width, k - offset)
  }

  /** A word of the RAM after a write through the byte enables. */
  function RamWrite(word: Lanes, data: Lanes, width: bv3, offset: Offset): Lanes {
    seq(8, k requires 0 <= k < 8 => if ByteEnable(width, offset, k) then data[k - offset] else word[k])
  }

  /** Bit 8 of the shifted byte mask. */
  predicate AlignDetect(width: bv3, offset: Offset) {
    offset > 0 && InMask(width, 8 - offset)
  }
}
