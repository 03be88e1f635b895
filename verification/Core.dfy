/** The clocked core: its registers, the coprocessor port, and the state after one
    clock edge.  The instruction memory is a table of 1024 words. */
module Core {
  import opened Words
  import opened Isa
  import opened Rtl

  /** The mstatus register, split at the fields that trap handling touches. */
  datatype Mstatus = Mstatus(above: nat, mpp: nat, bits10to8: nat, mpie: bool, bits6to4: nat, mie: bool, bits2to0: nat)

  const MSTATUS_RESET: Mstatus := Mstatus(0x100000, 0, 0, false, 0, false, 0)

  function MstatusWord(m: Mstatus): Word {
    (m.above * 0x2000 + m.mpp * 0x800 + m.bits10to8 * 0x100 + (if m.mpie then 0x80 else 0)
    + m.bits6to4 * 0x10 + (if m.mie then 8 else 0) + m.bits2to0) % TWO64
  }

  const MACHINE: nat := 3

  const ZERO_LANES: Lanes := [0, 0, 0, 0, 0, 0, 0, 0]

  type Rom = w: seq<bv32> | |w| == 1024 witness seq(1024, _ => 0)

  type Ram = w: seq<Lanes> | |w| == 4096 witness seq<Lanes>(4096, _ => ZERO_LANES)

  datatype State = State(
    pc: Word, regs: Regs, ram: Ram,
    q: Lanes,           // output register of the RAM
    cycles: Word,       // csrOut[5]
    stallAt: Word,      // the cycle-stall flag register
    ebreakFlag: bool,
    mode: nat, mstatus: Mstatus, mcause: Word, mtvec: Word, mepc: Word)

  /** The coprocessor's side of the port during one clock cycle. */
  datatype Port = Port(
    reset: bool,
    arm: bool,       // control[4]
    debug: bool,     // control[3]
    memRead: bool,   // control[2]
    memWrite: bool,  // control[1]
    regWrite: bool,  // control[0]
    addr: bv15, data: Word)

  /** No coprocessor activity. */
  const IDLE: Port := Port(false, false, false, false, false, false, 0, 0)

  /** The coprocessor writes the delay. */
  predicate SetsDelay(p: Port) { p.debug && p.addr & 0x1000 != 0 }

  predicate CycleStall(s: State, p: Port) { s.stallAt == s.cycles && p.arm }

  predicate Stalled(s: State, p: Port) {
    CycleStall(s, p) || p.debug || p.memRead || p.memWrite || p.regWrite
  }

  function Fetch(rom: Rom, pc: Word): bv32 { rom[pc / 4 % 1024] }

  /** The decoded CSRs; 0x340 reads a wire that nothing drives. */
  function CsrRead(s: State, addr: bv12): Word {
    if addr == 0x301 then 0x8000_0000_0010_0100
    else if addr == 0x300 then MstatusWord(s.mstatus)
    else if addr == 0x342 then s.mcause
    else if addr == 0x305 then s.mtvec
    else if addr == 0x341 then s.mepc
    else if addr == 0xc00 then s.cycles
    else 0
  }

  /** What the controller and the decode stage read from an instruction. */
  datatype Decoded = Decoded(c: Control, aluControl: bv4, rd: Reg, rs1: Reg, rs2: Reg, imm: Word, jalr: bool, csrAddr: bv12)

  function Decode(instr: bv32, stall: bool): Decoded {
    var c := MainDec(stall, Opcode(instr), Funct3Field(instr), ImmField(instr));
    Decoded(
      c,
      if c.aluSelect then AluDecAtomic(Funct3Field(instr), c.aluOp)
      else AluDec(Funct7Field(instr), Funct3Field(instr), c.aluOp),
      RdField(instr), if c.regSelZero then 0 else Rs1Field(instr), Rs2Field(instr),
      Signext(instr), Opcode(instr) == 0x67, ImmField(instr))
  }

  /** Everything the combinational logic computes within a clock cycle. */
  datatype Wires = Wires(
    c: Control, rd: Reg, csrAddr: bv12, rs2Value: Word, ex: ExecuteOut,
    writeBack: Word, branchTaken: bool,
    loadMisaligned: bool, storeMisaligned: bool)

  function ExecuteStage(s: State, p: Port, d: Decoded): ExecuteOut {
    var rd1 := Read(s.regs, d.rs1);
    var signImm := if d.jalr then (rd1 + d.imm) % TWO64 else d.imm;
    Execute(d.c, d.aluControl, s.pc, rd1, Read(s.regs, d.rs2), signImm,
            CsrRead(s, if p.debug then (p.addr & 0xfff) as bv12 else d.csrAddr))
  }

  function WriteBack(s: State, c: Control, result: Word): Word {
    if c.branch == 7 then (s.pc + 4) % TWO64
    else if c.memToReg then FromLanes(MemReadMask(s.q, c.readSigned, c.memWidth, result % 8))
    else result
  }

  function Settle(s: State, p: Port, d: Decoded): Wires {
    var ex := ExecuteStage(s, p, d);
    Wires(d.c, d.rd, d.csrAddr, Read(s.regs, d.rs2), ex,
          WriteBack(s, d.c, ex.result),
          Branching(d.c.branch, ex.zero, ex.sign, ex.overflow),
          d.c.memRead && AlignDetect(d.c.memWidth, ex.result % 8),
          d.c.memWrite && AlignDetect(d.c.memWidth, ex.result % 8))
  }

  predicate Exception(w: Wires) {
    w.c.illegal || w.c.ecall || w.c.ebreak || w.loadMisaligned || w.storeMisaligned
  }

  /** Traps are taken only while MIE is set. */
  predicate Trap(s: State, w: Wires) { s.mstatus.mie && Exception(w) }

  function Cause(w: Wires): Word {
    if w.c.illegal then 2
    else if w.c.ecall then 8
    else if w.c.ebreak then 3
    else if w.loadMisaligned then 4
    else if w.storeMisaligned then 6
    else 31
  }

  function NextRegs(s: State, p: Port, w: Wires): Regs {
    if p.regWrite then
      var r := (p.addr & 0x1f) as bv5;
      Write(s.regs, r, Bits(BitXor, Read(s.regs, r), p.data))
    else if w.c.regWrite then Write(s.regs, w.rd, w.writeBack)
    else s.regs
  }

  function RamAddress(p: Port, w: Wires): (i: nat)
    ensures i < 4096
  {
    if p.memRead || p.memWrite then (p.addr >> 3) as int else w.ex.result / 8 % 4096
  }

  function NextRam(s: State, p: Port, w: Wires): Ram {
    var i := RamAddress(p, w);
    if p.memWrite then
      s.ram[i := RamWrite(s.ram[i], ToLanes(p.data), 7, (p.addr & 7) as int)]
    else if w.c.memWrite then
      s.ram[i := RamWrite(s.ram[i], ToLanes(w.rs2Value), w.c.memWidth, w.ex.result % 8)]
    else s.ram
  }

  /** The RAM's output register is loaded only by a read. */
  function NextQ(s: State, p: Port, w: Wires): Lanes {
    if p.memRead || w.c.memRead then NextRam(s, p, w)[RamAddress(p, w)] else s.q
  }

  function NextPcReg(s: State, w: Wires): Word {
    if Trap(s, w) then s.mtvec - s.mtvec % 4
    else if w.c.trapReturn then s.mepc
    else if w.branchTaken then w.ex.branchPc
    else (s.pc + 4) % TWO64
  }

  function NextMstatus(s: State, w: Wires): Mstatus {
    if Trap(s, w) then s.mstatus.(mpp := s.mode, mpie := s.mstatus.mie, mie := false)
    else if w.c.trapReturn then s.mstatus.(mpp := 0, mpie := true, mie := s.mstatus.mpie)
    else if WritesCsr(w, 0x300) then
      var x := w.ex.csrIn;
      s.mstatus.(mpp := x / 0x800 % 4, mpie := x / 0x80 % 2 == 1, mie := x / 8 % 2 == 1)
    else s.mstatus
  }

  predicate WritesCsr(w: Wires, addr: bv12) { w.c.csrWrite && w.csrAddr == addr }

  function NextMode(s: State, w: Wires): nat {
    if Trap(s, w) then MACHINE else if w.c.trapReturn then s.mstatus.mpp else s.mode
  }

  /** Bits 23 to 2 of mtvec are writable. */
  function NextMtvec(s: State, w: Wires): Word {
    if WritesCsr(w, 0x305) then
      (s.mtvec - s.mtvec % 0x1000000) + s.mtvec % 4 + (w.ex.csrIn % 0x1000000 - w.ex.csrIn % 4)
    else s.mtvec
  }

  /** What each register holds after a clock edge. */
  function ClockEdge(s: State, p: Port, w: Wires): State {
    var run := !Stalled(s, p);
    State(
      if p.reset then 0 else if run then NextPcReg(s, w) else s.pc,
      NextRegs(s, p, w), NextRam(s, p, w), NextQ(s, p, w),
      if p.reset then 0 else if run then (s.cycles + 1) % TWO64 else s.cycles,
      if !p.arm then 0 else if SetsDelay(p) then p.data else s.stallAt,
      if p.reset then false
      else if SetsDelay(p) && p.addr & 1 != 0 then p.data % 2 == 1
      else s.ebreakFlag || w.c.ebreak,
      if p.reset then MACHINE else NextMode(s, w),
      if p.reset then MSTATUS_RESET else NextMstatus(s, w),
      if p.reset then 0 else if Trap(s, w) then Cause(w) else s.mcause,
      if p.reset then 0 else NextMtvec(s, w),
      if p.reset then 0 else if Trap(s, w) then s.pc else s.mepc)
  }

  function WiresOf(rom: Rom, s: State, p: Port): Wires {
    Settle(s, p, Decode(Fetch(rom, s.pc), Stalled(s, p)))
  }

  /** One clock cycle. */
  function Next(rom: Rom, s: State, p: Port): State {
    ClockEdge(s, p, WiresOf(rom, s, p))
  }

  /** The state after each port setting of a run has been clocked. */
  function Run(rom: Rom, s: State, ports: seq<Port>): (t: State)
    decreases |ports|
  {
    if ports == [] then s else Run(rom, Next(rom, s, ports[0]), ports[1..])
  }
}
