/** The one-deep trap stack: a trap saves pc, mode and MIE; while nothing writes
    mstatus and nothing returns, no second trap can overwrite them; mret restores them. */
module TrapStack {
  import opened Words
  import opened Isa
  import opened Rtl
  import opened Core

  /** A cycle that neither resets the core, nor returns from a trap, nor writes mstatus. */
  predicate QuietCycle(rom: Rom, s: State, p: Port) {
    var w := WiresOf(rom, s, p);
    !p.reset && !w.c.trapReturn && !WritesCsr(w, 0x300)
  }

  predicate Quiet(rom: Rom, s: State, ports: seq<Port>)
    decreases |ports|
  {
    ports == [] || (QuietCycle(rom, s, ports[0]) && Quiet(rom, Next(rom, s, ports[0]), ports[1..]))
  }

  /** A trap is taken in some cycle of the run. */
  predicate Traps(rom: Rom, s: State, ports: seq<Port>)
    decreases |ports|
  {
    ports != [] && (Trap(s, WiresOf(rom, s, ports[0])) || Traps(rom, Next(rom, s, ports[0]), ports[1..]))
  }

  /** A stalled core decodes no instruction, so it neither traps nor returns. */
  lemma TrapIsLive(rom: Rom, s: State, p: Port)
    requires var w := WiresOf(rom, s, p); Trap(s, w) || w.c.trapReturn
    ensures !Stalled(s, p)
  {
  }

  const KNOWN_OPCODES: set<bv7> :=
    {0x63, 0x33, 0x3b, 0x13, 0x1b, 0x03, 0x23, 0x37, 0x17, 0x6f, 0x67, 0x73, 0x0f}

  /** An opcode the decoder does not know, or a SYSTEM instruction other than ebreak, ecall,
      mret and those of the CSRs. */
  predicate Undefined(instr: bv32) {
    || Opcode(instr) !in KNOWN_OPCODES
    || (Opcode(instr) == 0x73 && Funct3Field(instr) == 0 && ImmField(instr) !in {0x000, 0x001, 0x302})
    || (Opcode(instr) == 0x73 && Funct3Field(instr) == 4)
  }

  lemma DecodesIllegal(instr: bv32)
    ensures Decode(instr, false).c.illegal <==> Undefined(instr)
    ensures Undefined(instr) ==> Decode(instr, false).c == Illegal
  {
    hide MainDec, AluDec, AluDecAtomic, RdField, Rs1Field, Rs2Field, Signext, Funct3Field, Funct7Field, ImmField, Opcode;
    var op, funct3, imm := Opcode(instr), Funct3Field(instr), ImmField(instr);
    if op == 0x73 {
      SystemIllegal(funct3, imm);
    } else if op in KNOWN_OPCODES {
      KnownIsLegal(op, funct3, imm);
    } else {
      UnknownIsIllegal(op, funct3, imm);
    }
  }

  lemma SystemIllegal(funct3: bv3, imm: bv12)
    ensures var c := MainDec(false, 0x73, funct3, imm);
      && (c.illegal <==> (funct3 == 0 && imm !in {0x000, 0x001, 0x302}) || funct3 == 4)
      && (c.illegal ==> c == Illegal)
  {
  }

  lemma KnownIsLegal(op: bv7, funct3: bv3, imm: bv12)
    requires op in KNOWN_OPCODES && op != 0x73
    ensures !MainDec(false, op, funct3, imm).illegal
  {
  }

  lemma UnknownIsIllegal(op: bv7, funct3: bv3, imm: bv12)
    requires op !in KNOWN_OPCODES
    ensures MainDec(false, op, funct3, imm) == Illegal
  {
    hide Signal;
  }

  /** A running core raises the illegal-instruction exception exactly on undefined words; it
      is taken, with cause 2, exactly while MIE is set. */
  lemma IllegalTraps(rom: Rom, s: State, p: Port)
    requires !Stalled(s, p)
    ensures var w := WiresOf(rom, s, p);
      && (w.c.illegal <==> Undefined(Fetch(rom, s.pc)))
      && (w.c.illegal ==> (Trap(s, w) <==> s.mstatus.mie) && Cause(w) == 2)
      && (Trap(s, w) && Cause(w) == 2 ==> w.c.illegal)
  {
    hide ExecuteStage, WriteBack, Branching, AlignDetect, Decode, Undefined, Fetch;
    DecodesIllegal(Fetch(rom, s.pc));
  }

  /** The word 0 is undefined. */
  lemma ZeroIsUndefined()
    ensures Undefined(0)
  {
    assert Opcode(0) == 0;
  }

  // ----- what each word traps with -----

  /** SYSTEM instructions; the decoder ignores their registers. */
  predicate IsSystem(instr: bv32, funct12: bv12) {
    Opcode(instr) == 0x73 && Funct3Field(instr) == 0 && ImmField(instr) == funct12
  }

  predicate IsEcall(instr: bv32) { IsSystem(instr, 0) }

  predicate IsEbreak(instr: bv32) { IsSystem(instr, 1) }

  predicate IsMret(instr: bv32) { IsSystem(instr, 0x302) }

  lemma DecodesSystem(instr: bv32)
    ensures var c := Decode(instr, false).c;
      && (c.ecall <==> IsEcall(instr)) && (c.ebreak <==> IsEbreak(instr)) && (c.trapReturn <==> IsMret(instr))
      && (c.memRead <==> Opcode(instr) == 0x03) && (c.memWrite <==> Opcode(instr) == 0x23)
  {
    hide MainDec, AluDec, AluDecAtomic, RdField, Rs1Field, Rs2Field, Signext, Funct3Field, Funct7Field, ImmField, Opcode;
    ControlSignals(Opcode(instr), Funct3Field(instr), ImmField(instr));
  }

  lemma ControlSignals(op: bv7, funct3: bv3, imm: bv12)
    ensures var c := MainDec(false, op, funct3, imm);
      && (c.ecall <==> op == 0x73 && funct3 == 0 && imm == 0)
      && (c.ebreak <==> op == 0x73 && funct3 == 0 && imm == 1)
      && (c.trapReturn <==> op == 0x73 && funct3 == 0 && imm == 0x302)
      && (c.memRead <==> op == 0x03) && (c.memWrite <==> op == 0x23)
  {
    hide MainDec;
    if op == 0x73 {
      SystemSignals(funct3, imm);
    } else if op == 0x03 || op == 0x23 {
      AccessSignals(op, funct3, imm);
    } else {
      OtherSignals(op, funct3, imm);
    }
  }

  lemma SystemSignals(funct3: bv3, imm: bv12)
    ensures var c := MainDec(false, 0x73, funct3, imm);
      && (c.ecall <==> funct3 == 0 && imm == 0) && (c.ebreak <==> funct3 == 0 && imm == 1)
      && (c.trapReturn <==> funct3 == 0 && imm == 0x302) && !c.memRead && !c.memWrite
  {
  }

  lemma AccessSignals(op: bv7, funct3: bv3, imm: bv12)
    requires op == 0x03 || op == 0x23
    ensures var c := MainDec(false, op, funct3, imm);
      !c.ecall && !c.ebreak && !c.trapReturn && (c.memRead <==> op == 0x03) && (c.memWrite <==> op == 0x23)
  {
  }

  lemma OtherSignals(op: bv7, funct3: bv3, imm: bv12)
    requires op != 0x03 && op != 0x23 && op != 0x73
    ensures var c := MainDec(false, op, funct3, imm);
      !c.ecall && !c.ebreak && !c.trapReturn && !c.memRead && !c.memWrite
  {
  }

  /** The words that programs use. */
  lemma SystemWords()
    ensures IsEcall(0x0000_0073) && IsEbreak(0x0010_0073) && IsMret(0x3020_0073)
  {
    assert Opcode(0x73) == 0x73 && Opcode(0x0010_0073) == 0x73 && Opcode(0x3020_0073) == 0x73;
    assert Funct3Field(0x73) == 0 && Funct3Field(0x0010_0073) == 0 && Funct3Field(0x3020_0073) == 0;
    assert ImmField(0x73) == 0 && ImmField(0x0010_0073) == 1 && ImmField(0x3020_0073) == 0x302;
  }

  /** The cause of a trap, from the word that took it: illegal instruction, environment call
      from user mode, breakpoint, load or store address misaligned. */
  function CauseOf(instr: bv32): Word {
    if Undefined(instr) then 2
    else if IsEcall(instr) then 8
    else if IsEbreak(instr) then 3
    else if Opcode(instr) == 0x03 then 4
    else 6
  }

  lemma CauseIsOfWord(rom: Rom, s: State, p: Port)
    requires Exception(WiresOf(rom, s, p)) && !Stalled(s, p)
    ensures Cause(WiresOf(rom, s, p)) == CauseOf(Fetch(rom, s.pc))
    ensures CauseOf(Fetch(rom, s.pc)) == 6 ==> Opcode(Fetch(rom, s.pc)) == 0x23
  {
    var instr := Fetch(rom, s.pc);
    DecodesIllegal(instr);
    DecodesSystem(instr);
    hide ExecuteStage, WriteBack, Branching, AlignDetect, Decode, Undefined, IsSystem, Fetch, Opcode;
  }

  /** Undefined words, ecall and ebreak trap whenever MIE is set. */
  lemma SystemTraps(rom: Rom, s: State, p: Port)
    requires !Stalled(s, p) && s.mstatus.mie
    requires var instr := Fetch(rom, s.pc); Undefined(instr) || IsEcall(instr) || IsEbreak(instr)
    ensures Trap(s, WiresOf(rom, s, p))
  {
    var instr := Fetch(rom, s.pc);
    DecodesIllegal(instr);
    DecodesSystem(instr);
    hide ExecuteStage, WriteBack, Branching, AlignDetect, Decode, Undefined, IsSystem, Fetch, Opcode;
  }

  /** mret returns. */
  lemma MretReturns(rom: Rom, s: State, p: Port)
    requires IsMret(Fetch(rom, s.pc)) && !Stalled(s, p)
    ensures WiresOf(rom, s, p).c.trapReturn && !Trap(s, WiresOf(rom, s, p))
  {
    var instr := Fetch(rom, s.pc);
    DecodesIllegal(instr);
    DecodesSystem(instr);
    hide ExecuteStage, WriteBack, Branching, AlignDetect, Decode, Fetch, Opcode, Funct3Field, ImmField;
  }

  /** Taking a trap. */
  lemma TrapSaves(rom: Rom, s: State, p: Port)
    requires !p.reset && Trap(s, WiresOf(rom, s, p))
    ensures var t := Next(rom, s, p);
      && t.pc == s.mtvec - s.mtvec % 4 && t.mcause == CauseOf(Fetch(rom, s.pc))
      && t.mepc == s.pc && t.mstatus.mpp == s.mode && t.mstatus.mpie && s.mstatus.mie
      && !t.mstatus.mie && t.mode == MACHINE
  {
    TrapIsLive(rom, s, p);
    CauseIsOfWord(rom, s, p);
    hide CauseOf, Cause, NextRegs, NextRam, NextQ, WiresOf, Fetch, Exception;
  }

  // ----- the ebreak flag -----

  /** The coprocessor does not write the flag, and does not reset the core. */
  predicate LeavesFlag(p: Port) { !p.reset && !(SetsDelay(p) && p.addr & 1 != 0) }

  /** The flag goes up exactly when an ebreak is executed, whether it traps or not. */
  lemma EbreakRaisesFlag(rom: Rom, s: State, p: Port)
    requires LeavesFlag(p)
    ensures Next(rom, s, p).ebreakFlag <==> s.ebreakFlag || (!Stalled(s, p) && IsEbreak(Fetch(rom, s.pc)))
  {
    DecodesSystem(Fetch(rom, s.pc));
    hide ExecuteStage, WriteBack, Branching, AlignDetect, NextRegs, NextRam, NextQ, NextPcReg, NextMstatus, NextMtvec, NextMode,
         Trap, Cause, Fetch, IsSystem, LeavesFlag, AluDec, AluDecAtomic, RdField, Rs1Field, Rs2Field, Signext, Funct7Field;
    if Stalled(s, p) {
      assert WiresOf(rom, s, p).c == NoSignal;
    } else {
      assert WiresOf(rom, s, p).c == Decode(Fetch(rom, s.pc), false).c;
    }
    assert Next(rom, s, p).ebreakFlag == (s.ebreakFlag || WiresOf(rom, s, p).c.ebreak) by {
      FlagNext(rom, s, p);
    }
  }

  lemma FlagNext(rom: Rom, s: State, p: Port)
    requires LeavesFlag(p)
    ensures Next(rom, s, p).ebreakFlag == (s.ebreakFlag || WiresOf(rom, s, p).c.ebreak)
  {
    hide WiresOf, NextRegs, NextRam, NextQ, NextPcReg, NextMstatus, NextMtvec, NextMode, Trap, Cause, SetsDelay;
  }

  /** An ebreak is executed in some cycle of the run. */
  predicate MeetsEbreak(rom: Rom, s: State, ports: seq<Port>)
    decreases |ports|
  {
    ports != [] &&
    ((!Stalled(s, ports[0]) && IsEbreak(Fetch(rom, s.pc))) || MeetsEbreak(rom, Next(rom, s, ports[0]), ports[1..]))
  }

  /** Hence what the coprocessor waits for: the flag is up after a run exactly if it was
      before or the program has executed an ebreak. */
  lemma {:induction false} FlagTellsEbreak(rom: Rom, s: State, ports: seq<Port>)
    requires forall p <- ports :: LeavesFlag(p)
    ensures Run(rom, s, ports).ebreakFlag <==> s.ebreakFlag || MeetsEbreak(rom, s, ports)
    decreases |ports|
  {
    hide Next, IsSystem, LeavesFlag, Fetch, Stalled;
    if ports != [] {
      EbreakRaisesFlag(rom, s, ports[0]);
      FlagTellsEbreak(rom, Next(rom, s, ports[0]), ports[1..]);
    }
  }

  /** Returning from a trap. */
  lemma ReturnRestores(rom: Rom, s: State, p: Port)
    requires !p.reset && WiresOf(rom, s, p).c.trapReturn && !s.mstatus.mie
    ensures var t := Next(rom, s, p);
      t.pc == s.mepc && t.mode == s.mstatus.mpp && t.mstatus.mie == s.mstatus.mpie && t.mstatus.mpie && t.mstatus.mpp == 0
  {
    TrapIsLive(rom, s, p);
  }

  /** With MIE clear, a quiet run takes no trap and keeps everything a trap has saved. */
  lemma {:induction false} QuietRunKeeps(rom: Rom, s: State, ports: seq<Port>)
    requires !s.mstatus.mie && Quiet(rom, s, ports)
    ensures !Traps(rom, s, ports)
    ensures var t := Run(rom, s, ports);
      t.mepc == s.mepc && t.mcause == s.mcause && t.mode == s.mode && t.mstatus == s.mstatus
    decreases |ports|
  {
    if ports != [] {
      var t := Next(rom, s, ports[0]);
      assert t.mstatus == s.mstatus && t.mepc == s.mepc && t.mode == s.mode && t.mcause == s.mcause;
      QuietRunKeeps(rom, t, ports[1..]);
    }
  }

  /** From a trap, through any quiet run, to the next mret: back to the trapping
      instruction, its mode, and MIE set. */
  lemma TrapRoundTrip(rom: Rom, s: State, p: Port, handler: seq<Port>, last: Port)
    requires !p.reset && Trap(s, WiresOf(rom, s, p))
    requires Quiet(rom, Next(rom, s, p), handler)
    requires var t := Run(rom, Next(rom, s, p), handler);
      !last.reset && WiresOf(rom, t, last).c.trapReturn
    ensures !Traps(rom, Next(rom, s, p), handler)
    ensures var t := Next(rom, Run(rom, Next(rom, s, p), handler), last);
      t.pc == s.pc && t.mode == s.mode && t.mstatus.mie == s.mstatus.mie
  {
    hide Next, Run, WiresOf;
    var entered := Next(rom, s, p);
    TrapSaves(rom, s, p);
    QuietRunKeeps(rom, entered, handler);
    ReturnRestores(rom, Run(rom, entered, handler), last);
  }
}
