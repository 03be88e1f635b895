/** Exactly when a clock of the core does what the instruction set says. */
module Conformance {
  import opened Words
  import opened Isa
  import opened Rtl
  import opened Core
  import opened AluCorrect
  import opened ByteMemory
  import opened CoreIsa

  function ArchOf(s: State): Arch { Arch(s.pc, s.regs, Flat(s.ram)) }

  /** The control registers that only traps and CSR instructions may change. */
  predicate CsrsKept(s: State, t: State) {
    t.mode == s.mode && t.mstatus == s.mstatus && t.mcause == s.mcause && t.mtvec == s.mtvec && t.mepc == s.mepc
  }

  /** `t` is the state in which the handler of an exception starts. */
  predicate TrapEntered(s: State, t: State, cause: nat) {
    && t.pc == s.mtvec - s.mtvec % 4 && t.regs == s.regs && t.ram == s.ram
    && t.mcause == cause && t.mepc == s.pc && t.mode == MACHINE
    && t.mstatus.mpp == s.mode && t.mstatus.mpie == s.mstatus.mie && !t.mstatus.mie
  }

  /** A clock that goes from `s` to `t`, and takes a trap or not, does what the instruction
      set says. */
  predicate Obeys(s: State, i: Instr, trap: bool, t: State)
    requires Encodable(i)
  {
    match IsaStep(ArchOf(s), i)
    case Retired(a) => !trap && ArchOf(t) == a && CsrsKept(s, t)
    case Raised(cause) => trap && TrapEntered(s, t, cause)
  }

  /** The RAM's output register presents the addressed bytes: where the access stays in
      its doubleword, those bytes of the addressed word. */
  predicate LoadHolds(s: State, i: Instr)
    requires i.Load?
  {
    var a := EffectiveAddress(s, i);
    Presented(s.q, a % 8, Bytes(i.w)) == LoadBytes(Flat(s.ram), a, Bytes(i.w))
  }

  /** The bytes of the datum beyond the doubleword, if any, are in memory already. */
  predicate StoreHolds(s: State, i: Instr)
    requires i.Store?
  {
    var a, bytes := EffectiveAddress(s, i), LowBytes(Read(s.regs, i.rs2), Bytes(i.w));
    forall k :: 8 - a % 8 <= k < |bytes| ==> Flat(s.ram)[(a + k) % MEM_SIZE] == bytes[k]
  }

  /** Where the hardware does what the instruction set says: everywhere, except jumps and
      taken branches to a target that is no multiple of four, SRAW and SRAIW of negative
      words, BLT and BGE whose difference overflows, loads whose bytes the RAM's output
      register does not present, stores that lose bytes beyond their doubleword, and
      accesses beyond it that trap. */
  predicate Conforms(s: State, i: Instr) {
    !TargetMisaligned(i, s.pc, s.regs) &&
    match i
    case Op32(f, rd, rs1, rs2) => f.Sra? && rd != 0 ==> Sra32Holds(Read(s.regs, rs1), Read(s.regs, rs2))
    case ShiftImm32(f, rd, rs1, shamt) => f.Sra? && rd != 0 ==> Sra32Holds(Read(s.regs, rs1), shamt as int)
    case Branch(c, rs1, rs2, half) => half != 2 ==> BranchHolds(c, Read(s.regs, rs1), Read(s.regs, rs2))
    case Load(_, _, rd, _, _) => !Crosses(s, i) && (rd == 0 || LoadHolds(s, i))
    case Store(_, _, _, _) => !Crosses(s, i) && StoreHolds(s, i)
    case _ => true
  }

  // ----- accesses -----

  /** Within its doubleword a load finds its bytes exactly if they equal those of the word
      the output register holds. */
  lemma LoadWithinDoubleword(s: State, i: Instr)
    requires i.Load? && Fits(i.w, EffectiveAddress(s, i) % 8)
    ensures var a := EffectiveAddress(s, i);
      var offset, end, word := a % 8, a % 8 + Bytes(i.w), s.ram[a / 8 % 4096];
      LoadHolds(s, i) <==> s.q[offset..end] == word[offset..end]
  {
    var a := EffectiveAddress(s, i);
    var n := Bytes(i.w);
    LoadPresented(s.ram, a, n);
    PresentedWithin(s.q, a % 8, n);
    PresentedWithin(s.ram[a / 8 % 4096], a % 8, n);
  }

  lemma PresentedWithin(word: Lanes, offset: Offset, n: nat)
    requires offset + n <= 8
    ensures Presented(word, offset, n) == word[offset..offset + n]
  {
  }

  /** A store within its doubleword loses nothing. */
  lemma StoreWithinDoubleword(s: State, i: Instr)
    requires i.Store? && Fits(i.w, EffectiveAddress(s, i) % 8)
    ensures StoreHolds(s, i)
  {
  }

  /** What a store of fewer bytes leaves to be desired. */
  lemma StoreRest(m: Memory, a: Word, bytes: seq<Byte>, j: nat)
    requires j <= |bytes| <= 8
    ensures StoreBytes(m, a, bytes[..j]) == StoreBytes(m, a, bytes)
            <==> forall k :: j <= k < |bytes| ==> m[(a + k) % MEM_SIZE] == bytes[k]
  {
    var part, whole := StoreBytes(m, a, bytes[..j]), StoreBytes(m, a, bytes);
    forall k | j <= k < |bytes|
      ensures part[(a + k) % MEM_SIZE] == m[(a + k) % MEM_SIZE] && whole[(a + k) % MEM_SIZE] == bytes[k]
    {
      IndexBack(a, k);
    }
    if forall k :: j <= k < |bytes| ==> m[(a + k) % MEM_SIZE] == bytes[k] {
      forall x | 0 <= x < MEM_SIZE ensures part[x] == whole[x] {
        IndexForth(a, x);
      }
    }
  }

  lemma IndexBack(a: nat, k: nat)
    requires k < MEM_SIZE
    ensures ((a + k) % MEM_SIZE - a) % MEM_SIZE == k
  {
  }

  lemma IndexForth(a: nat, x: nat)
    requires x < MEM_SIZE
    ensures (a + (x - a) % MEM_SIZE) % MEM_SIZE == x
  {
  }

  // ----- class by class -----

  /** Writing different values to a real register gives different register files. */
  lemma WriteInjective(regs: Regs, rd: Reg, v: Word, u: Word)
    ensures Write(regs, rd, v) == Write(regs, rd, u) <==> rd == 0 || v == u
  {
    assert rd != 0 ==> Read(Write(regs, rd, v), rd) == v && Read(Write(regs, rd, u), rd) == u;
  }

  lemma Result32Conforms(f: AluOp, regs: Regs, rd: Reg, a: Word, b: Word)
    requires f.Add? || f.Sub? || f.Sll? || f.Srl? || f.Sra?
    ensures Write(regs, rd, AluResult32(f, a, b)) == Write(regs, rd, Compute32(f, a, b))
            <==> (f.Sra? && rd != 0 ==> Sra32Holds(a, b))
  {
    WriteInjective(regs, rd, AluResult32(f, a, b), Compute32(f, a, b));
    if f.Sra? { Alu32Sra(a, b); } else { Alu32(f, a, b); }
  }

  /** The 32-bit register forms and shifts. */
  lemma Forms32Conform(s: State, i: Instr)
    requires Encodable(i) && (i.Op32? || i.ShiftImm32?)
    ensures Obeys(s, i, false, CoreNext(s, i)) <==> Conforms(s, i)
  {
    hide AluResult32, Compute32, Flat, Sra32Holds, Write;
    var b: Word := if i.Op32? then Read(s.regs, i.rs2) else i.shamt5 as int;
    Result32Conforms(i.f, s.regs, i.rd, Read(s.regs, i.rs1), b);
  }

  /** The taken target differs from the next instruction unless the offset is four. */
  lemma TargetDiffers(pc: Word, half: bv12)
    ensures (pc + 2 * Sext12(half)) % TWO64 == (pc + 4) % TWO64 <==> half == 2
  {
    if half < 0x800 {
      assert (half as int == 2) == (half == 2);
    }
  }

  lemma BranchConforms(s: State, i: Instr)
    requires i.Branch?
    ensures Obeys(s, i, false, CoreNext(s, i)) <==> Conforms(s, i)
  {
    hide BranchUnit, Taken, BranchHolds, Flat, Sext12;
    BranchDecision(i.c, Read(s.regs, i.rs1), Read(s.regs, i.rs2));
    TargetDiffers(s.pc, i.half12);
  }

  lemma LoadConforms(s: State, i: Instr)
    requires Encodable(i) && i.Load?
    ensures Obeys(s, i, false, CoreNext(s, i)) <==> i.rd == 0 || LoadHolds(s, i)
  {
    hide MemReadMask, FromLanes, Extend, Presented, LoadBytes, Flat, Write;
    var a, n := EffectiveAddress(s, i), Bytes(i.w);
    var found, wanted := Presented(s.q, a % 8, n), LoadBytes(Flat(s.ram), a, n);
    LoadDatum(s.q, i.w, i.unsigned, a % 8);
    WriteInjective(s.regs, i.rd, Extend(found, i.unsigned), Extend(wanted, i.unsigned));
    if Extend(found, i.unsigned) == Extend(wanted, i.unsigned) {
      ExtendInjective(found, wanted, i.unsigned);
    }
  }

  lemma StoreConforms(s: State, i: Instr)
    requires i.Store?
    ensures Obeys(s, i, false, CoreNext(s, i)) <==> StoreHolds(s, i)
  {
    hide RamWrite, ToLanes, StoreBytes, Flat, LowBytes;
    var a, n, v := EffectiveAddress(s, i), Bytes(i.w), Read(s.regs, i.rs2);
    StoreDatum(s.ram, a, i.w, v);
    StoreRest(Flat(s.ram), a, LowBytes(v, n), Within(n, a % 8));
  }

  /** An access beyond its doubleword traps while MIE is set, with the cause of a misaligned
      load or store, and the trap clears MIE. */
  lemma CrossingTraps(rom: Rom, s: State, i: Instr)
    requires At(rom, s, i) && Crosses(s, i)
    ensures var t := Next(rom, s, IDLE);
      && !t.mstatus.mie && s.mstatus.mie && t.mcause == (if i.Load? then 4 else 6)
      && t.mepc == s.pc && t.mode == MACHINE && t.pc == s.mtvec - s.mtvec % 4
  {
    hide Decode, Encode, Next;
    NextIsCycle(rom, s, i);
    var d := Decode(Encode(i), false);
    if i.Load? {
      DecodeLoad(i);
    } else {
      DecodeStore(i);
    }
    MemoryTraps(s, d, i);
  }

  lemma MemoryTraps(s: State, d: Decoded, i: Instr)
    requires Crosses(s, i) && d.aluControl == 2 && !d.jalr && d.imm == Sext12(i.imm) && d.rs1 == i.rs1
    requires d.c == if i.Load? then LoadForm(i.w, i.unsigned) else StoreForm(i.w)
    ensures var t := Edge(s, d);
      && !t.mstatus.mie && t.mcause == (if i.Load? then 4 else 6)
      && t.mepc == s.pc && t.mode == MACHINE && t.pc == s.mtvec - s.mtvec % 4
  {
    hide Sext12, AlignDetect, Fits, MemReadMask, FromLanes;
    var a := EffectiveAddress(s, i);
    DropCarry(Read(s.regs, d.rs1) + d.imm);
    AlignDetectsCrossing(i.w, a % 8);
    assert Settle(s, IDLE, d).ex.result == a;
  }

  // ----- the theorem -----

  /** Every other instruction does what the instruction set says, unless it is a jump to a
      misaligned target. */
  lemma PlainConforms(s: State, i: Instr)
    requires Encodable(i) && !i.Op32? && !i.ShiftImm32? && !i.Branch? && !i.Load? && !i.Store?
    ensures Obeys(s, i, false, CoreNext(s, i)) <==> !TargetMisaligned(i, s.pc, s.regs)
  {
    hide Result, NextPc, Flat, Write;
  }

  /** But for accesses beyond their doubleword no instruction traps. */
  lemma NoTrap(rom: Rom, s: State, i: Instr)
    requires At(rom, s, i) && !Crosses(s, i)
    ensures !Trap(s, WiresOf(rom, s, IDLE))
  {
    hide WiresOf, CoreResult, CorePc, CoreRam, Exception, NextRegs, NextRam, NextQ, NextPcReg;
    ClockExecutes(rom, s, i);
  }

  /** The core has no such exception: it carries the jump out. */
  lemma MisalignedJumps(rom: Rom, s: State, i: Instr)
    requires At(rom, s, i) && TargetMisaligned(i, s.pc, s.regs)
    ensures !Trap(s, WiresOf(rom, s, IDLE)) && Next(rom, s, IDLE) == CoreNext(s, i)
  {
    hide Next, CoreNext, WiresOf, Encode;
    NoTrap(rom, s, i);
    ClockExecutes(rom, s, i);
  }

  /** For instance a JAL by one halfword at address 0. */
  lemma JumpDeparts(rom: Rom, s: State, i: Instr)
    requires i == Jal(1, 1) && At(rom, s, i) && s.pc == 0
    ensures var t := Next(rom, s, IDLE);
      && !Trap(s, WiresOf(rom, s, IDLE)) && t.pc == 2 && Read(t.regs, 1) == 4
      && IsaStep(ArchOf(s), i) == Raised(TARGET_MISALIGNED) && !Conforms(s, i)
  {
    hide Next, WiresOf, Encode, Flat;
    assert NextPc(i, 0, s.regs) == 2;
    MisalignedJumps(rom, s, i);
  }

  /** For every encodable instruction and every state: one clock is one instruction of the
      instruction set, on pc, registers, memory and control registers, if and only if
      `Conforms` holds. */
  lemma CoreExecutesIsa(rom: Rom, s: State, i: Instr)
    requires At(rom, s, i)
    ensures Obeys(s, i, Trap(s, WiresOf(rom, s, IDLE)), Next(rom, s, IDLE)) <==> Conforms(s, i)
  {
    hide Next, CoreNext, Encode, Obeys, Conforms, WiresOf, Trap;
    if Crosses(s, i) {
      CrossingTraps(rom, s, i);
      NotObeyed(s, i, Trap(s, WiresOf(rom, s, IDLE)), Next(rom, s, IDLE));
    } else {
      ClockExecutes(rom, s, i);
      NoTrap(rom, s, i);
      match i
      case Op32(_, _, _, _) => Forms32Conform(s, i);
      case ShiftImm32(_, _, _, _) => Forms32Conform(s, i);
      case Branch(_, _, _, _) => BranchConforms(s, i);
      case Load(_, _, _, _, _) => LoadConforms(s, i); MemoryForm(s, i);
      case Store(_, _, _, _) => StoreConforms(s, i); MemoryForm(s, i);
      case _ => PlainConforms(s, i); MemoryForm(s, i);
    }
  }

  lemma NotObeyed(s: State, i: Instr, trap: bool, t: State)
    requires Encodable(i) && Crosses(s, i) && !t.mstatus.mie && s.mstatus.mie
    ensures !Obeys(s, i, trap, t) && !Conforms(s, i)
  {
    hide LoadHolds, StoreHolds;
  }

  lemma MemoryForm(s: State, i: Instr)
    requires !Crosses(s, i) && !i.Op32? && !i.ShiftImm32? && !i.Branch?
    ensures Conforms(s, i) <==>
      if i.Load? then i.rd == 0 || LoadHolds(s, i) else if i.Store? then StoreHolds(s, i)
      else !TargetMisaligned(i, s.pc, s.regs)
  {
    hide LoadHolds, StoreHolds;
  }

  // ----- whole runs -----

  /** `program` is what the core meets, instruction by instruction, and conforms to. */
  ghost predicate Executable(rom: Rom, s: State, program: seq<Instr>)
    decreases |program|
  {
    program == [] ||
    (At(rom, s, program[0]) && Conforms(s, program[0]) && Executable(rom, Next(rom, s, IDLE), program[1..]))
  }

  /** A run of the instruction set, up to the first exception. */
  function IsaRun(a: Arch, program: seq<Instr>): Outcome
    requires forall k :: 0 <= k < |program| ==> Encodable(program[k])
    decreases |program|
  {
    if program == [] then Retired(a)
    else
      match IsaStep(a, program[0])
      case Retired(b) => IsaRun(b, program[1..])
      case Raised(cause) => Raised(cause)
  }

  function Idle(n: nat): (ports: seq<Port>)
    ensures |ports| == n
  {
    seq(n, _ => IDLE)
  }

  /** Any number of undisturbed clocks in which the condition holds is that number of
      instructions of the instruction set, none of which raises an exception. */
  lemma {:induction false} CoreRunExecutesIsa(rom: Rom, s: State, program: seq<Instr>)
    requires forall k :: 0 <= k < |program| ==> Encodable(program[k])
    requires Executable(rom, s, program)
    ensures IsaRun(ArchOf(s), program) == Retired(ArchOf(Run(rom, s, Idle(|program|))))
    ensures CsrsKept(s, Run(rom, s, Idle(|program|)))
    decreases |program|
  {
    hide Next, IsaStep, Encode, Conforms, ArchOf;
    if program != [] {
      ConformingClock(rom, s, program[0]);
      CoreRunExecutesIsa(rom, Next(rom, s, IDLE), program[1..]);
      assert Idle(|program|)[0] == IDLE && Idle(|program|)[1..] == Idle(|program| - 1);
    }
  }

  lemma ConformingClock(rom: Rom, s: State, i: Instr)
    requires At(rom, s, i) && Conforms(s, i)
    ensures IsaStep(ArchOf(s), i) == Retired(ArchOf(Next(rom, s, IDLE))) && CsrsKept(s, Next(rom, s, IDLE))
  {
    hide Next, Encode, WiresOf, Trap, Effect, Flat;
    CoreExecutesIsa(rom, s, i);
  }
}
