/** The patched program in the core's instruction memory: the hardware computes what the
    original program means. */
module PatchedCore {
  import opened Words
  import opened Isa
  import opened Rtl
  import opened Core
  import opened ByteMemory
  import opened AluCorrect
  import opened CoreIsa
  import opened Conformance
  import opened LoadPatch

  /** The instruction memory holds the machine code of `program` from address `base` on. */
  predicate Assembled(rom: Rom, base: Word, program: seq<Asm>, symbol: seq<Word>, code: seq<Instr>) {
    && |code| == |program| && base + 4 * |program| < TWO64
    && symbol != [] && WellFormed(program, |symbol| - 1)
    && forall k :: 0 <= k < |program| ==> Placed(rom, base + 4 * k, program[k], symbol, code[k])
  }

  /** One instruction of it. */
  predicate Placed(rom: Rom, pc: Word, a: Asm, symbol: seq<Word>, i: Instr) {
    && Encodable(i) && Fetch(rom, pc) == Encode(i)
    && symbol != [] && WellFormed([a], |symbol| - 1)
    && if a.Plain? then i == a.i else Assembles(a, i, pc, symbol)
  }

  /** Every label stands for the address of its place. */
  predicate Linked(base: Word, layout: Layout) {
    |layout.place| == |layout.symbol| && forall k :: 0 <= k < |layout.symbol| ==> layout.symbol[k] == base + 4 * layout.place[k]
  }

  /** The core is where the machine is. */
  predicate OnCore(s: State, m: Machine, base: Word) {
    s.pc == base + 4 * m.at && s.regs == m.regs && s.ram == m.ram && s.q == m.q
  }

  /** The machine is inside the program, about to jump to no address but a label's, and about
      to make no access that traps. */
  predicate SafeAt(program: seq<Asm>, symbol: seq<Word>, mie: bool, m: Machine) {
    m.at < |program| &&
    match program[m.at]
    case Plain(i) => mie && (i.Load? || i.Store?) ==> Fits(i.w, Address(m.regs, i.rs1, i.imm) % 8)
    case JumpTo(_, rs1, imm, _) => JumpTarget(m.regs, rs1, imm) in symbol
    case _ => true
  }

  /** So it is for `n` steps. */
  predicate Safe(program: seq<Asm>, layout: Layout, late: bool, mie: bool, m: Machine, n: nat)
    requires Fitting(program, layout)
    decreases n
  {
    n == 0 ||
    (SafeAt(program, layout.symbol, mie, m) && Safe(program, layout, late, mie, Step(program, layout, late, m), n - 1))
  }

  // ----- one clock -----

  lemma {:induction false} ResolveFinds(symbol: seq<Word>, v: Word)
    requires v in symbol
    ensures symbol[Resolve(symbol, v)] == v
  {
    if |symbol| > 1 && symbol[0] != v {
      assert v in symbol[1..];
      ResolveFinds(symbol[1..], v);
    }
  }

  lemma PlainClock(rom: Rom, s: State, m: Machine, i: Instr, base: Word)
    requires IsPlain(i) && At(rom, s, i) && OnCore(s, m, base) && base + 4 * (m.at + 1) < TWO64
    requires s.mstatus.mie && (i.Load? || i.Store?) ==> Fits(i.w, Address(m.regs, i.rs1, i.imm) % 8)
    ensures OnCore(Next(rom, s, IDLE), Perform(i, m, m.q), base) && Next(rom, s, IDLE).mstatus == s.mstatus
  {
    hide Next, CoreResult, CoreRam, Encode, Write, Fits, Address, Fetch;
    LateStepIsCoreCycle(rom, s, i);
    StatusKept(rom, s, i);
  }

  lemma TransferClock(rom: Rom, s: State, program: seq<Asm>, layout: Layout, m: Machine, i: Instr, base: Word)
    requires Fitting(program, layout) && Linked(base, layout) && m.at < |program| && !program[m.at].Plain?
    requires WellFormed([program[m.at]], |layout.symbol| - 1) && Assembles(program[m.at], i, s.pc, layout.symbol)
    requires At(rom, s, i) && OnCore(s, m, base) && base + 4 * (m.at + 1) < TWO64
    requires SafeAt(program, layout.symbol, s.mstatus.mie, m)
    ensures OnCore(Next(rom, s, IDLE), Step(program, layout, true, m), base) && Next(rom, s, IDLE).mstatus == s.mstatus
  {
    hide Next, Encode, BranchUnit, Sext12, Sext20, Sext32, Resolve, JumpTarget, Write;
    TransferIsCoreCycle(rom, s, i, program, layout, m);
    StatusKept(rom, s, i);
    if program[m.at].JumpTo? {
      ResolveFinds(layout.symbol, JumpTarget(m.regs, program[m.at].rs1, program[m.at].imm));
    }
  }

  lemma StatusKept(rom: Rom, s: State, i: Instr)
    requires At(rom, s, i) && !Crosses(s, i)
    ensures Next(rom, s, IDLE).mstatus == s.mstatus
  {
    hide Next;
    ClockExecutes(rom, s, i);
  }

  /** One step of the late machine is one clock of the core. */
  lemma OneClock(rom: Rom, s: State, program: seq<Asm>, layout: Layout, code: seq<Instr>, m: Machine, base: Word)
    requires Fitting(program, layout) && Assembled(rom, base, program, layout.symbol, code) && Linked(base, layout)
    requires OnCore(s, m, base) && SafeAt(program, layout.symbol, s.mstatus.mie, m)
    ensures OnCore(Next(rom, s, IDLE), Step(program, layout, true, m), base) && Next(rom, s, IDLE).mstatus == s.mstatus
  {
    hide Next, Encode, Perform, Assembles, Linked, JumpTarget, Resolve, Fits;
    var a, i := program[m.at], code[m.at];
    assert Placed(rom, base + 4 * m.at, a, layout.symbol, i);
    if a.Plain? {
      StepPlain(program, layout, true, m, i);
      PlainClock(rom, s, m, i, base);
    } else {
      TransferClock(rom, s, program, layout, m, i, base);
    }
  }

  /** Any number of steps is that number of clocks. */
  lemma {:induction false} LateRunIsCoreRun(rom: Rom, s: State, program: seq<Asm>, layout: Layout, code: seq<Instr>, m: Machine,
                                            base: Word, n: nat)
    requires Fitting(program, layout) && Assembled(rom, base, program, layout.symbol, code) && Linked(base, layout)
    requires OnCore(s, m, base) && Safe(program, layout, true, s.mstatus.mie, m, n)
    ensures OnCore(Run(rom, s, Idle(n)), Steps(program, layout, true, m, n), base)
    decreases n
  {
    hide Next, Step, Assembled, Linked, OnCore, SafeAt;
    if n > 0 {
      OneClock(rom, s, program, layout, code, m, base);
      LateRunIsCoreRun(rom, Next(rom, s, IDLE), program, layout, code, Step(program, layout, true, m), base, n - 1);
      assert Idle(n)[0] == IDLE && Idle(n)[1..] == Idle(n - 1);
    }
  }

  // ----- the patch keeps programs safe -----

  lemma OneSafeStep(program: seq<Asm>, layout: Layout, mie: bool, m: Machine, n: nat)
    requires Fitting(program, layout) && SafeAt(program, layout.symbol, mie, m)
    requires n == 0 || Safe(program, layout, true, mie, Step(program, layout, true, m), n)
    ensures Safe(program, layout, true, mie, m, n + 1)
  {
    hide Step, SafeAt;
  }

  lemma NoStepIsSafe(program: seq<Asm>, layout: Layout, mie: bool, m: Machine)
    requires Fitting(program, layout)
    ensures Safe(program, layout, true, mie, m, 0)
  {
  }

  lemma SafeAccess(program: seq<Asm>, symbol: seq<Word>, mie: bool, m: Machine, i: Instr)
    requires m.at < |program| && program[m.at] == Plain(i)
    requires mie && (i.Load? || i.Store?) ==> Fits(i.w, Address(m.regs, i.rs1, i.imm) % 8)
    ensures SafeAt(program, symbol, mie, m)
  {
  }

  /** What is no load is as safe in the patch. */
  lemma SameIsSafe(program: seq<Asm>, symbol: seq<Word>, mie: bool, m: Machine, l: Machine)
    requires Patchable(program, symbol) && Synced(program, m, l) && SafeAt(program, symbol, mie, m)
    requires !(program[m.at].Plain? && program[m.at].i.Load?)
    ensures SafeAt(Patch(program), symbol, mie, l)
  {
    hide Patch, Position, AgreeButT6, JumpTarget, Read, Fits, Sext12;
    PatchAt(program, m.at, 0);
    var a := program[m.at];
    assert SparesT6(a) && Patch(program)[l.at] == a;
    match a
    case Plain(i) =>
      if i.Store? {
        ReadAgrees(m.regs, l.regs, i.rs1);
      }
    case JumpTo(_, rs1, imm, _) => TargetAgrees(m.regs, l.regs, rs1, imm);
    case _ =>
  }

  lemma RepeatedIsSafe(program: seq<Asm>, symbol: seq<Word>, mie: bool, m: Machine, l: Machine, load: Instr)
    requires Patchable(program, symbol) && Synced(program, m, l) && SafeAt(program, symbol, mie, m)
    requires program[m.at] == Plain(load) && load.Load? && load.rd != load.rs1
    ensures Fitting(Patch(program), PatchedLayout(program, symbol))
    ensures Safe(Patch(program), PatchedLayout(program, symbol), true, mie, l, 2)
  {
    PatchedFits(program, symbol);
    assert SparesT6(program[m.at]);
    PatchAt(program, m.at, 0);
    PatchAt(program, m.at, 1);
    hide Patch, Position, Fitting, Step, Perform, Address, Fits, Write, Datum, Safe, AgreeButT6;
    var p, pl, a := Patch(program), PatchedLayout(program, symbol), Address(m.regs, load.rs1, load.imm);
    assert p[l.at] == Plain(load) && p[l.at + 1] == Plain(load);
    AddressKept(m.regs, l.regs, load, Datum(load, l.q, a));
    StepPlain(p, pl, true, l, load);
    PerformLoad(load, l, l.q, a);
    var once := Step(p, pl, true, l);
    SafeAccess(p, symbol, mie, once, load);
    OneSafeStep(p, pl, mie, once, 0);
    SafeAccess(p, symbol, mie, l, load);
    OneSafeStep(p, pl, mie, l, 1);
  }

  lemma SameAddress(x: Regs, r: Reg, y: Regs, q: Reg, imm: bv12)
    requires Read(x, r) == Read(y, q)
    ensures Address(x, r, imm) == Address(y, q, imm)
  {
  }

  lemma MovedIsSafe(program: seq<Asm>, symbol: seq<Word>, mie: bool, m: Machine, l: Machine, load: Instr)
    requires Patchable(program, symbol) && Synced(program, m, l) && SafeAt(program, symbol, mie, m)
    requires program[m.at] == Plain(load) && load.Load? && load.rd == load.rs1
    ensures Fitting(Patch(program), PatchedLayout(program, symbol))
    ensures Safe(Patch(program), PatchedLayout(program, symbol), true, mie, l, 3)
  {
    PatchedFits(program, symbol);
    assert SparesT6(program[m.at]);
    PatchAt(program, m.at, 0);
    PatchAt(program, m.at, 1);
    PatchAt(program, m.at, 2);
    ReadAgrees(m.regs, l.regs, load.rd);
    hide Patch, Position, Fitting, Step, Perform, Fits, Address, Datum, Safe, AgreeButT6, Write, OriginalLayout, PatchedLayout;
    var p, pl, a := Patch(program), PatchedLayout(program, symbol), Address(m.regs, load.rs1, load.imm);
    var move, moved := OpImm(Add, T6, load.rd, 0), Moved(load);
    assert p[l.at] == Plain(move) && p[l.at + 1] == p[l.at + 2] == Plain(moved);
    StepPlain(p, pl, true, l, move);
    MoveCopies(load.rd, l);
    var saved := Step(p, pl, true, l);
    SameAddress(saved.regs, T6, m.regs, load.rs1, load.imm);
    StepPlain(p, pl, true, saved, moved);
    PerformLoad(moved, saved, saved.q, a);
    var once := Step(p, pl, true, saved);
    SameAddress(once.regs, T6, m.regs, load.rs1, load.imm);
    SafeAccess(p, symbol, mie, once, moved);
    OneSafeStep(p, pl, mie, once, 0);
    SafeAccess(p, symbol, mie, saved, moved);
    OneSafeStep(p, pl, mie, saved, 1);
    SafeAccess(p, symbol, mie, l, move);
    OneSafeStep(p, pl, mie, l, 2);
  }

  lemma StepIsSafe(program: seq<Asm>, symbol: seq<Word>, mie: bool, m: Machine, l: Machine)
    requires Patchable(program, symbol) && Synced(program, m, l) && SafeAt(program, symbol, mie, m)
    ensures Fitting(Patch(program), PatchedLayout(program, symbol))
    ensures Safe(Patch(program), PatchedLayout(program, symbol), true, mie, l, |PatchOne(program[m.at])|)
  {
    hide Patch, Position, Synced, Safe, Fitting, WellFormed;
    PatchedFits(program, symbol);
    var a := program[m.at];
    if a.Plain? && a.i.Load? {
      if a.i.rd == a.i.rs1 {
        MovedIsSafe(program, symbol, mie, m, l, a.i);
      } else {
        RepeatedIsSafe(program, symbol, mie, m, l, a.i);
      }
    } else {
      SameIsSafe(program, symbol, mie, m, l);
      OneSafeStep(Patch(program), PatchedLayout(program, symbol), mie, l, 0);
    }
  }

  lemma {:induction false} SafeConcat(program: seq<Asm>, layout: Layout, mie: bool, m: Machine, a: nat, b: nat)
    requires Fitting(program, layout) && Safe(program, layout, true, mie, m, a)
    requires Safe(program, layout, true, mie, Steps(program, layout, true, m, a), b)
    ensures Safe(program, layout, true, mie, m, a + b)
    decreases a
  {
    hide Step, SafeAt;
    if a > 0 {
      SafeConcat(program, layout, mie, Step(program, layout, true, m), a - 1, b);
    }
  }

  /** A safe run of the original is a safe run of the patch. */
  lemma {:induction false} PatchedRunIsSafe(program: seq<Asm>, symbol: seq<Word>, mie: bool, m: Machine, l: Machine, n: nat)
    requires Patchable(program, symbol) && Synced(program, m, l)
    requires Fitting(program, OriginalLayout(program, symbol))
    requires Safe(program, OriginalLayout(program, symbol), false, mie, m, n)
    ensures Fitting(Patch(program), PatchedLayout(program, symbol))
    ensures Safe(Patch(program), PatchedLayout(program, symbol), true, mie, l, Cost(program, symbol, m, n))
    decreases n
  {
    hide Step, Patch, PatchOne, Synced, Position, SafeAt, Fitting;
    PatchedFits(program, symbol);
    var p, pl := Patch(program), PatchedLayout(program, symbol);
    if n > 0 {
      InProgram(program, symbol, mie, m);
      StepIsSafe(program, symbol, mie, m, l);
      StepSimulates(program, symbol, m, l);
      var here := |PatchOne(program[m.at])|;
      var m' := Step(program, OriginalLayout(program, symbol), false, m);
      PatchedRunIsSafe(program, symbol, mie, m', Steps(p, pl, true, l, here), n - 1);
      SafeConcat(p, pl, mie, l, here, Cost(program, symbol, m', n - 1));
    } else {
      NoStepIsSafe(p, pl, mie, l);
    }
  }

  lemma InProgram(program: seq<Asm>, symbol: seq<Word>, mie: bool, m: Machine)
    requires SafeAt(program, symbol, mie, m)
    ensures m.at < |program|
  {
  }

  /** With the patched program in its instruction memory the core, loads answered one clock
      late, does for any number of instructions what the original program means: the same
      memory, the same registers but t6, and the address of the label reached. */
  lemma CoreRunsProgram(rom: Rom, s: State, program: seq<Asm>, symbol: seq<Word>, code: seq<Instr>, base: Word,
                        m: Machine, n: nat)
    requires Patchable(program, symbol) && Assembled(rom, base, Patch(program), symbol, code)
    requires Linked(base, PatchedLayout(program, symbol)) && Fitting(program, OriginalLayout(program, symbol))
    requires m.at <= |program| && s.pc == base + 4 * Position(program, m.at)
    requires AgreeButT6(m.regs, s.regs) && m.ram == s.ram
    requires Safe(program, OriginalLayout(program, symbol), false, s.mstatus.mie, m, n)
    ensures var t := Run(rom, s, Idle(Cost(program, symbol, m, n)));
      var m' := Steps(program, OriginalLayout(program, symbol), false, m, n);
      && m'.at <= |program| && t.pc == base + 4 * Position(program, m'.at)
      && AgreeButT6(m'.regs, t.regs) && m'.ram == t.ram
  {
    hide Next, Step, Patch, PatchOne, Position, SafeAt, Fitting, Assembled, Linked, AgreeButT6, Run, Steps, Safe, Cost;
    PatchedFits(program, symbol);
    var l := Machine(Position(program, m.at), s.regs, s.ram, s.q);
    PatchedRunAgrees(program, symbol, m, l, n);
    PatchedRunIsSafe(program, symbol, s.mstatus.mie, m, l, n);
    LateRunIsCoreRun(rom, s, Patch(program), PatchedLayout(program, symbol), code, l, base, Cost(program, symbol, m, n));
  }
}
