/** The load-duplicating patch, and why programs need it: the core's RAM hands a load
    the word addressed by the load before it.

    Programs are sequences of assembly instructions with labels; a label names an
    instruction of the original program, and code addresses stay symbolic. */
module LoadPatch {
  import opened Words
  import opened Isa
  import opened Rtl
  import opened Core
  import opened ByteMemory
  import opened AluCorrect
  import opened CoreIsa
  import opened Conformance

  const T6: Reg := 31

  type Label = nat

  datatype Asm =
    | Plain(i: Instr)                        // no control transfer
    | BranchTo(c: Cond, rs1: Reg, rs2: Reg, target: Label)
    | Call(rd: Reg, target: Label, ret: Label)
    | JumpTo(rd: Reg, rs1: Reg, imm: bv12, ret: Label)
    | CodeAddress(rd: Reg, target: Label)

  predicate IsPlain(i: Instr) {
    Encodable(i) && !i.Jal? && !i.Jalr? && !i.Branch? && !i.Auipc?
  }

  /** A program of `n` labels: every instruction is encodable and every label exists. */
  predicate WellFormed(program: seq<Asm>, n: nat) {
    forall k :: 0 <= k < |program| ==>
      match program[k]
      case Plain(i) => IsPlain(i)
      case BranchTo(_, _, _, target) => target <= n
      case Call(_, target, ret) => target <= n && ret <= n
      case JumpTo(_, _, _, ret) => ret <= n
      case CodeAddress(_, target) => target <= n
  }

  /** Where each label is, and the word that stands for it in registers and memory. */
  datatype Layout = Layout(place: seq<nat>, symbol: seq<Word>)

  datatype Machine = Machine(at: nat, regs: Regs, ram: Ram, q: Lanes)

  /** The label a code address denotes; the end label for an address that denotes none. */
  function Resolve(symbol: seq<Word>, v: Word): (l: Label)
    requires symbol != []
    ensures l < |symbol|
  {
    if |symbol| == 1 || symbol[0] == v then 0 else 1 + Resolve(symbol[1..], v)
  }

  // ----- one instruction -----

  /** Registers, memory and RAM output after an instruction that transfers no control,
      given the word the RAM presents to a load. */
  function Perform(i: Instr, m: Machine, word: Lanes): Machine
    requires IsPlain(i)
  {
    m.(at := m.at + 1,
       regs := Write(m.regs, Dest(i), CoreResult(i, 0, m.regs, word)),
       ram := CoreRam(i, m.regs, m.ram),
       q := AddressedWord(i, m))
  }

  function AddressedWord(i: Instr, m: Machine): Lanes {
    if i.Load? then m.ram[Address(m.regs, i.rs1, i.imm) / 8 % 4096] else m.q
  }

  predicate Fitting(program: seq<Asm>, layout: Layout) {
    |layout.place| == |layout.symbol| > 0 && WellFormed(program, |layout.place| - 1)
  }

  /** One step; `late` says whether a load sees the RAM's output register or the
      addressed word itself. */
  function Step(program: seq<Asm>, layout: Layout, late: bool, m: Machine): Machine
    requires Fitting(program, layout)
  {
    if m.at >= |program| then m
    else
      match program[m.at]
      case Plain(i) => Perform(i, m, if late then m.q else AddressedWord(i, m))
      case BranchTo(c, rs1, rs2, target) =>
        m.(at := if BranchUnit(c, Read(m.regs, rs1), Read(m.regs, rs2)) then layout.place[target] else m.at + 1)
      case Call(rd, target, ret) =>
        m.(at := layout.place[target], regs := Write(m.regs, rd, layout.symbol[ret]))
      case JumpTo(rd, rs1, imm, ret) =>
        m.(at := layout.place[Resolve(layout.symbol, JumpTarget(m.regs, rs1, imm))],
           regs := Write(m.regs, rd, layout.symbol[ret]))
      case CodeAddress(rd, target) =>
        m.(at := m.at + 1, regs := Write(m.regs, rd, layout.symbol[target]))
  }

  /** The target of a computed jump, bit 0 cleared. */
  function JumpTarget(regs: Regs, rs1: Reg, imm: bv12): Word {
    var a := Address(regs, rs1, imm);
    a - a % 2
  }

  function Steps(program: seq<Asm>, layout: Layout, late: bool, m: Machine, n: nat): Machine
    requires Fitting(program, layout)
    decreases n
  {
    if n == 0 then m else Steps(program, layout, late, Step(program, layout, late, m), n - 1)
  }

  /** The late machine is the core: same registers, memory and RAM output as one
      undisturbed clock cycle of the hardware. */
  lemma LateStepIsCoreCycle(rom: Rom, s: State, i: Instr)
    requires IsPlain(i) && At(rom, s, i) && !Crosses(s, i)
    ensures var t := Next(rom, s, IDLE);
      var m := Perform(i, Machine(0, s.regs, s.ram, s.q), s.q);
      t.regs == m.regs && t.ram == m.ram && t.q == m.q && t.pc == (s.pc + 4) % TWO64
  {
    hide Next, CoreResult, CoreRam, Encode, Result, Write;
    ClockExecutes(rom, s, i);
    ResultIgnoresPc(i, s.pc, s.regs, s.q);
  }

  lemma ResultIgnoresPc(i: Instr, pc: Word, regs: Regs, q: Lanes)
    requires IsPlain(i)
    ensures CoreResult(i, pc, regs, q) == CoreResult(i, 0, regs, q)
  {
    hide AluResult32, MemReadMask, FromLanes, Compute, Compute32;
  }

  /** `i` at `pc` is what the assembler makes of a control transfer, when the labels it
      names stand for the addresses in `symbol`. */
  predicate Assembles(a: Asm, i: Instr, pc: Word, symbol: seq<Word>)
    requires !a.Plain? && symbol != [] && WellFormed([a], |symbol| - 1)
  {
    assert [a][0] == a;
    match a
    case BranchTo(c, rs1, rs2, target) =>
      i.Branch? && i.c == c && i.rs1 == rs1 && i.rs2 == rs2 && symbol[target] == (pc + 2 * Sext12(i.half12)) % TWO64
    case Call(rd, target, ret) =>
      i.Jal? && i.rd == rd && symbol[target] == (pc + 2 * Sext20(i.half)) % TWO64 && symbol[ret] == (pc + 4) % TWO64
    case JumpTo(rd, rs1, imm, ret) =>
      i == Jalr(rd, rs1, imm) && symbol[ret] == (pc + 4) % TWO64
    case CodeAddress(rd, target) =>
      i.Auipc? && i.rd == rd && symbol[target] == (pc + Sext32(i.upper as int * 0x1000)) % TWO64
  }

  /** Likewise for control transfers: same registers, memory and RAM output, and the pc
      goes to the address of the label reached. */
  lemma TransferIsCoreCycle(rom: Rom, s: State, i: Instr, program: seq<Asm>, layout: Layout, m: Machine)
    requires Fitting(program, layout) && m.at < |program| && !program[m.at].Plain?
    requires WellFormed([program[m.at]], |layout.symbol| - 1) && Assembles(program[m.at], i, s.pc, layout.symbol)
    requires At(rom, s, i) && m.regs == s.regs && m.ram == s.ram && m.q == s.q
    ensures var t := Next(rom, s, IDLE);
      var m' := Step(program, layout, true, m);
      && t.regs == m'.regs && t.ram == m'.ram && t.q == m'.q
      && t.pc == match program[m.at]
                 case BranchTo(c, rs1, rs2, target) =>
                   if BranchUnit(c, Read(m.regs, rs1), Read(m.regs, rs2)) then layout.symbol[target]
                   else (s.pc + 4) % TWO64
                 case Call(_, target, _) => layout.symbol[target]
                 case JumpTo(_, rs1, imm, _) => JumpTarget(m.regs, rs1, imm)
                 case _ => (s.pc + 4) % TWO64
  {
    hide Next, Encode, BranchUnit, Sext12, Sext20, Sext32, Perform, Resolve, Write, AluResult32, Compute, MemReadMask, RamWrite, ToLanes;
    WriteNothing(m.regs, 0);
    ClockExecutes(rom, s, i);
  }

  // ----- the patch -----

  /** The load with its base moved to t6. */
  function Moved(load: Instr): Instr
    requires load.Load?
  {
    Load(load.w, load.unsigned, load.rd, T6, load.imm)
  }

  function PatchOne(a: Asm): (patch: seq<Asm>)
    ensures |patch| > 0
  {
    if a.Plain? && a.i.Load? then
      var load := a.i;
      if load.rd == load.rs1 then
        [Plain(OpImm(Add, T6, load.rd, 0)), Plain(Moved(load)), Plain(Moved(load))]
      else [a, a]
    else [a]
  }

  function Patch(program: seq<Asm>): seq<Asm> {
    if program == [] then [] else PatchOne(program[0]) + Patch(program[1..])
  }

  /** Where the patched program starts the code of instruction `k`. */
  function Position(program: seq<Asm>, k: nat): nat
    requires k <= |program|
  {
    if k == 0 then 0 else |PatchOne(program[0])| + Position(program[1..], k - 1)
  }

  lemma {:induction false} PatchAt(program: seq<Asm>, k: nat, j: nat)
    requires k < |program| && j < |PatchOne(program[k])|
    ensures Position(program, k) + j < |Patch(program)|
    ensures Patch(program)[Position(program, k) + j] == PatchOne(program[k])[j]
    ensures Position(program, k + 1) == Position(program, k) + |PatchOne(program[k])|
    decreases k
  {
    if k > 0 {
      PatchAt(program[1..], k - 1, j);
    }
  }

  lemma {:induction false} PositionOfEnd(program: seq<Asm>)
    ensures Position(program, |program|) == |Patch(program)|
  {
    if program != [] {
      PositionOfEnd(program[1..]);
    }
  }

  lemma {:induction false} PatchWellFormed(program: seq<Asm>, n: nat)
    requires WellFormed(program, n)
    ensures WellFormed(Patch(program), n)
  {
    if program != [] {
      assert WellFormed(program[1..], n);
      PatchWellFormed(program[1..], n);
      assert WellFormed([program[0]], n);
      assert WellFormed(PatchOne(program[0]), n);
    }
  }

  /** The layout of the original program: label `k` is position `k`. */
  function OriginalLayout(program: seq<Asm>, symbol: seq<Word>): Layout {
    Layout(seq(|program| + 1, k => k), symbol)
  }

  function PatchedLayout(program: seq<Asm>, symbol: seq<Word>): Layout {
    Layout(seq(|program| + 1, k requires 0 <= k <= |program| => Position(program, k)), symbol)
  }

  // ----- the simulation -----

  /** The instruction never names t6. */
  predicate SparesT6(a: Asm) {
    match a
    case Plain(i) => Dest(i) != T6 && ReadsNot(i, T6)
    case BranchTo(_, rs1, rs2, _) => rs1 != T6 && rs2 != T6
    case Call(rd, _, _) => rd != T6
    case JumpTo(rd, rs1, _, _) => rd != T6 && rs1 != T6
    case CodeAddress(rd, _) => rd != T6
  }

  predicate ReadsNot(i: Instr, r: Reg) {
    match i
    case Op(_, _, rs1, rs2) => rs1 != r && rs2 != r
    case Op32(_, _, rs1, rs2) => rs1 != r && rs2 != r
    case Store(_, rs1, rs2, _) => rs1 != r && rs2 != r
    case Branch(_, rs1, rs2, _) => rs1 != r && rs2 != r
    case Lui(_, _) => true
    case Auipc(_, _) => true
    case Jal(_, _) => true
    case _ => i.rs1 != r
  }

  ghost predicate AgreeButT6(x: Regs, y: Regs) {
    forall r: Reg :: r != T6 ==> Read(x, r) == Read(y, r)
  }

  /** Between original instructions both machines are at the same label, with the same
      memory and the same registers but t6. */
  ghost predicate Synced(program: seq<Asm>, ideal: Machine, late: Machine) {
    && ideal.at <= |program| && late.at == Position(program, ideal.at)
    && AgreeButT6(ideal.regs, late.regs) && ideal.ram == late.ram
  }

  lemma ResultAgrees(i: Instr, x: Regs, y: Regs, word: Lanes, word': Lanes)
    requires IsPlain(i) && !i.Load? && !i.Store? && ReadsNot(i, T6) && AgreeButT6(x, y)
    ensures CoreResult(i, 0, x, word) == CoreResult(i, 0, y, word')
  {
    hide Compute, Compute32, AluResult32;
  }

  lemma WriteAgrees(x: Regs, y: Regs, rd: Reg, v: Word)
    requires AgreeButT6(x, y)
    ensures AgreeButT6(Write(x, rd, v), Write(y, rd, v))
  {
  }

  lemma ReadAgrees(x: Regs, y: Regs, r: Reg)
    requires AgreeButT6(x, y) && r != T6
    ensures Read(x, r) == Read(y, r)
  {
  }

  lemma TargetAgrees(x: Regs, y: Regs, rs1: Reg, imm: bv12)
    requires AgreeButT6(x, y) && rs1 != T6
    ensures JumpTarget(x, rs1, imm) == JumpTarget(y, rs1, imm)
  {
    hide Sext12;
    ReadAgrees(x, y, rs1);
  }

  lemma StoreAgrees(i: Instr, x: Regs, y: Regs, ram: Ram)
    requires i.Store? && ReadsNot(i, T6) && AgreeButT6(x, y)
    ensures CoreRam(i, x, ram) == CoreRam(i, y, ram)
  {
    assert Read(x, i.rs1) == Read(y, i.rs1) && Read(x, i.rs2) == Read(y, i.rs2);
    assert Address(x, i.rs1, i.imm) == Address(y, i.rs1, i.imm);
    hide RamWrite, ToLanes, Address, AgreeButT6, Read;
  }

  lemma WriteNothing(regs: Regs, v: Word)
    ensures Write(regs, 0, v) == regs
  {
  }

  /** Anything but a load does the same on both machines. */
  lemma SamePerform(i: Instr, m: Machine, l: Machine, word: Lanes, word': Lanes)
    requires IsPlain(i) && !i.Load? && ReadsNot(i, T6)
    requires AgreeButT6(m.regs, l.regs) && m.ram == l.ram
    ensures var m', l' := Perform(i, m, word), Perform(i, l, word');
      AgreeButT6(m'.regs, l'.regs) && m'.ram == l'.ram && l'.at == l.at + 1 && m'.at == m.at + 1
  {
    hide CoreResult, RamWrite, ToLanes, Write, AgreeButT6;
    if i.Store? {
      StoreAgrees(i, m.regs, l.regs, m.ram);
      WriteNothing(m.regs, CoreResult(i, 0, m.regs, word));
      WriteNothing(l.regs, CoreResult(i, 0, l.regs, word'));
    } else {
      ResultAgrees(i, m.regs, l.regs, word, word');
      WriteAgrees(m.regs, l.regs, Dest(i), CoreResult(i, 0, m.regs, word));
    }
  }

  /** The datum a load extracts from a word. */
  function Datum(load: Instr, word: Lanes, a: Word): Word
    requires load.Load?
  {
    FromLanes(MemReadMask(word, !load.unsigned, WidthCode(load.w), a % 8))
  }

  lemma PerformLoad(load: Instr, m: Machine, word: Lanes, a: Word)
    requires load.Load? && IsPlain(load) && a == Address(m.regs, load.rs1, load.imm)
    ensures Perform(load, m, word)
            == m.(at := m.at + 1, regs := Write(m.regs, load.rd, Datum(load, word, a)), q := m.ram[a / 8 % 4096])
    ensures AddressedWord(load, m) == m.ram[a / 8 % 4096]
  {
  }

  /** A stale value written first is overwritten by the second write. */
  lemma SecondWriteWins(x: Regs, y: Regs, rd: Reg, stale: Word, v: Word)
    requires AgreeButT6(x, y)
    ensures AgreeButT6(Write(x, rd, v), Write(Write(y, rd, stale), rd, v))
  {
  }

  /** The first of the two loads leaves the address of the second as it was. */
  lemma AddressKept(x: Regs, y: Regs, load: Instr, stale: Word)
    requires load.Load? && load.rd != load.rs1 && load.rs1 != T6 && AgreeButT6(x, y)
    ensures Address(y, load.rs1, load.imm) == Address(x, load.rs1, load.imm)
    ensures Address(Write(y, load.rd, stale), load.rs1, load.imm) == Address(x, load.rs1, load.imm)
  {
    hide Sext12;
    assert Read(y, load.rs1) == Read(x, load.rs1) == Read(Write(y, load.rd, stale), load.rs1);
  }

  /** A repeated load: whatever the first one found, the second finds the addressed word. */
  lemma RepeatedLoad(load: Instr, m: Machine, l: Machine)
    requires load.Load? && IsPlain(load) && load.rd != load.rs1 && load.rs1 != T6 && load.rd != T6
    requires AgreeButT6(m.regs, l.regs) && m.ram == l.ram
    ensures var m' := Perform(load, m, AddressedWord(load, m));
      var once := Perform(load, l, l.q);
      var l' := Perform(load, once, once.q);
      && AgreeButT6(m'.regs, l'.regs) && m'.ram == l'.ram
      && m'.at == m.at + 1 && once.at == l.at + 1 && l'.at == l.at + 2
  {
    hide Perform, Datum, Write, Address, AgreeButT6;
    var a := Address(m.regs, load.rs1, load.imm);
    PerformLoad(load, m, AddressedWord(load, m), a);
    AddressKept(m.regs, l.regs, load, Datum(load, l.q, a));
    PerformLoad(load, l, l.q, a);
    var once := Perform(load, l, l.q);
    PerformLoad(load, once, once.q, a);
    SecondWriteWins(m.regs, l.regs, load.rd, Datum(load, l.q, a), Datum(load, m.ram[a / 8 % 4096], a));
  }

  /** The pseudo-instruction mv. */
  lemma MoveCopies(rd: Reg, l: Machine)
    ensures Perform(OpImm(Add, T6, rd, 0), l, l.q) == l.(at := l.at + 1, regs := Write(l.regs, T6, Read(l.regs, rd)))
  {
    hide Bits, Shl, Shr, Sar, Write;
    assert CoreResult(OpImm(Add, T6, rd, 0), 0, l.regs, l.q) == Read(l.regs, rd);
  }

  /** A load whose destination is its own base: the base is saved in t6 first. */
  lemma MovedLoad(load: Instr, m: Machine, l: Machine)
    requires load.Load? && IsPlain(load) && load.rd == load.rs1 && load.rd != T6
    requires AgreeButT6(m.regs, l.regs) && m.ram == l.ram
    ensures var m' := Perform(load, m, AddressedWord(load, m));
      var moved := Moved(load);
      var saved := Perform(OpImm(Add, T6, load.rd, 0), l, l.q);
      var once := Perform(moved, saved, saved.q);
      var l' := Perform(moved, once, once.q);
      && AgreeButT6(m'.regs, l'.regs) && m'.ram == l'.ram
      && m'.at == m.at + 1 && saved.at == l.at + 1 && once.at == l.at + 2 && l'.at == l.at + 3
  {
    hide Perform, MemReadMask, FromLanes, Write;
    var a := Address(m.regs, load.rs1, load.imm);
    var moved := Moved(load);
    PerformLoad(load, m, AddressedWord(load, m), a);
    MoveCopies(load.rd, l);
    var saved := Perform(OpImm(Add, T6, load.rd, 0), l, l.q);
    assert AgreeButT6(m.regs, saved.regs) && Read(saved.regs, T6) == Read(m.regs, load.rs1);
    PerformLoad(moved, saved, saved.q, a);
    var once := Perform(moved, saved, saved.q);
    assert Read(once.regs, T6) == Read(saved.regs, T6);
    PerformLoad(moved, once, once.q, a);
    SecondWriteWins(m.regs, saved.regs, load.rd, Datum(moved, saved.q, a), Datum(load, m.ram[a / 8 % 4096], a));
  }

  /** The program, its symbols, and both layouts belong together. */
  ghost predicate Patchable(program: seq<Asm>, symbol: seq<Word>) {
    && WellFormed(program, |program|) && |symbol| == |program| + 1
    && forall k :: 0 <= k < |program| ==> SparesT6(program[k])
  }

  lemma PatchedFits(program: seq<Asm>, symbol: seq<Word>)
    requires Patchable(program, symbol)
    ensures Fitting(program, OriginalLayout(program, symbol))
    ensures Fitting(Patch(program), PatchedLayout(program, symbol))
  {
    PatchWellFormed(program, |program|);
  }

  /** A control transfer reaches the same label on both machines. */
  lemma TransferSimulates(program: seq<Asm>, symbol: seq<Word>, m: Machine, l: Machine)
    requires Patchable(program, symbol) && Synced(program, m, l) && m.at < |program| && !program[m.at].Plain?
    ensures Fitting(program, OriginalLayout(program, symbol)) && Fitting(Patch(program), PatchedLayout(program, symbol))
    ensures Synced(program, Step(program, OriginalLayout(program, symbol), false, m),
                   Step(Patch(program), PatchedLayout(program, symbol), true, l))
  {
    hide Perform, Position, Patch, BranchUnit, Resolve, Fitting, JumpTarget, AgreeButT6, Read, Write;
    PatchedFits(program, symbol);
    PatchAt(program, m.at, 0);
    var a := program[m.at];
    assert SparesT6(a) && Patch(program)[l.at] == a;
    match a
    case BranchTo(_, rs1, rs2, _) =>
      ReadAgrees(m.regs, l.regs, rs1);
      ReadAgrees(m.regs, l.regs, rs2);
    case Call(rd, _, ret) => WriteAgrees(m.regs, l.regs, rd, symbol[ret]);
    case JumpTo(rd, rs1, imm, ret) =>
      TargetAgrees(m.regs, l.regs, rs1, imm);
      WriteAgrees(m.regs, l.regs, rd, symbol[ret]);
    case CodeAddress(rd, target) => WriteAgrees(m.regs, l.regs, rd, symbol[target]);
  }

  /** One step at an instruction without control transfer. */
  lemma StepPlain(program: seq<Asm>, layout: Layout, late: bool, m: Machine, i: Instr)
    requires Fitting(program, layout) && m.at < |program| && program[m.at] == Plain(i)
    ensures IsPlain(i)
    ensures Step(program, layout, late, m) == Perform(i, m, if late then m.q else AddressedWord(i, m))
  {
  }

  lemma StepsUnfold(program: seq<Asm>, layout: Layout, m: Machine, n: nat)
    requires Fitting(program, layout) && n > 0
    ensures Steps(program, layout, true, m, n) == Steps(program, layout, true, Step(program, layout, true, m), n - 1)
    ensures Steps(program, layout, true, m, 0) == m
  {
  }

  lemma RepeatedLoadSimulates(program: seq<Asm>, symbol: seq<Word>, m: Machine, l: Machine, load: Instr)
    requires Patchable(program, symbol) && Synced(program, m, l) && m.at < |program|
    requires program[m.at] == Plain(load) && load.Load? && load.rd != load.rs1
    ensures Fitting(program, OriginalLayout(program, symbol)) && Fitting(Patch(program), PatchedLayout(program, symbol))
    ensures Synced(program, Step(program, OriginalLayout(program, symbol), false, m),
                   Steps(Patch(program), PatchedLayout(program, symbol), true, l, 2))
  {
    hide Perform, Step, Steps, AgreeButT6, PatchedLayout, OriginalLayout, Fitting, Position, Patch;
    PatchedFits(program, symbol);
    var p, pl := Patch(program), PatchedLayout(program, symbol);
    assert SparesT6(program[m.at]);
    PatchAt(program, m.at, 0);
    PatchAt(program, m.at, 1);
    StepPlain(program, OriginalLayout(program, symbol), false, m, load);
    RepeatedLoad(load, m, l);
    StepPlain(p, pl, true, l, load);
    var once := Step(p, pl, true, l);
    StepPlain(p, pl, true, once, load);
    StepsUnfold(p, pl, l, 2);
    StepsUnfold(p, pl, once, 1);
    StepsUnfold(p, pl, Step(p, pl, true, once), 1);
  }

  lemma MovedLoadSimulates(program: seq<Asm>, symbol: seq<Word>, m: Machine, l: Machine, load: Instr)
    requires Patchable(program, symbol) && Synced(program, m, l) && m.at < |program|
    requires program[m.at] == Plain(load) && load.Load? && load.rd == load.rs1
    ensures Fitting(program, OriginalLayout(program, symbol)) && Fitting(Patch(program), PatchedLayout(program, symbol))
    ensures Synced(program, Step(program, OriginalLayout(program, symbol), false, m),
                   Steps(Patch(program), PatchedLayout(program, symbol), true, l, 3))
  {
    hide Perform, Step, Steps, AgreeButT6, PatchedLayout, OriginalLayout, Fitting, Position, Patch;
    PatchedFits(program, symbol);
    var p, pl := Patch(program), PatchedLayout(program, symbol);
    assert SparesT6(program[m.at]);
    PatchAt(program, m.at, 0);
    PatchAt(program, m.at, 1);
    PatchAt(program, m.at, 2);
    StepPlain(program, OriginalLayout(program, symbol), false, m, load);
    MovedLoad(load, m, l);
    var moved := Moved(load);
    StepPlain(p, pl, true, l, OpImm(Add, T6, load.rd, 0));
    var saved := Step(p, pl, true, l);
    StepPlain(p, pl, true, saved, moved);
    var once := Step(p, pl, true, saved);
    StepPlain(p, pl, true, once, moved);
    StepsUnfold(p, pl, l, 3);
    StepsUnfold(p, pl, saved, 2);
    StepsUnfold(p, pl, once, 1);
    StepsUnfold(p, pl, Step(p, pl, true, once), 1);
  }

  /** One original instruction on the ideal core is its patch on the late core. */
  lemma StepSimulates(program: seq<Asm>, symbol: seq<Word>, m: Machine, l: Machine)
    requires Patchable(program, symbol) && Synced(program, m, l) && m.at < |program|
    ensures Fitting(program, OriginalLayout(program, symbol)) && Fitting(Patch(program), PatchedLayout(program, symbol))
    ensures Synced(program, Step(program, OriginalLayout(program, symbol), false, m),
                   Steps(Patch(program), PatchedLayout(program, symbol), true, l, |PatchOne(program[m.at])|))
  {
    hide Perform, Step, Steps;
    PatchedFits(program, symbol);
    var a, p, pl := program[m.at], Patch(program), PatchedLayout(program, symbol);
    if a.Plain? && a.i.Load? {
      if a.i.rd == a.i.rs1 {
        MovedLoadSimulates(program, symbol, m, l, a.i);
      } else {
        RepeatedLoadSimulates(program, symbol, m, l, a.i);
      }
    } else {
      assert SparesT6(a);
      PatchAt(program, m.at, 0);
      StepsUnfold(p, pl, l, 1);
      StepsUnfold(p, pl, Step(p, pl, true, l), 1);
      if a.Plain? {
        StepPlain(program, OriginalLayout(program, symbol), false, m, a.i);
        StepPlain(p, pl, true, l, a.i);
        SamePerform(a.i, m, l, AddressedWord(a.i, m), l.q);
      } else {
        TransferSimulates(program, symbol, m, l);
      }
    }
  }

  /** How many steps of the patched program stand for `n` steps of the original. */
  function Cost(program: seq<Asm>, symbol: seq<Word>, m: Machine, n: nat): nat
    requires Fitting(program, OriginalLayout(program, symbol))
    decreases n
  {
    if n == 0 || m.at >= |program| then 0
    else |PatchOne(program[m.at])| + Cost(program, symbol, Step(program, OriginalLayout(program, symbol), false, m), n - 1)
  }

  lemma {:induction false} StepsConcat(program: seq<Asm>, layout: Layout, late: bool, m: Machine, a: nat, b: nat)
    requires Fitting(program, layout)
    ensures Steps(program, layout, late, m, a + b) == Steps(program, layout, late, Steps(program, layout, late, m, a), b)
    decreases a
  {
    hide Step;
    if a > 0 {
      StepsConcat(program, layout, late, Step(program, layout, late, m), a - 1, b);
    }
  }

  lemma {:induction false} StaysAtEnd(program: seq<Asm>, layout: Layout, m: Machine, n: nat)
    requires Fitting(program, layout) && m.at >= |program|
    ensures Steps(program, layout, false, m, n) == m
    decreases n
  {
    if n > 0 {
      StaysAtEnd(program, layout, m, n - 1);
    }
  }

  /** For any number of original instructions: the original program on the ideal core
      and the patched program on the late core agree in memory, in all registers but
      t6, and in the label they have reached. */
  lemma {:induction false} PatchedRunAgrees(program: seq<Asm>, symbol: seq<Word>, m: Machine, l: Machine, n: nat)
    requires Patchable(program, symbol) && Synced(program, m, l)
    ensures Fitting(program, OriginalLayout(program, symbol)) && Fitting(Patch(program), PatchedLayout(program, symbol))
    ensures Synced(program, Steps(program, OriginalLayout(program, symbol), false, m, n),
                   Steps(Patch(program), PatchedLayout(program, symbol), true, l, Cost(program, symbol, m, n)))
    decreases n
  {
    hide Step, Patch, PatchOne, Synced, Position;
    PatchedFits(program, symbol);
    if n > 0 {
      if m.at < |program| {
        StepSimulates(program, symbol, m, l);
        var p, pl, here := Patch(program), PatchedLayout(program, symbol), |PatchOne(program[m.at])|;
        var m' := Step(program, OriginalLayout(program, symbol), false, m);
        PatchedRunAgrees(program, symbol, m', Steps(p, pl, true, l, here), n - 1);
        StepsConcat(p, pl, true, l, here, Cost(program, symbol, m', n - 1));
      } else {
        StaysAtEnd(program, OriginalLayout(program, symbol), m, n);
      }
    }
  }

  /** Without the patch, a load on the late core is right exactly when it has no
      destination or the word of the load before it presents the same bytes. */
  lemma UnpatchedIff(m: Machine, load: Instr)
    requires load.Load? && IsPlain(load)
    ensures var offset, n := Address(m.regs, load.rs1, load.imm) % 8, Bytes(load.w);
      Perform(load, m, m.q) == Perform(load, m, AddressedWord(load, m))
      <==> load.rd == 0 || Presented(m.q, offset, n) == Presented(AddressedWord(load, m), offset, n)
  {
    hide MemReadMask, FromLanes, Extend, Presented, Write;
    var offset, n, word := Address(m.regs, load.rs1, load.imm) % 8, Bytes(load.w), AddressedWord(load, m);
    var stale, addressed := Presented(m.q, offset, n), Presented(word, offset, n);
    LoadDatum(m.q, load.w, load.unsigned, offset);
    LoadDatum(word, load.w, load.unsigned, offset);
    WriteInjective(m.regs, load.rd, Extend(stale, load.unsigned), Extend(addressed, load.unsigned));
    if Extend(stale, load.unsigned) == Extend(addressed, load.unsigned) {
      ExtendInjective(stale, addressed, load.unsigned);
    }
  }

  /** For instance, a first doubleword load that finds another word in the register. */
  lemma UnpatchedDeparts(m: Machine, load: Instr)
    requires load == Load(Double8, false, 1, 0, 0) && m.q != m.ram[0]
    ensures Perform(load, m, m.q) != Perform(load, m, AddressedWord(load, m))
  {
    hide Presented, Perform, Address;
    AddressZero(m.regs);
    UnpatchedIff(m, load);
    PresentedWithin(m.q, 0, 8);
    PresentedWithin(m.ram[0], 0, 8);
    assert m.q[0..8] == m.q && m.ram[0][0..8] == m.ram[0];
  }

  lemma AddressZero(regs: Regs)
    ensures Address(regs, 0, 0) == 0
  {
  }
}
