/** The fault-injection port: arm a cycle count, freeze there, flip register bits, resume. */
module FaultInjection {
  import opened Words
  import opened Isa
  import opened Rtl
  import opened Core
  import opened CoreIsa

  /** The delay counter armed, nothing else driven. */
  const ARMED: Port := Port(false, true, false, false, false, false, 0, 0)

  /** The arming write, with the core held in reset. */
  function Arming(delay: Word): Port { Port(true, true, true, false, false, false, 0x1000, delay) }

  /** What the coprocessor drives in a register-write cycle: an address of which the low
      five bits select the register, and the mask of the bits to flip. */
  datatype Flip = Flip(addr: bv15, mask: Word)

  function Target(f: Flip): Reg { (f.addr & 0x1f) as bv5 }

  function Inject(f: Flip): Port { Port(false, false, false, false, false, true, f.addr, f.mask) }

  function Injections(flips: seq<Flip>): (ports: seq<Port>)
    ensures |ports| == |flips|
  {
    seq(|flips|, k requires 0 <= k < |flips| => Inject(flips[k]))
  }

  function Repeat(p: Port, n: nat): (ports: seq<Port>)
    ensures |ports| == n
  {
    seq(n, _ => p)
  }

  lemma {:induction false} RunConcat(rom: Rom, s: State, a: seq<Port>, b: seq<Port>)
    ensures Run(rom, s, a + b) == Run(rom, Run(rom, s, a), b)
    decreases |a|
  {
    hide Next;
    if a == [] {
      assert a + b == b;
    } else {
      assert (a + b)[0] == a[0] && (a + b)[1..] == a[1..] + b;
      RunConcat(rom, Next(rom, s, a[0]), a[1..], b);
    }
  }

  lemma RepeatUnfolds(rom: Rom, s: State, p: Port, n: nat)
    requires n > 0
    ensures Run(rom, s, Repeat(p, n)) == Run(rom, Next(rom, s, p), Repeat(p, n - 1))
  {
    assert Repeat(p, n)[0] == p && Repeat(p, n)[1..] == Repeat(p, n - 1);
  }

  /** Arming in reset sets the counters and touches neither registers nor memory. */
  lemma ArmingResets(rom: Rom, s: State, delay: Word)
    ensures Next(rom, s, Arming(delay))
            == State(0, s.regs, s.ram, s.q, 0, delay, false, MACHINE, MSTATUS_RESET, 0, 0, 0)
  {
  }

  /** No combinational block looks at the armed delay or at the arm bit. */
  lemma DelayIsInvisible(s: State, delay: Word, d: Decoded)
    ensures Settle(s, ARMED, d) == Settle(s.(stallAt := delay), IDLE, d) == Settle(s, IDLE, d)
  {
    hide Execute, MemReadMask, FromLanes, Branching, AlignDetect;
  }

  /** A running core's next state, whatever its armed delay. */
  lemma EdgeIgnoresDelay(s: State, delay: Word, w: Wires)
    requires s.cycles != s.stallAt
    ensures ClockEdge(s, ARMED, w) == ClockEdge(s.(stallAt := delay), IDLE, w).(stallAt := s.stallAt)
  {
    hide RamWrite, Write, Cause;
  }

  /** Before the delay is reached the armed core does what the idle core does. */
  lemma ArmedCycle(rom: Rom, s: State)
    requires s.cycles != s.stallAt
    ensures Next(rom, s, ARMED) == Next(rom, s.(stallAt := 0), IDLE).(stallAt := s.stallAt)
  {
    hide Decode, Settle, ClockEdge;
    assert !Stalled(s, ARMED) && !Stalled(s.(stallAt := 0), IDLE);
    DelayIsInvisible(s, 0, Decode(Fetch(rom, s.pc), false));
    EdgeIgnoresDelay(s, 0, WiresOf(rom, s, ARMED));
  }

  /** At the delay nothing moves any more. */
  lemma FrozenCycle(rom: Rom, s: State)
    requires s.cycles == s.stallAt
    ensures Next(rom, s, ARMED) == s
  {
  }

  // ----- the port -----

  /** The delay register: cleared unless armed, set by a debug access with address bit 12. */
  lemma PortArms(rom: Rom, s: State, p: Port)
    ensures Next(rom, s, p).stallAt
            == if !p.arm then 0 else if p.debug && (p.addr >> 12) & 1 == 1 then p.data else s.stallAt
  {
    assert (p.addr & 0x1000 != 0) == ((p.addr >> 12) & 1 == 1);
    hide WiresOf, NextRegs, NextRam, NextQ, NextPcReg, NextMstatus, NextMtvec, NextMode, Cause, Trap;
  }

  /** The ebreak flag: with address bits 12 and 0 the coprocessor writes it, even data clear
      it and odd data set it. */
  lemma PortWritesFlag(rom: Rom, s: State, p: Port, half: nat)
    requires !p.reset && p.debug && (p.addr >> 12) & 1 == 1 && p.addr & 1 == 1
    ensures p.data == 2 * half ==> !Next(rom, s, p).ebreakFlag
    ensures p.data == 2 * half + 1 ==> Next(rom, s, p).ebreakFlag
  {
    assert p.addr & 0x1000 != 0;
    hide WiresOf, NextRegs, NextRam, NextQ, NextPcReg, NextMstatus, NextMtvec, NextMode, Cause, Trap;
  }

  /** The instruction memory holds a word for every four bytes. */
  lemma FetchesInOrder(rom: Rom, k: nat, pc: Word)
    requires k < 1024 && 4 * k <= pc < 4 * k + 4
    ensures Fetch(rom, pc) == rom[k]
  {
  }

  /** A read access stops the core and shows the addressed doubleword, as the memory dump
      expects it; memory, registers and program counter stay. */
  lemma PortReads(rom: Rom, s: State, p: Port, k: nat)
    requires p.memRead && !p.memWrite && !p.regWrite && !p.reset && 8 * k <= Position(p.addr) < 8 * k + 8
    ensures var t := Next(rom, s, p);
      k < 4096 && t.q == s.ram[k] && t.ram == s.ram && t.regs == s.regs && t.pc == s.pc && t.cycles == s.cycles
  {
    DoublewordIndex(p.addr, k);
    StoppedCore(rom, s, p);
    hide WiresOf, NextPcReg, NextMstatus, NextMtvec, NextMode, Cause, Trap, RamWrite;
  }

  /** A write access stops the core and replaces the addressed doubleword. */
  lemma PortWrites(rom: Rom, s: State, p: Port, k: nat)
    requires p.memWrite && !p.regWrite && !p.reset && 8 * k == Position(p.addr)
    ensures var t := Next(rom, s, p);
      k < 4096 && t.ram == s.ram[k := ToLanes(p.data)] && t.regs == s.regs && t.pc == s.pc && t.cycles == s.cycles
  {
    DoublewordIndex(p.addr, k);
    StoppedCore(rom, s, p);
    WholeWord(s.ram[k], ToLanes(p.data));
    hide WiresOf, NextPcReg, NextMstatus, NextMtvec, NextMode, Cause, Trap, RamWrite, ToLanes;
  }

  function Doubleword(addr: bv15): nat { (addr >> 3) as int }

  function Lane(addr: bv15): nat { (addr & 7) as int }

  function Position(addr: bv15): nat { addr as int }

  lemma DoublewordIndex(addr: bv15, k: nat)
    requires 8 * k <= Position(addr) < 8 * k + 8
    ensures k < 4096 && Doubleword(addr) == k && Lane(addr) == Position(addr) - 8 * k
  {
    PartsOfPosition(addr, addr >> 3, addr & 7);
    hide Doubleword, Lane, Position;
    QuotientOfEight(Position(addr), Doubleword(addr), Lane(addr), k);
  }

  lemma PartsOfPosition(addr: bv15, h: bv15, l: bv15)
    requires h == addr >> 3 && l == addr & 7
    ensures Position(addr) == 8 * (h as int) + l as int && h as int < 0x1000 && l as int < 8
  {
    PartsOfAddress(addr, h, l);
    hide MadeOf;
    TopAndBottom(addr, h, l);
    PartValues(addr, h, l);
  }

  predicate MadeOf(addr: bv15, h: bv15, l: bv15) { h < 0x1000 && l < 8 && addr == h * 8 + l }

  lemma PartsOfAddress(addr: bv15, h: bv15, l: bv15)
    requires h == addr >> 3 && l == addr & 7
    ensures MadeOf(addr, h, l)
  {
  }

  lemma TopAndBottom(addr: bv15, h: bv15, l: bv15)
    requires MadeOf(addr, h, l)
    ensures addr as int == 8 * (h as int) + l as int
  {
  }

  lemma PartValues(addr: bv15, h: bv15, l: bv15)
    requires MadeOf(addr, h, l)
    ensures h as int < 0x1000 && l as int < 8
  {
  }

  lemma QuotientOfEight(a: nat, h: nat, l: nat, k: nat)
    requires a == 8 * h + l && l < 8 && 8 * k <= a < 8 * k + 8
    ensures h == k && l == a - 8 * k
  {
  }

  lemma StoppedCore(rom: Rom, s: State, p: Port)
    requires Stalled(s, p)
    ensures WiresOf(rom, s, p).c == NoSignal
  {
    hide ExecuteStage, WriteBack, Branching, AlignDetect, RdField, Rs1Field, Rs2Field, Signext, AluDec, AluDecAtomic;
  }

  lemma WholeWord(word: Lanes, data: Lanes)
    ensures RamWrite(word, data, 7, 0) == data
  {
  }

  lemma IdleEdge(s: State, w: Wires)
    ensures var t := ClockEdge(s, IDLE, w);
      t.cycles == (s.cycles + 1) % TWO64 && t.stallAt == 0
  {
    hide RamWrite, Write, Cause;
  }

  /** Idle cycles count, and forget any armed delay. */
  lemma IdleCycle(rom: Rom, s: State)
    ensures var t := Next(rom, s, IDLE);
      t.cycles == (s.cycles + 1) % TWO64 && t.stallAt == 0
  {
    hide Decode, Settle, ClockEdge;
    IdleEdge(s, WiresOf(rom, s, IDLE));
  }

  function Min(a: nat, b: nat): nat { if a < b then a else b }

  lemma NothingRuns(rom: Rom, s: State)
    ensures Run(rom, s, Repeat(ARMED, 0)) == s && Run(rom, s, Repeat(IDLE, 0)) == s
  {
    assert Repeat(ARMED, 0) == [] && Repeat(IDLE, 0) == [];
  }

  /** The armed core makes exactly as many steps of the normal run as are left of its
      delay, then stays where it is, however long it is clocked. */
  lemma {:induction false} ArmedRun(rom: Rom, s: State, n: nat)
    requires s.cycles <= s.stallAt
    ensures var steps := Min(n, s.stallAt - s.cycles);
      var t := Run(rom, s, Repeat(ARMED, n));
      && t == Run(rom, s.(stallAt := 0), Repeat(IDLE, steps)).(stallAt := s.stallAt)
      && t.cycles == s.cycles + steps
      && (CycleStall(t, ARMED) <==> steps == s.stallAt - s.cycles)
    decreases n
  {
    hide Next, Run, Repeat;
    if n == 0 {
      NothingRuns(rom, s);
      NothingRuns(rom, s.(stallAt := 0));
    } else {
      RepeatUnfolds(rom, s, ARMED, n);
      if s.cycles == s.stallAt {
        FrozenCycle(rom, s);
        ArmedRun(rom, s, n - 1);
      } else {
        var t := Next(rom, s.(stallAt := 0), IDLE);
        ArmedCycle(rom, s);
        IdleCycle(rom, s.(stallAt := 0));
        ArmedRun(rom, t.(stallAt := s.stallAt), n - 1);
        RepeatUnfolds(rom, s.(stallAt := 0), IDLE, Min(n, s.stallAt - s.cycles));
      }
    }
  }

  /** The register file after one register-write cycle. */
  function FlippedOnce(regs: Regs, f: Flip): Regs {
    Write(regs, Target(f), Bits(BitXor, Read(regs, Target(f)), f.mask))
  }

  /** The register file after several. */
  function Flipped(regs: Regs, flips: seq<Flip>): Regs
    decreases |flips|
  {
    if flips == [] then regs else Flipped(FlippedOnce(regs, flips[0]), flips[1..])
  }

  /** The bits of register `q` that the flips turn over, all in all. */
  function Mask(flips: seq<Flip>, q: Reg): Word {
    if flips == [] then 0
    else if Target(flips[0]) == q && q != 0 then Bits(BitXor, flips[0].mask, Mask(flips[1..], q))
    else Mask(flips[1..], q)
  }

  /** A register-write cycle changes nothing but the register file, and disarms. */
  lemma InjectCycle(rom: Rom, s: State, f: Flip)
    ensures Next(rom, s, Inject(f)) == s.(regs := FlippedOnce(s.regs, f), stallAt := 0)
  {
  }

  /** So does any sequence of them. */
  lemma {:induction false} InjectRun(rom: Rom, s: State, flips: seq<Flip>)
    requires flips != []
    ensures Run(rom, s, Injections(flips)) == s.(regs := Flipped(s.regs, flips), stallAt := 0)
    decreases |flips|
  {
    hide Next, FlippedOnce;
    InjectCycle(rom, s, flips[0]);
    var t := s.(regs := FlippedOnce(s.regs, flips[0]), stallAt := 0);
    assert Injections(flips)[0] == Inject(flips[0]) && Injections(flips)[1..] == Injections(flips[1..]);
    if |flips| > 1 {
      InjectRun(rom, t, flips[1..]);
    } else {
      assert flips[1..] == [] && Injections([]) == [];
    }
  }

  /** What they do to one register: it is XORed with the masks addressed to it, and x0 keeps. */
  lemma {:induction false} FlippedRegister(regs: Regs, flips: seq<Flip>, q: Reg)
    ensures Read(Flipped(regs, flips), q) == Bits(BitXor, Read(regs, q), Mask(flips, q))
    decreases |flips|
  {
    hide Bits;
    if flips == [] {
      XorZero(Read(regs, q));
    } else {
      FlippedRegister(FlippedOnce(regs, flips[0]), flips[1..], q);
      XorAssociative(Read(regs, q), flips[0].mask, Mask(flips[1..], q));
    }
  }

  /** Repeating all flips undoes them. */
  lemma FlipTwice(regs: Regs, flips: seq<Flip>)
    ensures Flipped(Flipped(regs, flips), flips) == regs
  {
    hide Bits, Flipped, Mask;
    var twice := Flipped(Flipped(regs, flips), flips);
    forall i | 0 <= i < 32 ensures twice[i] == regs[i] {
      var q := i as Reg;
      FlippedRegister(regs, flips, q);
      FlippedRegister(Flipped(regs, flips), flips, q);
      XorTwice(Read(regs, q), Mask(flips, q));
    }
  }

  lemma FlipOnceTwice(regs: Regs, f: Flip)
    ensures FlippedOnce(FlippedOnce(regs, f), f) == regs
  {
    hide Bits;
    XorTwice(Read(regs, Target(f)), f.mask);
    var twice := FlippedOnce(FlippedOnce(regs, f), f);
    forall i | 0 <= i < 32 ensures twice[i] == regs[i] {
      assert Read(twice, i as Reg) == Read(regs, i as Reg);
    }
  }

  function Copies(f: Flip, k: nat): (flips: seq<Flip>)
    ensures |flips| == k
  {
    seq(k, _ => f)
  }

  /** Of the same flip, held for `k` cycles, only the parity matters. */
  lemma {:induction false} OddFlips(regs: Regs, f: Flip, k: nat)
    ensures Flipped(regs, Copies(f, k)) == if k % 2 == 1 then FlippedOnce(regs, f) else regs
    decreases k
  {
    hide FlippedOnce;
    if k > 0 {
      assert Copies(f, k)[0] == f && Copies(f, k)[1..] == Copies(f, k - 1);
      OddFlips(FlippedOnce(regs, f), f, k - 1);
      FlipOnceTwice(regs, f);
    } else {
      assert Copies(f, 0) == [];
    }
  }

  /** A whole campaign from reset: wait out the delay, flip any bits of any registers,
      resume.  It is the normal run up to the delay, the flips, and the normal run from
      there. */
  lemma PauseFlipResume(rom: Rom, s: State, delay: Word, wait: nat, flips: seq<Flip>, n: nat)
    requires wait >= delay && flips != []
    ensures
      var start := Next(rom, s, Arming(delay));
      var paused := Run(rom, start.(stallAt := 0), Repeat(IDLE, delay));
      var campaign := Repeat(ARMED, wait) + (Injections(flips) + Repeat(IDLE, n));
      && paused.cycles == delay
      && Run(rom, start, campaign)
         == Run(rom, paused.(regs := Flipped(paused.regs, flips), stallAt := 0), Repeat(IDLE, n))
  {
    hide Next;
    ArmingResets(rom, s, delay);
    var start := Next(rom, s, Arming(delay));
    var paused := Run(rom, start.(stallAt := 0), Repeat(IDLE, delay));
    ArmedRun(rom, start, wait);
    var stalled := Run(rom, start, Repeat(ARMED, wait));
    assert stalled == paused.(stallAt := delay);
    RunConcat(rom, start, Repeat(ARMED, wait), Injections(flips) + Repeat(IDLE, n));
    RunConcat(rom, stalled, Injections(flips), Repeat(IDLE, n));
    InjectRun(rom, stalled, flips);
  }
}
