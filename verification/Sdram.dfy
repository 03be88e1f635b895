/** The SDRAM controller from reset through its start-up sequence and after. */
module Sdram {

  const tRP := 2
  const tRC := 8
  const tMRD := 2
  const tRCD := 3
  const tRRD := 2
  const REFRESHES := 8
  const MODE_REGISTER := 0x27            // CAS latency code 2, burst code 7

  /** What the 16-bit start-up timer can hold. */
  type StartTime = t: nat | t < 0x1_0000

  datatype Command = Desl | Nop | Bst | Read | Write | Act | Pre | Ref | Mrs

  datatype State = Init | Idle | Activating | Active | Reading | Writing | PrechargeAll | RegSet | AutoRef | AutoRefInit

  /** The clocked registers, and the one bit the combinational block keeps from cycle to
      cycle, modeRegSet. */
  datatype Regs = Regs(
    state: State, init: nat, rc: nat, rp: nat, mrd: nat, rrd: nat, rcd: nat, refreshes: nat, modeRegSet: bool)

  /** What the combinational block drives. */
  datatype Drive = Drive(
    command: Command, addr: nat, bank: nat, mask: nat,
    enRC: bool, enRP: bool, enRefresh: bool, enMRD: bool,
    modeRegSet: bool, next: State)

  function Quiet(next: State, addr: nat, modeRegSet: bool): Drive {
    Drive(Nop, addr, 0, 3, false, false, false, false, modeRegSet, next)
  }

  /** The combinational block; `op` asks for a read or a write. */
  function Comb(r: Regs, op: bool): Drive {
    match r.state
    case Init =>
      if r.init == 0 then Quiet(PrechargeAll, 0, false).(command := Pre, enRP := true) else Quiet(Init, 0, false)
    case PrechargeAll =>
      if r.rp == 0 then Quiet(Idle, 0, false) else Quiet(PrechargeAll, 0x400, false).(enRP := true)
    case Idle =>
      if r.refreshes != 0 then Quiet(AutoRefInit, 0x400, true).(command := Ref, enRC := true)
      else if r.modeRegSet then Quiet(RegSet, MODE_REGISTER, true).(command := Mrs, enMRD := true)
      else if op then Quiet(Active, 0x400, false).(command := Act, mask := 0)
      else Quiet(Idle, 0x400, false)
    case AutoRefInit =>
      if r.rc == 0 then Quiet(Idle, 0, true).(enRefresh := true) else Quiet(AutoRefInit, 0, true).(enRC := true)
    case RegSet =>
      if r.mrd == 0 then Quiet(Idle, MODE_REGISTER, false)
      else Quiet(RegSet, MODE_REGISTER, false).(enMRD := true)
    case _ => Quiet(Idle, 0, false).(command := Desl)
  }

  /** A timer runs down while enabled, and is loaded again otherwise. */
  function Timer(enabled: bool, timer: nat, load: nat, width: nat): nat
    requires width > 0
  {
    if enabled then (timer + width - 1) % width else load
  }

  /** One clock edge. */
  function Clock(r: Regs, op: bool): Regs {
    var d := Comb(r, op);
    Regs(d.next,
         if r.init != 0 then r.init - 1 else 0,
         Timer(d.enRC, r.rc, tRC, 16),
         Timer(d.enRP, r.rp, tRP, 4),
         Timer(d.enMRD, r.mrd, tMRD, 4),
         tRRD, tRCD,
         if d.enRefresh then (r.refreshes + 31) % 32 else r.refreshes,
         d.modeRegSet)
  }

  /** Reset, for a start-up time of `tInit` cycles; the latched bit is whatever it was. */
  function Reset(tInit: StartTime, bit: bool): Regs {
    Regs(Init, tInit, tRC, tRP, tMRD, tRRD, tRCD, REFRESHES, bit)
  }

  /** The registers `t` cycles after reset. */
  function After(tInit: StartTime, bit: bool, ops: nat -> bool, t: nat): Regs {
    if t == 0 then Reset(tInit, bit) else Clock(After(tInit, bit, ops, t - 1), ops(t - 1))
  }

  /** What is driven in cycle `t` after reset. */
  function Driven(tInit: StartTime, bit: bool, ops: nat -> bool, t: nat): Drive {
    Comb(After(tInit, bit, ops, t), ops(t))
  }

  /** The block reads and drives modeRegSet; once driven, it settles there. */
  lemma LatchSettles(r: Regs, op: bool)
    ensures Comb(r.(modeRegSet := Comb(r, op).modeRegSet), op) == Comb(r, op)
  {
  }

  // ----- the start-up sequence -----

  const START := 3 + 9 * REFRESHES + 3   // cycles from precharge to the end of start-up

  /** The commands of the start-up sequence, cycle by cycle. */
  function StartUp(tInit: StartTime, t: nat): Command
    requires t < tInit + START
  {
    if t < tInit then Nop
    else if t == tInit then Pre
    else if t < tInit + 3 then Nop
    else if t < tInit + 3 + 9 * REFRESHES then if (t - tInit - 3) % 9 == 0 then Ref else Nop
    else if t == tInit + 3 + 9 * REFRESHES then Mrs
    else Nop
  }

  /** The registers that matter, cycle by cycle. */
  ghost predicate Phase(tInit: StartTime, t: nat, r: Regs) {
    if t <= tInit then r.state.Init? && r.init == tInit - t && r.rp == tRP && r.refreshes == REFRESHES
    else if t < tInit + 3 then r.state.PrechargeAll? && r.rp == tInit + 2 - t && r.refreshes == REFRESHES
    else if t < tInit + 3 + 9 * REFRESHES then
      var u := t - tInit - 3;
      && r.refreshes == REFRESHES - u / 9
      && (if u % 9 == 0 then r.state.Idle? && r.rc == tRC else r.state.AutoRefInit? && r.rc == 8 - u % 9)
    else if t == tInit + 3 + 9 * REFRESHES then r.state.Idle? && r.refreshes == 0 && r.modeRegSet && r.mrd == tMRD
    else if t < tInit + START then
      r.state.RegSet? && r.refreshes == 0 && r.mrd == tInit + START - 1 - t
    else (r.state.Idle? || r.state.Active?) && r.refreshes == 0 && !r.modeRegSet
  }

  lemma PhaseStep(tInit: StartTime, t: nat, r: Regs, op: bool)
    requires Phase(tInit, t, r)
    ensures Phase(tInit, t + 1, Clock(r, op))
  {
  }

  lemma PhaseAtReset(tInit: StartTime, bit: bool)
    ensures Phase(tInit, 0, Reset(tInit, bit))
  {
  }

  lemma {:induction false} PhaseAlways(tInit: StartTime, bit: bool, ops: nat -> bool, t: nat)
    ensures Phase(tInit, t, After(tInit, bit, ops, t))
    decreases t
  {
    hide Phase, Clock, Reset;
    if t == 0 {
      PhaseAtReset(tInit, bit);
    } else {
      PhaseAlways(tInit, bit, ops, t - 1);
      PhaseStep(tInit, t - 1, After(tInit, bit, ops, t - 1), ops(t - 1));
    }
  }

  /** For any start-up time and any requests, the commands are exactly the start-up
      sequence, and afterwards only idle cycles and activations. */
  lemma CommandTrace(tInit: StartTime, bit: bool, ops: nat -> bool, t: nat)
    ensures var c := Driven(tInit, bit, ops, t).command;
      if t < tInit + START then c == StartUp(tInit, t) else c in {Nop, Act, Desl}
  {
    PhaseAlways(tInit, bit, ops, t);
  }

  /** The cycle of refresh `i`. */
  function RefreshCycle(tInit: StartTime, i: nat): nat { tInit + 3 + (tRC + 1) * i }

  /** Hence eight refreshes, any two at least tRC cycles apart, then one mode register
      set, and every activation after both. */
  lemma StartUpOrder(tInit: StartTime, bit: bool, ops: nat -> bool, t: nat)
    ensures var d := Driven(tInit, bit, ops, t);
      && (d.command.Ref? <==> exists i :: 0 <= i < REFRESHES && t == RefreshCycle(tInit, i))
      && (d.command.Mrs? <==> t == tInit + 3 + 9 * REFRESHES)
      && (d.command.Act? ==> t >= tInit + START)
      && !d.command.Read? && !d.command.Write?
  {
    CommandTrace(tInit, bit, ops, t);
    hide Driven;
    if Driven(tInit, bit, ops, t).command.Ref? {
      var u := t - tInit - 3;
      assert t == RefreshCycle(tInit, u / 9);
    }
  }

  /** The one mode register set writes the device's settings. */
  lemma ModeWritten(tInit: StartTime, bit: bool, ops: nat -> bool)
    ensures var d := Driven(tInit, bit, ops, tInit + 3 + 9 * REFRESHES);
      d.command.Mrs? && d.addr == MODE_REGISTER && d.bank == 0
  {
    PhaseAlways(tInit, bit, ops, tInit + 3 + 9 * REFRESHES);
  }

  /** The address, bank and mask lines that go with the commands: address bit 10 is up for
      every refresh and activation, and down at the precharge. */
  lemma LinesByCommand(r: Regs, op: bool)
    ensures var d := Comb(r, op);
      && d.bank == 0
      && (d.command.Pre? ==> d.addr == 0 && d.mask == 3)
      && (d.command.Ref? ==> d.addr == 0x400 && d.mask == 3)
      && (d.command.Mrs? ==> d.addr == MODE_REGISTER && d.mask == 3)
      && (d.command.Act? ==> d.addr == 0x400 && d.mask == 0)
  {
  }

  /** After start-up a request is answered by an activation in an idle cycle, and every
      activation by one deselected cycle; the request goes no further. */
  lemma RequestsActivate(tInit: StartTime, bit: bool, ops: nat -> bool, t: nat)
    requires t >= tInit + START
    ensures var d, d' := Driven(tInit, bit, ops, t), Driven(tInit, bit, ops, t + 1);
      && (d.command.Act? ==> ops(t) && d'.command.Desl?)
      && (d'.command.Desl? ==> d.command.Act?)
      && (ops(t) ==> d.command.Act? || d.command.Desl?)
  {
    PhaseAlways(tInit, bit, ops, t);
    PhaseAlways(tInit, bit, ops, t + 1);
  }
}
