/** The clocked parts as storage that is rewritten in place: the register file, the RAM and
    the registers of the core, one clock edge at a time. */
module Hardware {
  import opened Words
  import opened Isa
  import opened Rtl
  import opened Core

  class RegisterFile {
    const ram: array<Word>

    predicate Valid()
      reads ram
    {
      ram.Length == 32 && ram[0] == 0
    }

    function Contents(): Regs
      requires Valid()
      reads ram
    {
      ram[..]
    }

    constructor ()
      ensures Valid() && fresh(ram) && forall i :: 0 <= i < 32 ==> ram[i] == 0
    {
      ram := new Word[32](_ => 0);
    }

    /** Register 0 is never written. */
    method Clock(wa3: Reg, wd3: Word, we3: bool)
      requires Valid()
      modifies ram
      ensures Valid() && Contents() == if we3 then Write(old(Contents()), wa3, wd3) else old(Contents())
    {
      if we3 && wa3 != 0 {
        ram[wa3 as int] := wd3;
      }
    }
  }

  class DataMemory {
    const words: array<Lanes>
    var q: Lanes

    predicate Valid()
      reads words
    {
      words.Length == 4096
    }

    function Contents(): Ram
      requires Valid()
      reads words
    {
      words[..]
    }

    constructor (init: Ram)
      ensures Valid() && fresh(words) && Contents() == init && q == ZERO_LANES
    {
      words := new Lanes[4096](i requires 0 <= i < 4096 => init[i]);
      q := ZERO_LANES;
      new;
      assert words[..] == init;
    }

    /** A write replaces the enabled bytes; a read loads the output register, with the bytes
        being written. */
    method Clock(wordAddr: nat, data: Lanes, byteOffset: Offset, memWidth: bv3, readEnable: bool, writeEnable: bool)
      requires Valid() && wordAddr < 4096
      modifies words, this`q
      ensures Valid()
      ensures Contents() == if writeEnable
        then old(Contents())[wordAddr := RamWrite(old(Contents())[wordAddr], data, memWidth, byteOffset)]
        else old(Contents())
      ensures q == if readEnable then Contents()[wordAddr] else old(q)
    {
      if writeEnable {
        words[wordAddr] := RamWrite(words[wordAddr], data, memWidth, byteOffset);
      }
      if readEnable {
        q := words[wordAddr];
      }
    }
  }

  class Chip {
    const rom: Rom
    const regFile: RegisterFile
    const memory: DataMemory
    var pc: Word
    var cycles: Word
    var stallAt: Word
    var ebreakFlag: bool
    var mode: nat
    var mstatus: Mstatus
    var mcause: Word
    var mtvec: Word
    var mepc: Word

    predicate Valid()
      reads regFile.ram, memory.words
    {
      regFile.Valid() && memory.Valid() && regFile.ram as object != memory.words
    }

    function Contents(): State
      requires Valid()
      reads this, regFile.ram, memory.words, memory`q
    {
      State(pc, regFile.Contents(), memory.Contents(), memory.q, cycles, stallAt, ebreakFlag,
            mode, mstatus, mcause, mtvec, mepc)
    }

    constructor (rom: Rom, init: Ram)
      ensures Valid() && fresh(regFile.ram) && fresh(memory) && fresh(memory.words) && this.rom == rom
    {
      this.rom := rom;
      regFile := new RegisterFile();
      memory := new DataMemory(init);
      pc, cycles, stallAt, ebreakFlag := 0, 0, 0, false;
      mode, mstatus, mcause, mtvec, mepc := MACHINE, MSTATUS_RESET, 0, 0, 0;
    }

    /** The write port of the register file: the coprocessor's flip comes first. */
    method ClockRegisters(p: Port, w: Wires, ghost s: State)
      requires Valid() && s.regs == regFile.Contents()
      modifies regFile.ram
      ensures Valid() && regFile.Contents() == NextRegs(s, p, w)
    {
      if p.regWrite {
        var r := (p.addr & 0x1f) as bv5;
        regFile.Clock(r, Bits(BitXor, Read(regFile.Contents(), r), p.data), true);
      } else {
        regFile.Clock(w.rd, w.writeBack, w.c.regWrite);
      }
    }

    /** The port of the RAM: the coprocessor's accesses come first. */
    method ClockMemory(p: Port, w: Wires, ghost s: State)
      requires Valid() && s.ram == memory.Contents() && s.q == memory.q
      modifies memory.words, memory`q
      ensures Valid() && memory.Contents() == NextRam(s, p, w) && memory.q == NextQ(s, p, w)
    {
      hide RamWrite, ToLanes;
      var address := RamAddress(p, w);
      if p.memWrite {
        memory.Clock(address, ToLanes(p.data), (p.addr & 7) as int, 7, p.memRead || w.c.memRead, true);
      } else {
        memory.Clock(address, ToLanes(w.rs2Value), w.ex.result % 8, w.c.memWidth, p.memRead || w.c.memRead, w.c.memWrite);
      }
    }

    /** The program counter, the cycle counter and the debug registers. */
    method ClockCounters(s: State, p: Port, w: Wires)
      requires Valid() && s == Contents()
      modifies this`pc, this`cycles, this`stallAt, this`ebreakFlag
      ensures var t := ClockEdge(s, p, w);
        pc == t.pc && cycles == t.cycles && stallAt == t.stallAt && ebreakFlag == t.ebreakFlag
    {
      hide NextRegs, NextRam, NextQ, NextPcReg, NextMstatus, NextMtvec, Cause, Trap, NextMode, Stalled, SetsDelay;
      if p.reset {
        pc, cycles, ebreakFlag := 0, 0, false;
      } else {
        if !Stalled(s, p) {
          pc, cycles := NextPcReg(s, w), (s.cycles + 1) % TWO64;
        }
        ebreakFlag := if SetsDelay(p) && p.addr & 1 != 0 then p.data % 2 == 1 else ebreakFlag || w.c.ebreak;
      }
      if !p.arm {
        stallAt := 0;
      } else if SetsDelay(p) {
        stallAt := p.data;
      }
    }

    /** The mode, status and exception registers. */
    method ClockStatus(s: State, p: Port, w: Wires)
      requires Valid() && mode == s.mode && mstatus == s.mstatus && mcause == s.mcause && mtvec == s.mtvec && mepc == s.mepc
      modifies this`mode, this`mstatus, this`mcause, this`mtvec, this`mepc
      ensures var t := ClockEdge(s, p, w);
        mode == t.mode && mstatus == t.mstatus && mcause == t.mcause && mtvec == t.mtvec && mepc == t.mepc
    {
      hide NextRegs, NextRam, NextQ, NextPcReg, NextMstatus, NextMtvec, Cause, Trap, NextMode, Stalled, SetsDelay;
      if p.reset {
        mode, mstatus, mcause, mtvec, mepc := MACHINE, MSTATUS_RESET, 0, 0, 0;
      } else {
        if Trap(s, w) {
          mcause, mepc := Cause(w), s.pc;
        }
        mode, mstatus, mtvec := NextMode(s, w), NextMstatus(s, w), NextMtvec(s, w);
      }
    }

    /** One clock edge: every register takes its next value from what the wires carried
        before the edge. */
    method Clock(p: Port)
      requires Valid()
      modifies this, regFile.ram, memory.words, memory`q
      ensures Valid() && Contents() == Next(rom, old(Contents()), p)
    {
      hide NextRegs, NextRam, NextQ, NextPcReg, NextMstatus, NextMtvec, Cause, Trap, NextMode, Stalled, WiresOf;
      var s := Contents();
      var w := WiresOf(rom, s, p);
      ClockCounters(s, p, w);
      ClockStatus(s, p, w);
      ClockRegisters(p, w, s);
      ClockMemory(p, w, s);
    }

    /** A run of clock edges. */
    method Cycles(ports: seq<Port>)
      requires Valid()
      modifies this, regFile.ram, memory.words, memory`q
      ensures Valid() && Contents() == Run(rom, old(Contents()), ports)
    {
      hide Next;
      var i := 0;
      while i < |ports|
        invariant 0 <= i <= |ports| && Valid()
        invariant Run(rom, Contents(), ports[i..]) == Run(rom, old(Contents()), ports)
      {
        assert ports[i..][0] == ports[i] && ports[i..][1..] == ports[i + 1..];
        Clock(ports[i]);
        i := i + 1;
      }
    }
  }
}
