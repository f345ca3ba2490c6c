/**
  The flip of one bit of one register of a stopped thread (src/regManip.cpp, src/runner.cpp).

  A register is a place in one of two buffers: the general purpose registers, or the vector
  state, which holds the XSAVE buffer followed by the flat `zmm` array.  Both buffers are
  read from the machine, one byte is changed, and both are written back; the flat array is
  not copied back to the XSAVE buffer first.
 */
module Registers {
  import opened Bits
  import opened Options
  import opened VectorState

  const GP_SIZE := 216  // sizeof(user_regs_struct)
  const RIP_OFFSET := 128

  /** Where the base pointer of a register points. */
  datatype Location = Gp(at: nat) | Vec(at: nat)

  /** An entry of the register table; registers ptrace cannot reach have no pointer. */
  datatype RegData = RegData(ptr: Option<Location>, startBit: nat, bits: nat)

  /** The registers of a stopped thread as ptrace reads and writes them. */
  datatype State = State(gp: seq<Byte>, xsave: seq<Byte>)

  type MachineState = s: State | |s.gp| == GP_SIZE && |s.xsave| == XSAVE_SIZE
    witness State(seq(GP_SIZE, i => 0), seq(XSAVE_SIZE, i => 0))

  predicate ZmmBacked(loc: Location) {
    loc.Vec? && loc.at >= XSAVE_SIZE
  }

  /** A register and all its bits lie within one buffer. */
  predicate InBounds(d: RegData) {
    d.bits > 0 && match d.ptr
    case None => true
    case Some(Gp(at)) => 8 * at + d.startBit + d.bits <= 8 * GP_SIZE
    case Some(Vec(at)) =>
      8 * at + d.startBit + d.bits <= 8 * if at < XSAVE_SIZE then XSAVE_SIZE else IMAGE_SIZE
  }

  predicate HasBit(d: RegData, bit: nat) {
    d.startBit <= bit < d.startBit + d.bits
  }

  /** The state with the given bit, counted from the base pointer, toggled; a zmm-backed register is no part of it. */
  function Flipped(s: MachineState, loc: Location, bit: nat): MachineState
    requires loc.Gp? ==> 8 * loc.at + bit < 8 * GP_SIZE
    requires loc.Vec? && !ZmmBacked(loc) ==> 8 * loc.at + bit < 8 * XSAVE_SIZE
  {
    match loc
    case Gp(at) => State(FlipBit(s.gp, 8 * at + bit), s.xsave)
    case Vec(at) => if ZmmBacked(loc) then s else State(s.gp, FlipBit(s.xsave, 8 * at + bit))
  }

  /** Exactly one bit of the machine changes, and only of the buffer the register is in. */
  lemma FlippedChangesOneBit(s: MachineState, d: RegData, bit: nat)
    requires d.ptr.Some? && InBounds(d) && HasBit(d, bit)
    ensures var t := Flipped(s, d.ptr.value, bit);
            var k := 8 * d.ptr.value.at + bit;
            && LittleEndian(t.gp) == (if d.ptr.value.Gp? then Toggle(LittleEndian(s.gp), k) else LittleEndian(s.gp))
            && LittleEndian(t.xsave) ==
               (if d.ptr.value.Vec? && !ZmmBacked(d.ptr.value) then Toggle(LittleEndian(s.xsave), k)
                else LittleEndian(s.xsave))
    ensures Flipped(s, d.ptr.value, bit) != s <==> !ZmmBacked(d.ptr.value)
  {
    var k := 8 * d.ptr.value.at + bit;
    match d.ptr.value
    case Gp(at) =>
      FlipBitToggles(s.gp, k);
      FlipBitTwice(s.gp, k);
    case Vec(at) =>
      if !ZmmBacked(d.ptr.value) {
        FlipBitToggles(s.xsave, k);
        FlipBitTwice(s.xsave, k);
      }
  }

  /** Flipping is one to one: writing back a flip of an older state would show. */
  lemma FlippedInjective(s: MachineState, t: MachineState, d: RegData, bit: nat)
    requires d.ptr.Some? && InBounds(d) && HasBit(d, bit)
    ensures Flipped(s, d.ptr.value, bit) == Flipped(t, d.ptr.value, bit) ==> s == t
    ensures Flipped(Flipped(s, d.ptr.value, bit), d.ptr.value, bit) == s
  {
    var k := 8 * d.ptr.value.at + bit;
    match d.ptr.value
    case Gp(at) =>
      FlipBitTwice(s.gp, k);
      FlipBitTwice(t.gp, k);
    case Vec(at) =>
      if !ZmmBacked(d.ptr.value) {
        FlipBitTwice(s.xsave, k);
        FlipBitTwice(t.xsave, k);
      }
  }

  /** The value of a register, read through its base pointer, toggles the chosen bit. */
  lemma RegisterValueToggles(bytes: seq<Byte>, at: nat, width: nat, bit: nat)
    requires at + width <= |bytes| && bit < 8 * width
    ensures LittleEndian(FlipBit(bytes, 8 * at + bit)[at..at + width]) ==
            Toggle(LittleEndian(bytes[at..at + width]), bit)
  {
    FlipBitToggles(bytes[at..at + width], bit);
    assert FlipBit(bytes, 8 * at + bit)[at..at + width] == FlipBit(bytes[at..at + width], bit);
  }

  /**
    What the write-back is meant to do: with the flat array exported row by row, a flip of a
    cell reaches the place of that cell in the XSAVE buffer and nothing else of the buffer.
   */
  lemma RowExactWriteBackReaches(mem: Image, k: nat, v: Byte, x: nat)
    requires k < ZMM_CELLS && x < XSAVE_SIZE
    ensures var m := Import(RowExact, mem);
            Export(RowExact, m[XSAVE_SIZE + k := v])[x] == if x == Off(RowExact, k) then v else mem[x]
  {
    var m := Import(RowExact, mem);
    var changed := m[XSAVE_SIZE + k := v];
    ImportAfterExportRowExact(changed);
    RowExactInjective(k);
    ImportAt(RowExact, mem, ZMM_CELLS, x);
    if InVectorArea(x) {
      RowExactOnto(x);
      ImportAt(RowExact, mem, ZMM_CELLS, XSAVE_SIZE + CellAt(x));
    }
  }

  /** What the program takes for the state when the vector state is read only if `ok`, and `buffer` was read before. */
  function AsRead(s: MachineState, buffer: seq<Byte>, ok: bool): MachineState
    requires |buffer| == XSAVE_SIZE
  {
    State(s.gp, if ok then s.xsave else buffer)
  }

  /** A flip of the state as read is a flip of the state exactly when the vector state was read, or had not changed. */
  lemma StaleFlipShows(s: MachineState, buffer: seq<Byte>, ok: bool, d: RegData, bit: nat)
    requires |buffer| == XSAVE_SIZE && d.ptr.Some? && InBounds(d) && HasBit(d, bit)
    ensures Flipped(AsRead(s, buffer, ok), d.ptr.value, bit) == Flipped(s, d.ptr.value, bit) <==>
            ok || buffer == s.xsave
  {
    FlippedInjective(AsRead(s, buffer, ok), s, d, bit);
  }

  // ---------------------------------------------------------------- a flip as a change of the machine

  /** What a flip that was written back has done to the machine. */
  datatype Change = Change(reg: RegData, bit: nat, before: MachineState, after: MachineState)

  /** All the bytes of the machine; the flat array is not among them. */
  function MachineBytes(s: MachineState): seq<Byte> {
    s.gp + s.xsave
  }

  /** The bit of the machine that the bit of a register is; past the end if it is backed by the flat array. */
  function BitInMachine(loc: Location, bit: nat): nat {
    match loc
    case Gp(at) => 8 * at + bit
    case Vec(at) => 8 * (GP_SIZE + at) + bit
  }

  /** The machine has changed by exactly the chosen bit of the register. */
  predicate Toggled(c: Change) {
    && c.reg.ptr.Some?
    && var k := BitInMachine(c.reg.ptr.value, c.bit);
    && k / 8 < |MachineBytes(c.before)|
    && MachineBytes(c.after) == FlipBit(MachineBytes(c.before), k)
  }

  /** The change made by a flip in the buffers as read. */
  function ChangeOf(s: MachineState, buffer: seq<Byte>, ok: bool, d: RegData, bit: nat): Change
    requires |buffer| == XSAVE_SIZE && d.ptr.Some? && InBounds(d) && HasBit(d, bit)
  {
    Change(d, bit, s, Flipped(AsRead(s, buffer, ok), d.ptr.value, bit))
  }

  lemma FlipBitParts(a: seq<Byte>, b: seq<Byte>, k: nat)
    requires k / 8 < |a| + |b|
    ensures k / 8 < |a| ==> FlipBit(a + b, k) == FlipBit(a, k) + b
    ensures k / 8 >= |a| ==> FlipBit(a + b, k) == a + FlipBit(b, k - 8 * |a|)
  {
    if k / 8 >= |a| { assert (k - 8 * |a|) / 8 == k / 8 - |a| && (k - 8 * |a|) % 8 == k % 8; }
  }

  /** Flips of the bytes of the machine and of its two buffers are the same. */
  lemma FlippedBytes(s: MachineState, d: RegData, bit: nat)
    requires d.ptr.Some? && InBounds(d) && HasBit(d, bit)
    ensures var k := BitInMachine(d.ptr.value, bit);
            && (k / 8 < |MachineBytes(s)| <==> !ZmmBacked(d.ptr.value))
            && (k / 8 < |MachineBytes(s)| ==>
                  MachineBytes(Flipped(s, d.ptr.value, bit)) == FlipBit(MachineBytes(s), k))
  {
    hide FlipBit;
    var k := BitInMachine(d.ptr.value, bit);
    if k / 8 < |MachineBytes(s)| { FlipBitParts(s.gp, s.xsave, k); }
  }

  /**
    A flip that was written back has toggled exactly the chosen bit of the machine if and only
    if the register is not backed by the flat array, and the vector state was read for the
    flip or had not changed since it was read before.
   */
  lemma ToggledIff(s: MachineState, buffer: seq<Byte>, ok: bool, d: RegData, bit: nat)
    requires |buffer| == XSAVE_SIZE && d.ptr.Some? && InBounds(d) && HasBit(d, bit)
    ensures Toggled(ChangeOf(s, buffer, ok, d, bit)) <==> !ZmmBacked(d.ptr.value) && (ok || buffer == s.xsave)
  {
    hide FlipBit;
    var r, k := AsRead(s, buffer, ok), BitInMachine(d.ptr.value, bit);
    FlippedBytes(s, d, bit);
    FlippedBytes(r, d, bit);
    if !ZmmBacked(d.ptr.value) {
      FlipBitTwice(MachineBytes(s), k);
      FlipBitTwice(MachineBytes(r), k);
      assert MachineBytes(s)[GP_SIZE..] == s.xsave && MachineBytes(r)[GP_SIZE..] == r.xsave;
    }
  }

  class Machine {
    var state: MachineState

    constructor (s: MachineState)
      ensures state == s
    {
      state := s;
    }
  }

  /** The XSAVE buffer before anything is read. */
  function Clear(): seq<Byte> {
    seq(XSAVE_SIZE, i => 0)
  }

  /** Fatal is the failed assertion of a register that has no pointer. */
  datatype FlipOutcome = Done | ExportFailed | Fatal

  class RegisterManipulator {
    const machine: Machine
    const regs: map<string, RegData>
    const gpregs: array<Byte>
    const vecregs: VecRegsState

    ghost predicate Valid()
    {
      && gpregs.Length == GP_SIZE && vecregs.Valid() && gpregs != vecregs.mem
      && forall r :: r in regs ==> InBounds(regs[r])
    }

    constructor (machine: Machine, regs: map<string, RegData>)
      requires forall r :: r in regs ==> InBounds(regs[r])
      ensures Valid() && this.machine == machine && this.regs == regs
      ensures fresh(gpregs) && fresh(vecregs.mem)
      ensures Buffer() == Clear()
    {
      this.machine := machine;
      this.regs := regs;
      gpregs := new Byte[GP_SIZE](i => 0);
      vecregs := new VecRegsState();
    }

    /** The XSAVE buffer as it was last read. */
    ghost function Buffer(): (b: seq<Byte>)
      requires Valid()
      ensures |b| == XSAVE_SIZE
      reads vecregs.mem
    {
      vecregs.mem[..XSAVE_SIZE]
    }

    /** Reads the general purpose registers, and the vector state only if `getRegSet`; a failure goes unnoticed. */
    method ImportRegisters(getRegSet: bool)
      requires Valid()
      modifies gpregs, vecregs.mem
      ensures gpregs[..] == machine.state.gp
      ensures Buffer() == AsRead(machine.state, old(Buffer()), getRegSet).xsave
    {
      forall i | 0 <= i < GP_SIZE { gpregs[i] := machine.state.gp[i]; }
      if getRegSet {
        forall i | 0 <= i < XSAVE_SIZE { vecregs.mem[i] := machine.state.xsave[i]; }
      }
      ghost var before := vecregs.mem[..];
      vecregs.ImportData();
      forall x | 0 <= x < XSAVE_SIZE ensures vecregs.mem[x] == before[x] {
        ImportAt(AsWritten, before, ZMM_CELLS, x);
        assert vecregs.mem[x] == vecregs.mem[..][x];
      }
    }

    /** `setRegs` and `setRegSet` tell whether the two writes succeed. */
    method ExportRegisters(setRegs: bool, setRegSet: bool) returns (ok: bool)
      requires Valid()
      modifies machine
      ensures ok == (setRegs && setRegSet)
      ensures machine.state.gp == if setRegs then gpregs[..] else old(machine.state.gp)
      ensures machine.state.xsave == if ok then vecregs.mem[..XSAVE_SIZE] else old(machine.state.xsave)
    {
      if !setRegs { return false; }
      machine.state := State(gpregs[..], machine.state.xsave);
      if !setRegSet { return false; }
      machine.state := State(machine.state.gp, vecregs.mem[..XSAVE_SIZE]);
      return true;
    }

    method GetProgramCounter(getRegSet: bool) returns (ip: nat)
      requires Valid()
      modifies gpregs, vecregs.mem
      ensures ip == LittleEndian(machine.state.gp[128..136])  // the 17th of the registers of 8 bytes each
      ensures Buffer() == AsRead(machine.state, old(Buffer()), getRegSet).xsave
    {
      ImportRegisters(getRegSet);
      ip := LittleEndian(gpregs[..][RIP_OFFSET..RIP_OFFSET + 8]);
    }

    /** Replaces the byte that holds the bit, in the buffers only. */
    method FlipRegisterByte(loc: Location, bit: nat)
      requires Valid()
      requires loc.Gp? ==> 8 * loc.at + bit < 8 * GP_SIZE
      requires loc.Vec? ==> 8 * loc.at + bit < 8 * if ZmmBacked(loc) then IMAGE_SIZE else XSAVE_SIZE
      modifies gpregs, vecregs.mem
      ensures gpregs[..] == if loc.Gp? then FlipBit(old(gpregs[..]), 8 * loc.at + bit) else old(gpregs[..])
      ensures vecregs.mem[..XSAVE_SIZE] ==
              if loc.Vec? && !ZmmBacked(loc) then FlipBit(old(vecregs.mem[..XSAVE_SIZE]), 8 * loc.at + bit)
              else old(vecregs.mem[..XSAVE_SIZE])
    {
      var bitInByte := bit % 8;
      match loc {
        case Gp(at) =>
          var oldByte := gpregs[at + bit / 8];
          gpregs[at + bit / 8] := XorByte(oldByte, bitInByte);
        case Vec(at) =>
          var oldByte := vecregs.mem[at + bit / 8];
          vecregs.mem[at + bit / 8] := XorByte(oldByte, bitInByte);
      }
    }

    /**
      On success the machine is what it was at the moment of the call with the chosen bit
      toggled, unless the register is backed by the flat array: then nothing changes.  This
      holds exactly if the vector state was read, or has not changed since it last was.
     */
    method TryBitFlip(reg: string, bit: nat, getRegSet: bool, setRegs: bool, setRegSet: bool) returns (r: FlipOutcome)
      requires Valid() && reg in regs && HasBit(regs[reg], bit)
      modifies machine, gpregs, vecregs.mem
      ensures r == Outcome(regs[reg], setRegs, setRegSet)
      ensures r.Fatal? ==> machine.state == old(machine.state)
      ensures r.Done? ==>
                machine.state == Flipped(AsRead(old(machine.state), old(Buffer()), getRegSet), regs[reg].ptr.value, bit)
      ensures r.Done? ==>
                (machine.state == Flipped(old(machine.state), regs[reg].ptr.value, bit) <==>
                 getRegSet || old(Buffer()) == old(machine.state.xsave))
      ensures r.ExportFailed? ==> machine.state.xsave == old(machine.state.xsave)
      ensures r.ExportFailed? ==>
                machine.state.gp == if setRegs then Flipped(old(machine.state), regs[reg].ptr.value, bit).gp
                                    else old(machine.state.gp)
    {
      hide FlipBit;
      ImportRegisters(getRegSet);
      var ptr := regs[reg].ptr;
      if ptr.None? { return Fatal; }
      StaleFlipShows(machine.state, old(Buffer()), getRegSet, regs[reg], bit);
      FlipRegisterByte(ptr.value, bit);
      var ok := ExportRegisters(setRegs, setRegSet);
      r := if ok then FlipOutcome.Done else ExportFailed;
    }

    /**
      The part of an injection between finding the instruction and resuming the thread: when
      the register is written by the instruction, the thread is stepped first, to a state
      the program does not know.  `getRegSet` and `getRegSet'` tell whether the vector state
      is read for the program counter and for the flip.
     */
    method FlipAtInstruction(reg: string, bit: nat, written: bool, stepped: MachineState, getRegSet: bool,
                             getRegSet': bool, setRegs: bool, setRegSet: bool) returns (r: FlipOutcome)
      requires Valid() && reg in regs && HasBit(regs[reg], bit)
      modifies machine, gpregs, vecregs.mem
      ensures r == Outcome(regs[reg], setRegs, setRegSet)
      ensures var now := if written then stepped else old(machine.state);
              && (r.Fatal? ==> machine.state == now)
              && (r.ExportFailed? ==> machine.state.xsave == now.xsave)
              && (r.ExportFailed? ==>
                    machine.state.gp == if setRegs then Flipped(now, regs[reg].ptr.value, bit).gp else now.gp)
              && (r.Done? && getRegSet' ==> machine.state == Flipped(now, regs[reg].ptr.value, bit))
      // If only the first read succeeds, the flip is right exactly if the step did not touch the vector state.
      ensures r.Done? && getRegSet && !getRegSet' ==>
                (machine.state ==
                   Flipped(if written then stepped else old(machine.state), regs[reg].ptr.value, bit) <==>
                 !written || stepped.xsave == old(machine.state.xsave))
    {
      hide Flipped, FlipBit;
      var ip := GetProgramCounter(getRegSet);
      if written { machine.state := stepped; }
      r := TryBitFlip(reg, bit, getRegSet', setRegs, setRegSet);
    }
  }

  function Outcome(d: RegData, setRegs: bool, setRegSet: bool): FlipOutcome {
    if d.ptr.None? then Fatal else if setRegs && setRegSet then FlipOutcome.Done else ExportFailed
  }
}
