/**
  The registers an instruction accesses, and the choice of a register and a bit to flip
  (src/regManip.cpp).  An instruction is given as its disassembly describes it.
 */
module InstructionRegisters {
  import opened Options
  import opened Registers

  datatype Group = Jump | Call | Ret | Int | Iret | Privilege | BranchRelative | OtherGroup

  datatype Operand =
    | RegOp(reg: string, read: bool, write: bool)
    | MemOp(segment: Option<string>, base: Option<string>, index: Option<string>)
    | OtherOp

  datatype Instr = Instr(groups: seq<Group>, regsRead: seq<string>, regsWrite: seq<string>, operands: seq<Operand>)

  /** A register that may be chosen, with its bits and whether the instruction writes it. */
  datatype Descr = Descr(name: string, startBit: nat, bits: nat, written: bool)

  type Table = map<string, RegData>

  function Describe(regs: Table, name: string, written: bool): Descr
    requires name in regs
  {
    Descr(name, regs[name].startBit, regs[name].bits, written)
  }

  // ---------------------------------------------------------------- what is accessed

  predicate IsControl(instr: Instr) {
    exists g :: g in instr.groups && g != OtherGroup
  }

  predicate InjectsIP(instr: Instr, injectTo: string) {
    ('c' in injectTo && IsControl(instr)) || ('o' in injectTo && !IsControl(instr))
  }

  /** The roles in which the vectors hold a register; Silent is an operand neither read nor written. */
  datatype Role = Written | Read | Any | Silent

  function MemNames(op: Operand): seq<string>
    requires op.MemOp?
  {
    (if op.segment.Some? then [op.segment.value] else []) +
    (if op.base.Some? then [op.base.value] else []) +
    (if op.index.Some? then [op.index.value] else [])
  }

  function OperandNames(op: Operand): seq<string> {
    match op
    case RegOp(reg, _, _) => [reg]
    case MemOp(_, _, _) => MemNames(op)
    case OtherOp => []
  }

  predicate Known(regs: Table, names: seq<string>) {
    forall n :: n in names ==> n in regs
  }

  function DescribeAll(regs: Table, names: seq<string>, written: bool): (r: seq<Descr>)
    requires Known(regs, names)
    ensures |r| == |names|
    ensures forall i :: 0 <= i < |r| ==> r[i] == Describe(regs, names[i], written)
  {
    seq(|names|, i requires 0 <= i < |names| => Describe(regs, names[i], written))
  }

  function OperandRegs(regs: Table, op: Operand, role: Role): seq<Descr>
    requires Known(regs, OperandNames(op))
  {
    match op
    case RegOp(reg, read, write) =>
      var d := Describe(regs, reg, write);
      var present := match role
        case Written => write
        case Read => !write && read
        case Any => true
        case Silent => !write && !read;
      if present then [d] else []
    case MemOp(_, _, _) =>
      if role.Read? || role.Any? then DescribeAll(regs, MemNames(op), false) else []
    case OtherOp => []
  }

  ghost predicate KnownOperands(regs: Table, ops: seq<Operand>) {
    forall op :: op in ops ==> Known(regs, OperandNames(op))
  }

  function OperandsRegs(regs: Table, ops: seq<Operand>, role: Role): seq<Descr>
    requires KnownOperands(regs, ops)
  {
    if ops == [] then []
    else OperandsRegs(regs, ops[..|ops| - 1], role) + OperandRegs(regs, ops[|ops| - 1], role)
  }

  /** All the names that are looked up are in the table; otherwise the program dies. */
  ghost predicate Resolvable(regs: Table, instr: Instr, injectTo: string) {
    && (InjectsIP(instr, injectTo) ==> "rip" in regs)
    && ('i' in injectTo ==> Known(regs, instr.regsRead) && Known(regs, instr.regsWrite))
    && ('e' in injectTo ==> KnownOperands(regs, instr.operands))
  }

  function IPRegs(regs: Table, instr: Instr, injectTo: string): seq<Descr>
    requires Resolvable(regs, instr, injectTo)
  {
    if InjectsIP(instr, injectTo) then [Describe(regs, "rip", false)] else []
  }

  function ImplicitRegs(regs: Table, instr: Instr, injectTo: string, written: bool): seq<Descr>
    requires Resolvable(regs, instr, injectTo)
  {
    if 'i' !in injectTo then []
    else DescribeAll(regs, if written then instr.regsWrite else instr.regsRead, written)
  }

  function ExplicitRegs(regs: Table, instr: Instr, injectTo: string, role: Role): seq<Descr>
    requires Resolvable(regs, instr, injectTo)
  {
    if 'e' !in injectTo then [] else OperandsRegs(regs, instr.operands, role)
  }

  // ---------------------------------------------------------------- the vectors balance

  /** All the registers of an operand have one role: written, read or silent. */
  lemma OneRole(regs: Table, op: Operand) returns (role: Role)
    requires Known(regs, OperandNames(op))
    ensures !role.Any? && OperandRegs(regs, op, Any) == OperandRegs(regs, op, role)
    ensures forall other: Role :: !other.Any? && other != role ==> OperandRegs(regs, op, other) == []
  {
    hide DescribeAll;
    role := match op
      case RegOp(_, read, write) => if write then Written else if read then Read else Silent
      case _ => Read;
  }

  lemma OperandBalance(regs: Table, op: Operand)
    requires Known(regs, OperandNames(op))
    ensures multiset(OperandRegs(regs, op, Any)) ==
            multiset(OperandRegs(regs, op, Written)) + multiset(OperandRegs(regs, op, Read)) +
            multiset(OperandRegs(regs, op, Silent))
  {
    hide OperandRegs, Known;
    var role := OneRole(regs, op);
  }

  lemma {:induction false} OperandsBalance(regs: Table, ops: seq<Operand>)
    requires KnownOperands(regs, ops)
    ensures multiset(OperandsRegs(regs, ops, Any)) ==
            multiset(OperandsRegs(regs, ops, Written)) + multiset(OperandsRegs(regs, ops, Read)) +
            multiset(OperandsRegs(regs, ops, Silent))
    decreases |ops|
  {
    if ops != [] {
      hide OperandRegs, Known;
      OperandsBalance(regs, ops[..|ops| - 1]);
      OperandBalance(regs, ops[|ops| - 1]);
    }
  }

  /** The three vectors the source builds. */
  datatype Vectors = Vectors(wregs: seq<Descr>, rregs: seq<Descr>, allRegs: seq<Descr>)

  /**
    Counting repetitions, AllRegs holds what WRegs and RRegs hold together, except that rip
    is in it once and not twice, implicit registers are missing, and operands neither read
    nor written are added.
   */
  ghost predicate Balanced(v: Vectors, regs: Table, instr: Instr, injectTo: string)
    requires Resolvable(regs, instr, injectTo)
  {
    multiset(v.allRegs) + multiset(IPRegs(regs, instr, injectTo)) +
    multiset(ImplicitRegs(regs, instr, injectTo, true)) + multiset(ImplicitRegs(regs, instr, injectTo, false))
    == multiset(v.wregs) + multiset(v.rregs) + multiset(ExplicitRegs(regs, instr, injectTo, Silent))
  }

  /** Every entry has the bits its name has in the table. */
  predicate FromTable(regs: Table, d: Descr) {
    d.name in regs && d.startBit == regs[d.name].startBit && d.bits == regs[d.name].bits
  }

  ghost predicate Sound(v: Vectors, regs: Table) {
    && (forall d :: d in v.rregs ==> FromTable(regs, d) && !d.written)
    && (forall d :: d in v.wregs ==> FromTable(regs, d) && (d.written || d.name == "rip"))
    && (forall d :: d in v.allRegs ==> FromTable(regs, d))
  }

  lemma {:induction false} OperandsSound(regs: Table, ops: seq<Operand>, role: Role)
    requires KnownOperands(regs, ops)
    ensures forall d :: d in OperandsRegs(regs, ops, role) ==> FromTable(regs, d)
    ensures role.Read? ==> forall d :: d in OperandsRegs(regs, ops, role) ==> !d.written
    ensures role.Written? ==> forall d :: d in OperandsRegs(regs, ops, role) ==> d.written
    decreases |ops|
  {
    if ops != [] {
      OperandsSound(regs, ops[..|ops| - 1], role);
      var op := ops[|ops| - 1];
      forall d | d in OperandRegs(regs, op, role)
        ensures FromTable(regs, d) && (role.Read? ==> !d.written) && (role.Written? ==> d.written)
      {
      }
    }
  }

  /** Concatenations as multisets: the parts may be counted in any order. */
  lemma PartsBalance(ip: seq<Descr>, iw: seq<Descr>, ir: seq<Descr>, ew: seq<Descr>, er: seq<Descr>,
                     ea: seq<Descr>, es: seq<Descr>)
    requires multiset(ea) == multiset(ew) + multiset(er) + multiset(es)
    ensures multiset(ip + ea) + multiset(ip) + multiset(iw) + multiset(ir) ==
            multiset(ip + iw + ew) + multiset(ip + ir + er) + multiset(es)
  {
    assert multiset(ip + ea) == multiset(ip) + multiset(ea);
    assert multiset(ip + iw + ew) == multiset(ip) + multiset(iw) + multiset(ew);
    assert multiset(ip + ir + er) == multiset(ip) + multiset(ir) + multiset(er);
  }

  /** The vectors, put together from their parts. */
  function VectorsOf(regs: Table, instr: Instr, injectTo: string): Vectors
    requires Resolvable(regs, instr, injectTo)
  {
    var ip := IPRegs(regs, instr, injectTo);
    Vectors(
      ip + ImplicitRegs(regs, instr, injectTo, true) + ExplicitRegs(regs, instr, injectTo, Written),
      ip + ImplicitRegs(regs, instr, injectTo, false) + ExplicitRegs(regs, instr, injectTo, Read),
      ip + ExplicitRegs(regs, instr, injectTo, Any))
  }

  lemma VectorsBalanced(regs: Table, instr: Instr, injectTo: string)
    requires Resolvable(regs, instr, injectTo)
    ensures Balanced(VectorsOf(regs, instr, injectTo), regs, instr, injectTo)
  {
    hide OperandsRegs, DescribeAll, Describe, Known;
    if 'e' in injectTo { OperandsBalance(regs, instr.operands); }
    PartsBalance(IPRegs(regs, instr, injectTo), ImplicitRegs(regs, instr, injectTo, true),
      ImplicitRegs(regs, instr, injectTo, false), ExplicitRegs(regs, instr, injectTo, Written),
      ExplicitRegs(regs, instr, injectTo, Read), ExplicitRegs(regs, instr, injectTo, Any),
      ExplicitRegs(regs, instr, injectTo, Silent));
  }

  /**
    AllRegs with a second rip is WRegs and RRegs together exactly when as many implicit
    registers are missing as silent operands are added; so always without 'i' and with every
    register operand read or written.
   */
  lemma AllIsUnionIff(regs: Table, instr: Instr, injectTo: string)
    requires Resolvable(regs, instr, injectTo)
    ensures var v := VectorsOf(regs, instr, injectTo);
            multiset(v.allRegs) + multiset(IPRegs(regs, instr, injectTo)) == multiset(v.wregs) + multiset(v.rregs) <==>
            multiset(ImplicitRegs(regs, instr, injectTo, true)) + multiset(ImplicitRegs(regs, instr, injectTo, false))
            == multiset(ExplicitRegs(regs, instr, injectTo, Silent))
  {
    hide VectorsOf, IPRegs, ImplicitRegs, ExplicitRegs;
    VectorsBalanced(regs, instr, injectTo);
    var v := VectorsOf(regs, instr, injectTo);
    Cancel(multiset(v.allRegs) + multiset(IPRegs(regs, instr, injectTo)), multiset(v.wregs) + multiset(v.rregs),
      multiset(ImplicitRegs(regs, instr, injectTo, true)) + multiset(ImplicitRegs(regs, instr, injectTo, false)),
      multiset(ExplicitRegs(regs, instr, injectTo, Silent)));
  }

  lemma Cancel(a: multiset<Descr>, b: multiset<Descr>, c: multiset<Descr>, d: multiset<Descr>)
    requires a + c == b + d
    ensures a == b <==> c == d
  {
    if a == b { assert c == (a + c) - a && d == (b + d) - b; }
    if c == d { assert a == (a + c) - c && b == (b + d) - d; }
  }

  lemma VectorsSound(regs: Table, instr: Instr, injectTo: string)
    requires Resolvable(regs, instr, injectTo)
    ensures Sound(VectorsOf(regs, instr, injectTo), regs)
  {
    hide OperandsRegs, KnownOperands, FromTable, DescribeAll;
    ImplicitSound(regs, instr, injectTo);
    if 'e' in injectTo {
      OperandsSound(regs, instr.operands, Written);
      OperandsSound(regs, instr.operands, Read);
      OperandsSound(regs, instr.operands, Any);
    }
  }

  lemma ImplicitSound(regs: Table, instr: Instr, injectTo: string)
    requires Resolvable(regs, instr, injectTo)
    ensures forall d :: d in IPRegs(regs, instr, injectTo) ==> FromTable(regs, d) && d.name == "rip" && !d.written
    ensures forall d :: d in ImplicitRegs(regs, instr, injectTo, true) ==> FromTable(regs, d) && d.written
    ensures forall d :: d in ImplicitRegs(regs, instr, injectTo, false) ==> FromTable(regs, d) && !d.written
  {
  }

  // ---------------------------------------------------------------- what is in the vectors

  /** The operand is an address that uses the register. */
  predicate Addresses(op: Operand, name: string) {
    op.MemOp? && (op.segment == Some(name) || op.base == Some(name) || op.index == Some(name))
  }

  lemma OperandMembers(regs: Table, op: Operand, d: Descr)
    requires Known(regs, OperandNames(op))
    ensures d in OperandRegs(regs, op, Written) <==>
              FromTable(regs, d) && d.written && op.RegOp? && op.write && op.reg == d.name
    ensures d in OperandRegs(regs, op, Read) <==>
              FromTable(regs, d) && !d.written && (op == RegOp(d.name, true, false) || Addresses(op, d.name))
    ensures d in OperandRegs(regs, op, Any) <==>
              FromTable(regs, d) && ((op.RegOp? && op.reg == d.name && op.write == d.written) ||
                                     (!d.written && Addresses(op, d.name)))
  {
    if op.MemOp? && d.name in MemNames(op) && FromTable(regs, d) && !d.written {
      var i :| 0 <= i < |MemNames(op)| && MemNames(op)[i] == d.name;
      assert DescribeAll(regs, MemNames(op), false)[i] == d;
    }
  }

  lemma {:induction false} OperandsMembers(regs: Table, ops: seq<Operand>, role: Role, d: Descr)
    requires KnownOperands(regs, ops)
    ensures d in OperandsRegs(regs, ops, role) <==> exists op :: op in ops && d in OperandRegs(regs, op, role)
    decreases |ops|
  {
    if ops != [] {
      var front, last := ops[..|ops| - 1], ops[|ops| - 1];
      assert ops == front + [last] && last in ops;
      OperandsMembers(regs, front, role, d);
      OperandsSnoc(regs, front, last, role);
      hide OperandRegs, OperandsRegs, Known;
      assert forall op :: op in ops <==> op in front || op == last;
      if op :| op in front && d in OperandRegs(regs, op, role) { assert op in ops; }
    }
  }

  lemma ImplicitMembers(regs: Table, names: seq<string>, written: bool, d: Descr)
    requires Known(regs, names)
    ensures d in DescribeAll(regs, names, written) <==> FromTable(regs, d) && d.written == written && d.name in names
  {
    if FromTable(regs, d) && d.written == written && d.name in names {
      var i :| 0 <= i < |names| && names[i] == d.name;
      assert DescribeAll(regs, names, written)[i] == d;
    }
  }

  /** The entry is rip, which 'c' selects for control instructions and 'o' for the others. */
  ghost predicate IsRip(instr: Instr, injectTo: string, d: Descr) {
    && d.name == "rip" && !d.written
    && if exists g :: g in instr.groups && g != OtherGroup then 'c' in injectTo else 'o' in injectTo
  }

  /**
    Exactly what each vector holds, by the letters of -inject-to and what the disassembly
    says: rip for 'c' or 'o', implicit registers for 'i', operands for 'e'.
   */
  lemma VectorsMembers(regs: Table, instr: Instr, injectTo: string, d: Descr)
    requires Resolvable(regs, instr, injectTo)
    ensures d in VectorsOf(regs, instr, injectTo).wregs <==>
              FromTable(regs, d) &&
              (IsRip(instr, injectTo, d) ||
               (d.written && 'i' in injectTo && d.name in instr.regsWrite) ||
               (d.written && 'e' in injectTo &&
                exists op :: op in instr.operands && op.RegOp? && op.write && op.reg == d.name))
    ensures d in VectorsOf(regs, instr, injectTo).rregs <==>
              FromTable(regs, d) &&
              (IsRip(instr, injectTo, d) ||
               (!d.written && 'i' in injectTo && d.name in instr.regsRead) ||
               (!d.written && 'e' in injectTo &&
                exists op :: op in instr.operands && (op == RegOp(d.name, true, false) || Addresses(op, d.name))))
    ensures d in VectorsOf(regs, instr, injectTo).allRegs <==>
              FromTable(regs, d) &&
              (IsRip(instr, injectTo, d) ||
               ('e' in injectTo &&
                exists op :: op in instr.operands && ((op.RegOp? && op.reg == d.name && op.write == d.written) ||
                                                      (!d.written && Addresses(op, d.name)))))
  {
    hide OperandsRegs, OperandRegs, DescribeAll, Addresses;
    if 'i' in injectTo {
      ImplicitMembers(regs, instr.regsWrite, true, d);
      ImplicitMembers(regs, instr.regsRead, false, d);
    }
    if 'e' in injectTo {
      OperandsMembers(regs, instr.operands, Written, d);
      OperandsMembers(regs, instr.operands, Read, d);
      OperandsMembers(regs, instr.operands, Any, d);
      forall op | op in instr.operands
        ensures d in OperandRegs(regs, op, Written) <==>
                  FromTable(regs, d) && d.written && op.RegOp? && op.write && op.reg == d.name
        ensures d in OperandRegs(regs, op, Read) <==>
                  FromTable(regs, d) && !d.written && (op == RegOp(d.name, true, false) || Addresses(op, d.name))
        ensures d in OperandRegs(regs, op, Any) <==>
                  FromTable(regs, d) && ((op.RegOp? && op.reg == d.name && op.write == d.written) ||
                                         (!d.written && Addresses(op, d.name)))
      {
        OperandMembers(regs, op, d);
      }
    }
  }

  // ---------------------------------------------------------------- the code

  method IsControlInstr(instr: Instr) returns (isControl: bool)
    ensures isControl == IsControl(instr)
  {
    isControl := false;
    for idx := 0 to |instr.groups|
      invariant isControl <==> exists k :: 0 <= k < idx && instr.groups[k] != OtherGroup
    {
      match instr.groups[idx] {
        case OtherGroup =>
        case _ => isControl := true;
      }
    }
    if isControl {
      ghost var k :| 0 <= k < |instr.groups| && instr.groups[k] != OtherGroup;
      assert instr.groups[k] in instr.groups;
    }
  }

  /** Appends the registers of one list of names; `ok` is false when the program dies. */
  method PushImplicit(regs: Table, names: seq<string>, written: bool, vec: seq<Descr>)
    returns (ok: bool, res: seq<Descr>)
    ensures ok <==> Known(regs, names)
    ensures ok ==> res == vec + DescribeAll(regs, names, written)
  {
    res := vec;
    for idx := 0 to |names|
      invariant Known(regs, names[..idx])
      invariant res == vec + DescribeAll(regs, names[..idx], written)
    {
      if names[idx] !in regs { return false, res; }
      assert DescribeAll(regs, names[..idx + 1], written) ==
             DescribeAll(regs, names[..idx], written) + [Describe(regs, names[idx], written)];
      res := res + [Describe(regs, names[idx], written)];
    }
    assert names[..|names|] == names;
    return true, res;
  }

  /** The switch over the type of one operand. */
  method PushOperand(regs: Table, op: Operand, w: seq<Descr>, r: seq<Descr>, a: seq<Descr>)
    returns (ok: bool, wregs: seq<Descr>, rregs: seq<Descr>, allRegs: seq<Descr>)
    ensures ok <==> Known(regs, OperandNames(op))
    ensures ok ==> wregs == w + OperandRegs(regs, op, Written)
    ensures ok ==> rregs == r + OperandRegs(regs, op, Read)
    ensures ok ==> allRegs == a + OperandRegs(regs, op, Any)
  {
    ok, wregs, rregs, allRegs := true, w, r, a;
    match op {
      case RegOp(reg, read, write) =>
        if reg !in regs {
          ok := false;
        } else {
          var d := Describe(regs, reg, write);
          if write {
            wregs := wregs + [d];
          } else if read {
            rregs := rregs + [d];
          }
          allRegs := allRegs + [d];
        }
      case MemOp(_, _, _) =>
        var more: seq<Descr>;
        ok, more := PushImplicit(regs, MemNames(op), false, []);
        if ok { rregs, allRegs := rregs + more, allRegs + more; }
      case OtherOp =>
    }
  }

  method PushExplicit(regs: Table, ops: seq<Operand>, w: seq<Descr>, r: seq<Descr>, a: seq<Descr>)
    returns (ok: bool, wregs: seq<Descr>, rregs: seq<Descr>, allRegs: seq<Descr>)
    ensures ok <==> KnownOperands(regs, ops)
    ensures ok ==> wregs == w + OperandsRegs(regs, ops, Written)
    ensures ok ==> rregs == r + OperandsRegs(regs, ops, Read)
    ensures ok ==> allRegs == a + OperandsRegs(regs, ops, Any)
  {
    hide OperandRegs, OperandsRegs, Known;
    wregs, rregs, allRegs := w, r, a;
    NoOperands(regs);
    for idx := 0 to |ops|
      invariant KnownOperands(regs, ops[..idx])
      invariant wregs == w + OperandsRegs(regs, ops[..idx], Written)
      invariant rregs == r + OperandsRegs(regs, ops[..idx], Read)
      invariant allRegs == a + OperandsRegs(regs, ops[..idx], Any)
    {
      ok, wregs, rregs, allRegs := PushOperand(regs, ops[idx], wregs, rregs, allRegs);
      if !ok { return; }
      assert ops[..idx + 1] == ops[..idx] + [ops[idx]];
      OperandsSnoc(regs, ops[..idx], ops[idx], Written);
      OperandsSnoc(regs, ops[..idx], ops[idx], Read);
      OperandsSnoc(regs, ops[..idx], ops[idx], Any);
    }
    assert ops[..|ops|] == ops;
    ok := true;
  }

  lemma NoOperands(regs: Table)
    ensures forall role :: OperandsRegs(regs, [], role) == []
  {
  }

  lemma OperandsSnoc(regs: Table, ops: seq<Operand>, op: Operand, role: Role)
    requires KnownOperands(regs, ops) && Known(regs, OperandNames(op))
    ensures KnownOperands(regs, ops + [op])
    ensures OperandsRegs(regs, ops + [op], role) == OperandsRegs(regs, ops, role) + OperandRegs(regs, op, role)
  {
    assert (ops + [op])[..|ops|] == ops;
  }

  /** Bytes that cannot be decoded access no registers. */
  ghost predicate ResolvableAt(regs: Table, decoded: Option<Instr>, injectTo: string) {
    decoded.Some? ==> Resolvable(regs, decoded.value, injectTo)
  }

  ghost function VectorsAt(regs: Table, decoded: Option<Instr>, injectTo: string): Vectors
    requires ResolvableAt(regs, decoded, injectTo)
  {
    if decoded.None? then Vectors([], [], []) else VectorsOf(regs, decoded.value, injectTo)
  }

  /** None is the death of the program at a register that is not in the table. */
  method GetInstrRegisters(regs: Table, decoded: Option<Instr>, injectTo: string) returns (r: Option<Vectors>)
    ensures r.Some? <==> ResolvableAt(regs, decoded, injectTo)
    ensures r.Some? ==> r.value == VectorsAt(regs, decoded, injectTo)
  {
    hide DescribeAll, OperandsRegs, KnownOperands, Known, IsControl;
    if decoded.None? { return Some(Vectors([], [], [])); }
    var instr := decoded.value;
    var wregs: seq<Descr>, rregs: seq<Descr>, allRegs: seq<Descr> := [], [], [];
    var isControl := IsControlInstr(instr);
    if ('c' in injectTo && isControl) || ('o' in injectTo && !isControl) {
      if "rip" !in regs { return None; }
      var d := Describe(regs, "rip", false);
      wregs, rregs, allRegs := wregs + [d], rregs + [d], allRegs + [d];
    }
    ghost var ip := allRegs;
    var ok: bool;
    if 'i' in injectTo {
      ok, rregs := PushImplicit(regs, instr.regsRead, false, rregs);
      if !ok { return None; }
      ok, wregs := PushImplicit(regs, instr.regsWrite, true, wregs);
      if !ok { return None; }
    }
    ghost var w, rd := wregs, rregs;
    if 'e' in injectTo {
      ok, wregs, rregs, allRegs := PushExplicit(regs, instr.operands, wregs, rregs, allRegs);
      if !ok { return None; }
    }
    assert Resolvable(regs, instr, injectTo);
    assert ip == IPRegs(regs, instr, injectTo);
    assert w == ip + ImplicitRegs(regs, instr, injectTo, true);
    assert rd == ip + ImplicitRegs(regs, instr, injectTo, false);
    assert wregs == w + ExplicitRegs(regs, instr, injectTo, Written);
    assert rregs == rd + ExplicitRegs(regs, instr, injectTo, Read);
    assert allRegs == ip + ExplicitRegs(regs, instr, injectTo, Any);
    r := Some(Vectors(wregs, rregs, allRegs));
  }

  datatype Selection =
    | Selected(reg: Descr, bit: nat)
    | OutOfRange(reg: Descr, bit: nat)
    | NoRegister
    | UnknownRegister

  const UINT_RANGE := 0x1_0000_0000

  /** The vector a register is picked from. */
  function Candidates(v: Vectors, injectTo: string): seq<Descr> {
    if 'r' in injectTo && 'w' in injectTo then v.allRegs else if 'r' in injectTo then v.rregs else v.wregs
  }

  /** `rand1` and `rand2` are the two values drawn from rand(). */
  method GetSelectedRegAndBit(regs: Table, decoded: Option<Instr>, injectTo: string, forcedReg: Option<string>,
                              forcedBit: Option<int>, rand1: nat, rand2: nat) returns (s: Selection)
    requires forall r :: r in regs ==> regs[r].bits > 0
    requires forcedReg.None? ==> 'r' in injectTo || 'w' in injectTo
    ensures s.UnknownRegister? <==>
              !ResolvableAt(regs, decoded, injectTo) || (forcedReg.Some? && forcedReg.value !in regs)
    ensures s.Selected? ==> s.reg.name in regs && HasBit(regs[s.reg.name], s.bit)
    ensures s.Selected? || s.OutOfRange? ==> FromTable(regs, s.reg)
    ensures s.Selected? && forcedReg.Some? ==> s.reg.name == forcedReg.value && !s.reg.written
    ensures (s.Selected? || s.OutOfRange?) && forcedBit.Some? ==> s.bit == forcedBit.value % UINT_RANGE
    ensures s.OutOfRange? ==> forcedBit.Some? && !HasBit(regs[s.reg.name], s.bit)
    ensures s.NoRegister? ==> forcedReg.None? && Candidates(VectorsAt(regs, decoded, injectTo), injectTo) == []
    ensures (s.Selected? || s.OutOfRange?) && forcedReg.None? ==>
              var c := Candidates(VectorsAt(regs, decoded, injectTo), injectTo);
              c != [] && s.reg == c[rand1 % |c|]
    // The letters 'r' and 'w' choose the vector; with both of them each of its entries is reached by some rand1.
    ensures (s.Selected? || s.OutOfRange?) && forcedReg.None? ==>
              var v := VectorsAt(regs, decoded, injectTo);
              && ('w' !in injectTo ==> s.reg in v.rregs && !s.reg.written)
              && ('r' !in injectTo ==> s.reg in v.wregs && (s.reg.written || s.reg.name == "rip"))
              && ('r' in injectTo && 'w' in injectTo ==> s.reg == v.allRegs[rand1 % |v.allRegs|])
    ensures s.NoRegister? ==>
              var v := VectorsAt(regs, decoded, injectTo);
              && ('w' !in injectTo ==> v.rregs == []) && ('r' !in injectTo ==> v.wregs == [])
              && ('r' in injectTo && 'w' in injectTo ==> v.allRegs == [])
    ensures s.Selected? ==> regs[s.reg.name].startBit <= s.bit < regs[s.reg.name].startBit + regs[s.reg.name].bits
    ensures s.Selected? && forcedBit.None? ==> s.bit == s.reg.startBit + rand2 % s.reg.bits
  {
    hide VectorsOf, Resolvable;
    var found := GetInstrRegisters(regs, decoded, injectTo);
    if found.None? { return UnknownRegister; }
    if decoded.Some? { VectorsSound(regs, decoded.value, injectTo); }
    var vec: seq<Descr>;
    if forcedReg.Some? {
      if forcedReg.value !in regs { return UnknownRegister; }
      vec := [Describe(regs, forcedReg.value, false)];
    } else {
      vec := Candidates(found.value, injectTo);
    }
    if vec == [] { return NoRegister; }
    var selectedReg := if forcedReg.Some? then 0 else rand1 % |vec|;
    var reg := vec[selectedReg];
    assert reg in vec && FromTable(regs, reg);
    if forcedBit.Some? {
      var selectedBit := forcedBit.value % UINT_RANGE;
      if !(reg.startBit <= selectedBit < reg.startBit + reg.bits) { return OutOfRange(reg, selectedBit); }
      return Selected(reg, selectedBit);
    }
    return Selected(reg, reg.startBit + rand2 % reg.bits);
  }
}
