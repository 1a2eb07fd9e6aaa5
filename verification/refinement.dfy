/**
 A handler, repeated until it completes, has the effect of its instruction at once.

 `CodeExecute` is that effect: the reference step except for three quirks of the handlers.
 `StepsComputeCodeExecute` says so of every handler; `MainLoop` puts the fetch in front of it, and
 `Quirks` compares `CodeExecute` with the reference.
 */
module Refinement {
  import opened Words
  import opened Isa
  import opened Decoder
  import opened Encoding
  import opened Machine
  import opened Alu
  import opened Cycles

  // ---------- registers ----------

  lemma AbsRegs(c: Core, rd: uint5, v: uint64, pc: uint64)
    requires c.regs[0] == 0
    ensures WithPc(WithRd(c.regs, rd, v), pc)[..32] == SetX(Abs(c), rd, v).x
    ensures WithPc(c.regs, pc)[..32] == Abs(c).x
    ensures forall r: uint5 :: X(Abs(c), r) == c.regs[r]
    ensures WithPc(WithRd(c.regs, rd, v), pc)[0] == 0 && WithPc(c.regs, pc)[0] == 0
  {}

  /** A bus cycle that does not write leaves memory alone. */
  lemma QuietTick(c: Core)
    requires !c.bus.memwrite
    ensures Tick(c) == c.(bus := Tick(c).bus) && Tick(c).bus.mem == c.bus.mem && !Tick(c).bus.memwrite
  {
    if c.bus.address in c.bus.mem {
      assert BusStep(c.bus).mem == c.bus.mem;
    }
  }

  // ---------- the effect of an instruction, quirks included ----------

  /** The handler writes `rd` before it reads `rs1`, and that changes what it reads. */
  predicate Aliased(i: Instr) {
    (i.Load? || i.Jalr?) && i.rd == i.rs1 && i.rd != 0
  }

  /** What the emulator computes for an instruction, all at once. */
  ghost function CodeExecute(i: Instr, s: State): State
    requires Valid(i)
  {
    match i
    case Load(op, rd, rs1, imm) =>
      Next(SetX(s, rd, LoadExtension(op, LoadedBytes(op, DecodedOf(i), s.mem, Address(i, s), LoadBytes(op)))))
    case Jalr(rd, rs1, imm) =>
      var base := if Aliased(i) then Add64(s.pc, 4) else X(s, rs1);
      SetX(s, rd, Add64(s.pc, 4)).(pc := ToU64(base + imm) / 2 * 2)
    case _ => Execute(i, s)
  }

  // ---------- one handler ----------

  /** What holds when a handler has run to its end. */
  ghost predicate Completed(c: Core, s: State) {
    !c.stall && !c.pcUpdated && c.regs[0] == 0 && Abs(c) == s
  }

  lemma StepsComputeCodeExecute(c: Core, i: Instr)
    requires Valid(i) && !c.stall && !c.pcUpdated && !c.bus.memwrite && c.regs[0] == 0
    requires Accessible(i, Abs(c))
    ensures Completed(Steps(c, HandlerOf(i), DecodedOf(i), Cost(HandlerOf(i))), CodeExecute(i, Abs(c)))
  {
    hide *;
    if i.Load? {
      LoadSteps(c, i);
    } else if i.Store? {
      StoreSteps(c, i);
    } else {
      SingleStep(c, i);
    }
  }

  lemma LoadSteps(c: Core, i: Instr)
    requires Valid(i) && i.Load? && !c.stall && !c.pcUpdated && c.regs[0] == 0
    requires Accessible(i, Abs(c))
    ensures Completed(Steps(c, HandlerOf(i), DecodedOf(i), Cost(HandlerOf(i))), CodeExecute(i, Abs(c)))
  {
    hide Steps, LoadedBytes, LoadExtension, WithRd, WithPc, SetX;
    var d := DecodedOf(i);
    var a, n := Address(i, Abs(c)), LoadBytes(i.lop);
    AbsRegs(c, d.rd, LoadExtension(i.lop, LoadedBytes(i.lop, d, c.bus.mem, a, n)), Add64(c.regs[PC], 4));
    AddImmediate(c.regs[d.rs1], i.imm);
    assert a == Add64(c.regs[d.rs1], d.imm);
    assert Add64(a, 0) == a && LoadBytes(i.lop) > 0;
    LoadResult(c, i.lop, d);
    PcOf(WithRd(c.regs, d.rd, LoadExtension(i.lop, LoadedBytes(i.lop, d, c.bus.mem, a, n))), Add64(c.regs[PC], 4));
    SetXFrame(Abs(c), d.rd, LoadExtension(i.lop, LoadedBytes(i.lop, d, c.bus.mem, a, n)));
  }

  lemma PcOf(regs: Regs, pc: uint64)
    ensures WithPc(regs, pc)[PC] == pc
  {}

  lemma SetXFrame(s: State, rd: int, v: uint64)
    ensures SetX(s, rd, v) == State(SetX(s, rd, v).x, s.pc, s.mem)
  {}

  lemma StoreSteps(c: Core, i: Instr)
    requires Valid(i) && i.Store? && !c.stall && !c.pcUpdated && c.regs[0] == 0
    ensures Completed(Steps(c, HandlerOf(i), DecodedOf(i), Cost(HandlerOf(i))), CodeExecute(i, Abs(c)))
  {
    hide Steps, StoreLE, WithPc;
    var d, n := DecodedOf(i), StoreBytes(i.sop);
    AbsRegs(c, 0, 0, Add64(c.regs[PC], 4));
    AddImmediate(c.regs[d.rs1], i.imm);
    StoreCourse(c, i.sop, d, n);
    TruncationIsHarmless(c.bus.mem, Add64(c.regs[d.rs1], d.imm), c.regs[d.rs2], n);
    PcOf(c.regs, Add64(c.regs[PC], 4));
  }

  /** The instructions that do not touch memory. */
  lemma SingleStep(c: Core, i: Instr)
    requires Valid(i) && !i.Load? && !i.Store?
    requires !c.stall && !c.pcUpdated && !c.bus.memwrite && c.regs[0] == 0
    ensures Completed(Steps(c, HandlerOf(i), DecodedOf(i), Cost(HandlerOf(i))), CodeExecute(i, Abs(c)))
  {
    hide Step;
    var h, d := HandlerOf(i), DecodedOf(i);
    assert Steps(c, h, d, 0) == c;
    assert Steps(c, h, d, 1) == Step(c, h, d);
    if i.Jal? || i.Jalr? || i.Branch? {
      ControlStep(c, i);
    } else {
      ValueStep(c, i);
    }
  }

  /** Instructions that write a value to `rd` and fall through. */
  lemma ValueStep(c: Core, i: Instr)
    requires Valid(i) && (i.Lui? || i.Auipc? || i.Imm? || i.Shift? || i.Reg?)
    requires !c.stall && !c.pcUpdated && !c.bus.memwrite && c.regs[0] == 0
    ensures Completed(Step(c, HandlerOf(i), DecodedOf(i)), CodeExecute(i, Abs(c)))
  {
    hide Step, AluImmValue, AluRegValue, ImmValue, ShiftValue, RegValue, SetX;
    var d, s := DecodedOf(i), Abs(c);
    AbsRegs(c, d.rd, 0, 0);
    match i {
      case Lui(rd, imm) => WriteStep(c, HandlerOf(i), d, ToU64(imm));
      case Auipc(rd, imm) =>
        AddImmediate(c.regs[PC], imm);
        WriteStep(c, HandlerOf(i), d, ToU64(s.pc + imm));
      case Imm(op, rd, rs1, imm) =>
        ImmRefines(op, c.regs[rs1], imm);
        WriteStep(c, HandlerOf(i), d, ImmValue(op, X(s, rs1), imm));
      case Shift(op, rd, rs1, shamt) =>
        ShiftRefines(op, c.regs[rs1], shamt);
        WriteStep(c, HandlerOf(i), d, ShiftValue(op, X(s, rs1), shamt));
      case Reg(op, rd, rs1, rs2) =>
        RegRefines(op, c.regs[rs1], c.regs[rs2]);
        WriteStep(c, HandlerOf(i), d, RegValue(op, X(s, rs1), X(s, rs2)));
    }
  }

  /** The value a value handler writes. */
  function Written(c: Core, h: Handler, d: Decoded): uint64
    requires h.ELui? || h.EAuipc? || h.EImm? || h.EReg?
  {
    match h
    case ELui => d.imm
    case EAuipc => Add64(d.imm, c.regs[PC])
    case EImm(a) => AluImmValue(a, c.regs[d.rs1], d.imm)
    case EReg(a) => AluRegValue(a, c.regs[d.rs1], c.regs[d.rs2], d.func7)
  }

  lemma WriteStep(c: Core, h: Handler, d: Decoded, v: uint64)
    requires (h.ELui? || h.EAuipc? || h.EImm? || h.EReg?) && Written(c, h, d) == v
    requires !c.stall && !c.pcUpdated && !c.bus.memwrite && c.regs[0] == 0
    ensures Completed(Step(c, h, d), Next(SetX(Abs(c), d.rd, v)))
  {
    hide AluImmValue, AluRegValue, BusStep;
    var c1 := AdvancePc(ExecHandler(c, h, d));
    assert c1 == c.(regs := WithPc(WithRd(c.regs, d.rd, v), Add64(c.regs[PC], 4)));
    QuietTick(c1);
    AbsRegs(c, d.rd, v, Add64(c.regs[PC], 4));
  }

  /** Jumps and branches. */
  lemma ControlStep(c: Core, i: Instr)
    requires Valid(i) && (i.Jal? || i.Jalr? || i.Branch?)
    requires !c.stall && !c.pcUpdated && !c.bus.memwrite && c.regs[0] == 0
    ensures Completed(Step(c, HandlerOf(i), DecodedOf(i)), CodeExecute(i, Abs(c)))
  {
    hide BusStep, Shl64, Shr64, Taken, BranchTaken, ToU64;
    var h, d, link := HandlerOf(i), DecodedOf(i), Add64(c.regs[PC], 4);
    AbsRegs(c, d.rd, link, 0);
    AddImmediate(c.regs[PC], i.imm);
    var c1 := AdvancePc(ExecHandler(c, h, d));
    match i {
      case Jal(rd, imm) =>
        assert c1 == c.(regs := WithPc(WithRd(c.regs, rd, link), ToU64(c.regs[PC] + imm)));
        AbsRegs(c, rd, link, ToU64(c.regs[PC] + imm));
      case Jalr(rd, rs1, imm) =>
        var base := if Aliased(i) then link else c.regs[rs1];
        assert WithRd(c.regs, rd, link)[rs1] == base;
        AddImmediate(base, imm);
        ClearLowBit(ToU64(base + imm));
        var target := ToU64(base + imm) / 2 * 2;
        assert c1 == c.(regs := WithPc(WithRd(c.regs, rd, link), target));
        AbsRegs(c, rd, link, target);
      case Branch(op, rs1, rs2, imm) =>
        BranchRefines(op, c.regs[rs1], c.regs[rs2]);
        var pc := if Taken(op, c.regs[rs1], c.regs[rs2]) then ToU64(c.regs[PC] + imm) else link;
        assert c1 == c.(regs := WithPc(c.regs, pc));
        AbsRegs(c, 0, 0, pc);
    }
    QuietTick(c1);
  }

  lemma ClearLowBit(x: uint64)
    ensures Shl64(Shr64(x, 1), 1) == x / 2 * 2
  {
    assert Pow2(1) == 2;
  }
}
