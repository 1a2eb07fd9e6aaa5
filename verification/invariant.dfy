/**
 What every bus cycle of the main loop keeps, and what follows for whole runs: the hidden offsets
 stay in range, the pc is held and even, x0 is zero, and memory changes only inside the bytes of
 the store being executed.
 */
module Invariant {
  import opened Words
  import opened Isa
  import opened Decoder
  import opened Encoding
  import opened Exactness
  import opened Machine
  import opened Access
  import opened DeviceMap
  import opened Cycles
  import opened Refinement
  import opened MainLoop

  /** The invariant of the cycles. */
  ghost predicate Inv(m: Machine) {
    && m.core.regs[0] == 0 && m.core.regs[PC] % 2 == 0 && !m.core.pcUpdated
    && match m.phase
       case Fetching => m.core.stall ==> m.core.readOffset <= 4 && Reading(m.core, m.core.regs[PC], m.core.readOffset)
       case Executing => m.ins != 0 && InHandler(m.core, SelectHandler(m.ins))
       case Halted => !m.core.stall && m.ins == 0
       case Trapped => !m.core.stall && SelectHandler(m.ins) == EIllegal
  }

  /** Only a load or a store stalls, at an offset its length allows; nothing but a store has `memwrite` set. */
  predicate InHandler(c: Core, h: Handler) {
    && (c.stall ==> h.ELoad? || h.EStore?)
    && (c.stall && h.ELoad? ==> 1 <= c.readOffset <= LoadBytes(h.lop) && !c.bus.memwrite)
    && (c.stall && h.EStore? ==> 1 <= c.writeOffset <= StoreBytes(h.sop) - 1)
    && (!c.stall ==> !c.bus.memwrite)
  }

  // ---------- one cycle ----------

  lemma FetchingKeeps(m: Machine)
    requires Inv(m) && m.phase == Fetching
    ensures Inv(Cycle(m)) && Cycle(m).core.regs == m.core.regs && Cycle(m).core.bus.mem == m.core.bus.mem
  {
    hide ReadTyped, Tick, SelectHandler;
    var c := m.core;
    FetchCycle(m);
    if c.stall {
      ReadNext(c, c.regs[PC], m.ins, 4);
      TickFrame(ReadTyped(c, c.regs[PC], m.ins, 4).0);
    } else {
      ReadFirst(c, c.regs[PC], m.ins, 4);
    }
  }

  lemma LoadKeeps(c: Core, op: LoadOp, d: Decoded)
    requires InHandler(c, ELoad(op)) && !c.pcUpdated && c.regs[0] == 0 && c.regs[PC] % 2 == 0
    ensures var c' := Step(c, ELoad(op), d);
      && (c'.stall ==> InHandler(c', ELoad(op)) && c'.regs[PC] == c.regs[PC])
      && !c'.pcUpdated && c'.regs[0] == 0 && c'.regs[PC] % 2 == 0 && c'.bus.mem == c.bus.mem
  {
    hide Step, ReadTyped, Tick, LoadExtension;
    var n, a := LoadBytes(op), Add64(c.regs[d.rs1], d.imm);
    LoadStep(c, op, d);
    if c.stall {
      ReadNext(c, a, Loaded(c, op), n);
    } else {
      ReadFirst(c, a, Loaded(c, op), n);
    }
    EvenSum64(c.regs[PC], 4);
  }

  lemma EvenSum64(a: uint64, b: uint64)
    requires a % 2 == 0 && b % 2 == 0
    ensures Add64(a, b) % 2 == 0
  {}

  /** One cycle of a store writes one byte: the one its offset points at. */
  lemma StoreKeeps(c: Core, op: StoreOp, d: Decoded)
    requires InHandler(c, EStore(op)) && !c.pcUpdated && c.regs[0] == 0 && c.regs[PC] % 2 == 0
    ensures var c' := Step(c, EStore(op), d);
      var offset := if c.stall then c.writeOffset else 0;
      && (c'.stall ==> InHandler(c', EStore(op)) && c'.regs == c.regs)
      && !c'.pcUpdated && c'.regs[0] == 0 && c'.regs[PC] % 2 == 0
      && offset < StoreBytes(op)
      && c'.bus.mem == Put(c.bus.mem, Add64(Add64(c.regs[d.rs1], d.imm), offset), ByteOf(c.regs[d.rs2], offset))
  {
    hide Step, StoredValue, Pow2;
    StoreStep1(c, op, d);
    var offset, n, v := if c.stall then c.writeOffset else 0, StoreBytes(op), StoredValue(c, op, d);
    var w := WriteMem(c, Add64(c.regs[d.rs1], d.imm), n, v);
    assert offset * 8 == 8 * offset;
    assert w.bus.writedata == ByteOf(v, offset);
    assert ByteOf(v, offset) == ByteOf(c.regs[d.rs2], offset) by { StoredByte(c, op, d, offset); }
    assert Tick(w).bus.mem == Put(c.bus.mem, Add64(Add64(c.regs[d.rs1], d.imm), offset), ByteOf(v, offset));
    EvenSum64(c.regs[PC], 4);
  }

  lemma StoredByte(c: Core, op: StoreOp, d: Decoded, j: nat)
    requires j < StoreBytes(op)
    ensures ByteOf(StoredValue(c, op, d), j) == ByteOf(c.regs[d.rs2], j)
  {
    LowByte(c.regs[d.rs2], StoreBytes(op), j);
  }

  /** The formats of the handlers that add an immediate to the pc. */
  lemma TargetFormats(ins: uint32)
    ensures SelectHandler(ins).EBranch? || SelectHandler(ins) == EJal ==> DecodeFields(ins).imm % 2 == 0
  {
    hide SelectHandler, DecodeOpcode, DecodeImmB, DecodeImmJ, Signed;
    TargetImmediatesAreEven(ins);
    EvenUnsigned(DecodeImmB(ins));
    EvenUnsigned(DecodeImmJ(ins));
    if SelectHandler(ins) != EIllegal { HandlerGetsItsFormat(ins); }
  }

  lemma EvenUnsigned(x: uint64)
    ensures Signed(x) % 2 == 0 ==> x % 2 == 0
  {}

  lemma SingleKeeps(c: Core, h: Handler, d: Decoded)
    requires h != EIllegal && !h.ELoad? && !h.EStore? && InHandler(c, h)
    requires !c.pcUpdated && c.regs[0] == 0 && c.regs[PC] % 2 == 0
    requires h.EBranch? || h == EJal ==> d.imm % 2 == 0
    ensures var c' := Step(c, h, d);
      && !c'.stall && !c'.pcUpdated && c'.regs[0] == 0 && c'.regs[PC] % 2 == 0 && c'.bus.mem == c.bus.mem
  {
    hide BusStep, AluImmValue, AluRegValue, BranchTaken, Shl64, Shr64, Add64;
    SingleTiming(c, h, d);
    var c1 := AdvancePc(ExecHandler(c, h, d));
    assert c1.bus == c.bus;
    QuietTick(c1);
    EvenSum64(c.regs[PC], 4);
    if h.EBranch? || h == EJal { EvenSum64(c.regs[PC], d.imm); }
    if h == EJalr {
      var c2 := SetRegister(c, d.rd, Add64(c.regs[PC], 4));
      ClearLowBit(Add64(c2.regs[d.rs1], d.imm));
    }
  }

  /** The address of the load or store being executed, from the registers as they are. */
  function AccessAddress(m: Machine): uint64 {
    var d := DecodeFields(m.ins);
    Add64(m.core.regs[d.rs1], d.imm)
  }

  /** `x` is one of the bytes of the store being executed. */
  predicate InStore(m: Machine, x: uint64) {
    && m.phase == Executing && SelectHandler(m.ins).EStore?
    && (x - AccessAddress(m)) % TWO64 < StoreBytes(SelectHandler(m.ins).sop)
  }

  lemma ExecutingKeeps(m: Machine)
    requires Inv(m) && m.phase == Executing
    ensures Inv(Cycle(m)) && CycleWrites(m) && CycleHolds(m)
  {
    hide SelectHandler, DecodeFields, ExecHandler, AdvancePc, BusStep;
    var h, d, c := SelectHandler(m.ins), DecodeFields(m.ins), m.core;
    if h == EIllegal {
    } else {
      assert Cycle(m).core == Step(c, h, d);
      if h.ELoad? {
        LoadKeeps(c, h.lop, d);
      } else if h.EStore? {
        StoreKeeps(c, h.sop, d);
        Distance(AccessAddress(m), if c.stall then c.writeOffset else 0);
      } else {
        TargetFormats(m.ins);
        SingleKeeps(c, h, d);
      }
    }
  }

  /** The same addresses stay mapped, and a byte that changes is a byte of the store. */
  ghost predicate CycleWrites(m: Machine) {
    && Cycle(m).core.bus.mem.Keys == m.core.bus.mem.Keys
    && forall x :: x in m.core.bus.mem && Cycle(m).core.bus.mem[x] != m.core.bus.mem[x] ==> InStore(m, x)
  }

  /** The pc and the held word change only when a handler completes; a stalled store keeps its address. */
  ghost predicate CycleHolds(m: Machine) {
    var m' := Cycle(m);
    && (m'.core.regs[PC] != m.core.regs[PC] ==> m.phase == Executing && m'.phase == Fetching)
    && (m.phase != Fetching ==> m'.ins == m.ins)
    && (m.phase == Executing && m'.phase == Executing && SelectHandler(m.ins).EStore? ==>
      AccessAddress(m') == AccessAddress(m))
  }

  lemma InvStep(m: Machine)
    requires Inv(m)
    ensures Inv(Cycle(m)) && CycleWrites(m) && CycleHolds(m)
  {
    match m.phase {
      case Fetching =>
        hide Inv;
        FetchingKeeps(m);
        FetchCycle(m);
      case Executing => ExecutingKeeps(m);
      case _ => assert Cycle(m) == m;
    }
  }

  // ---------- whole runs ----------

  lemma InitialInv(bus: Bus)
    ensures Inv(Initial(bus))
  {}

  /** Every reachable state satisfies the invariant, holds what it must and writes only what it may. */
  lemma {:induction false} InvRun(m: Machine, k: nat)
    requires Inv(m)
    ensures Inv(Run(m, k)) && CycleWrites(Run(m, k)) && CycleHolds(Run(m, k))
    decreases k
  {
    hide Inv, Cycle, CycleWrites, CycleHolds;
    if k > 0 { InvRun(m, k - 1); InvStep(Run(m, k - 1)); }
    InvStep(Run(m, k));
  }

  /** What the invariant says, width by width. */
  lemma InvMeans(m: Machine, op: LoadOp, sop: StoreOp, n: nat)
    requires Inv(m)
    ensures m.core.regs[0] == 0 && m.core.regs[32] % 2 == 0 && !m.core.pcUpdated
    ensures m.core.stall ==> m.phase in {Fetching, Executing}
    ensures m.core.stall && m.phase == Fetching ==> 1 <= m.core.readOffset <= 4 && !m.core.bus.memwrite
    ensures m.core.stall && m.phase == Executing ==>
      m.ins != 0 && (SelectHandler(m.ins).ELoad? || SelectHandler(m.ins).EStore?)
    ensures (op, n) in {(LB, 1), (LBU, 1), (LH, 2), (LHU, 2), (LW, 4), (LWU, 4), (LD, 8)} ==>
      (m.core.stall && m.phase == Executing && SelectHandler(m.ins) == ELoad(op) ==>
        1 <= m.core.readOffset <= n && !m.core.bus.memwrite)
    ensures (sop, n) in {(SB, 1), (SH, 2), (SW, 4), (SD, 8)} ==>
      (m.core.stall && m.phase == Executing && SelectHandler(m.ins) == EStore(sop) ==>
        1 <= m.core.writeOffset <= n - 1)
    ensures m.phase == Halted ==> m.ins == 0
    ensures m.phase == Trapped ==> SelectHandler(m.ins) == EIllegal
  {
    hide SelectHandler;
  }

  /** From `init_rv64_cpu`, in every state of every run. */
  lemma ReachableInv(bus: Bus, k: nat)
    ensures Inv(Run(Initial(bus), k))
    ensures var c := Run(Initial(bus), k).core; c.regs[0] == 0 && c.regs[32] % 2 == 0 && !c.pcUpdated
  {
    hide Inv, Run;
    InitialInv(bus);
    InvRun(Initial(bus), k);
    InvMeans(Run(Initial(bus), k), LB, SB, 1);
  }

  /** A byte of the store being executed is at most n - 1 above its address, n = 1, 2, 4 or 8. */
  lemma InStoreMeans(m: Machine, x: uint64)
    requires InStore(m, x)
    ensures m.phase == Executing && SelectHandler(m.ins).EStore?
    ensures var d := DecodeFields(m.ins);
      var j := (x - (m.core.regs[d.rs1] + d.imm)) % 0x1_0000_0000_0000_0000;
      match SelectHandler(m.ins).sop
      case SB => j == 0
      case SH => j < 2
      case SW => j < 4
      case SD => j < 8
  {
    hide SelectHandler, DecodeFields;
  }

  /** What one cycle keeps, without the predicates. */
  lemma CycleKeeps(m: Machine, x: uint64)
    requires Inv(m)
    ensures Cycle(m).core.bus.mem.Keys == m.core.bus.mem.Keys
    ensures x in m.core.bus.mem && Cycle(m).core.bus.mem[x] != m.core.bus.mem[x] ==> InStore(m, x)
    ensures Cycle(m).core.regs[32] != m.core.regs[32] ==> m.phase == Executing && Cycle(m).phase == Fetching
    ensures m.phase != Fetching ==> Cycle(m).ins == m.ins
  {
    hide Inv, Cycle, InStore;
    InvStep(m);
  }

  /**
   Whole-run write safety: a byte differs after `k` cycles only if some cycle before was part of a
   store covering it.
   */
  lemma {:induction false} RunWrites(m: Machine, k: nat, x: uint64)
    requires Inv(m) && x in m.core.bus.mem
    ensures x in Run(m, k).core.bus.mem
    ensures Run(m, k).core.bus.mem[x] != m.core.bus.mem[x] ==> exists j :: 0 <= j < k && InStore(Run(m, j), x)
    decreases k
  {
    hide Inv, Cycle, InStore;
    if k > 0 {
      RunWrites(m, k - 1, x);
      InvRun(m, k - 1);
      assert Run(m, k) == Cycle(Run(m, k - 1));
    }
  }

  // ---------- memory stays what devices present ----------

  lemma HandlerLeavesMemory(c: Core, h: Handler, d: Decoded)
    requires h != EIllegal
    ensures AdvancePc(ExecHandler(c, h, d)).bus.mem == c.bus.mem
  {
    hide AluImmValue, AluRegValue, BranchTaken, Shl64, Shr64, Or64, Pow2, Add64, LoadExtension;
  }

  /** A bus cycle on devices leaves devices: the same ranges, at most one byte changed. */
  lemma TickPresentable(c: Core)
    requires Presentable(c.bus.mem)
    ensures Presentable(Tick(c).bus.mem)
  {
    hide Presentable;
    if c.bus.address in c.bus.mem && c.bus.memwrite {
      WritePresentable(c.bus.mem, c.bus.address, c.bus.writedata);
    }
  }

  lemma {:induction false} RunPresentable(m: Machine, k: nat)
    requires Presentable(m.core.bus.mem)
    ensures Presentable(Run(m, k).core.bus.mem)
    decreases k
  {
    hide Presentable, SelectHandler, DecodeFields, ExecHandler, AdvancePc, Tick, ReadTyped;
    if k > 0 {
      RunPresentable(m, k - 1);
      var m1 := Run(m, k - 1);
      if m1.phase == Fetching {
        FetchCycle(m1);
        ReadLeavesMemory(m1.core, m1.core.regs[PC], m1.ins, 4);
        TickPresentable(ReadTyped(m1.core, m1.core.regs[PC], m1.ins, 4).0);
      } else if m1.phase == Executing && SelectHandler(m1.ins) != EIllegal {
        HandlerLeavesMemory(m1.core, SelectHandler(m1.ins), DecodeFields(m1.ins));
        TickPresentable(StepCpu(m1.core, m1.ins));
      }
    }
  }

  lemma ReadLeavesMemory(c: Core, a: uint64, ret: uint64, n: nat)
    ensures ReadTyped(c, a, ret, n).0.bus.mem == c.bus.mem
  {
    hide Pow2, Or64, Shl64, Add64;
  }
}
