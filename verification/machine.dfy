/**
 The micro-step machine of src/cpu/cpu.c and src/machine/machine.c as a function on states:
 one `Cycle` is one call of `fetch` or `step_rv64_cpu` followed by one `sysbus_step`.

 The state carries everything the C code keeps between calls, including the function-local
 statics: the two `current_offset`s and the `loaded` accumulator of each load handler.
 The classes of `cpu.dfy` are proved to compute these functions.
 */
module Machine {
  import opened Words
  import opened Helper
  import opened Isa
  import opened Decoder

  const PC := 32

  /** x0 to x31 and, at index 32, the pc. */
  type Regs = s: seq<uint64> | |s| == 33 witness seq(33, _ => 0)

  /** The bus with its devices seen as one map from mapped addresses to bytes. */
  datatype Bus = Bus(mem: Memory, memwrite: bool, address: uint64, writedata: uint8, readdata: uint8)

  datatype Core = Core(
    regs: Regs,
    pcUpdated: bool,
    stall: bool,
    readOffset: nat,             // static current_offset of read_mem
    writeOffset: nat,            // static current_offset of write_mem
    loaded: map<LoadOp, uint64>, // static loaded of each load handler, 0 when absent
    bus: Bus)

  /** Where the main loop stands: in `stall_and_fetch`, about to step the CPU, or gone. */
  datatype Phase = Fetching | Executing | Halted | Trapped

  datatype Machine = Machine(core: Core, ins: uint32, phase: Phase)

  // ---------- the bus ----------

  /** A write to a mapped address lands; the addressed byte, if mapped, is then read back. */
  function BusStep(b: Bus): Bus {
    if b.address !in b.mem then b
    else
      var mem := if b.memwrite then b.mem[b.address := b.writedata] else b.mem;
      b.(mem := mem, readdata := mem[b.address])
  }

  /** A step at an unmapped address changes nothing; any other reads back the byte after the write. */
  lemma BusStepIs(b: Bus)
    ensures b.address !in b.mem ==> BusStep(b) == b
    ensures b.address in b.mem ==>
      var mem := if b.memwrite then b.mem[b.address := b.writedata] else b.mem;
      BusStep(b) == Bus(mem, b.memwrite, b.address, b.writedata, mem[b.address])
  {}

  function Tick(c: Core): Core { c.(bus := BusStep(c.bus)) }

  // ---------- memory access ----------

  /** `read_mem`: the core afterwards, and `*ret`. */
  function ReadMem(c: Core, address: uint64, ret: uint64, length: nat): (Core, uint64) {
    if !c.stall then
      (c.(readOffset := 1, stall := true, bus := c.bus.(address := address, memwrite := false)), 0)
    else
      (c.(readOffset := c.readOffset + 1,
          stall := c.readOffset + 1 != length + 1,
          bus := c.bus.(address := Add64(address, c.readOffset), memwrite := false)),
       Or64(ret, Shl64(c.bus.readdata, (c.readOffset - 1) * 8)))
  }

  /** The typed macro: `*ret` is truncated to its `length` bytes. */
  function ReadTyped(c: Core, address: uint64, ret: uint64, length: nat): (Core, uint64) {
    var (c', v) := ReadMem(c, address, ret, length);
    DivBound(v, Pow2(8 * length));
    (c', v % Pow2(8 * length))
  }

  /** `write_mem`. */
  function WriteMem(c: Core, address: uint64, length: nat, write: uint64): Core {
    var offset := if c.stall then c.writeOffset else 0;
    c.(writeOffset := offset + 1,
       stall := offset + 1 != length,
       bus := c.bus.(address := Add64(address, offset), memwrite := true, writedata := Low8(Shr64(write, offset * 8))))
  }

  // ---------- registers ----------

  function SetRegister(c: Core, index: nat, value: uint64): Core
    requires index <= PC
  {
    if index == 0 then c
    else if index == PC then c.(pcUpdated := true, regs := c.regs[index := value])
    else c.(regs := c.regs[index := value])
  }

  function AdvancePc(c: Core): Core {
    if c.stall then c
    else if c.pcUpdated then c.(pcUpdated := false)
    else c.(regs := c.regs[PC := Add64(c.regs[PC], 4)])
  }

  // ---------- handlers ----------

  /** The value an immediate ALU handler writes to `rd`. */
  function AluImmValue(h: AluImm, a: uint64, imm: uint64): uint64 {
    match h
    case EAddi => Add64(a, imm)
    case EAddiw => SignExtendU32((Low32(a) + Low32(imm)) % TWO32)
    case ESlti => if Signed(a) < Signed(imm) then 1 else 0
    case ESltiu => if a < imm then 1 else 0
    case EAndi => And64(a, imm)
    case EOri => Or64(a, imm)
    case EXori => Xor64(a, imm)
    case ESlli => Shl64(a, And64(imm, Mask(6)))
    case ESlliw => SignExtendU32(Shl32(Low32(a), And64(imm, Mask(5))))
    case ESrlai =>
      if And64(imm, 1024) != 0 then Sra64(a, And64(imm, Mask(6))) else Shr64(a, And64(imm, Mask(6)))
    case ESrlaiw =>
      SignExtendU32(if And64(imm, 1024) != 0
        then Sra32(Low32(a), And64(imm, Mask(5))) else Shr32(Low32(a), And64(imm, Mask(5))))
  }

  function AluRegValue(h: AluReg, a: uint64, b: uint64, func7: uint64): uint64 {
    match h
    case EAdd => Add64(a, b)
    case ESub => ToU64(a - b)
    case ESlt => if Signed(a) < Signed(b) then 1 else 0
    case ESltu => if a < b then 1 else 0
    case EAnd => And64(a, b)
    case EOr => Or64(a, b)
    case EXor => Xor64(a, b)
    case ESll => Shl64(a, And64(b, Mask(6)))
    case ESrla => if And64(func7, 32) != 0 then Sra64(a, And64(b, Mask(6))) else Shr64(a, And64(b, Mask(6)))
    case EAddw => SignExtendU32((Low32(a) + Low32(b)) % TWO32)
    case ESubw => SignExtendU32((Low32(a) - Low32(b)) % TWO32)
    case ESllw => SignExtendU32(Shl32(Low32(a), And64(b, Mask(5))))
    case ESrlaw =>
      SignExtendU32(if And64(func7, 32) != 0
        then Sra32(Low32(a), And64(b, Mask(5))) else Shr32(Low32(a), And64(b, Mask(5))))
  }

  function BranchTaken(op: BranchOp, a: uint64, b: uint64): bool {
    match op
    case BEQ => a == b
    case BNE => a != b
    case BLT => Signed(a) < Signed(b)
    case BLTU => a < b
    case BGE => Signed(a) >= Signed(b)
    case BGEU => a >= b
  }

  /** What each load handler makes of its accumulator; all extensions start from bit 31. */
  function LoadExtension(op: LoadOp, v: uint64): uint64 {
    if op in {LW, LH, LB} then SignExtendU32(Low32(v)) else v
  }

  function Loaded(c: Core, op: LoadOp): uint64 { if op in c.loaded then c.loaded[op] else 0 }

  function ExecLoad(c: Core, op: LoadOp, d: Decoded): Core {
    var (c', v) := ReadTyped(c, Add64(c.regs[d.rs1], d.imm), Loaded(c, op), LoadBytes(op));
    SetRegister(c'.(loaded := c'.loaded[op := v]), d.rd, LoadExtension(op, v))
  }

  function ExecStore(c: Core, op: StoreOp, d: Decoded): Core {
    var n := StoreBytes(op);
    DivBound(c.regs[d.rs2], Pow2(8 * n));
    WriteMem(c, Add64(c.regs[d.rs1], d.imm), n, c.regs[d.rs2] % Pow2(8 * n))
  }

  /** The handlers; the illegal one never returns. */
  function ExecHandler(c: Core, h: Handler, d: Decoded): Core
    requires h != EIllegal
  {
    match h
    case ELui => SetRegister(c, d.rd, d.imm)
    case EAuipc => SetRegister(c, d.rd, Add64(d.imm, c.regs[PC]))
    case EJal =>
      var c1 := SetRegister(c, d.rd, Add64(c.regs[PC], 4));
      SetRegister(c1, PC, Add64(c1.regs[PC], d.imm))
    case EJalr =>
      var c1 := SetRegister(c, d.rd, Add64(c.regs[PC], 4));
      SetRegister(c1, PC, Shl64(Shr64(Add64(c1.regs[d.rs1], d.imm), 1), 1))
    case EBranch(op) =>
      if BranchTaken(op, c.regs[d.rs1], c.regs[d.rs2]) then SetRegister(c, PC, Add64(c.regs[PC], d.imm)) else c
    case ELoad(op) => ExecLoad(c, op, d)
    case EStore(op) => ExecStore(c, op, d)
    case EImm(a) => SetRegister(c, d.rd, AluImmValue(a, c.regs[d.rs1], d.imm))
    case EReg(a) => SetRegister(c, d.rd, AluRegValue(a, c.regs[d.rs1], c.regs[d.rs2], d.func7))
  }

  /** `step_rv64_cpu` on a word that has a handler. */
  function StepCpu(c: Core, ins: uint32): Core
    requires SelectHandler(ins) != EIllegal
  {
    AdvancePc(ExecHandler(c, SelectHandler(ins), DecodeFields(ins)))
  }

  // ---------- the main loop ----------

  /** `fetch`, then the bus. */
  function FetchTick(c: Core, ins: uint32): (Core, uint32) {
    var (c', v) := ReadTyped(c, c.regs[PC], ins, 4);
    Pow2Constants();
    (Tick(c'), v)
  }

  /** One bus cycle of `machine_mainloop`. */
  function Cycle(m: Machine): Machine {
    match m.phase
    case Fetching =>
      var (c, ins) := FetchTick(m.core, m.ins);
      Machine(c, ins, if c.stall then Fetching else if ins == 0 then Halted else Executing)
    case Executing =>
      if SelectHandler(m.ins) == EIllegal then m.(phase := Trapped)
      else
        var c := Tick(StepCpu(m.core, m.ins));
        Machine(c, m.ins, if c.stall then Executing else Fetching)
    case Halted => m
    case Trapped => m
  }

  function Run(m: Machine, cycles: nat): Machine {
    if cycles == 0 then m else Cycle(Run(m, cycles - 1))
  }

  lemma {:induction false} RunAdd(m: Machine, a: nat, b: nat)
    ensures Run(m, a + b) == Run(Run(m, a), b)
    decreases b
  {
    hide Cycle;
    if b > 0 { RunAdd(m, a, b - 1); }
  }

  /** The core `init_rv64_cpu` leaves: everything zero. */
  function InitialCore(bus: Bus): Core {
    Core(seq(33, _ => 0), false, false, 0, 0, map[], bus)
  }

  /** The state in which `machine_mainloop` starts. */
  function Initial(bus: Bus): Machine { Machine(InitialCore(bus), 0, Fetching) }

  // ---------- the view of the reference ----------

  /** The instruction-set state of a core. */
  function Abs(c: Core): State { State(c.regs[..32], c.regs[PC], c.bus.mem) }

  /** Between two instructions. */
  predicate Boundary(m: Machine) {
    m.phase == Fetching && !m.core.stall && !m.core.pcUpdated && m.core.regs[0] == 0
  }
}
