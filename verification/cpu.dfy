/**
 The CPU object and the main loop (src/cpu/cpu.c, src/machine/machine.c).

 Every method is proved to compute the function of `machine.dfy` it is named after, on the state
 `Model()`; the main loop is proved to be a run of `Cycle`. The statics of the C functions are
 fields here; the loops of decoding and of the arithmetic shifts are the methods of `decoding.dfy`
 and `helper.dfy`.
 */
module CpuObject {
  import opened Words
  import opened Helper
  import opened Isa
  import opened Decoder
  import opened Dispatch
  import opened Machine
  import M = Machine
  import opened Alu
  import opened Decoding
  import opened MainLoop
  import Runs
  import opened SystemBus

  datatype Exit = Halt | Trap | OutOfFuel

  class Cpu {
    const regs: array<uint64>
    const bus: Sysbus
    const table: HandlerTable
    var pcUpdated: bool
    var stall: bool
    var readOffset: nat
    var writeOffset: nat
    var loaded: map<LoadOp, uint64>

    ghost predicate Valid()
      reads this, bus, bus.spine, table.handlers, table.formats
    {
      regs.Length == 33 && bus.Valid() && table.Ready()
    }

    ghost function Model(): Core
      requires Valid()
      reads this, regs, bus, bus.spine, table.handlers, table.formats, Memories(bus.devs)
    {
      Core(regs[..], pcUpdated, stall, readOffset, writeOffset, loaded, bus.Model())
    }

    /** `init_rv64_cpu` with the default register file: everything zero. */
    constructor (bus: Sysbus, table: HandlerTable)
      requires bus.Valid() && table.Ready()
      ensures Valid() && this.bus == bus && this.table == table && fresh(regs)
      ensures Model() == InitialCore(bus.Model())
      ensures regs.Length == 33 && (forall r :: 0 <= r < 33 ==> regs[r] == 0)
      ensures !pcUpdated && !stall && readOffset == 0 && writeOffset == 0 && loaded == map[]
    {
      regs := new uint64[33](_ => 0);
      this.bus, this.table := bus, table;
      pcUpdated, stall, readOffset, writeOffset, loaded := false, false, 0, 0, map[];
      new;
      hide HandlerTable.Ready, Sysbus.Valid, Sysbus.FlatMemory;
      assert regs[..] == seq(33, _ => 0);
    }

    /** Device memory is made of byte arrays, so nothing the CPU writes directly is part of it. */
    lemma DevicesApart()
      ensures this !in Memories(bus.devs) && bus !in Memories(bus.devs) && regs !in Memories(bus.devs)
      ensures forall o :: o in Memories(bus.devs) ==> allocated(o)
    {}

    /** `set_general_purpose_register`. */
    method SetRegister(index: nat, value: uint64)
      requires Valid() && index <= PC
      modifies this`pcUpdated, regs
      ensures Valid() && Model() == M.SetRegister(old(Model()), index, value)
      ensures regs[..] == if index == 0 then old(regs[..]) else old(regs[..])[index := value]
      ensures pcUpdated == (old(pcUpdated) || index == 32)
    {
      hide HandlerTable.Ready, Sysbus.Valid, Sysbus.FlatMemory;
      DevicesApart();
      if index == 0 {
        return;
      }
      if index == PC {
        pcUpdated := true;
      }
      regs[index] := value;
    }

    /** `read_mem`. */
    method ReadMem(address: uint64, ret: uint64, length: nat) returns (ret': uint64)
      requires Valid()
      modifies this`stall, this`readOffset, bus`address, bus`memwrite
      ensures Valid() && (Model(), ret') == M.ReadMem(old(Model()), address, ret, length)
      ensures !old(stall) ==> ret' == 0 && stall && readOffset == 1 && bus.address == address
      ensures old(stall) ==>
        && ret' == Or64(ret, Shl64(bus.readdata, (old(readOffset) - 1) * 8))
        && stall == (old(readOffset) != length) && readOffset == old(readOffset) + 1
        && bus.address == Add64(address, old(readOffset))
      ensures !bus.memwrite
    {
      hide HandlerTable.Ready, Sysbus.Valid, Sysbus.FlatMemory;
      DevicesApart();
      if !stall {
        readOffset := 1;
        stall := true;
        bus.address := address;
        bus.memwrite := false;
        return 0;
      }
      bus.address := Add64(address, readOffset);
      bus.memwrite := false;
      ret' := Or64(ret, Shl64(bus.readdata, (readOffset - 1) * 8));
      readOffset := readOffset + 1;
      if readOffset == length + 1 {
        stall := false;
      }
    }

    /** `read_mem8` to `read_mem64`: the result is truncated to its type. */
    method ReadTyped(address: uint64, ret: uint64, length: nat) returns (ret': uint64)
      requires Valid()
      modifies this`stall, this`readOffset, bus`address, bus`memwrite
      ensures Valid() && (Model(), ret') == M.ReadTyped(old(Model()), address, ret, length)
      ensures ret' == if old(stall)
        then Or64(ret, Shl64(bus.readdata, (old(readOffset) - 1) * 8)) % Pow2(8 * length) else 0
    {
      hide M.ReadMem, HandlerTable.Ready, Sysbus.Valid, Sysbus.FlatMemory;
      var memRead := ReadMem(address, ret, length);
      DivBound(memRead, Pow2(8 * length));
      ret' := memRead % Pow2(8 * length);
      if memRead == 0 { DivModUnique(0, Pow2(8 * length), 0, 0); }
    }

    /** `write_mem`. */
    method WriteMem(address: uint64, length: nat, write: uint64)
      requires Valid()
      modifies this`stall, this`writeOffset, bus`address, bus`memwrite, bus`writedata
      ensures Valid() && Model() == M.WriteMem(old(Model()), address, length, write)
      ensures var offset := if old(stall) then old(writeOffset) else 0;
        && writeOffset == offset + 1 && stall == (offset + 1 != length) && bus.memwrite
        && bus.address == Add64(address, offset) && bus.writedata == Low8(Shr64(write, offset * 8))
    {
      hide Shr64, Add64, Low8, HandlerTable.Ready, Sysbus.Valid, Sysbus.FlatMemory;
      DevicesApart();
      if !stall {
        writeOffset := 0;
        stall := true;
      }
      bus.address := Add64(address, writeOffset);
      bus.memwrite := true;
      bus.writedata := Low8(Shr64(write, writeOffset * 8));
      writeOffset := writeOffset + 1;
      if writeOffset == length {
        stall := false;
      }
    }

    /** `advance_pc_or_update_i_flags`. */
    method AdvancePc()
      requires Valid()
      modifies this`pcUpdated, regs
      ensures Valid() && Model() == M.AdvancePc(old(Model()))
      ensures pcUpdated == (stall && old(pcUpdated))
      ensures regs[..] ==
        if stall || old(pcUpdated) then old(regs[..]) else old(regs[..])[32 := Add64(old(regs[32]), 4)]
    {
      hide HandlerTable.Ready, Sysbus.Valid, Sysbus.FlatMemory;
      DevicesApart();
      if stall {
        return;
      }
      if pcUpdated {
        pcUpdated := false;
        return;
      }
      regs[PC] := Add64(regs[PC], 4);
    }

    /** The opcode's decoder, the fields it extracts, and the handler it looks up. */
    method Decode(ins: uint32) returns (d: Decoded, h: Handler)
      requires Valid()
      ensures d == DecodeFields(ins) && h == SelectHandler(ins)
    {
      FieldValues(ins);
      FieldRanges(ins);
      hide ExtractBits, Mask, DecodeFields, HandlerAt, FormatAt, Pow2;
      var opcode := Field(ins, 0, 7);
      d := Record(ins, table.formats[opcode]);
      var func3 := Field(ins, 12, 3);
      var func7 := Field(ins, 25, 7);
      match table.formats[opcode]
      case FR => h := table.handlers[opcode, func3, func7];
      case FI =>
        var hackFunc7 := func7 / 2;
        hackFunc7 := hackFunc7 * 2;
        h := table.handlers[opcode, func3, hackFunc7];
      case FS => h := table.handlers[opcode, func3, 0];
      case FB => h := table.handlers[opcode, func3, 0];
      case FU => h := table.handlers[opcode, 0, 0];
      case FJ => h := table.handlers[opcode, 0, 0];
      case FNone => h := EIllegal;
    }

    static lemma FieldRanges(ins: uint32)
      ensures ins % 128 < 128 && ins / 0x1000 % 8 < 8 && ins / 0x200_0000 < 128
    {}

    // ---------- handlers ----------

    /** `sign_extend_u32_to_u64`. */
    static method SignExtend32(num: uint32) returns (v: uint64)
      ensures v == SignExtendU32(num)
    {
      v := RepeatBitInNum(num, 32, SignBit32(num));
    }

    /** The shift amount of a 64-bit or 32-bit shift. */
    static method ShiftAmount(x: uint64, size: nat) returns (shamt: uint64)
      requires size in {5, 6}
      ensures shamt == And64(x, Mask(size)) && shamt < 64
    {
      var mask := BitmaskFromBitSize(size);
      shamt := And64(x, mask);
      Shamt(x);
    }

    static lemma SignBits(a: uint64, w: uint32)
      ensures And64(Shl64(1, 63), a) == if a >= TWO63 then TWO63 else 0
      ensures Shl64(a / TWO63, 63) == if a >= TWO63 then TWO63 else 0
      ensures Shl32(w / TWO31, 31) == if w >= TWO31 then TWO31 else 0
    {
      hide Bitwise, Pow2;
      HighBit(a);
      assert Pow2(63) == TWO63 && Pow2(31) == TWO31 by { Pow2Constants(); }
      assert a / TWO63 == if a >= TWO63 then 1 else 0;
      assert w / TWO31 == if w >= TWO31 then 1 else 0;
    }

    static lemma HighBit(a: uint64)
      ensures And64(Shl64(1, 63), a) == if a >= TWO63 then TWO63 else 0
    {
      hide Bitwise;
      Pow2Constants();
      AndSingleBit(a, 63);
      BitwiseCommutes(BitAnd, Pow2(63), a);
    }

    /** The value of an immediate ALU handler; `srai` and `sraiw` run their loops. */
    static method ImmValue(h: AluImm, a: uint64, imm: uint64) returns (v: uint64)
      ensures v == AluImmValue(h, a, imm)
    {
      hide And64, Or64, Xor64, SignExtendU32, Bitwise, Pow2;
      SignBits(a, Low32(a));
      match h
      case EAddi => v := Add64(a, imm);
      case EAddiw => v := SignExtend32((Low32(a) + Low32(imm)) % TWO32);
      case ESlti => v := if Signed(a) < Signed(imm) then 1 else 0;
      case ESltiu => v := if a < imm then 1 else 0;
      case EAndi => v := And64(a, imm);
      case EOri => v := Or64(a, imm);
      case EXori => v := Xor64(a, imm);
      case ESlli =>
        var shamt := ShiftAmount(imm, 6);
        v := Shl64(a, shamt);
      case ESlliw =>
        var shamt := ShiftAmount(imm, 5);
        v := SignExtend32(Shl32(Low32(a), shamt));
      case ESrlai =>
        var shamt := ShiftAmount(imm, 6);
        if And64(imm, 1024) != 0 {
          v := SraLoop(a, And64(Shl64(1, 63), a), shamt);
        } else {
          v := Shr64(a, shamt);
        }
      case ESrlaiw =>
        var shamt := ShiftAmount(imm, 5);
        var lower := Low32(a);
        if And64(imm, 1024) != 0 {
          lower := SrawLoop(lower, Shl32(lower / TWO31, 31), shamt);
        } else {
          lower := Shr32(lower, shamt);
        }
        v := SignExtend32(lower);
    }

    /** The value of a register ALU handler; `sra` and `sraw` run their loops. */
    static method RegValue(h: AluReg, a: uint64, b: uint64, func7: uint64) returns (v: uint64)
      ensures v == AluRegValue(h, a, b, func7)
    {
      hide And64, Or64, Xor64, SignExtendU32, Bitwise, Pow2;
      SignBits(a, Low32(a));
      match h
      case EAdd => v := Add64(a, b);
      case ESub => v := ToU64(a - b);
      case ESlt => v := if Signed(a) < Signed(b) then 1 else 0;
      case ESltu => v := if a < b then 1 else 0;
      case EAnd => v := And64(a, b);
      case EOr => v := Or64(a, b);
      case EXor => v := Xor64(a, b);
      case ESll =>
        var shamt := ShiftAmount(b, 6);
        v := Shl64(a, shamt);
      case ESrla =>
        var shamt := ShiftAmount(b, 6);
        if And64(func7, 32) != 0 {
          v := SraLoop(a, Shl64(a / TWO63, 63), shamt);
        } else {
          v := Shr64(a, shamt);
        }
      case EAddw => v := SignExtend32((Low32(a) + Low32(b)) % TWO32);
      case ESubw => v := SignExtend32((Low32(a) - Low32(b)) % TWO32);
      case ESllw =>
        var shamt := ShiftAmount(b, 5);
        v := SignExtend32(Shl32(Low32(a), shamt));
      case ESrlaw =>
        var shamt := ShiftAmount(b, 5);
        var lower := Low32(a);
        if And64(func7, 32) != 0 {
          lower := SrawLoop(lower, Shl32(lower / TWO31, 31), shamt);
        } else {
          lower := Shr32(lower, shamt);
        }
        v := SignExtend32(lower);
    }

    /** `execute_lb` to `execute_ld`. */
    method ExecLoad(op: LoadOp, d: Decoded)
      requires Valid()
      modifies this, regs, bus`address, bus`memwrite
      ensures Valid() && Model() == M.ExecLoad(old(Model()), op, d)
      ensures op in loaded && loaded == old(loaded)[op := loaded[op]]
    {
      hide HandlerTable.Ready, Sysbus.Valid, Sysbus.FlatMemory, M.ReadTyped, M.SetRegister, SignExtendU32;
      DevicesApart();
      var v := ReadTyped(Add64(regs[d.rs1], d.imm), if op in loaded then loaded[op] else 0, LoadBytes(op));
      loaded := loaded[op := v];
      if op in {LW, LH, LB} {
        v := SignExtend32(Low32(v));
      }
      SetRegister(d.rd, v);
    }

    /** `execute_sb` to `execute_sd`. */
    method ExecStore(op: StoreOp, d: Decoded)
      requires Valid()
      modifies this`stall, this`writeOffset, bus`address, bus`memwrite, bus`writedata
      ensures Valid() && Model() == M.ExecStore(old(Model()), op, d)
    {
      hide HandlerTable.Ready, Sysbus.Valid, Sysbus.FlatMemory, M.WriteMem;
      DivBound(regs[d.rs2], Pow2(8 * StoreBytes(op)));
      WriteMem(Add64(regs[d.rs1], d.imm), StoreBytes(op), regs[d.rs2] % Pow2(8 * StoreBytes(op)));
    }

    /** `execute_jal`, `execute_jalr` and the branches. */
    method ExecControl(h: Handler, d: Decoded)
      requires Valid() && (h == EJal || h == EJalr || h.EBranch?)
      modifies this`pcUpdated, regs
      ensures Valid() && Model() == M.ExecHandler(old(Model()), h, d)
    {
      hide HandlerTable.Ready, Sysbus.Valid, Sysbus.FlatMemory, M.SetRegister, Shl64, Shr64, BranchTaken;
      if h == EJal {
        SetRegister(d.rd, Add64(regs[PC], 4));
        SetRegister(PC, Add64(regs[PC], d.imm));
      } else if h == EJalr {
        SetRegister(d.rd, Add64(regs[PC], 4));
        var targetPc := Add64(regs[d.rs1], d.imm);
        targetPc := Shl64(Shr64(targetPc, 1), 1);
        SetRegister(PC, targetPc);
      } else if BranchTaken(h.bop, regs[d.rs1], regs[d.rs2]) {
        SetRegister(PC, Add64(regs[PC], d.imm));
      }
    }

    /** Any handler but the illegal one. */
    method ExecHandler(h: Handler, d: Decoded)
      requires Valid() && h != EIllegal
      modifies this, regs, bus`address, bus`memwrite, bus`writedata
      ensures Valid() && Model() == M.ExecHandler(old(Model()), h, d)
    {
      hide HandlerTable.Ready, Sysbus.Valid, Sysbus.FlatMemory, M.SetRegister, M.ExecLoad, M.ExecStore,
        AluImmValue, AluRegValue;
      DevicesApart();
      if h == EJal || h == EJalr || h.EBranch? {
        ExecControl(h, d);
      } else if h.ELoad? {
        ExecLoad(h.lop, d);
      } else if h.EStore? {
        ExecStore(h.sop, d);
      } else if h == ELui {
        SetRegister(d.rd, d.imm);
      } else if h == EAuipc {
        SetRegister(d.rd, Add64(d.imm, regs[PC]));
      } else if h.EImm? {
        var v := ImmValue(h.imm, regs[d.rs1], d.imm);
        SetRegister(d.rd, v);
      } else {
        var v := RegValue(h.reg, regs[d.rs1], regs[d.rs2], d.func7);
        SetRegister(d.rd, v);
      }
    }

    /** `step_rv64_cpu`; on an illegal word the C program exits here. */
    method Step(ins: uint32) returns (trapped: bool)
      requires Valid()
      modifies this, regs, bus`address, bus`memwrite, bus`writedata
      ensures Valid() && trapped == (SelectHandler(ins) == EIllegal)
      ensures Model() == if SelectHandler(ins) == EIllegal then old(Model()) else StepCpu(old(Model()), ins)
    {
      hide HandlerTable.Ready, Sysbus.Valid, Sysbus.FlatMemory, M.ExecHandler, M.AdvancePc, SelectHandler, DecodeFields;
      DevicesApart();
      var d, h := Decode(ins);
      if h == EIllegal {
        return true;
      }
      ExecHandler(h, d);
      AdvancePc();
      return false;
    }

    /** `fetch`. */
    method Fetch(ins: uint32) returns (ins': uint32)
      requires Valid()
      modifies this`stall, this`readOffset, bus`address, bus`memwrite
      ensures Valid() && (Model(), ins') == M.ReadTyped(old(Model()), old(regs[PC]), ins, 4)
    {
      hide HandlerTable.Ready, Sysbus.Valid, Sysbus.FlatMemory, M.ReadMem;
      Pow2Constants();
      ins' := ReadTyped(regs[PC], ins, 4);
    }

    /** `sysbus_step` on the CPU's bus. */
    method BusCycle()
      requires Valid()
      modifies bus`readdata, Memories(bus.devs)
      ensures Valid() && Model() == Tick(old(Model())) && bus.devs == old(bus.devs)
    {
      DevicesApart();
      hide HandlerTable.Ready, Sysbus.Valid, Sysbus.FlatMemory, BusStep;
      bus.Step();
    }
  }

  /** `stall_and_fetch`: five fetches and bus steps, the first five cycles of the run. */
  method StallAndFetch(cpu: Cpu, ins: uint32) returns (ins': uint32)
    requires cpu.Valid() && !cpu.stall
    modifies cpu`stall, cpu`readOffset, cpu.bus`address, cpu.bus`memwrite, cpu.bus`readdata, Memories(cpu.bus.devs)
    ensures cpu.Valid() && cpu.bus.devs == old(cpu.bus.devs)
    ensures Machine(cpu.Model(), ins', if ins' == 0 then Halted else Executing) ==
      Run(Machine(old(cpu.Model()), ins, Fetching), 5)
    ensures !cpu.stall
  {
    hide HandlerTable.Ready, Sysbus.Valid, Sysbus.FlatMemory, M.ReadTyped, Tick, Cycle;
    ghost var m0, k := Machine(cpu.Model(), ins, Fetching), 0;
    ins' := ins;
    while true
      invariant cpu.Valid() && cpu.bus.devs == old(cpu.bus.devs)
      invariant k <= 4 && Run(m0, k) == Machine(cpu.Model(), ins', Fetching)
      decreases 5 - k
    {
      FetchCycle(Run(m0, k));
      FetchTiming(m0, k + 1);
      ins' := cpu.Fetch(ins');
      cpu.BusCycle();
      k := k + 1;
      assert Run(m0, k) == Cycle(Run(m0, k - 1));
      if !cpu.stall {
        break;
      }
    }
  }

  function ExitOf(end: Phase): Exit { if end == Halted then Halt else if end == Trapped then Trap else OutOfFuel }

  /** From the core `c`, at a boundary, the instructions `path` lead to a word that ends the run so. */
  ghost predicate Ends(c: Core, path: seq<Instr>, end: Phase) {
    end in {Halted, Trapped} && Runs.EndingTrace(Abs(c), path, end)
  }

  ghost function EndState(c: Core, path: seq<Instr>, end: Phase): State
    requires Ends(c, path, end)
  {
    Runs.CodeFinal(Abs(c), path)
  }

  /**
   Whichever trace leads from `m0` to an ending word in at most `fuel` cycles, the loop has ended as
   that trace does, in the state it reaches.
   */
  ghost predicate FollowsTraces(m0: Machine, fuel: nat, exit: Exit, after: Core) {
    Boundary(m0) ==> forall path, end ::
      Ends(m0.core, path, end) && fuel >= Runs.TotalCycles(path) + Runs.EndCost(end) ==>
        exit == ExitOf(end) && Abs(after) == EndState(m0.core, path, end)
  }

  /** A loop that has ended, or made the cycles of an ending trace, has ended as the trace does. */
  lemma LoopEnds(m0: Machine, cycles: nat, path: seq<Instr>, end: Phase)
    requires Boundary(m0) && Ends(m0.core, path, end)
    requires Run(m0, cycles).phase in {Halted, Trapped} || cycles >= Runs.TotalCycles(path) + Runs.EndCost(end)
    ensures end in {Halted, Trapped}
    ensures Run(m0, cycles).phase == end && Abs(Run(m0, cycles).core) == EndState(m0.core, path, end)
  {
    hide Run, Runs.EndingTrace, Runs.CodeFinal, Runs.CodeTrace, Boundary, Abs;
    var k := Runs.TotalCycles(path) + Runs.EndCost(end);
    Runs.EndedBy(m0, path, end, k);
    if cycles < k {
      Runs.EndIsFinal(m0, cycles, k);
    } else {
      Runs.EndedBy(m0, path, end, cycles);
    }
  }

  lemma RunFollowsTraces(m0: Machine, cycles: nat, fuel: nat, exit: Exit)
    requires !m0.core.stall ==>
      && (exit == Halt <==> Run(m0, cycles).phase == Halted)
      && (exit == Trap <==> Run(m0, cycles).phase == Trapped)
    requires exit == OutOfFuel ==> cycles >= fuel
    ensures FollowsTraces(m0, fuel, exit, Run(m0, cycles).core)
    ensures m0.core.stall ==> forall c :: FollowsTraces(m0, fuel, exit, c)
  {
    hide Run, Ends, EndState, Runs.TotalCycles, Abs;
    if Boundary(m0) {
      forall path, end | Ends(m0.core, path, end) && fuel >= Runs.TotalCycles(path) + Runs.EndCost(end)
        ensures exit == ExitOf(end) && Abs(Run(m0, cycles).core) == EndState(m0.core, path, end)
      {
        LoopEnds(m0, cycles, path, end);
      }
    }
  }

  /**
   `machine_mainloop`, for at most `fuel` turns of its loop: the cycles it makes are those of `Run`,
   and it ends by halting or trapping exactly when the run has. If the program has a trace to an ending
   word and `fuel` is at least its cycles, the loop ends so, in the state of the trace. Called with
   `stall` set it halts at once, since its own instruction word is still 0.
   */
  method MachineMainLoop(cpu: Cpu, fuel: nat) returns (exit: Exit, cycles: nat)
    requires cpu.Valid()
    modifies cpu, cpu.regs, cpu.bus`address, cpu.bus`memwrite, cpu.bus`writedata, cpu.bus`readdata,
      Memories(cpu.bus.devs)
    ensures cpu.Valid() && cpu.bus.devs == old(cpu.bus.devs)
    ensures !old(cpu.stall) ==> var m := Run(Machine(old(cpu.Model()), 0, Fetching), cycles);
      && cpu.Model() == m.core
      && (exit == Halt <==> m.phase == Halted) && (exit == Trap <==> m.phase == Trapped)
    ensures exit == OutOfFuel ==> cycles >= fuel
    ensures FollowsTraces(Machine(old(cpu.Model()), 0, Fetching), fuel, exit, cpu.Model())
    ensures old(cpu.stall) && fuel > 0 ==> exit == Halt && cycles == 0 && cpu.Model() == old(cpu.Model())
  {
    hide HandlerTable.Ready, Sysbus.Valid, Sysbus.FlatMemory, StepCpu, Tick, FetchTick, SelectHandler, FollowsTraces;
    ghost var m0 := Machine(cpu.Model(), 0, Fetching);
    var ins: uint32 := 0;
    cycles := 0;
    for turn := 0 to fuel
      invariant cpu.Valid() && cpu.bus.devs == old(cpu.bus.devs)
      invariant cycles >= turn
      invariant !old(cpu.stall) ==>
        Run(m0, cycles) == Machine(cpu.Model(), ins, if cpu.stall then Executing else Fetching) && (cpu.stall ==>
          ins != 0)
      invariant old(cpu.stall) ==> turn == 0 && cpu.stall && ins == 0 && cpu.Model() == old(cpu.Model()) && cycles == 0
    {
      if !cpu.stall {
        ins := StallAndFetch(cpu, ins);
        RunAdd(m0, cycles, 5);
        cycles := cycles + 5;
      }
      if ins == 0 {
        RunFollowsTraces(m0, cycles, fuel, Halt);
        return Halt, cycles;
      }
      assert Run(m0, cycles + 1) == Cycle(Run(m0, cycles));
      cycles := cycles + 1;
      var trapped := cpu.Step(ins);
      if trapped {
        RunFollowsTraces(m0, cycles, fuel, Trap);
        return Trap, cycles;
      }
      cpu.BusCycle();
    }
    RunFollowsTraces(m0, cycles, fuel, OutOfFuel);
    return OutOfFuel, cycles;
  }
}
