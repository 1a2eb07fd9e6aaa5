/**
 The instructions the emulator gets right in every state: all but the loads and jumps whose
 result the three quirks can change. For each of the others there is a state that shows it.

 States are those that occur: they are reached from `init_rv64_cpu`, with a memory that devices
 mapped by `sysbus_memory_map_iodev` present.
 */
module Faithfulness {
  import opened Words
  import opened Isa
  import opened Encoding
  import opened Machine
  import opened Access
  import opened Refinement
  import opened MainLoop
  import opened Quirks
  import opened Invariant
  import opened DeviceMap

  predicate Faithful(i: Instr) {
    match i
    case Load(op, rd, rs1, _) => rd == 0 || (op !in {LB, LH} && (rd != rs1 || LoadBytes(op) == 1))
    case Jalr(rd, rs1, _) => rd == 0 || rd != rs1
    case _ => true
  }

  /** `m` occurs `k` cycles into the run from `init_rv64_cpu` on `bus`, whose devices present its memory. */
  ghost predicate ReachedOn(m: Machine, bus: Bus, k: nat) {
    Presentable(bus.mem) && m == Run(Initial(bus), k)
  }

  ghost predicate Reachable(m: Machine) { exists bus, k :: ReachedOn(m, bus, k) }

  /** The machine computes the reference step of `i` from every reachable boundary. */
  ghost predicate AlwaysRight(i: Instr)
    requires Valid(i)
  {
    forall m: Machine :: Reachable(m) ==> RightFrom(m, i)
  }

  ghost predicate RightFrom(m: Machine, i: Instr)
    requires Valid(i)
  {
    Boundary(m) && Holds(i, Abs(m.core)) && Accessible(i, Abs(m.core)) ==>
      Abs(Run(m, CyclesOf(i)).core) == Execute(i, Abs(m.core))
  }

  /** Exactly the faithful instructions are right in every reachable state, and they are right in every other. */
  lemma FaithfulIff(i: Instr)
    requires Valid(i)
    ensures AlwaysRight(i) <==> Faithful(i)
    ensures Faithful(i) ==> forall m: Machine :: RightFrom(m, i)
  {
    hide Run, Execute, Encode, Holds, Abs, Reachable;
    if Faithful(i) {
      forall m: Machine
        ensures RightFrom(m, i)
      {
        if Boundary(m) && Holds(i, Abs(m.core)) && Accessible(i, Abs(m.core)) {
          FaithfulAgrees(i, Abs(m.core));
          RunMatchesReferenceIff(m, i);
        }
      }
    } else {
      var m := Witness(i);
      RunMatchesReferenceIff(m, i);
      assert !RightFrom(m, i);
    }
  }

  lemma FaithfulAgrees(i: Instr, s: State)
    requires Valid(i) && Faithful(i) && Accessible(i, s)
    ensures Agrees(i, s)
  {
    hide LoadLE, SameByte;
  }

  /** Reachable states keep the invariant of the cycles, and their memory is one that devices present. */
  lemma ReachableStates(m: Machine)
    requires Reachable(m)
    ensures Inv(m) && Presentable(m.core.bus.mem)
  {
    hide Inv, Presentable, Initial, Run;
    var bus, k :| ReachedOn(m, bus, k);
    ReachableInv(bus, k);
    InitialMemory(bus);
    RunPresentable(Initial(bus), k);
  }

  lemma InitialMemory(bus: Bus)
    ensures Initial(bus).core.bus == bus && Abs(InitialCore(bus)) == State(seq(32, _ => 0), 0, bus.mem)
    ensures Boundary(Initial(bus)) && Abs(Initial(bus).core) == Abs(InitialCore(bus))
  {}

  // ---------- a reachable state for every instruction ----------

  /**
   Every instruction is executed in some reachable state with its operand mapped; an instruction
   that is not faithful, in one where it goes wrong. The state is the second boundary of a run.
   */
  lemma Witness(i: Instr) returns (m: Machine)
    requires Valid(i)
    ensures Reachable(m) && Boundary(m) && Holds(i, Abs(m.core)) && Accessible(i, Abs(m.core))
    ensures !Faithful(i) ==> !Agrees(i, Abs(m.core))
  {
    hide *;
    if i.Load? && i.rs1 == 0 {
      m := JumpWitness(i);
    } else {
      m := LuiWitness(i);
    }
  }

  function WordOf(i: Instr): uint32
    requires Valid(i)
  {
    assert 0 <= Encode(i) < TWO32 by { hide Encode; DecodeInvertsEncode(i); }
    Encode(i)
  }

  function WordBytes(w: uint32): (b: seq<uint8>)
    ensures |b| == 4
  {
    seq(4, j requires 0 <= j < 4 => ByteOf(w, j))
  }

  ghost function BusOf(devs: seq<Dev>): Bus
    requires SoundDevs(devs)
  {
    Bus(Flat(devs), false, 0, 0, 0)
  }

  /** The boundary after the first instruction, a LUI or a JAL at address 0. */
  lemma SecondBoundary(devs: seq<Dev>, first: Instr) returns (m: Machine)
    requires SoundDevs(devs) && Presents(devs, Flat(devs)) && (first.Lui? || first.Jal?)
    requires Holds(first, State(seq(32, _ => 0), 0, Flat(devs)))
    ensures Reachable(m) && Boundary(m)
    ensures Abs(m.core) == Execute(first, State(seq(32, _ => 0), 0, Flat(devs)))
  {
    hide Run, Initial, InitialCore, Execute, Encode, Flat, Abs, LoadLE, Boundary, Accepted;
    var bus := BusOf(devs);
    InitialMemory(bus);
    m := Run(Initial(bus), CyclesOf(first));
    RunMatchesReferenceIff(Initial(bus), first);
    assert ReachedOn(m, bus, CyclesOf(first));
  }

  /** Whether a load goes wrong is decided by its last byte or by its second. */
  lemma SignDisagrees(i: Instr, s: State)
    requires Valid(i) && i.Load? && i.lop in {LB, LH} && i.rd != 0 && Accessible(i, s)
    requires Add64(Address(i, s), LoadBytes(i.lop) - 1) in s.mem
    requires s.mem[Add64(Address(i, s), LoadBytes(i.lop) - 1)] >= 0x80
    ensures !Agrees(i, s)
  {
    hide LoadLE, SameByte, Pow2, Address;
    var a, n := Address(i, s), LoadBytes(i.lop);
    MappedPrefix(s.mem, a, n, n - 1);
    LoadLEStep(s.mem, a, n - 1);
    assert Pow2(7) == 0x80 && Pow2(15) == 0x8000 && Pow2(0) == 1 && Pow2(8) == 256 by { Pow2Zero(); Pow2Constants(); }
  }

  /** With the base zeroed, byte 1 is read at `imm + 1`; if that is unmapped, byte 0 is read again. */
  lemma BaseDisagrees(i: Instr, s: State)
    requires Valid(i) && i.Load? && LoadBytes(i.lop) > 1 && Aliased(i) && Accessible(i, s)
    requires Address(i, s) in s.mem && Add64(Address(i, s), 1) in s.mem
    requires var x := ToU64(i.imm + 1);
      s.mem[Add64(Address(i, s), 1)] != if x in s.mem then s.mem[x] else s.mem[Address(i, s)]
    ensures !Agrees(i, s)
  {
    hide LoadLE, Pow2, Address;
    var a := Address(i, s);
    MappedPrefix(s.mem, a, LoadBytes(i.lop), 0);
    LoadLEZero(s.mem, a);
    assert LoadExtension(i.lop, 0) == 0;
    assert Add64(a, 0) == a && Add64(Add64(0, ToU64(i.imm)), 1) == ToU64(i.imm + 1);
    assert !SameByte(i, s, 1);
  }

  // ---------- a LUI into the base register, then the instruction ----------

  /** The register that the instruction takes its base from. */
  function BaseOf(i: Instr): int { if i.Load? || i.Jalr? then i.rs1 else 0 }

  function LuiFor(i: Instr): (first: Instr)
    requires Valid(i)
    ensures Valid(first)
  {
    Lui(BaseOf(i), 4096)
  }

  function Program(i: Instr): (b: seq<uint8>)
    requires Valid(i)
    ensures |b| == 8
  {
    WordBytes(WordOf(LuiFor(i))) + WordBytes(WordOf(i))
  }

  /** Bytes with the sign bit set for LB and LH; else a second byte that differs from the one read for it. */
  function Data(i: Instr): (b: seq<uint8>)
    requires Valid(i) && i.Load?
    ensures |b| == LoadBytes(i.lop)
  {
    var seen := if 0 <= i.imm + 1 < 8 then Program(i)[i.imm + 1] else 0;
    seq(LoadBytes(i.lop), j => if i.lop in {LB, LH} then 0x80 else if j == 1 && seen == 0 then 1 else 0)
  }

  function LuiDevs(i: Instr): seq<Dev>
    requires Valid(i)
  {
    [Dev(0, Program(i))] + if i.Load? then [Dev(4096 + i.imm, Data(i))] else []
  }

  lemma LuiPresent(i: Instr)
    requires Valid(i)
    ensures SoundDevs(LuiDevs(i)) && Presents(LuiDevs(i), Flat(LuiDevs(i)))
  {
    hide Program, Data, Flat;
    var devs := LuiDevs(i);
    assert SoundDevs(devs);
    assert Accepted(Ranges(devs));
  }

  lemma ProgramBytes(i: Instr, a: uint64)
    requires Valid(i) && SoundDevs(LuiDevs(i)) && a < 8
    ensures a in Flat(LuiDevs(i)) && Flat(LuiDevs(i))[a] == Program(i)[a]
  {
    hide Program, Data, Flat, Covers;
    var devs := LuiDevs(i);
    CoversIsInterval(RangeOf(devs[0]), a);
    var j := FlatAt(devs, 0, a);
  }

  lemma OperandBytes(i: Instr, k: nat)
    requires Valid(i) && i.Load? && SoundDevs(LuiDevs(i)) && k < LoadBytes(i.lop)
    ensures Add64(4096 + i.imm, k) in Flat(LuiDevs(i)) && Flat(LuiDevs(i))[Add64(4096 + i.imm, k)] == Data(i)[k]
  {
    hide Program, Data, Flat, Covers;
    var devs, a := LuiDevs(i), Add64(4096 + i.imm, k);
    assert a == 4096 + i.imm + k;
    CoversIsInterval(RangeOf(devs[0]), a);
    CoversIsInterval(RangeOf(devs[1]), a);
    var j := FlatAt(devs, 1, a);
  }

  lemma NothingElse(i: Instr, a: uint64)
    requires Valid(i) && i.Load? && SoundDevs(LuiDevs(i))
    requires !(a < 8) && !(4096 + i.imm <= a < 4096 + i.imm + LoadBytes(i.lop))
    ensures a !in Flat(LuiDevs(i))
  {
    hide Program, Data, Flat, Covers;
    var devs := LuiDevs(i);
    CoversIsInterval(RangeOf(devs[0]), a);
    CoversIsInterval(RangeOf(devs[1]), a);
    FlatOff(devs, a);
  }

  /** The state before the second instruction. */
  ghost function LuiState(i: Instr): State
    requires Valid(i) && SoundDevs(LuiDevs(i))
  {
    Execute(LuiFor(i), State(seq(32, _ => 0), 0, Flat(LuiDevs(i))))
  }

  lemma LuiWitness(i: Instr) returns (m: Machine)
    requires Valid(i) && !(i.Load? && i.rs1 == 0)
    ensures Reachable(m) && Boundary(m) && Holds(i, Abs(m.core)) && Accessible(i, Abs(m.core))
    ensures !Faithful(i) ==> !Agrees(i, Abs(m.core))
  {
    hide Flat, LuiDevs, Agrees, Holds, Presents, Execute, Reachable, Boundary, Abs, Encode, Accessible;
    LuiPresent(i);
    ProgramHeld(i);
    m := SecondBoundary(LuiDevs(i), LuiFor(i));
    LuiAccess(i);
    if !Faithful(i) {
      if i.Jalr? {
        LinkElsewhere(i, LuiState(i));
      } else {
        LuiLoadDisagrees(i);
      }
    }
  }

  lemma ProgramHeld(i: Instr)
    requires Valid(i) && SoundDevs(LuiDevs(i))
    ensures Holds(LuiFor(i), State(seq(32, _ => 0), 0, Flat(LuiDevs(i))))
    ensures LuiState(i).pc == 4 && LuiState(i).mem == Flat(LuiDevs(i)) && Holds(i, LuiState(i))
  {
    hide Encode, ByteOf, LoadLE, Flat, LuiDevs;
    var mem := Flat(LuiDevs(i));
    forall j: nat | j < 4
      ensures Add64(0, j) in mem && mem[Add64(0, j)] == ByteOf(WordOf(LuiFor(i)), j)
      ensures Add64(4, j) in mem && mem[Add64(4, j)] == ByteOf(WordOf(i), j)
    {
      ProgramBytes(i, j);
      ProgramBytes(i, 4 + j);
    }
    WordLoads(mem, 0, WordOf(LuiFor(i)));
    WordLoads(mem, 4, WordOf(i));
  }

  lemma LuiAccess(i: Instr)
    requires Valid(i) && !(i.Load? && i.rs1 == 0) && SoundDevs(LuiDevs(i))
    ensures Accessible(i, LuiState(i))
    ensures i.Load? ==> Address(i, LuiState(i)) == 4096 + i.imm
    ensures i.Jalr? && i.rs1 != 0 ==> X(LuiState(i), i.rs1) == 4096
  {
    hide Flat, LuiDevs;
    if i.Load? {
      var a := 4096 + i.imm;
      forall k: nat | k < LoadBytes(i.lop)
        ensures Add64(a, k) in Flat(LuiDevs(i))
      {
        OperandBytes(i, k);
      }
    }
  }

  lemma LuiLoadDisagrees(i: Instr)
    requires Valid(i) && i.Load? && i.rs1 != 0 && !Faithful(i) && SoundDevs(LuiDevs(i))
    requires Accessible(i, LuiState(i)) && LuiState(i).mem == Flat(LuiDevs(i))
    requires Address(i, LuiState(i)) == 4096 + i.imm
    ensures !Agrees(i, LuiState(i))
  {
    hide Flat, LuiDevs, LuiState, Program, Agrees, Address, Accessible;
    var s, n := LuiState(i), LoadBytes(i.lop);
    OperandBytes(i, n - 1);
    if i.lop in {LB, LH} {
      SignDisagrees(i, s);
    } else {
      assert Add64(4096 + i.imm, 0) == 4096 + i.imm;
      OperandBytes(i, 0);
      OperandBytes(i, 1);
      ShiftedBase(i);
      BaseDisagrees(i, s);
    }
  }

  lemma LinkElsewhere(i: Instr, s: State)
    requires Valid(i) && Aliased(i) && i.Jalr? && X(s, i.rs1) == 4096 && s.pc == 4
    ensures !Agrees(i, s)
  {
    HalvesApart(i.imm);
  }

  lemma HalvesApart(imm: int)
    requires Imm12(imm)
    ensures ToU64(8 + imm) / 2 != ToU64(4096 + imm) / 2
  {}

  /** The byte at `imm + 1`, if any, is a byte of the program. */
  lemma ShiftedBase(i: Instr)
    requires Valid(i) && i.Load? && SoundDevs(LuiDevs(i))
    ensures var x := ToU64(i.imm + 1);
      if 0 <= i.imm + 1 < 8 then x in Flat(LuiDevs(i)) && Flat(LuiDevs(i))[x] == Program(i)[i.imm + 1]
      else x !in Flat(LuiDevs(i))
  {
    hide Flat, LuiDevs, Program;
    if 0 <= i.imm + 1 < 8 {
      ProgramBytes(i, i.imm + 1);
    } else {
      NothingElse(i, ToU64(i.imm + 1));
    }
  }

  // ---------- a load with base x0, after a jump ----------

  const FAR: int := 0x0f_7ff8

  /** Its word is 0x808080ef, four bytes with the top bit set. */
  const JUMP := Jal(1, -FAR)

  lemma JumpWord()
    ensures Valid(JUMP) && Encode(JUMP) == 0x8080_80ef
  {}

  lemma JumpBytes(j: nat)
    requires j < 4
    ensures ByteOf(0x8080_80ef, j) >= 0x80
  {
    Pow2Constants();
    assert Pow2(24) == 0x100_0000 by { Pow2Add(16, 8); }
  }

  /** A device that covers the one address `x` below 2^64: its end wraps. */
  function Top(x: int): Dev
    requires -TWO63 <= x
  {
    if x < 0 then Dev(TWO64 + x, seq(-x, _ => 0x80)) else Dev(TWO64 - 1, [0x80])
  }

  function JumpDevs(i: Instr): seq<Dev>
    requires Valid(i) && i.Load?
  {
    seq(LoadBytes(i.lop), j requires 0 <= j => Top(i.imm + j)) +
    [Dev(0, WordBytes(0x8080_80ef) + seq(4092, _ => 0x80)), Dev(TWO64 - FAR, WordBytes(WordOf(i)))]
  }

  lemma JumpDevsAre(i: Instr, j: nat)
    requires Valid(i) && i.Load? && j < LoadBytes(i.lop) + 2
    ensures |JumpDevs(i)| == LoadBytes(i.lop) + 2
    ensures j < LoadBytes(i.lop) ==> var d := JumpDevs(i)[j];
      && d == Top(i.imm + j) && Sound(RangeOf(d)) && Wraps(RangeOf(d)) && d.base >= TWO64 - 2048
      && forall k :: 0 <= k < |d.mem| ==> d.mem[k] == 0x80
    ensures j == LoadBytes(i.lop) ==> var d := JumpDevs(i)[j];
      && d.base == 0 && |d.mem| == 4096
      && forall k :: 0 <= k < 4096 ==> d.mem[k] == if k < 4 then ByteOf(0x8080_80ef, k) else 0x80
    ensures j == LoadBytes(i.lop) + 1 ==> JumpDevs(i)[j] == Dev(TWO64 - FAR, WordBytes(WordOf(i)))
  {
    hide ByteOf, WordOf;
  }

  lemma JumpDevsPresent(i: Instr)
    requires Valid(i) && i.Load?
    ensures SoundDevs(JumpDevs(i)) && Presents(JumpDevs(i), Flat(JumpDevs(i)))
  {
    hide JumpDevs, Flat;
    var devs := JumpDevs(i);
    JumpDevsAre(i, 0);
    forall j | 0 <= j < |devs|
      ensures Sound(RangeOf(devs[j]))
    {
      JumpDevsAre(i, j);
    }
    forall j, k | 0 <= j < k < |devs|
      ensures !Conflicts(Ranges(devs)[j], Ranges(devs)[k])
    {
      JumpDevsAre(i, j);
      JumpDevsAre(i, k);
    }
  }

  /** The devices that map single addresses at the top cover nothing else. */
  lemma TopsApart(i: Instr, j: nat, a: uint64)
    requires Valid(i) && i.Load? && j < LoadBytes(i.lop) && a < TWO64 - 2048
    ensures |JumpDevs(i)| == LoadBytes(i.lop) + 2 && !Covers(RangeOf(JumpDevs(i)[j]), a)
  {
    hide JumpDevs, Covers;
    JumpDevsAre(i, j);
    CoversIsInterval(RangeOf(JumpDevs(i)[j]), a);
  }

  lemma LowBytes(i: Instr, a: uint64)
    requires Valid(i) && i.Load? && SoundDevs(JumpDevs(i)) && a < 4096
    ensures a in Flat(JumpDevs(i))
    ensures Flat(JumpDevs(i))[a] == if a < 4 then ByteOf(0x8080_80ef, a) else 0x80
  {
    hide JumpDevs, Covers, Flat, ByteOf;
    var devs, n := JumpDevs(i), LoadBytes(i.lop);
    JumpDevsAre(i, n);
    CoversIsInterval(RangeOf(devs[n]), a);
    var j := FlatAt(devs, n, a);
    if j < n { TopsApart(i, j, a); }
  }

  lemma FarBytes(i: Instr, k: nat)
    requires Valid(i) && i.Load? && SoundDevs(JumpDevs(i)) && k < 4
    ensures TWO64 - FAR + k in Flat(JumpDevs(i)) && Flat(JumpDevs(i))[TWO64 - FAR + k] == ByteOf(WordOf(i), k)
  {
    hide JumpDevs, Covers, Flat, ByteOf, WordOf;
    var devs, n, a := JumpDevs(i), LoadBytes(i.lop), TWO64 - FAR + k;
    JumpDevsAre(i, n);
    JumpDevsAre(i, n + 1);
    CoversIsInterval(RangeOf(devs[n]), a);
    CoversIsInterval(RangeOf(devs[n + 1]), a);
    var j := FlatAt(devs, n + 1, a);
    if j < n { TopsApart(i, j, a); }
  }

  lemma DataBytes(i: Instr, k: nat)
    requires Valid(i) && i.Load? && SoundDevs(JumpDevs(i)) && k < LoadBytes(i.lop)
    ensures ToU64(i.imm + k) in Flat(JumpDevs(i)) && Flat(JumpDevs(i))[ToU64(i.imm + k)] >= 0x80
  {
    hide JumpDevs, Covers, Flat, ByteOf;
    var devs, a := JumpDevs(i), ToU64(i.imm + k);
    if i.imm + k >= 0 {
      LowBytes(i, a);
      if a < 4 { JumpBytes(a); }
    } else {
      JumpDevsAre(i, k);
      CoversIsInterval(RangeOf(devs[k]), a);
      var j := FlatAt(devs, k, a);
      JumpDevsAre(i, j);
    }
  }

  ghost function JumpState(i: Instr): State
    requires Valid(i) && i.Load? && SoundDevs(JumpDevs(i))
  {
    JumpWord();
    Execute(JUMP, State(seq(32, _ => 0), 0, Flat(JumpDevs(i))))
  }

  lemma JumpHeld(i: Instr)
    requires Valid(i) && i.Load? && SoundDevs(JumpDevs(i))
    ensures Holds(JUMP, State(seq(32, _ => 0), 0, Flat(JumpDevs(i))))
    ensures Valid(JUMP) && JumpState(i) == Execute(JUMP, State(seq(32, _ => 0), 0, Flat(JumpDevs(i))))
    ensures JumpState(i).pc == TWO64 - FAR && JumpState(i).mem == Flat(JumpDevs(i)) && X(JumpState(i), 0) == 0
    ensures Holds(i, JumpState(i))
  {
    hide Encode, ByteOf, LoadLE, Flat, JumpDevs;
    var mem, pc := Flat(JumpDevs(i)), TWO64 - FAR;
    JumpWord();
    forall j: nat | j < 4
      ensures Add64(0, j) in mem && mem[Add64(0, j)] == ByteOf(0x8080_80ef, j)
      ensures Add64(pc, j) in mem && mem[Add64(pc, j)] == ByteOf(WordOf(i), j)
    {
      LowBytes(i, j);
      FarBytes(i, j);
    }
    WordLoads(mem, 0, 0x8080_80ef);
    WordLoads(mem, pc, WordOf(i));
  }

  lemma JumpWitness(i: Instr) returns (m: Machine)
    requires Valid(i) && i.Load? && i.rs1 == 0
    ensures Reachable(m) && Boundary(m) && Holds(i, Abs(m.core)) && Accessible(i, Abs(m.core))
    ensures !Faithful(i) ==> !Agrees(i, Abs(m.core))
  {
    hide JumpDevs, JumpState, Flat, Agrees, Holds, Presents, Execute, Reachable, Boundary, Abs, Encode;
    JumpDevsPresent(i);
    JumpHeld(i);
    m := SecondBoundary(JumpDevs(i), JUMP);
    var s, n := JumpState(i), LoadBytes(i.lop);
    assert Abs(m.core) == s;
    forall k: nat | k < n
      ensures Add64(Address(i, s), k) in s.mem && s.mem[Add64(Address(i, s), k)] >= 0x80
    {
      DataBytes(i, k);
    }
    if !Faithful(i) { SignDisagrees(i, s); }
  }
}
