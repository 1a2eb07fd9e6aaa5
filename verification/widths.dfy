/**
 Loads and stores in plain numbers: how many bytes each moves, where, in how many cycles, and what
 stays as it was. The statements name neither the width tables nor the memory functions of `Isa`.
 */
module Widths {
  import opened Words
  import opened Helper
  import opened Isa
  import opened Decoder
  import opened Encoding
  import opened Machine
  import opened Access
  import opened Cycles
  import opened Refinement
  import opened MainLoop
  import opened Quirks
  import opened Runs

  /** Bus cycles of every instruction, from boundary to boundary. */
  lemma CycleCounts(m: Machine, i: Instr, cycles: nat, k: nat)
    requires Boundary(m) && Holds(i, Abs(m.core)) && Accessible(i, Abs(m.core))
    requires cycles ==
      match i
      case Load(LB, _, _, _) => 7
      case Load(LBU, _, _, _) => 7
      case Load(LH, _, _, _) => 8
      case Load(LHU, _, _, _) => 8
      case Load(LW, _, _, _) => 10
      case Load(LWU, _, _, _) => 10
      case Load(LD, _, _, _) => 14
      case Store(SB, _, _, _) => 6
      case Store(SH, _, _, _) => 7
      case Store(SW, _, _, _) => 9
      case Store(SD, _, _, _) => 13
      case _ => 6
    ensures Boundary(Run(m, cycles)) && (0 < k < cycles ==> !Boundary(Run(m, k)))
    ensures CyclesOf(i) == cycles
  {
    hide Run, Encode, Boundary, Abs;
    CyclesAre(i);
    RunIsCodeExecute(m, i, k);
  }

  lemma CyclesAre(i: Instr)
    ensures CyclesOf(i) ==
      match i
      case Load(LB, _, _, _) => 7
      case Load(LBU, _, _, _) => 7
      case Load(LH, _, _, _) => 8
      case Load(LHU, _, _, _) => 8
      case Load(LW, _, _, _) => 10
      case Load(LWU, _, _, _) => 10
      case Load(LD, _, _, _) => 14
      case Store(SB, _, _, _) => 6
      case Store(SH, _, _, _) => 7
      case Store(SW, _, _, _) => 9
      case Store(SD, _, _, _) => 13
      case _ => 6
  {}

  /** A store writes the low n bytes of its register, n = 1, 2, 4 or 8, and nothing else but the pc. */
  lemma StoreLands(m: Machine, st: Instr, n: nat, cycles: nat, x: uint64)
    requires Boundary(m) && st.Store? && Holds(st, Abs(m.core))
    requires (st.sop, n, cycles) in {(SB, 1, 6), (SH, 2, 7), (SW, 4, 9), (SD, 8, 13)}
    ensures var s, s' := Abs(m.core), Abs(Run(m, cycles).core);
      && Boundary(Run(m, cycles)) && s'.x == s.x && s'.pc == (s.pc + 4) % 0x1_0000_0000_0000_0000
      && (x in s'.mem <==> x in s.mem)
      && (x in s.mem ==>
           var j := (x - (X(s, st.rs1) + st.imm)) % 0x1_0000_0000_0000_0000;
           s'.mem[x] == if j < n then X(s, st.rs2) / Pow2(8 * j) % 0x100 else s.mem[x])
  {
    hide Run, Encode, CodeExecute, Execute, LoadLE, ByteOf, Abs, Boundary, Address;
    CyclesAre(st);
    RunIsCodeExecute(m, st, 0);
    StoreEffect(st, Abs(m.core));
    if x in Abs(m.core).mem { StoreBytesAre(Abs(m.core), st, n, x); }
  }

  lemma StoreBytesAre(s: State, st: Instr, n: nat, x: uint64)
    requires st.Store? && Valid(st) && (st.sop, n) in {(SB, 1), (SH, 2), (SW, 4), (SD, 8)} && x in s.mem
    ensures var j := (x - (X(s, st.rs1) + st.imm)) % 0x1_0000_0000_0000_0000;
      StoreLE(s.mem, Address(st, s), X(s, st.rs2), StoreBytes(st.sop))[x] ==
        if j < n then X(s, st.rs2) / Pow2(8 * j) % 0x100 else s.mem[x]
  {
    hide Pow2;
    Displacement(x, X(s, st.rs1) + st.imm);
  }

  lemma Displacement(x: int, y: int)
    ensures (x - ToU64(y)) % TWO64 == (x - y) % TWO64
  {}

  /** A core's registers are those of its view and the pc. */
  lemma ViewOf(c: Core)
    ensures c.regs == Abs(c).x + [Abs(c).pc] && c.bus.mem == Abs(c).mem
    ensures c.regs[0] == 0 ==> forall r: uint5 :: X(Abs(c), r) == c.regs[r]
  {}

  /**
   A load into another register than its base, or of one byte, reads n bytes, n = 1, 2, 4 or 8, and
   writes nothing but `rd` and the pc. LB and LH do not repeat the sign.
   */
  lemma LoadReads(m: Machine, s: State, ld: Instr, n: nat, v: nat, cycles: nat)
    requires ld.Load? && Mapped(s.mem, ToU64(X(s, ld.rs1) + ld.imm), n)
    requires v == LoadLE(s.mem, ToU64(X(s, ld.rs1) + ld.imm), n)
    requires Boundary(m) && s == Abs(m.core) && Holds(ld, s) && ld.rd != 0 && (ld.rd != ld.rs1 || n == 1)
    requires (ld.lop, n, cycles) in
      {(LB, 1, 7), (LBU, 1, 7), (LH, 2, 8), (LHU, 2, 8), (LW, 4, 10), (LWU, 4, 10), (LD, 8, 14)}
    ensures var s' := Abs(Run(m, cycles).core);
      && Boundary(Run(m, cycles)) && s'.mem == s.mem && s'.pc == (s.pc + 4) % 0x1_0000_0000_0000_0000
      && (forall r: uint5 :: r != ld.rd ==> X(s', r) == X(s, r))
      && X(s', ld.rd) == if ld.lop == LW && v >= 0x8000_0000 then v + 0xffff_ffff_0000_0000 else v
  {
    hide Run, Encode, CodeExecute, LoadLE, LoadedBytes, Abs, Boundary, LoadExtension, Mapped;
    CyclesAre(ld);
    assert LoadBytes(ld.lop) == n;
    assert Accessible(ld, s);
    RunIsCodeExecute(m, ld, 0);
    LoadedRightIff(ld, s, n);
    LoadChanges(ld, s);
    ValueOf(ld.lop, s.mem, Address(ld, s), n);
  }

  lemma LoadChanges(ld: Instr, s: State)
    requires Valid(ld) && ld.Load? && ld.rd != 0
    ensures var s' := CodeExecute(ld, s);
      && s'.mem == s.mem && s'.pc == Add64(s.pc, 4) && (forall r: uint5 :: r != ld.rd ==> X(s', r) == X(s, r))
      && X(s', ld.rd) ==
        LoadExtension(ld.lop, LoadedBytes(ld.lop, DecodedOf(ld), s.mem, Address(ld, s), LoadBytes(ld.lop)))
  {
    hide LoadedBytes, LoadExtension;
  }

  lemma ValueOf(op: LoadOp, mem: Memory, a: uint64, n: nat)
    requires Mapped(mem, a, n)
    requires (op, n) in {(LB, 1), (LBU, 1), (LH, 2), (LHU, 2), (LW, 4), (LWU, 4), (LD, 8)}
    ensures var v := LoadLE(mem, a, n);
      && v < TWO64
      && LoadExtension(op, v) == if op == LW && v >= 0x8000_0000 then v + 0xffff_ffff_0000_0000 else v
  {
    hide LoadLE, Pow2, SignExtendU32;
    WidthConstants();
    var v := LoadLE(mem, a, n);
    assert v < Pow2(8 * n);
    match op
    case LW => SignExtendU32IsSigned(v);
    case LB => SmallValue(v);
    case LH => SmallValue(v);
    case _ =>
  }

  /** The pc and the registers after a jump, a branch, LUI or AUIPC. */
  lemma ControlLands(m: Machine, s: State, i: Instr, r: uint5)
    requires Boundary(m) && s == Abs(m.core) && Holds(i, s)
    requires i.Lui? || i.Auipc? || i.Jal? || i.Jalr? || i.Branch?
    ensures var s', next := Abs(Run(m, 6).core), (s.pc + 4) % 0x1_0000_0000_0000_0000;
      && Boundary(Run(m, 6)) && s'.mem == s.mem
      && (i.Branch? || r == 0 || r != i.rd ==> X(s', r) == X(s, r))
      && match i
         case Lui(rd, imm) =>
           s'.pc == next && (r == rd != 0 ==> X(s', r) == imm % 0x1_0000_0000_0000_0000)
         case Auipc(rd, imm) =>
           s'.pc == next && (r == rd != 0 ==> X(s', r) == (s.pc + imm) % 0x1_0000_0000_0000_0000)
         case Jal(rd, imm) =>
           s'.pc == (s.pc + imm) % 0x1_0000_0000_0000_0000 && (r == rd != 0 ==> X(s', r) == next)
         case Jalr(rd, rs1, imm) =>
           var base := if rd == rs1 != 0 then next else X(s, rs1);
           var target := (base + imm) % 0x1_0000_0000_0000_0000;
           s'.pc == target - target % 2 && (r == rd != 0 ==> X(s', r) == next)
         case Branch(op, rs1, rs2, imm) =>
           s'.pc == if Taken(op, X(s, rs1), X(s, rs2)) then (s.pc + imm) % 0x1_0000_0000_0000_0000 else next
         case _ => true
  {
    hide Run, Encode, LoadLE, Abs, Boundary, Taken, LoadedBytes, LoadExtension, StoreLE, Mapped, Address,
      ImmValue, ShiftValue, RegValue, CyclesOf;
    CyclesAre(i);
    RunIsCodeExecute(m, i, 0);
  }

  /** `LoadLE` and `Mapped` in plain numbers. */
  lemma LittleEndian(mem: Memory, a: uint64, n: nat, k: nat)
    requires Mapped(mem, a, n) && k < n
    ensures (a + k) % 0x1_0000_0000_0000_0000 in mem
    ensures LoadLE(mem, a, n) / Pow2(8 * k) % 0x100 == mem[(a + k) % 0x1_0000_0000_0000_0000]
    ensures LoadLE(mem, a, n) < Pow2(8 * n)
    decreases n
  {
    hide Pow2, LoadLE;
    MappedPrefix(mem, a, n, n - 1);
    LoadLEStep(mem, a, n - 1);
    var v, b := LoadLE(mem, a, n - 1), mem[Add64(a, n - 1)];
    if k == n - 1 {
      TopOf(v, b, Pow2(8 * k));
    } else {
      LittleEndian(mem, a, n - 1, k);
      HighByte(v, b, k, n - 1);
    }
  }

  lemma TopOf(v: nat, b: uint8, q: nat)
    requires v < q
    ensures (v + b * q) / q % 0x100 == b
  {
    DivModUnique(v + b * q, q, b, v);
  }

  lemma HighByte(v: nat, b: uint8, k: nat, n: nat)
    requires k < n
    ensures v + b * Pow2(8 * n) >= 0
    ensures (v + b * Pow2(8 * n)) / Pow2(8 * k) % 0x100 == v / Pow2(8 * k) % 0x100
  {
    hide Pow2;
    var p, m := Pow2(8 * k), 8 * (n - k - 1);
    assert Pow2(8 * n) == TWO8 * p * Pow2(m) by {
      ByteStep(k);
      Pow2Add(8 * (k + 1), m);
      assert 8 * n == 8 * (k + 1) + m;
    }
    MulMonotonic(0, b, Pow2(8 * n));
    Regroup(b, TWO8 * p, Pow2(m));
    Above(v, p, b * Pow2(m));
  }

  lemma Above(v: nat, p: nat, c: nat)
    requires p > 0
    ensures c * (TWO8 * p) >= 0
    ensures (v + c * (TWO8 * p)) / p % TWO8 == v / p % TWO8
  {
    MulMonotonic(0, c, TWO8 * p);
    HighPart(v + c * (TWO8 * p), v, p, c);
  }

  /** What the theorems ask of memory before an instruction: its four bytes at the pc. */
  lemma HoldsIs(i: Instr, s: State)
    ensures Holds(i, s) <==> Valid(i) && forall k: nat :: k < 4 ==>
      Add64(s.pc, k) in s.mem && s.mem[Add64(s.pc, k)] == Encode(i) / Pow2(8 * k) % 0x100
  {
    hide Encode, LoadLE, Pow2, Valid;
    if Holds(i, s) {
      forall k: nat | k < 4
        ensures Add64(s.pc, k) in s.mem && s.mem[Add64(s.pc, k)] == Encode(i) / Pow2(8 * k) % 0x100
      {
        LittleEndian(s.mem, s.pc, 4, k);
      }
    }
    if Valid(i) && forall k: nat :: k < 4 ==>
      Add64(s.pc, k) in s.mem && s.mem[Add64(s.pc, k)] == Encode(i) / Pow2(8 * k) % 0x100
    {
      DecodeInvertsEncode(i);
      WordLoads(s.mem, s.pc, Encode(i));
    }
  }

  /** And its operand, if it is a load. */
  lemma AccessibleIs(i: Instr, s: State, n: nat)
    requires i.Load? ==>
      (i.lop, n) in {(LB, 1), (LBU, 1), (LH, 2), (LHU, 2), (LW, 4), (LWU, 4), (LD, 8)}
    ensures Accessible(i, s) <==>
      (i.Load? ==> var a := ToU64(X(s, i.rs1) + i.imm); forall k: nat :: k < n ==> Add64(a, k) in s.mem)
  {}
}
