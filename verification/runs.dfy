/**
 Runs of many instructions, how they end, and round trips through memory.

 `CodeTraceIsRun` and `TraceIsRun` follow a run through any number of instructions, the first with the
 quirks, the second where they do not show. `EndsIff` is exact: a run ends if and only if a trace does.
 */
module Runs {
  import opened Words
  import opened Helper
  import opened Isa
  import opened Decoder
  import opened Encoding
  import opened Exactness
  import opened Machine
  import opened Access
  import opened Alu
  import opened Cycles
  import opened Refinement
  import opened MainLoop
  import opened Quirks

  // ---------- many instructions ----------

  /** The reference executes `i` from `s`, and the emulator agrees. */
  ghost predicate Executes(i: Instr, s: State) {
    Holds(i, s) && Accessible(i, s) && Agrees(i, s)
  }

  ghost function After(i: Instr, s: State): State
    requires Executes(i, s)
  {
    Execute(i, s)
  }

  /** The instructions `path` are executed one after the other from `s`. */
  ghost predicate Trace(s: State, path: seq<Instr>)
    decreases |path|
  {
    path == [] || (Executes(path[0], s) && Trace(After(path[0], s), path[1..]))
  }

  ghost function Final(s: State, path: seq<Instr>): State
    requires Trace(s, path)
    decreases |path|
  {
    if path == [] then s else Final(After(path[0], s), path[1..])
  }

  function TotalCycles(path: seq<Instr>): nat {
    if path == [] then 0 else CyclesOf(path[0]) + TotalCycles(path[1..])
  }

  /** The machine refines the reference along any number of instructions. */
  lemma {:induction false} TraceIsRun(m: Machine, path: seq<Instr>)
    requires Boundary(m) && Trace(Abs(m.core), path)
    ensures Boundary(Run(m, TotalCycles(path)))
    ensures Abs(Run(m, TotalCycles(path)).core) == Final(Abs(m.core), path)
    decreases |path|
  {
    hide Cycle, Boundary, Agrees, Accessible, Execute, Abs, CyclesOf, Encode, LoadLE, Mapped;
    if path != [] {
      var i := path[0];
      RunMatchesReferenceIff(m, i);
      TraceIsRun(Run(m, CyclesOf(i)), path[1..]);
      RunAdd(m, CyclesOf(i), TotalCycles(path[1..]));
    }
  }

  /** A word encodes at most one instruction, so the trace from a state is determined. */
  lemma EncodeInjective(i: Instr, j: Instr)
    requires Valid(i) && Valid(j) && Encode(i) == Encode(j)
    ensures i == j
  {
    hide Encode, SelectHandler, DecodeFields, ToU64;
    DecodeInvertsEncode(i);
    DecodeInvertsEncode(j);
    SameImmediate(i);
    SameImmediate(j);
  }

  /** The signed immediate is recovered from the decoded one. */
  lemma SameImmediate(i: Instr)
    requires Valid(i)
    ensures !i.Shift? && !i.Reg? ==> Signed(DecodedOf(i).imm) == i.imm
  {
    if !i.Shift? && !i.Reg? { SignedToU64(i.imm); }
  }

  // ---------- how a run ends ----------

  /** A machine that has halted or trapped stays as it is. */
  lemma {:induction false} EndIsFinal(m: Machine, k: nat, j: nat)
    requires k <= j && Run(m, k).phase in {Halted, Trapped}
    ensures Run(m, j) == Run(m, k)
    decreases j
  {
    hide Cycle;
    if k < j {
      EndIsFinal(m, k, j - 1);
      assert Run(m, j) == Cycle(Run(m, j - 1));
      AfterEnd(Run(m, j - 1));
    }
  }

  /**
   What the main loop does at a boundary depends only on the word at the pc: zero halts it, a word
   that is neither an instruction nor a reserved shift traps it, and neither changes registers or
   memory; any other word is executed.
   */
  lemma BoundaryOutcome(m: Machine)
    requires Boundary(m) && Mapped(m.core.bus.mem, m.core.regs[PC], 4)
    ensures var w := LoadLE(m.core.bus.mem, m.core.regs[PC], 4);
      && w < TWO32
      && (Run(m, 5).phase == Halted <==> w == 0)
      && (Run(m, 6).phase == Trapped <==> w != 0 && !Encoded(w) && !ReservedShift(w))
      && (w == 0 ==> Abs(Run(m, 5).core) == Abs(m.core))
      && (Run(m, 6).phase == Trapped ==> Abs(Run(m, 6).core) == Abs(m.core))
      && (Encoded(w) || ReservedShift(w) ==> Boundary(Run(m, InstructionCycles(w))))
  {
    hide SelectHandler, Encoded, ReservedShift, LoadLE, Cycle, Abs;
    FetchedWord(m);
    FetchedState(m);
    NextBoundary(m, 6);
    var w := Run(m, 5).ins;
    DispatchIsExact(w);
    ZeroIsIllegal();
    assert Run(m, 6) == Cycle(Run(m, 5));
    AfterEnd(Run(m, 5));
    if w != 0 && SelectHandler(w) != EIllegal {
      AfterFetch(m, 1);
    }
  }

  lemma AfterEnd(m: Machine)
    ensures m.phase in {Halted, Trapped} ==> Cycle(m) == m
  {}

  /** A reserved 32-bit shift has the effect of the instruction with bit 25 clear. */
  lemma ReservedShiftEffect(m: Machine, w: uint32, i: Instr)
    requires Boundary(m) && Mapped(m.core.bus.mem, m.core.regs[PC], 4)
    requires LoadLE(m.core.bus.mem, m.core.regs[PC], 4) == w && ReservedShift(w)
    requires Valid(i) && i.Shift? && Encode(i) == w - 0x200_0000
    ensures Boundary(Run(m, 6)) && Abs(Run(m, 6).core) == Execute(i, Abs(m.core))
  {
    hide SelectHandler, DecodeFields, Steps, Cycle, LoadLE, Encode, Execute, CodeExecute, ReservedShift;
    ReservedShiftRuns(w);
    DecodeInvertsEncode(i);
    FetchedWord(m);
    FetchedState(m);
    NextBoundary(m, 0);
    ReservedIsShift(w, i);
    AfterFetch(m, 1);
    var c := Run(m, 5).core;
    SameShift(c, SelectHandler(w), DecodeFields(w), DecodedOf(i));
    StepsComputeCodeExecute(c, i);
    NoQuirk(i, Abs(c));
  }

  lemma ReservedIsShift(w: uint32, i: Instr)
    requires ReservedShift(w) && w >= 0x200_0000 && Valid(i) && Encode(i) == w - 0x200_0000
    requires SelectHandler(w) == HandlerOf(i) != EIllegal
    ensures i.Shift? && SelectHandler(w) in {EImm(ESlliw), EImm(ESrlaiw)} && w != 0
  {
    hide SelectHandler, Encode;
    SelectValue(w);
  }

  lemma NoQuirk(i: Instr, s: State)
    requires Valid(i) && i.Shift?
    ensures CodeExecute(i, s) == Execute(i, s)
  {}

  /** The W shift handlers ignore bit 5 of the immediate. */
  lemma SameShift(c: Core, h: Handler, d: Decoded, d': Decoded)
    requires h in {EImm(ESlliw), EImm(ESrlaiw)} && d.rd == d'.rd && d.rs1 == d'.rs1
    requires d.imm == d'.imm + 32 && d'.imm % 64 < 32
    ensures Steps(c, h, d, 1) == Steps(c, h, d', 1)
  {
    hide And64, Tick, AdvancePc, SetRegister, SignExtendU32;
    Shamt(d.imm);
    Shamt(d'.imm);
    ArithmeticFlag(d.imm);
    ArithmeticFlag(d'.imm);
    BitFive(d'.imm);
    assert Steps(c, h, d, 0) == c == Steps(c, h, d', 0);
  }

  lemma BitFive(x: nat)
    requires x % 64 < 32
    ensures (x + 32) % 32 == x % 32 && (x + 32) / 1024 == x / 1024
  {
    DivDiv(x, 64, 16);
    DivDiv(x + 32, 64, 16);
  }

  // ---------- runs with the quirks, and the converse ----------

  /** The main loop takes the word `w` for `i`: the word of `i`, or a reserved shift that runs as `i`. */
  predicate RunsAs(w: nat, i: Instr)
    requires Valid(i)
  {
    w == Encode(i) || (i.Shift? && w < TWO32 && ReservedShift(w) && Encode(i) == w - 0x200_0000)
  }

  /** The emulator executes `i` from `s`, right or wrong. */
  ghost predicate Performs(i: Instr, s: State) {
    Valid(i) && Accessible(i, s) && Mapped(s.mem, s.pc, 4) && RunsAs(LoadLE(s.mem, s.pc, 4), i)
  }

  ghost function Performed(i: Instr, s: State): State
    requires Performs(i, s)
  {
    CodeExecute(i, s)
  }

  /** The emulator executes the instructions `path` one after the other from `s`. */
  ghost predicate CodeTrace(s: State, path: seq<Instr>)
    decreases |path|
  {
    path == [] || (Performs(path[0], s) && CodeTrace(Performed(path[0], s), path[1..]))
  }

  ghost function CodeFinal(s: State, path: seq<Instr>): State
    requires CodeTrace(s, path)
    decreases |path|
  {
    if path == [] then s else CodeFinal(Performed(path[0], s), path[1..])
  }

  lemma PerformStep(m: Machine, i: Instr)
    requires Boundary(m) && Performs(i, Abs(m.core))
    ensures Boundary(Run(m, CyclesOf(i))) && Abs(Run(m, CyclesOf(i)).core) == Performed(i, Abs(m.core))
  {
    hide Encode, Run, CodeExecute, Execute, LoadLE, Mapped, ReservedShift;
    if LoadLE(m.core.bus.mem, m.core.regs[PC], 4) == Encode(i) {
      RunIsCodeExecute(m, i, 0);
    } else {
      ReservedShiftEffect(m, LoadLE(m.core.bus.mem, m.core.regs[PC], 4), i);
      NoQuirk(i, Abs(m.core));
    }
  }

  /** Along any number of instructions, quirks included, the machine is where `CodeExecute` leads. */
  lemma {:induction false} CodeTraceIsRun(m: Machine, path: seq<Instr>)
    requires Boundary(m) && CodeTrace(Abs(m.core), path)
    ensures Boundary(Run(m, TotalCycles(path)))
    ensures Abs(Run(m, TotalCycles(path)).core) == CodeFinal(Abs(m.core), path)
    decreases |path|
  {
    hide Cycle, Boundary, Performs, Performed, Abs, CyclesOf;
    if path != [] {
      var i := path[0];
      PerformStep(m, i);
      CodeTraceIsRun(Run(m, CyclesOf(i)), path[1..]);
      RunAdd(m, CyclesOf(i), TotalCycles(path[1..]));
    }
  }

  /** On a trace along which the emulator agrees with the reference, both reach the same state. */
  lemma {:induction false} TraceIsCodeTrace(s: State, path: seq<Instr>)
    requires Trace(s, path)
    ensures CodeTrace(s, path) && CodeFinal(s, path) == Final(s, path)
    decreases |path|
  {
    hide Agrees, Accessible, Execute, CodeExecute, Encode, LoadLE, Mapped, ReservedShift;
    if path != [] {
      CodeMatchesReferenceIff(path[0], s);
      TraceIsCodeTrace(After(path[0], s), path[1..]);
    }
  }

  /** The word at the pc ends the run: zero halts it, a word that is nothing traps it. */
  ghost predicate EndsAs(s: State, end: Phase) {
    Mapped(s.mem, s.pc, 4) && Ending(LoadLE(s.mem, s.pc, 4), end)
  }

  ghost predicate Ending(w: nat, end: Phase) {
    w < TWO32 &&
    match end
    case Halted => w == 0
    case Trapped => w != 0 && !Encoded(w) && !ReservedShift(w)
    case _ => false
  }

  /** Cycles from the last boundary to the end: a fetch, and one step more to trap. */
  function EndCost(end: Phase): nat { if end == Halted then 5 else 6 }

  ghost predicate EndingTrace(s: State, path: seq<Instr>, end: Phase) {
    CodeTrace(s, path) && EndsAs(CodeFinal(s, path), end)
  }

  /** A trace that reaches an ending word is a run that ends there, after exactly its cycles. */
  lemma TraceEnds(m: Machine, path: seq<Instr>, end: Phase)
    requires Boundary(m) && EndingTrace(Abs(m.core), path, end)
    ensures var m' := Run(m, TotalCycles(path) + EndCost(end));
      m'.phase == end && Abs(m'.core) == CodeFinal(Abs(m.core), path)
  {
    hide Run, CodeTrace, CodeFinal, Mapped, LoadLE, Encoded, ReservedShift;
    CodeTraceIsRun(m, path);
    RunAdd(m, TotalCycles(path), EndCost(end));
    BoundaryOutcome(Run(m, TotalCycles(path)));
  }

  /**
   A program whose trace of agreeing steps reaches a zero word halts after exactly the cycles of its
   instructions and one more fetch, in the state the reference reaches.
   */
  lemma TraceHalts(m: Machine, path: seq<Instr>)
    requires Boundary(m) && Trace(Abs(m.core), path) && EndsAs(Final(Abs(m.core), path), Halted)
    ensures var m' := Run(m, TotalCycles(path) + 5);
      m'.phase == Halted && Abs(m'.core) == Final(Abs(m.core), path)
  {
    hide Run, Trace, Final, CodeTrace, CodeFinal, EndsAs, Boundary, Abs;
    TraceIsCodeTrace(Abs(m.core), path);
    TraceEnds(m, path, Halted);
  }

  /** What the emulator does from `s` is a matter of `s` alone: nothing unmapped is read. */
  ghost predicate Defined(s: State) {
    && Mapped(s.mem, s.pc, 4)
    && forall i: Instr :: Valid(i) && RunsAs(LoadLE(s.mem, s.pc, 4), i) ==> Accessible(i, s)
  }

  /** Nothing unmapped is read at any boundary of the run. */
  ghost predicate DefinedRun(m: Machine) {
    forall k: nat :: Boundary(Run(m, k)) ==> Defined(Abs(Run(m, k).core))
  }

  lemma DefinedLater(m: Machine, c: nat)
    requires DefinedRun(m)
    ensures DefinedRun(Run(m, c))
  {
    hide Run, Boundary, Defined;
    forall k: nat
      ensures Run(Run(m, c), k) == Run(m, c + k)
    {
      RunAdd(m, c, k);
    }
  }

  /** At a boundary the word either ends the run or is taken for an instruction. */
  lemma EndOrPerform(s: State) returns (i: Instr)
    requires Defined(s)
    ensures EndsAs(s, Halted) || EndsAs(s, Trapped) || Performs(i, s)
  {
    hide Encode, LoadLE, Mapped, ReservedShift;
    var w := LoadLE(s.mem, s.pc, 4);
    assert w < TWO32 by { Pow2Constants(); }
    i := Lui(0, 0);
    if Encoded(w) {
      i :| Valid(i) && Encode(i) == w;
    } else if ReservedShift(w) {
      i := ShiftOfReserved(w);
    }
  }

  lemma ShiftOfReserved(w: uint32) returns (i: Instr)
    requires ReservedShift(w)
    ensures Valid(i) && RunsAs(w, i)
  {
    hide SelectHandler, DecodeFields, Encode;
    ReservedShiftRuns(w);
    ClearedIsEncoded(w);
    i :| Valid(i) && Encode(i) == w - 0x200_0000;
    DecodeInvertsEncode(i);
    ReservedIsShift(w, i);
  }

  lemma ClearedIsEncoded(w: uint32)
    requires ReservedShift(w) && w >= 0x200_0000 && SelectHandler(w - 0x200_0000) == SelectHandler(w) != EIllegal
    ensures Encoded(w - 0x200_0000)
  {
    hide SelectHandler, Encoded;
    DispatchIsExact(w - 0x200_0000);
    ClearedNotReserved(w);
  }

  lemma ClearedNotReserved(w: uint32)
    requires ReservedShift(w) && w >= 0x200_0000
    ensures !ReservedShift(w - 0x200_0000)
  {}

  /** A run does not end between the boundary before an instruction and the one after it. */
  lemma NoEndBefore(m: Machine, c: nat, k: nat)
    requires Run(m, c).phase == Fetching && k <= c
    ensures Run(m, k).phase !in {Halted, Trapped}
  {
    hide Run;
    if Run(m, k).phase in {Halted, Trapped} { EndIsFinal(m, k, c); }
  }

  /** The converse of `TraceEnds`: a run that ends is a trace that reaches an ending word. */
  lemma {:induction false} EndDecomposes(m: Machine, k: nat) returns (path: seq<Instr>)
    requires Boundary(m) && DefinedRun(m) && Run(m, k).phase in {Halted, Trapped}
    ensures EndingTrace(Abs(m.core), path, Run(m, k).phase)
    ensures TotalCycles(path) + EndCost(Run(m, k).phase) <= k
    ensures Abs(Run(m, k).core) == CodeFinal(Abs(m.core), path)
    decreases k
  {
    hide Run, EndsAs, Performs, Performed, CyclesOf, Defined, Boundary, Abs;
    assert Defined(Abs(m.core)) by { DefinedNow(m); }
    var i := EndOrPerform(Abs(m.core));
    if Performs(i, Abs(m.core)) {
      var c := CyclesOf(i);
      PerformStep(m, i);
      assert c > 0 by { CyclesPositive(i); }
      assert Run(m, c).phase == Fetching by { BoundaryFetches(Run(m, c)); }
      if k <= c { NoEndBefore(m, c, k); }
      DefinedLater(m, c);
      RunAdd(m, c, k - c);
      var rest := EndDecomposes(Run(m, c), k - c);
      path := [i] + rest;
      assert path[1..] == rest;
    } else {
      path := [];
      EndsNow(m, k);
    }
  }

  lemma DefinedNow(m: Machine)
    requires Boundary(m) && DefinedRun(m)
    ensures Defined(Abs(m.core))
  {
    hide Boundary, Defined;
    assert Run(m, 0) == m;
  }

  lemma BoundaryFetches(m: Machine)
    requires Boundary(m)
    ensures m.phase == Fetching
  {}

  lemma CyclesPositive(i: Instr)
    ensures CyclesOf(i) > 0
  {}

  /** A boundary at an ending word: the run ends there, and not before. */
  lemma EndsNow(m: Machine, k: nat)
    requires Boundary(m) && (EndsAs(Abs(m.core), Halted) || EndsAs(Abs(m.core), Trapped))
    requires Run(m, k).phase in {Halted, Trapped}
    ensures EndsAs(Abs(m.core), Run(m, k).phase) && EndCost(Run(m, k).phase) <= k
    ensures Abs(Run(m, k).core) == Abs(m.core)
  {
    hide Run, Abs, Encoded, ReservedShift, LoadLE, Mapped;
    var end := if EndsAs(Abs(m.core), Halted) then Halted else Trapped;
    TraceEnds(m, [], end);
    if k < EndCost(end) {
      BeforeEnd(m, k, end);
    } else {
      EndIsFinal(m, EndCost(end), k);
    }
  }

  lemma BeforeEnd(m: Machine, k: nat, end: Phase)
    requires Boundary(m) && end in {Halted, Trapped} && Run(m, EndCost(end)).phase == end && k < EndCost(end)
    ensures Run(m, k).phase !in {Halted, Trapped}
  {
    hide Cycle;
    if k == 0 {
      assert Run(m, 0) == m;
    } else if k <= 5 {
      FetchTiming(m, k);
      if k == 5 && Run(m, 5).phase == Halted { EndIsFinal(m, 5, 6); }
    }
  }

  /**
   If nothing unmapped is read, the run from a boundary halts, or traps, exactly if some trace from its
   state reaches a word that ends it so.
   */
  lemma EndsIff(m: Machine, end: Phase)
    requires Boundary(m) && DefinedRun(m) && end in {Halted, Trapped}
    ensures (exists k :: Run(m, k).phase == end) <==> exists path :: EndingTrace(Abs(m.core), path, end)
  {
    hide Run, EndingTrace, DefinedRun, Boundary, Abs;
    if k :| Run(m, k).phase == end {
      var path := EndDecomposes(m, k);
    }
    if path :| EndingTrace(Abs(m.core), path, end) {
      TraceEnds(m, path, end);
    }
  }

  /** A run stays ended: from the end of a trace on, in the state the trace reaches. */
  lemma EndedBy(m: Machine, path: seq<Instr>, end: Phase, k: nat)
    requires Boundary(m) && EndingTrace(Abs(m.core), path, end) && k >= TotalCycles(path) + EndCost(end)
    requires end in {Halted, Trapped}
    ensures Run(m, k).phase == end && Abs(Run(m, k).core) == CodeFinal(Abs(m.core), path)
  {
    hide Run, EndsAs, CodeTrace, CodeFinal, Boundary, Abs;
    TraceEnds(m, path, end);
    EndIsFinal(m, TotalCycles(path) + EndCost(end), k);
  }

  // ---------- round trips ----------

  /** The low `k` bytes of a stored value, read back. */
  lemma StoredValueLoads(mem: Memory, a: uint64, v: uint64, n: nat, k: nat)
    requires k <= n <= 8 && Mapped(mem, a, k)
    ensures Mapped(StoreLE(mem, a, v, n), a, k)
    ensures LoadLE(StoreLE(mem, a, v, n), a, k) == v % Pow2(8 * k)
  {
    hide ByteOf, LoadLE, Pow2;
    var stored := StoreLE(mem, a, v, n);
    forall j: nat | j < k
      ensures Add64(a, j) in stored && stored[Add64(a, j)] == ByteOf(v, j)
    {
      Distance(a, j);
    }
    LoadOfBytes(stored, a, k, v);
  }

  lemma ExtendedRoundTrip(m: Machine, st: Instr, ld: Instr)
    requires Boundary(m) && st.Store? && ld.Load?
    requires (st.sop, ld.lop) in {(SD, LD), (SW, LW), (SW, LWU), (SH, LH), (SH, LHU), (SB, LB), (SB, LBU)}
    requires Holds(st, Abs(m.core)) && Mapped(m.core.bus.mem, Address(st, Abs(m.core)), LoadBytes(ld.lop))
    requires var s := Execute(st, Abs(m.core)); Holds(ld, s) && Address(ld, s) == Address(st, Abs(m.core))
    requires ld.rd != 0 && (ld.lop in {LB, LBU} || ld.rd != ld.rs1)
    ensures var m' := Run(m, CyclesOf(st) + CyclesOf(ld));
      Boundary(m') && m'.core.regs[ld.rd] == Extended(ld.lop, m.core.regs[st.rs2])
  {
    hide Cycle, Run, Encode, CodeExecute, Execute, LoadLE, LoadedBytes, LoadExtension, Extended, StoreLE, Mapped;
    var s0, n := Abs(m.core), StoreBytes(st.sop);
    var a, v := Address(st, s0), m.core.regs[st.rs2];
    StoreEffect(st, s0);
    StoredValueLoads(s0.mem, a, v, n, n);
    RunIsCodeExecute(m, st, 0);
    var m1 := Run(m, CyclesOf(st));
    var s1 := Abs(m1.core);
    RunIsCodeExecute(m1, ld, 0);
    RunAdd(m, CyclesOf(st), CyclesOf(ld));
    LoadedRightIff(ld, s1, n);
    LoadEffect(ld, s1);
    ExtensionOf(ld.lop, v);
    var m2 := Run(m1, CyclesOf(ld));
    assert m2.core.regs[ld.rd] == Abs(m2.core).x[ld.rd];
  }

  /** What each load makes of the low bytes of `v`: LB and LH, as written, extend with zeros. */
  function Extended(op: LoadOp, v: uint64): uint64 {
    match op
    case LD => v
    case LW => Sext32(v)
    case LWU => v % TWO32
    case LH => v % TWO16
    case LHU => v % TWO16
    case LB => v % TWO8
    case LBU => v % TWO8
  }

  lemma ExtendedIs(v: uint64, op: LoadOp)
    ensures Extended(op, v) ==
      match op
      case LD => v
      case LW => if v % 0x1_0000_0000 < 0x8000_0000 then v % 0x1_0000_0000
                 else v % 0x1_0000_0000 + 0xffff_ffff_0000_0000
      case LWU => v % 0x1_0000_0000
      case LH => v % 0x1_0000
      case LHU => v % 0x1_0000
      case LB => v % 0x100
      case LBU => v % 0x100
  {}

  /**
   A store followed by a load of the same width at the same address, through all their bus cycles:
   `rd` ends as the load's extension of the stored register truncated to that width.
   */
  lemma StoreLoadRoundTrip(m: Machine, st: Instr, ld: Instr)
    requires Boundary(m) && st.Store? && ld.Load?
    requires (st.sop, ld.lop) in {(SD, LD), (SW, LW), (SW, LWU), (SH, LH), (SH, LHU), (SB, LB), (SB, LBU)}
    requires Holds(st, Abs(m.core)) && Mapped(m.core.bus.mem, Address(st, Abs(m.core)), LoadBytes(ld.lop))
    requires var s := Execute(st, Abs(m.core)); Holds(ld, s) && Address(ld, s) == Address(st, Abs(m.core))
    requires ld.rd != 0 && (ld.lop in {LB, LBU} || ld.rd != ld.rs1)
    ensures var m' := Run(m, CyclesOf(st) + CyclesOf(ld));
      && Boundary(m')
      && var v := m.core.regs[st.rs2];
         m'.core.regs[ld.rd] ==
           match ld.lop
           case LD => v
           case LW => if v % 0x1_0000_0000 < 0x8000_0000 then v % 0x1_0000_0000
                      else v % 0x1_0000_0000 + 0xffff_ffff_0000_0000
           case LWU => v % 0x1_0000_0000
           case LH => v % 0x1_0000
           case LHU => v % 0x1_0000
           case LB => v % 0x100
           case LBU => v % 0x100
  {
    hide Run, Encode, Execute, LoadLE, Extended, Mapped, CyclesOf;
    ExtendedRoundTrip(m, st, ld);
    ExtendedIs(m.core.regs[st.rs2], ld.lop);
  }

  lemma ExtensionOf(op: LoadOp, v: uint64)
    ensures v % Pow2(8 * LoadBytes(op)) < TWO64
    ensures LoadExtension(op, v % Pow2(8 * LoadBytes(op))) == Extended(op, v)
  {
    hide Pow2, SignExtendU32, Sext32, ToU64;
    WidthConstants();
    var w := v % Pow2(8 * LoadBytes(op));
    DivBound(v, Pow2(8 * LoadBytes(op)));
    if op in {LB, LH} { SmallValue(w); }
    if op == LW { SextIs(Low32(w)); SextMod(v); }
  }

  lemma StoreEffect(st: Instr, s: State)
    requires Valid(st) && st.Store?
    ensures CodeExecute(st, s) == Execute(st, s)
    ensures Execute(st, s).mem == StoreLE(s.mem, Address(st, s), X(s, st.rs2), StoreBytes(st.sop))
    ensures Execute(st, s).x == s.x && Execute(st, s).pc == Add64(s.pc, 4)
  {}

  lemma LoadEffect(ld: Instr, s: State)
    requires Valid(ld) && ld.Load? && ld.rd != 0
    ensures CodeExecute(ld, s).x[ld.rd] ==
      LoadExtension(ld.lop, LoadedBytes(ld.lop, DecodedOf(ld), s.mem, Address(ld, s), LoadBytes(ld.lop)))
  {
    hide LoadedBytes, LoadExtension;
  }

  /** What a store writes is what the next fetch returns, wherever it overlaps the next instruction. */
  lemma StoreThenFetch(m: Machine, st: Instr)
    requires Boundary(m) && st.Store? && Holds(st, Abs(m.core))
    requires Mapped(m.core.bus.mem, Add64(m.core.regs[PC], 4), 4)
    ensures var s, next := Abs(m.core), Add64(m.core.regs[PC], 4);
      var mem' := StoreLE(s.mem, Address(st, s), X(s, st.rs2), StoreBytes(st.sop));
      Mapped(mem', next, 4) && Run(m, CyclesOf(st) + 5).ins == LoadLE(mem', next, 4)
  {
    hide Cycle, Run, Encode, CodeExecute, Execute, LoadLE;
    StoreEffect(st, Abs(m.core));
    RunIsCodeExecute(m, st, 0);
    FetchedWord(Run(m, CyclesOf(st)));
    RunAdd(m, CyclesOf(st), 5);
  }

  /** In particular, a word stored over the next instruction is fetched. */
  lemma StoredWordIsFetched(m: Machine, st: Instr)
    requires Boundary(m) && st.Store? && st.sop in {SW, SD} && Holds(st, Abs(m.core))
    requires Address(st, Abs(m.core)) == Add64(m.core.regs[PC], 4)
    requires Mapped(m.core.bus.mem, Address(st, Abs(m.core)), 4)
    ensures Run(m, CyclesOf(st) + 5).ins == m.core.regs[st.rs2] % 0x1_0000_0000
  {
    hide Cycle, Run, Encode, LoadLE, StoreLE, Pow2, Address;
    var s := Abs(m.core);
    StoreThenFetch(m, st);
    StoredValueLoads(s.mem, Address(st, s), X(s, st.rs2), StoreBytes(st.sop), 4);
    WidthConstants();
  }
}
