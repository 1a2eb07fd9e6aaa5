/**
 Whole instructions of `machine_mainloop`.

 From a boundary, a fetch takes five bus cycles and the handler `Cost` more. `NextBoundary`
 gives this timing for every word and any memory; `RunIsCodeExecute` gives the effect of one
 instruction, and `Runs.CodeTraceIsRun` that of any number.
 */
module MainLoop {
  import opened Words
  import opened Isa
  import opened Decoder
  import opened Encoding
  import opened Exactness
  import opened Machine
  import opened Access
  import opened Cycles
  import opened Refinement

  // ---------- fetching ----------

  /** While it fetches, the main loop makes the calls of one 4-byte read at the pc. */
  lemma {:induction false} FetchIsRead(m: Machine, k: nat)
    requires m.phase == Fetching && !m.core.stall && k <= 4
    ensures var (c, v) := ReadCalls(m.core, m.core.regs[PC], m.ins, 4, k);
      v < TWO32 && Run(m, k) == Machine(c, v, Fetching)
    decreases k
  {
    hide ReadTyped, Tick;
    if k > 0 {
      FetchIsRead(m, k - 1);
      ReadCourse(m.core, m.core.regs[PC], m.ins, 4, k);
      if k > 1 { ReadCourse(m.core, m.core.regs[PC], m.ins, 4, k - 1); }
      assert Run(m, k) == Cycle(Run(m, k - 1));
      FetchCycle(Run(m, k - 1));
    }
  }

  lemma FetchCycle(m: Machine)
    requires m.phase == Fetching
    ensures var (c, v) := ReadTyped(m.core, m.core.regs[PC], m.ins, 4);
      && v < TWO32 && Cycle(m).core == Tick(c) && Cycle(m).ins == v
      && Cycle(m).phase == if Tick(c).stall then Fetching else if v == 0 then Halted else Executing
  {
    hide ReadMem, Tick;
    Pow2Constants();
  }

  /** Any fetch: stalled for four cycles, done after five, whatever is mapped. */
  lemma FetchTiming(m: Machine, k: nat)
    requires m.phase == Fetching && !m.core.stall && 0 < k <= 5
    ensures var m' := Run(m, k);
      && SameButAccess(m.core, m'.core) && !m'.core.bus.memwrite && m'.core.stall == (k < 5)
      && m'.phase == if k < 5 then Fetching else if m'.ins == 0 then Halted else Executing
  {
    hide ReadTyped, Tick;
    ReadCourse(m.core, m.core.regs[PC], m.ins, 4, k);
    if k < 5 {
      FetchIsRead(m, k);
    } else {
      FetchedCore(m);
    }
  }

  lemma FetchedCore(m: Machine)
    requires m.phase == Fetching && !m.core.stall
    ensures var (c, v) := ReadCalls(m.core, m.core.regs[PC], m.ins, 4, 5);
      v < TWO32 && Run(m, 5) == Machine(c, v, if v == 0 then Halted else Executing)
  {
    hide ReadTyped, Tick;
    FetchIsRead(m, 4);
    ReadCourse(m.core, m.core.regs[PC], m.ins, 4, 4);
    ReadCourse(m.core, m.core.regs[PC], m.ins, 4, 5);
    assert Run(m, 5) == Cycle(Run(m, 4));
    FetchCycle(Run(m, 4));
  }

  /** Over mapped bytes the fetched word is the little-endian word at the pc. */
  lemma FetchedWord(m: Machine)
    requires m.phase == Fetching && !m.core.stall && Mapped(m.core.bus.mem, m.core.regs[PC], 4)
    ensures Run(m, 5).ins == LoadLE(m.core.bus.mem, m.core.regs[PC], 4)
  {
    FetchedCore(m);
    ReadIsLittleEndian(m.core, m.core.regs[PC], m.ins, 4, 4);
  }

  // ---------- executing ----------

  /** While it executes, the main loop repeats one handler on one decoded word. */
  lemma {:induction false} ExecuteIsSteps(c: Core, ins: uint32, k: nat)
    requires SelectHandler(ins) != EIllegal
    requires forall j :: 0 < j < k ==> Steps(c, SelectHandler(ins), DecodeFields(ins), j).stall
    ensures var c' := Steps(c, SelectHandler(ins), DecodeFields(ins), k);
      Run(Machine(c, ins, Executing), k) == Machine(c', ins, if c'.stall || k == 0 then Executing else Fetching)
    decreases k
  {
    hide SelectHandler, DecodeFields, ExecHandler, AdvancePc, BusStep;
    if k > 0 {
      ExecuteIsSteps(c, ins, k - 1);
      assert Run(Machine(c, ins, Executing), k) == Cycle(Run(Machine(c, ins, Executing), k - 1));
    }
  }

  /** Every handler stalls for `Cost - 1` cycles, then completes; meanwhile the pc is held and x0 stays. */
  lemma HandlerTiming(c: Core, h: Handler, d: Decoded, k: nat)
    requires h != EIllegal && !c.stall && !c.pcUpdated && 0 < k <= Cost(h)
    ensures var c' := Steps(c, h, d, k);
      && c'.stall == (k < Cost(h)) && !c'.pcUpdated && c'.regs[0] == c.regs[0]
      && (k < Cost(h) ==> c'.regs[PC] == c.regs[PC])
  {
    hide Step;
    if h.ELoad? {
      if k <= LoadBytes(h.lop) {
        LoadCourse(c, h.lop, d, k);
        RewriteRd(c.regs, Steps(c, h, d, k).regs, d.rd, 0);
      } else {
        LoadEnd(c, h.lop, d);
      }
    } else if h.EStore? {
      StoreCourse(c, h.sop, d, k);
    } else {
      assert Steps(c, h, d, 0) == c;
      assert Steps(c, h, d, 1) == Step(c, h, d);
      SingleTiming(c, h, d);
    }
  }

  lemma SingleTiming(c: Core, h: Handler, d: Decoded)
    requires h != EIllegal && !h.ELoad? && !h.EStore? && !c.stall && !c.pcUpdated
    ensures var c' := Step(c, h, d); !c'.stall && !c'.pcUpdated && c'.regs[0] == c.regs[0]
  {
    hide BusStep, AluImmValue, AluRegValue, BranchTaken, Shl64, Shr64;
  }

  // ---------- one instruction ----------

  /** Bus cycles from one boundary to the next, for a word that is executed. */
  function InstructionCycles(ins: uint32): nat { 5 + Cost(SelectHandler(ins)) }

  /**
   Progress and exact cost, for any memory and any registers: after five cycles the machine has
   a word. Zero halts it, a word without a handler traps it one step later, and any other word
   brings it to a new boundary after exactly `InstructionCycles`, with none before.
   */
  lemma NextBoundary(m: Machine, k: nat)
    requires Boundary(m)
    ensures var w := Run(m, 5).ins;
      && Run(m, 5).phase == (if w == 0 then Halted else Executing)
      && (w != 0 && SelectHandler(w) == EIllegal ==> Run(m, 6) == Run(m, 5).(phase := Trapped))
      && (w != 0 && SelectHandler(w) != EIllegal ==>
          && Boundary(Run(m, InstructionCycles(w)))
          && (0 < k < InstructionCycles(w) ==> !Boundary(Run(m, k))))
  {
    hide SelectHandler, DecodeFields, Steps, Cycle;
    FetchTiming(m, 5);
    var w := Run(m, 5).ins;
    if w != 0 && SelectHandler(w) == EIllegal {
      TrapCycle(m);
    }
    if w != 0 && SelectHandler(w) != EIllegal {
      AfterFetch(m, Cost(SelectHandler(w)));
      if 0 < k <= 5 {
        FetchTiming(m, k);
      } else if 5 < k < InstructionCycles(w) {
        AfterFetch(m, k - 5);
      }
    }
  }

  lemma TrapCycle(m: Machine)
    requires Run(m, 5).phase == Executing && SelectHandler(Run(m, 5).ins) == EIllegal
    ensures Run(m, 6) == Run(m, 5).(phase := Trapped)
  {
    hide SelectHandler;
    assert Run(m, 6) == Cycle(Run(m, 5));
  }

  /** `j` cycles into the execution of the fetched word. */
  lemma AfterFetch(m: Machine, j: nat)
    requires Boundary(m)
    requires Run(m, 5).ins != 0 && SelectHandler(Run(m, 5).ins) != EIllegal
    requires 0 < j <= Cost(SelectHandler(Run(m, 5).ins))
    ensures var m5 := Run(m, 5);
      var h, d := SelectHandler(m5.ins), DecodeFields(m5.ins);
      && Run(m, 5 + j) == Machine(Steps(m5.core, h, d, j), m5.ins, if j < Cost(h) then Executing else Fetching)
      && (j == Cost(h) ==> Boundary(Run(m, 5 + j)))
  {
    hide SelectHandler, DecodeFields, Steps, Cycle;
    FetchTiming(m, 5);
    var m5 := Run(m, 5);
    var h, d := SelectHandler(m5.ins), DecodeFields(m5.ins);
    forall k: nat | 0 < k <= j
      ensures Steps(m5.core, h, d, k).stall == (k < Cost(h))
    {
      HandlerTiming(m5.core, h, d, k);
    }
    ExecuteIsSteps(m5.core, m5.ins, j);
    HandlerTiming(m5.core, h, d, j);
    RunAdd(m, 5, j);
  }

  /** The word at the pc encodes `i`. */
  ghost predicate Holds(i: Instr, s: State) {
    Valid(i) && Mapped(s.mem, s.pc, 4) && LoadLE(s.mem, s.pc, 4) == Encode(i)
  }

  /** The cycles an instruction takes. */
  function CyclesOf(i: Instr): nat { 5 + Cost(HandlerOf(i)) }

  /**
   Stuttering refinement, quirks included: from a boundary where memory holds `i`, the machine is
   at no boundary for the next `CyclesOf(i) - 1` cycles, and then at one with the effect of `i`.
   */
  lemma RunIsCodeExecute(m: Machine, i: Instr, k: nat)
    requires Boundary(m) && Holds(i, Abs(m.core)) && Accessible(i, Abs(m.core))
    ensures Boundary(Run(m, CyclesOf(i)))
    ensures Abs(Run(m, CyclesOf(i)).core) == CodeExecute(i, Abs(m.core))
    ensures 0 < k < CyclesOf(i) ==> !Boundary(Run(m, k))
  {
    hide SelectHandler, DecodeFields, Encode, Steps, Cycle, CodeExecute, HandlerOf, DecodedOf, LoadLE;
    DecodeInvertsEncode(i);
    FetchedWord(m);
    var m5 := Run(m, 5);
    assert m5.ins == Encode(i);
    FetchedState(m);
    NotHalt(i);
    NextBoundary(m, k);
    AfterFetch(m, Cost(HandlerOf(i)));
    StepsComputeCodeExecute(m5.core, i);
  }

  lemma FetchedState(m: Machine)
    requires Boundary(m)
    ensures var c := Run(m, 5).core;
      !c.stall && !c.pcUpdated && !c.bus.memwrite && c.regs == m.core.regs && Abs(c) == Abs(m.core) && c.regs[0] == 0
  {
    hide Cycle;
    FetchTiming(m, 5);
  }

  /** No instruction is encoded as the halting word. */
  lemma NotHalt(i: Instr)
    requires Valid(i)
    ensures Encode(i) != 0 && HandlerOf(i) != EIllegal
  {
    hide SelectHandler, Encode;
    DecodeInvertsEncode(i);
    ZeroIsIllegal();
  }

  lemma ZeroIsIllegal()
    ensures SelectHandler(0) == EIllegal
  {
    hide SelectHandler;
    SelectValue(0);
  }
}
