/**
 The decoder and handler tables and the calls that fill them (`init_ins_decode_handlers`,
 `init_execution_handlers`, `register_execution_handler` of src/cpu/cpu.c).

 `HandlerTable` is proved to end up holding `Decoder.FormatAt` and `Decoder.HandlerAt`, in every slot.
 */
module Dispatch {
  import opened Isa
  import opened Decoder

  const OPCODES := 128
  const FUNC3S := 8
  const FUNC7S := 128

  /** A func3 or func7 argument of `register_execution_handler`: NULL stands for every value. */
  datatype Selector = Any | Only(value: int)

  predicate Selects(s: Selector, v: int) { s == Any || s.value == v }

  predicate InTable(opcode: int, func3: int, func7: int) {
    0 <= opcode < OPCODES && 0 <= func3 < FUNC3S && 0 <= func7 < FUNC7S
  }

  class HandlerTable {
    const formats: array<Format>
    const handlers: array3<Handler>

    ghost predicate Valid() {
      formats.Length == OPCODES && handlers.Length0 == OPCODES && handlers.Length1 == FUNC3S &&
        handlers.Length2 == FUNC7S
    }

    /** The slot of a handler. */
    ghost function At(opcode: int, func3: int, func7: int): Handler
      requires Valid() && InTable(opcode, func3, func7)
      reads handlers
    {
      handlers[opcode, func3, func7]
    }

    /** Both tables as the registration calls leave them. */
    ghost predicate Ready()
      reads formats, handlers
    {
      && Valid()
      && (forall o :: 0 <= o < OPCODES ==> formats[o] == FormatAt(o))
      && (forall o, i, j :: InTable(o, i, j) ==> At(o, i, j) == HandlerAt(o, i, j))
    }

    constructor ()
      ensures Ready() && fresh(formats) && fresh(handlers)
    {
      formats := new Format[OPCODES];
      handlers := new Handler[OPCODES, FUNC3S, FUNC7S];
      new;
      InitDecoders();
      InitHandlers();
    }

    /** The decoder table: the default everywhere, then one assignment an opcode. */
    method InitDecoders()
      requires Valid()
      modifies formats
      ensures forall o :: 0 <= o < OPCODES ==> formats[o] == FormatAt(o)
      ensures formats[0x33] == formats[0x3b] == FR && formats[0x23] == FS && formats[0x63] == FB
      ensures formats[0x03] == formats[0x0f] == formats[0x13] == formats[0x1b] == formats[0x67] == formats[0x73] == FI
      ensures formats[0x17] == formats[0x37] == FU && formats[0x6f] == FJ
      ensures forall o :: 0 <= o < 128 && formats[o] != FNone ==>
        o in {0x03, 0x0f, 0x13, 0x17, 0x1b, 0x23, 0x33, 0x37, 0x3b, 0x63, 0x67, 0x6f, 0x73}
    {
      for o := 0 to OPCODES
        invariant forall p :: 0 <= p < o ==> formats[p] == FNone
      {
        formats[o] := FNone;
      }
      formats[LOAD] := FI;
      formats[STORE] := FS;
      formats[OP_IMM] := FI;
      formats[LUI] := FU;
      formats[OP] := FR;
      formats[JAL] := FJ;
      formats[JALR] := FI;
      formats[MISC_MEM] := FI;
      formats[SYSTEM] := FI;
      formats[OP_IMM_32] := FI;
      formats[AUIPC] := FU;
      formats[OP_32] := FR;
      formats[BRANCH] := FB;
    }

    /** `fill_execution_handler_with_default_handler`. */
    method Fill()
      requires Valid()
      modifies handlers
      ensures forall o, i, j :: InTable(o, i, j) ==> At(o, i, j) == EIllegal
    {
      for o := 0 to OPCODES
        invariant forall p, i, j :: InTable(p, i, j) && p < o ==> At(p, i, j) == EIllegal
      {
        for i := 0 to FUNC3S
          invariant forall p, q, j :: InTable(p, q, j) && (p < o || (p == o && q < i)) ==> At(p, q, j) == EIllegal
        {
          for j := 0 to FUNC7S
            invariant forall p, q, r :: InTable(p, q, r) && (p < o || (p == o && (q < i || (q == i && r < j)))) ==>
              At(p, q, r) == EIllegal
          {
            handlers[o, i, j] := EIllegal;
          }
        }
      }
    }

    /** `register_execution_handler`: exactly the selected slots change. */
    method Register(opcode: int, func7: Selector, func3: Selector, handler: Handler)
      requires Valid() && 0 <= opcode < OPCODES
      requires func3.Only? ==> 0 <= func3.value < FUNC3S
      requires func7.Only? ==> 0 <= func7.value < FUNC7S
      modifies handlers
      ensures forall o, i, j :: InTable(o, i, j) ==>
        At(o, i, j) == if o == opcode && Selects(func3, i) && Selects(func7, j) then handler else old(At(o, i, j))
    {
      var func3Start, func3End := 0, FUNC3S;
      var func7Start, func7End := 0, FUNC7S;
      if func3.Only? {
        func3Start, func3End := func3.value, func3.value + 1;
      }
      if func7.Only? {
        func7Start, func7End := func7.value, func7.value + 1;
      }
      for i := func3Start to func3End
        invariant forall o, p, q :: InTable(o, p, q) ==>
          At(o, p, q) == if o == opcode && func3Start <= p < i && Selects(func7, q) then handler else old(At(o, p, q))
      {
        for j := func7Start to func7End
          invariant forall o, p, q :: InTable(o, p, q) ==>
            At(o, p, q) == if o == opcode && ((func3Start <= p < i && Selects(func7, q)) || (p == i &&
              func7Start <= q < j))
                           then handler else old(At(o, p, q))
        {
          handlers[opcode, i, j] := handler;
        }
      }
    }

    /** The slots of `opcode` are final; those of any other opcode are as before. */
    twostate predicate Filled(opcode: int)
      requires Valid() && 0 <= opcode < OPCODES
      reads handlers
    {
      forall o, i, j :: InTable(o, i, j) ==>
        At(o, i, j) == if o == opcode then HandlerAt(o, i, j) else old(At(o, i, j))
    }

    ghost predicate Blank(opcode: int)
      requires Valid() && 0 <= opcode < OPCODES
      reads handlers
    {
      forall i, j :: InTable(opcode, i, j) ==> At(opcode, i, j) == EIllegal
    }

    method RegisterJalr()
      requires Valid() && Blank(JALR)
      modifies handlers
      ensures Filled(JALR)
    {
      Register(JALR, Any, Only(0), EJalr);
    }

    method RegisterBranches()
      requires Valid() && Blank(BRANCH)
      modifies handlers
      ensures Filled(BRANCH)
    {
      Register(BRANCH, Any, Only(0), EBranch(BEQ));
      Register(BRANCH, Any, Only(1), EBranch(BNE));
      Register(BRANCH, Any, Only(4), EBranch(BLT));
      Register(BRANCH, Any, Only(5), EBranch(BGE));
      Register(BRANCH, Any, Only(6), EBranch(BLTU));
      Register(BRANCH, Any, Only(7), EBranch(BGEU));
    }

    method RegisterLoads()
      requires Valid() && Blank(LOAD)
      modifies handlers
      ensures Filled(LOAD)
    {
      Register(LOAD, Any, Only(0), ELoad(LB));
      Register(LOAD, Any, Only(1), ELoad(LH));
      Register(LOAD, Any, Only(2), ELoad(LW));
      Register(LOAD, Any, Only(3), ELoad(LD));
      Register(LOAD, Any, Only(4), ELoad(LBU));
      Register(LOAD, Any, Only(5), ELoad(LHU));
      Register(LOAD, Any, Only(6), ELoad(LWU));
    }

    method RegisterStores()
      requires Valid() && Blank(STORE)
      modifies handlers
      ensures Filled(STORE)
    {
      Register(STORE, Any, Only(0), EStore(SB));
      Register(STORE, Any, Only(1), EStore(SH));
      Register(STORE, Any, Only(2), EStore(SW));
      Register(STORE, Any, Only(3), EStore(SD));
    }

    method RegisterOpImm()
      requires Valid() && Blank(OP_IMM)
      modifies handlers
      ensures Filled(OP_IMM)
    {
      Register(OP_IMM, Any, Only(0), EImm(EAddi));
      Register(OP_IMM, Any, Only(2), EImm(ESlti));
      Register(OP_IMM, Any, Only(3), EImm(ESltiu));
      Register(OP_IMM, Any, Only(4), EImm(EXori));
      Register(OP_IMM, Any, Only(6), EImm(EOri));
      Register(OP_IMM, Any, Only(7), EImm(EAndi));
      Register(OP_IMM, Only(0), Only(1), EImm(ESlli));
      Register(OP_IMM, Only(0), Only(5), EImm(ESrlai));
      Register(OP_IMM, Only(32), Only(5), EImm(ESrlai));
    }

    method RegisterOpImm32()
      requires Valid() && Blank(OP_IMM_32)
      modifies handlers
      ensures Filled(OP_IMM_32)
    {
      Register(OP_IMM_32, Any, Only(0), EImm(EAddiw));
      Register(OP_IMM_32, Only(0), Only(1), EImm(ESlliw));
      Register(OP_IMM_32, Only(0), Only(5), EImm(ESrlaiw));
      Register(OP_IMM_32, Only(32), Only(5), EImm(ESrlaiw));
    }

    method RegisterOp()
      requires Valid() && Blank(OP)
      modifies handlers
      ensures Filled(OP)
    {
      Register(OP, Only(0), Only(0), EReg(EAdd));
      Register(OP, Only(32), Only(0), EReg(ESub));
      Register(OP, Only(0), Only(1), EReg(ESll));
      Register(OP, Only(0), Only(2), EReg(ESlt));
      Register(OP, Only(0), Only(3), EReg(ESltu));
      Register(OP, Only(0), Only(4), EReg(EXor));
      Register(OP, Only(0), Only(5), EReg(ESrla));
      Register(OP, Only(32), Only(5), EReg(ESrla));
      Register(OP, Only(0), Only(6), EReg(EOr));
      Register(OP, Only(0), Only(7), EReg(EAnd));
    }

    method RegisterOp32()
      requires Valid() && Blank(OP_32)
      modifies handlers
      ensures Filled(OP_32)
    {
      Register(OP_32, Only(0), Only(0), EReg(EAddw));
      Register(OP_32, Only(32), Only(0), EReg(ESubw));
      Register(OP_32, Only(0), Only(1), EReg(ESllw));
      Register(OP_32, Only(0), Only(5), EReg(ESrlaw));
      Register(OP_32, Only(32), Only(5), EReg(ESrlaw));
    }

    method RegisterUpper()
      requires Valid() && Blank(LUI) && Blank(AUIPC) && Blank(JAL)
      modifies handlers
      ensures forall o, i, j :: InTable(o, i, j) ==>
        At(o, i, j) == if o in {LUI, AUIPC, JAL} then HandlerAt(o, i, j) else old(At(o, i, j))
    {
      Register(LUI, Any, Any, ELui);
      Register(AUIPC, Any, Any, EAuipc);
      Register(JAL, Any, Any, EJal);
    }

    /** `init_execution_handlers`: every slot ends as `HandlerAt` says; no registration undoes an earlier one. */
    method InitHandlers()
      requires Valid()
      modifies handlers
      ensures forall o, i, j :: InTable(o, i, j) ==> At(o, i, j) == HandlerAt(o, i, j)
    {
      Fill();
      RegisterUpper();
      RegisterJalr();
      RegisterBranches();
      RegisterLoads();
      RegisterStores();
      RegisterOpImm();
      RegisterOpImm32();
      RegisterOp();
      RegisterOp32();
    }
  }
}
