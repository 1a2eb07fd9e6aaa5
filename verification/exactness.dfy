/**
 Dispatch is exact over all 2^32 words: a word reaches a handler other than the illegal
 one if and only if it encodes an instruction, or is a reserved 32-bit shift (bit 25 set),
 which the emulator takes for the shift with that bit clear.
 */
module Exactness {
  import opened Words
  import opened Isa
  import opened Decoder
  import opened Encoding

  ghost predicate Encoded(w: uint32) { exists i: Instr :: Valid(i) && Encode(i) == w }

  /** SLLIW, SRLIW and SRAIW with bit 25 set: reserved in section 4.2 of the RISC-V Unprivileged ISA. */
  predicate ReservedShift(w: uint32) {
    var func3, func7 := w / 0x1000 % 8, w / 0x200_0000;
    w % 128 == 0x1b && ((func3 == 1 && func7 == 1) || (func3 == 5 && func7 in {1, 33}))
  }

  lemma DispatchIsExact(w: uint32)
    ensures SelectHandler(w) != EIllegal <==> Encoded(w) || ReservedShift(w)
  {
    if SelectHandler(w) != EIllegal && !ReservedShift(w) {
      Reencode(w);
    }
    if Encoded(w) {
      var i: Instr :| Valid(i) && Encode(i) == w;
      DecodeInvertsEncode(i);
      assert HandlerOf(i) != EIllegal;
    }
    if ReservedShift(w) {
      ReservedShiftRuns(w);
    }
  }

  /** A reserved shift runs as the encoded shift with bit 25 clear: same handler, same registers, same shift amount. */
  lemma ReservedShiftRuns(w: uint32)
    requires ReservedShift(w)
    ensures var w', d, d' := w - 0x200_0000, DecodeFields(w), DecodeFields(w - 0x200_0000);
      && SelectHandler(w) == SelectHandler(w') != EIllegal && Encoded(w')
      && d.rd == d'.rd && d.rs1 == d'.rs1 && d.imm == d'.imm + 32 && d'.imm % 64 < 32
  {
    hide *;
    ReservedFields(w);
    ClearBit25(w);
    ReservedHandler(w);
    ShiftFields(w);
    ShiftFields(w - 0x200_0000);
    Reencode(w - 0x200_0000);
  }

  lemma ReservedFields(w: uint32)
    requires ReservedShift(w)
    ensures w % 128 == 0x1b && w / 0x200_0000 < 64 && w / 0x200_0000 % 2 == 1
  {}

  lemma ReservedHandler(w: uint32)
    requires ReservedShift(w) && w >= 0x200_0000
    ensures SelectHandler(w) == SelectHandler(w - 0x200_0000) != EIllegal && !ReservedShift(w - 0x200_0000)
  {
    hide SelectHandler;
    ClearBit25(w);
    SelectValue(w);
    SelectValue(w - 0x200_0000);
  }

  lemma ClearBit25(w: uint32)
    requires w / 0x200_0000 % 2 == 1
    ensures var w' := w - 0x200_0000;
      && 0 <= w' && w' % 128 == w % 128 && w' / 0x80 % 32 == w / 0x80 % 32 && w' / 0x1000 % 8 == w / 0x1000 % 8
      && w' / 0x8000 % 32 == w / 0x8000 % 32 && w' / 0x10_0000 == w / 0x10_0000 - 32
      && w' / 0x200_0000 == w / 0x200_0000 - 1
  {
    Minus(w, 128, 0x4_0000);
    Minus(w / 128, 32, 0x2000);
    Minus(w, 0x1000, 0x2000);
    Minus(w / 0x1000, 8, 0x400);
    Minus(w, 0x8000, 0x400);
    Minus(w / 0x8000, 32, 32);
    Minus(w, 0x10_0000, 32);
    Minus(w, 0x200_0000, 1);
  }

  lemma Minus(x: int, d: nat, k: int)
    requires d > 0
    ensures (x - k * d) / d == x / d - k && (x - k * d) % d == x % d
  {
    DivModUnique(x - k * d, d, x / d - k, x % d);
  }

  lemma ShiftFields(w: uint32)
    requires w % 128 == 0x1b && w / 0x200_0000 < 64
    ensures DecodeFields(w).rd == w / 0x80 % 32 && DecodeFields(w).rs1 == w / 0x8000 % 32
    ensures DecodeFields(w).imm == w / 0x10_0000 < 2048
    ensures w / 0x200_0000 % 2 == 0 ==> w / 0x10_0000 % 64 < 32
  {
    hide DecodeImmI, DecodeOpcode, DecodeRd, DecodeRs1, DecodeRs2, DecodeFunc3, DecodeFunc7;
    FieldValues(w);
    ImmIValue(w);
    TopBits(w);
  }

  lemma TopBits(w: uint32)
    ensures w / 0x200_0000 == w / 0x10_0000 / 32
  {}

  /** The handler as a function of the numeric fields. */
  lemma SelectValue(w: uint32)
    ensures var opcode, func3, func7 := w % 128, w / 0x1000 % 8, w / 0x200_0000;
      SelectHandler(w) == match FormatAt(opcode)
        case FR => HandlerAt(opcode, func3, func7)
        case FI => HandlerAt(opcode, func3, func7 / 2 * 2)
        case FS => HandlerAt(opcode, func3, 0)
        case FB => HandlerAt(opcode, func3, 0)
        case FU => HandlerAt(opcode, 0, 0)
        case FJ => HandlerAt(opcode, 0, 0)
        case FNone => EIllegal
  {
    hide DecodeOpcode, DecodeFunc3, DecodeFunc7, HandlerAt;
    FieldValues(w);
  }

  // ---------- handlers and formats ----------

  /** The record type each handler casts its argument to. */
  function FormatOf(h: Handler): Format {
    match h
    case ELui => FU
    case EAuipc => FU
    case EJal => FJ
    case EJalr => FI
    case EBranch(_) => FB
    case ELoad(_) => FI
    case EStore(_) => FS
    case EImm(_) => FI
    case EReg(_) => FR
    case EIllegal => FNone
  }

  lemma TableFormat(opcode: int, func3: int, func7: int)
    requires HandlerAt(opcode, func3, func7) != EIllegal
    ensures FormatAt(opcode) == FormatOf(HandlerAt(opcode, func3, func7))
  {}

  /** A handler is only ever given the record its own decoder filled in. */
  lemma HandlerGetsItsFormat(w: uint32)
    requires SelectHandler(w) != EIllegal
    ensures DecodeFields(w).format == FormatOf(SelectHandler(w))
  {
    hide HandlerAt, DecodeOpcode, DecodeFunc3, DecodeFunc7, FormatOf;
    var opcode, func3, func7 := DecodeOpcode(w), DecodeFunc3(w), DecodeFunc7(w);
    if FormatAt(opcode) == FR { TableFormat(opcode, func3, func7); }
    if FormatAt(opcode) == FI { TableFormat(opcode, func3, func7 / 2 * 2); }
    if FormatAt(opcode) in {FS, FB} { TableFormat(opcode, func3, 0); }
    if FormatAt(opcode) in {FU, FJ} { TableFormat(opcode, 0, 0); }
  }

  // ---------- the instruction of an accepted word ----------

  function ImmOpOf(h: AluImm): ImmOp {
    match h
    case EAddi => ADDI
    case ESlti => SLTI
    case ESltiu => SLTIU
    case EXori => XORI
    case EOri => ORI
    case EAndi => ANDI
    case _ => ADDIW
  }

  function RegOpOf(h: AluReg, func7: int): RegOp {
    match h
    case EAdd => ADD
    case ESub => SUB
    case ESll => SLL
    case ESlt => SLT
    case ESltu => SLTU
    case EXor => XOR
    case ESrla => if func7 == 32 then SRA else SRL
    case EOr => OR
    case EAnd => AND
    case EAddw => ADDW
    case ESubw => SUBW
    case ESllw => SLLW
    case ESrlaw => if func7 == 32 then SRAW else SRLW
  }

  function Disassemble(w: uint32): Instr {
    var rd, rs1, rs2, func7 := w / 0x80 % 32, w / 0x8000 % 32, w / 0x10_0000 % 32, w / 0x200_0000;
    match SelectHandler(w)
    case ELui => Lui(rd, Signed(DecodeImmU(w)))
    case EAuipc => Auipc(rd, Signed(DecodeImmU(w)))
    case EJal => Jal(rd, Signed(DecodeImmJ(w)))
    case EJalr => Jalr(rd, rs1, Signed(DecodeImmI(w)))
    case EBranch(op) => Branch(op, rs1, rs2, Signed(DecodeImmB(w)))
    case ELoad(op) => Load(op, rd, rs1, Signed(DecodeImmI(w)))
    case EStore(op) => Store(op, rs1, rs2, Signed(DecodeImmS(w)))
    case EImm(ESlli) => Shift(SLLI, rd, rs1, w / 0x10_0000)
    case EImm(ESrlai) =>
      if func7 < 32 then Shift(SRLI, rd, rs1, w / 0x10_0000) else Shift(SRAI, rd, rs1, w / 0x10_0000 - 1024)
    case EImm(ESlliw) => Shift(SLLIW, rd, rs1, w / 0x10_0000)
    case EImm(ESrlaiw) =>
      if func7 < 32 then Shift(SRLIW, rd, rs1, w / 0x10_0000) else Shift(SRAIW, rd, rs1, w / 0x10_0000 - 1024)
    case EImm(h) => Imm(ImmOpOf(h), rd, rs1, Signed(DecodeImmI(w)))
    case EReg(h) => Reg(RegOpOf(h, func7), rd, rs1, rs2)
    case EIllegal => Lui(0, 0)
  }

  lemma Reencode(w: uint32)
    requires SelectHandler(w) != EIllegal && !ReservedShift(w)
    ensures Valid(Disassemble(w)) && Encode(Disassemble(w)) == w
    ensures HandlerOf(Disassemble(w)) == SelectHandler(w)
    ensures Encoded(w)
  {
    hide SelectHandler, DecodeImmI, DecodeImmS, DecodeImmB, DecodeImmU, DecodeImmJ, Word, WordI, WordS, WordB,
      WordU, WordJ, Signed;
    SelectValue(w);
    var opcode := w % 128;
    match FormatAt(opcode)
    case FU => ReencodeU(w);
    case FJ => ReencodeJ(w); TargetImmediatesAreEven(w);
    case FB => ReencodeB(w); TargetImmediatesAreEven(w);
    case FS => ReencodeS(w);
    case FR => FieldsWord(w);
    case FI =>
      if SelectHandler(w).EImm? && SelectHandler(w).imm in {ESlli, ESrlai, ESlliw, ESrlaiw} {
        ReencodeShift(w);
      } else {
        ReencodeImmediate(w);
      }
    case FNone =>
  }

  lemma ReencodeImmediate(w: uint32)
    requires FormatAt(w % 128) == FI && SelectHandler(w) != EIllegal
    requires !(SelectHandler(w).EImm? && SelectHandler(w).imm in {ESlli, ESrlai, ESlliw, ESrlaiw})
    ensures Valid(Disassemble(w)) && Encode(Disassemble(w)) == w
    ensures HandlerOf(Disassemble(w)) == SelectHandler(w)
  {
    hide SelectHandler, DecodeImmI, DecodeImmS, DecodeImmB, DecodeImmU, DecodeImmJ, Word, WordI, WordS, WordB,
      WordU, WordJ, Signed;
    SelectValue(w);
    ReencodeI(w);
  }

  lemma ReencodeShift(w: uint32)
    requires w % 128 in {0x13, 0x1b} && w / 0x1000 % 8 in {1, 5} && SelectHandler(w) != EIllegal && !ReservedShift(w)
    ensures Disassemble(w).Shift? && Valid(Disassemble(w)) && Encode(Disassemble(w)) == w
    ensures HandlerOf(Disassemble(w)) == SelectHandler(w)
  {
    hide SelectHandler, Word, DecodeImmI, DecodeImmS, DecodeImmB, DecodeImmU, DecodeImmJ, Signed;
    SelectValue(w);
    FieldsWord(w);
    TopField(w);
    assert 0 <= w / 0x10_0000 < 4096 by { TopBits(w); }
    assert w / 0x10_0000 % 4096 == w / 0x10_0000;
    assert w / 0x10_0000 / 32 == w / 0x200_0000;
  }
}
