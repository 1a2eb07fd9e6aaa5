/**
 Field and immediate decoding, and the choice of decoder and execution handler
 (the `decode_*` functions of src/cpu/cpu.c).
 */
module Decoder {
  import opened Words
  import opened Helper
  import opened Isa

  // ---------- fields ----------

  /** A register number as instruction words carry it. */
  type uint5 = x: int | 0 <= x < 32

  function DecodeOpcode(ins: uint32): uint64 { ExtractBits(ins, 0, Mask(7)) }

  function DecodeRd(ins: uint32): uint5 {
    FiveBits(ins, 7);
    ExtractBits(ins, 7, Mask(5))
  }

  function DecodeFunc3(ins: uint32): uint64 { ExtractBits(ins, 12, Mask(3)) }

  function DecodeRs1(ins: uint32): uint5 {
    FiveBits(ins, 15);
    ExtractBits(ins, 15, Mask(5))
  }

  function DecodeRs2(ins: uint32): uint5 {
    FiveBits(ins, 20);
    ExtractBits(ins, 20, Mask(5))
  }

  function DecodeFunc7(ins: uint32): uint64 { ExtractBits(ins, 25, Mask(7)) }

  lemma FiveBits(ins: uint32, start: nat)
    requires start < 64
    ensures ExtractBits(ins, start, Mask(5)) < 32
  {
    hide ExtractBits, Mask;
    assert Pow2(5) == 32;
    ExtractBitsIsField(ins, start, 5);
  }

  // ---------- immediates ----------

  // The `Raw` functions assemble the fields; the decoders fill in the sign.

  function DecodeImmI(ins: uint32): uint64 {
    RepeatBit(ExtractBits(ins, 20, Mask(12)), 12, SignBit32(ins))
  }

  function RawImmS(ins: uint32): uint64 {
    var imm1 := ExtractBits(ins, 7, Mask(5));
    var imm2 := ExtractBits(ins, 25, Mask(7));
    ToU64(imm1 + Shl64(imm2, 5))
  }

  function DecodeImmS(ins: uint32): uint64 { RepeatBit(RawImmS(ins), 12, SignBit32(ins)) }

  function RawImmB(ins: uint32): uint64 {
    var imm1 := ExtractBits(ins, 7, Mask(1));
    var imm2 := ExtractBits(ins, 8, Mask(4));
    var imm3 := ExtractBits(ins, 25, Mask(6));
    var imm4 := ExtractBits(ins, 31, Mask(1));
    ToU64(Shl64(imm1, 11) + Shl64(imm2, 1) + Shl64(imm3, 5) + Shl64(imm4, 12))
  }

  function DecodeImmB(ins: uint32): uint64 { RepeatBit(RawImmB(ins), 12, SignBit32(ins)) }

  function RawImmU(ins: uint32): uint32 { Low32(Shl64(ExtractBits(ins, 12, Mask(20)), 12)) }

  function DecodeImmU(ins: uint32): uint64 { SignExtendU32(RawImmU(ins)) }

  function RawImmJ(ins: uint32): uint64 {
    var imm1 := ExtractBits(ins, 12, Mask(8));
    var imm2 := ExtractBits(ins, 20, Mask(1));
    var imm3 := ExtractBits(ins, 21, Mask(10));
    var imm4 := ExtractBits(ins, 31, Mask(1));
    ToU64(Shl64(imm1, 12) + Shl64(imm2, 11) + Shl64(imm3, 1) + Shl64(imm4, 20))
  }

  function DecodeImmJ(ins: uint32): uint64 { RepeatBit(RawImmJ(ins), 20, SignBit32(ins)) }

  // ---------- decoders and handlers ----------

  /** The `execute_*` handlers; `EIllegal` is `illegal_instruction_handler`. */
  datatype AluImm = EAddi | ESlti | ESltiu | EXori | EOri | EAndi | ESlli | ESrlai | EAddiw | ESlliw | ESrlaiw
  datatype AluReg = EAdd | ESub | ESll | ESlt | ESltu | EXor | ESrla | EOr | EAnd | EAddw | ESubw | ESllw | ESrlaw
  datatype Handler =
    | EIllegal
    | ELui | EAuipc | EJal | EJalr
    | EBranch(bop: BranchOp)
    | ELoad(lop: LoadOp)
    | EStore(sop: StoreOp)
    | EImm(imm: AluImm)
    | EReg(reg: AluReg)

  /** The decoders an opcode can select; `FNone` is `default_decoder_handler`. */
  datatype Format = FNone | FR | FI | FS | FB | FU | FJ

  /** A decoded instruction; fields its format lacks are 0. */
  datatype Decoded = Decoded(format: Format, rd: uint5, rs1: uint5, rs2: uint5, func7: uint64, imm: uint64)

  const LOAD := 0x03
  const MISC_MEM := 0x0f
  const OP_IMM := 0x13
  const AUIPC := 0x17
  const OP_IMM_32 := 0x1b
  const STORE := 0x23
  const OP := 0x33
  const LUI := 0x37
  const OP_32 := 0x3b
  const BRANCH := 0x63
  const JALR := 0x67
  const JAL := 0x6f
  const SYSTEM := 0x73

  /** The decoder table. */
  function FormatAt(opcode: int): Format {
    if opcode in {LOAD, OP_IMM, JALR, MISC_MEM, SYSTEM, OP_IMM_32} then FI
    else if opcode == STORE then FS
    else if opcode in {LUI, AUIPC} then FU
    else if opcode in {OP, OP_32} then FR
    else if opcode == JAL then FJ
    else if opcode == BRANCH then FB
    else FNone
  }

  function BranchAt(func3: int): Handler {
    match func3
    case 0 => EBranch(BEQ)
    case 1 => EBranch(BNE)
    case 4 => EBranch(BLT)
    case 5 => EBranch(BGE)
    case 6 => EBranch(BLTU)
    case 7 => EBranch(BGEU)
    case _ => EIllegal
  }

  function LoadAt(func3: int): Handler {
    match func3
    case 0 => ELoad(LB)
    case 1 => ELoad(LH)
    case 2 => ELoad(LW)
    case 3 => ELoad(LD)
    case 4 => ELoad(LBU)
    case 5 => ELoad(LHU)
    case 6 => ELoad(LWU)
    case _ => EIllegal
  }

  function StoreAt(func3: int): Handler {
    match func3
    case 0 => EStore(SB)
    case 1 => EStore(SH)
    case 2 => EStore(SW)
    case 3 => EStore(SD)
    case _ => EIllegal
  }

  function ImmAt(func3: int, func7: int): Handler {
    match func3
    case 0 => EImm(EAddi)
    case 1 => if func7 == 0 then EImm(ESlli) else EIllegal
    case 2 => EImm(ESlti)
    case 3 => EImm(ESltiu)
    case 4 => EImm(EXori)
    case 5 => if func7 in {0, 32} then EImm(ESrlai) else EIllegal
    case 6 => EImm(EOri)
    case 7 => EImm(EAndi)
    case _ => EIllegal
  }

  function Imm32At(func3: int, func7: int): Handler {
    match func3
    case 0 => EImm(EAddiw)
    case 1 => if func7 == 0 then EImm(ESlliw) else EIllegal
    case 5 => if func7 in {0, 32} then EImm(ESrlaiw) else EIllegal
    case _ => EIllegal
  }

  function RegAt(func3: int, func7: int): Handler {
    if func7 == 0 then
      match func3
      case 0 => EReg(EAdd)
      case 1 => EReg(ESll)
      case 2 => EReg(ESlt)
      case 3 => EReg(ESltu)
      case 4 => EReg(EXor)
      case 5 => EReg(ESrla)
      case 6 => EReg(EOr)
      case 7 => EReg(EAnd)
      case _ => EIllegal
    else if func7 == 32 && func3 == 0 then EReg(ESub)
    else if func7 == 32 && func3 == 5 then EReg(ESrla)
    else EIllegal
  }

  function Reg32At(func3: int, func7: int): Handler {
    if func7 == 0 && func3 == 0 then EReg(EAddw)
    else if func7 == 0 && func3 == 1 then EReg(ESllw)
    else if func7 == 32 && func3 == 0 then EReg(ESubw)
    else if func7 in {0, 32} && func3 == 5 then EReg(ESrlaw)
    else EIllegal
  }

  /** The handler table, after registration: `Dispatch.HandlerTable` is proved to hold this. */
  function HandlerAt(opcode: int, func3: int, func7: int): Handler {
    if opcode == LUI then ELui
    else if opcode == AUIPC then EAuipc
    else if opcode == JAL then EJal
    else if opcode == JALR then if func3 == 0 then EJalr else EIllegal
    else if opcode == BRANCH then BranchAt(func3)
    else if opcode == LOAD then LoadAt(func3)
    else if opcode == STORE then StoreAt(func3)
    else if opcode == OP_IMM then ImmAt(func3, func7)
    else if opcode == OP_IMM_32 then Imm32At(func3, func7)
    else if opcode == OP then RegAt(func3, func7)
    else if opcode == OP_32 then Reg32At(func3, func7)
    else EIllegal
  }

  /**
   The indices the table does not care about: func7 outside the register and shift groups, and func3
   too for LUI, AUIPC and JAL; and the slots that never hold a handler.
   */
  lemma DontCares(opcode: int, func3: int, func7: int, i: int, j: int)
    requires 0 <= func3 < 8 && 0 <= i < 8 && 0 <= func7 < 128 && 0 <= j < 128
    ensures opcode in {0x17, 0x37, 0x6f} ==> HandlerAt(opcode, func3, func7) == HandlerAt(opcode, i, j) != EIllegal
    ensures opcode in {0x03, 0x23, 0x63, 0x67} || (opcode in {0x13, 0x1b} && func3 !in {1, 5}) ==>
      HandlerAt(opcode, func3, func7) == HandlerAt(opcode, func3, j)
    ensures opcode in {0x13, 0x1b, 0x33, 0x3b} && func3 in {1, 5} && func7 !in {0, 32} ==>
      HandlerAt(opcode, func3, func7) == EIllegal
    ensures opcode !in {0x03, 0x13, 0x17, 0x1b, 0x23, 0x33, 0x37, 0x3b, 0x63, 0x67, 0x6f} ==>
      HandlerAt(opcode, func3, func7) == EIllegal
  {}

  /** What the decoder selected by the opcode stores. */
  function DecodeFields(ins: uint32): Decoded {
    match FormatAt(DecodeOpcode(ins))
    case FR => Decoded(FR, DecodeRd(ins), DecodeRs1(ins), DecodeRs2(ins), DecodeFunc7(ins), 0)
    case FI => Decoded(FI, DecodeRd(ins), DecodeRs1(ins), 0, 0, DecodeImmI(ins))
    case FS => Decoded(FS, 0, DecodeRs1(ins), DecodeRs2(ins), 0, DecodeImmS(ins))
    case FB => Decoded(FB, 0, DecodeRs1(ins), DecodeRs2(ins), 0, DecodeImmB(ins))
    case FU => Decoded(FU, DecodeRd(ins), 0, 0, 0, DecodeImmU(ins))
    case FJ => Decoded(FJ, DecodeRd(ins), 0, 0, 0, DecodeImmJ(ins))
    case FNone => Decoded(FNone, 0, 0, 0, 0, 0)
  }

  /** The handler the decoder looks up; for I-type words bit 25 is masked out of the func7 index. */
  function SelectHandler(ins: uint32): Handler {
    var opcode := DecodeOpcode(ins);
    match FormatAt(opcode)
    case FR => HandlerAt(opcode, DecodeFunc3(ins), DecodeFunc7(ins))
    case FI => HandlerAt(opcode, DecodeFunc3(ins), DecodeFunc7(ins) / 2 * 2)
    case FS => HandlerAt(opcode, DecodeFunc3(ins), 0)
    case FB => HandlerAt(opcode, DecodeFunc3(ins), 0)
    case FU => HandlerAt(opcode, 0, 0)
    case FJ => HandlerAt(opcode, 0, 0)
    case FNone => EIllegal
  }

  // ---------- fields and immediates as arithmetic ----------

  /** `ExtractBitsIsField` with the powers of two as numbers. */
  lemma FieldAt(ins: uint32, start: nat, size: nat, p: int, m: int)
    requires start < 64 && size <= 31 && p == Pow2(start) && m == Pow2(size)
    ensures ExtractBits(ins, start, Mask(size)) == ins / p % m
  {
    ExtractBitsIsField(ins, start, size);
  }

  lemma ShlAt(x: uint64, k: nat, p: int)
    requires k < 64 && p == Pow2(k) && x * p < TWO64
    ensures Shl64(x, k) == x * p
  {}

  /** The field [start, start + size) as a quotient and remainder of numbers, placed back at bit `k`. */
  lemma PlacedField(ins: uint32, start: nat, size: nat, p: int, m: int, k: nat, q: int)
    requires start < 64 && size <= 31 && k <= 20 && p == Pow2(start) && m == Pow2(size) && q == Pow2(k)
    ensures ExtractBits(ins, start, Mask(size)) == ins / p % m
    ensures Shl64(ExtractBits(ins, start, Mask(size)), k) == ins / p % m * q
  {
    hide *;
    FieldAt(ins, start, size, p, m);
    assert q <= 0x10_0000 by { Pow2Constants(); Pow2Monotonic(k, 20); }
    PlacedFits(ins, p, m, q);
    ShlAt(ins / p % m, k, q);
  }

  /** The powers of two at the positions and sizes of the immediate fields. */
  lemma PositionConstants()
    ensures Pow2(1) == 2 && Pow2(4) == 16 && Pow2(5) == 0x20 && Pow2(6) == 0x40 && Pow2(7) == 0x80 && Pow2(8) == TWO8
    ensures Pow2(10) == 1024 && Pow2(11) == 2048 && Pow2(12) == 0x1000 && Pow2(20) == 0x10_0000
    ensures Pow2(21) == 0x20_0000 && Pow2(25) == 0x200_0000 && Pow2(31) == TWO31
  {
    Pow2Constants();
  }

  lemma PlacedFits(ins: uint32, p: nat, m: nat, q: nat)
    requires p > 0 && m > 0 && q <= 0x10_0000
    ensures 0 <= ins / p % m * q < TWO64
  {
    var d := ins / p;
    DivBound(ins, p);
    assert d == d / m * m + d % m;
    DivBound(d, m);
    MulMonotonic(0, d / m, m);
    MulMonotonic(0, d % m, q);
    MulMonotonic(d % m, TWO32, q);
  }

  /** Every register and opcode field as the quotient and remainder it denotes. */
  lemma FieldValues(ins: uint32)
    ensures DecodeOpcode(ins) == ins % 128
    ensures DecodeRd(ins) == ins / 0x80 % 32
    ensures DecodeFunc3(ins) == ins / 0x1000 % 8
    ensures DecodeRs1(ins) == ins / 0x8000 % 32
    ensures DecodeRs2(ins) == ins / 0x10_0000 % 32
    ensures DecodeFunc7(ins) == ins / 0x200_0000
  {
    OpcodeValue(ins);
    RdValue(ins);
    Func3Value(ins);
    Rs1Value(ins);
    Rs2Value(ins);
    Func7Value(ins);
  }

  lemma OpcodeValue(ins: uint32)
    ensures DecodeOpcode(ins) == ins % 128
  {
    hide ExtractBits, Mask;
    Pow2Constants();
    FieldAt(ins, 0, 7, 1, 128);
  }

  lemma RdValue(ins: uint32)
    ensures DecodeRd(ins) == ins / 0x80 % 32
  {
    hide ExtractBits, Mask;
    Pow2Constants();
    FieldAt(ins, 7, 5, 0x80, 32);
  }

  lemma Func3Value(ins: uint32)
    ensures DecodeFunc3(ins) == ins / 0x1000 % 8
  {
    hide ExtractBits, Mask;
    Pow2Constants();
    FieldAt(ins, 12, 3, 0x1000, 8);
  }

  lemma Rs1Value(ins: uint32)
    ensures DecodeRs1(ins) == ins / 0x8000 % 32
  {
    hide ExtractBits, Mask;
    Pow2Constants();
    FieldAt(ins, 15, 5, 0x8000, 32);
  }

  lemma Rs2Value(ins: uint32)
    ensures DecodeRs2(ins) == ins / 0x10_0000 % 32
  {
    hide ExtractBits, Mask;
    Pow2Constants();
    FieldAt(ins, 20, 5, 0x10_0000, 32);
  }

  lemma Func7Value(ins: uint32)
    ensures DecodeFunc7(ins) == ins / 0x200_0000
  {
    hide ExtractBits, Mask;
    Pow2Constants();
    FieldAt(ins, 25, 7, 0x200_0000, 128);
  }

  /** A value whose bits from `n` up are filled with its sign `b`. */
  lemma FillSign(v: uint64, n: nat, p: int, b: int)
    requires n < 64 && p == Pow2(n) && 0 <= b <= 1
    ensures RepeatBit(v, n, b) == if b == 0 then v else ToU64(v % p - p)
  {
    Pow2Constants();
    Pow2Monotonic(n, 63);
    if b == 1 { DivModUnique(v % p - p, TWO64, -1, v % p - p + TWO64); }
  }

  lemma ImmIValue(ins: uint32)
    ensures var u := ins / 0x10_0000; DecodeImmI(ins) == ToU64(if u < 2048 then u else u - 4096)
  {
    ImmIField(ins);
    FillSign12(ins / 0x10_0000, SignBit32(ins));
  }

  lemma ImmIField(ins: uint32)
    ensures ExtractBits(ins, 20, Mask(12)) == ins / 0x10_0000
  {
    hide ExtractBits, Mask;
    Pow2Constants();
    FieldAt(ins, 20, 12, 0x10_0000, 4096);
  }

  lemma FillSign12(v: uint64, b: int)
    requires 0 <= b <= 1 && (v < 4096 || (b == 1 && v < 8192))
    ensures RepeatBit(v, 12, b) == ToU64(if b == 0 then v else if v < 4096 then v - 4096 else v - 8192)
  {
    Pow2Constants();
    FillSign(v, 12, 4096, b);
  }

  lemma FillSign20(v: uint64, b: int)
    requires 0 <= b <= 1 && (v < 0x10_0000 || (b == 1 && v < 0x20_0000))
    ensures RepeatBit(v, 20, b) == ToU64(if b == 0 then v else if v < 0x10_0000 then v - 0x10_0000 else v - 0x20_0000)
  {
    Pow2Constants();
    FillSign(v, 20, 0x10_0000, b);
  }

  lemma RawSValue(ins: uint32)
    ensures RawImmS(ins) == ins / 0x80 % 32 + ins / 0x200_0000 % 128 * 32
  {
    hide ExtractBits, Shl64;
    RdValue(ins);
    ImmSHigh(ins);
    NoWrap(DecodeRd(ins), ins / 0x200_0000 % 128 * 32, 0, 0);
  }

  lemma NoWrap(a: nat, b: nat, c: nat, d: nat)
    requires a < TWO32 && b < TWO32 && c < TWO32 && d < TWO32
    ensures ToU64(a + b + c + d) == a + b + c + d
  {}

  lemma SignS(ins: uint32)
    ensures var u := ins / 0x80 % 32 + ins / 0x200_0000 % 128 * 32;
            u < 4096 && (SignBit32(ins) == 1 <==> u >= 2048)
  {}

  lemma SignB(ins: uint32)
    ensures var u := ins / 0x80 % 2 * 2048 + ins / 0x100 % 16 * 2 + ins / 0x200_0000 % 64 * 32 + ins / TWO31 % 2 * 4096;
            u < 8192 && (SignBit32(ins) == 1 <==> u >= 4096)
  {}

  lemma SignJ(ins: uint32)
    ensures var u := ins / 0x1000 % 256 * 4096 + ins / 0x10_0000 % 2 * 2048 + ins / 0x20_0000 % 1024 * 2 +
      ins / TWO31 % 2 * 0x10_0000;
            u < 0x20_0000 && (SignBit32(ins) == 1 <==> u >= 0x10_0000)
  {}

  lemma ImmSValue(ins: uint32)
    ensures var u := ins / 0x80 % 32 + ins / 0x200_0000 % 128 * 32;
            DecodeImmS(ins) == ToU64(if u < 2048 then u else u - 4096)
  {
    RawSValue(ins);
    SignS(ins);
    FillSign12(RawImmS(ins), SignBit32(ins));
  }

  lemma ImmSHigh(ins: uint32)
    ensures Shl64(ExtractBits(ins, 25, Mask(7)), 5) == ins / 0x200_0000 % 128 * 32
  {
    hide ExtractBits, Mask, Shl64;
    PositionConstants();
    PlacedField(ins, 25, 7, 0x200_0000, 128, 5, 32);
  }

  lemma RawBValue(ins: uint32)
    ensures RawImmB(ins) ==
      ins / 0x80 % 2 * 2048 + ins / 0x100 % 16 * 2 + ins / 0x200_0000 % 64 * 32 + ins / TWO31 % 2 * 4096
  {
    hide ExtractBits, Shl64;
    ImmB1(ins);
    ImmB2(ins);
    ImmB3(ins);
    ImmB4(ins);
    NoWrap(ins / 0x80 % 2 * 2048, ins / 0x100 % 16 * 2, ins / 0x200_0000 % 64 * 32, ins / TWO31 % 2 * 4096);
  }

  lemma ImmBValue(ins: uint32)
    ensures var u := ins / 0x80 % 2 * 2048 + ins / 0x100 % 16 * 2 + ins / 0x200_0000 % 64 * 32 + ins / TWO31 % 2 * 4096;
            u < 8192 && DecodeImmB(ins) == ToU64(if u < 4096 then u else u - 8192)
  {
    RawBValue(ins);
    SignB(ins);
    FillSign12(RawImmB(ins), SignBit32(ins));
  }

  lemma ImmB1(ins: uint32)
    ensures Shl64(ExtractBits(ins, 7, Mask(1)), 11) == ins / 0x80 % 2 * 2048
  {
    hide ExtractBits, Mask, Shl64;
    PositionConstants();
    PlacedField(ins, 7, 1, 0x80, 2, 11, 2048);
  }

  lemma ImmB2(ins: uint32)
    ensures Shl64(ExtractBits(ins, 8, Mask(4)), 1) == ins / 0x100 % 16 * 2
  {
    hide ExtractBits, Mask, Shl64;
    PositionConstants();
    PlacedField(ins, 8, 4, 0x100, 16, 1, 2);
  }

  lemma ImmB3(ins: uint32)
    ensures Shl64(ExtractBits(ins, 25, Mask(6)), 5) == ins / 0x200_0000 % 64 * 32
  {
    hide ExtractBits, Mask, Shl64;
    PositionConstants();
    PlacedField(ins, 25, 6, 0x200_0000, 64, 5, 32);
  }

  lemma ImmB4(ins: uint32)
    ensures Shl64(ExtractBits(ins, 31, Mask(1)), 12) == ins / TWO31 % 2 * 4096
  {
    hide ExtractBits, Mask, Shl64;
    PositionConstants();
    PlacedField(ins, 31, 1, TWO31, 2, 12, 4096);
  }

  lemma RawUValue(ins: uint32)
    ensures RawImmU(ins) == ins / 0x1000 * 4096
  {
    ImmU1(ins);
    UpperFits(ins);
  }

  lemma UpperFits(ins: uint32)
    ensures ins / 0x1000 % 0x10_0000 == ins / 0x1000
    ensures Low32(ins / 0x1000 * 4096) == ins / 0x1000 * 4096
  {}

  lemma ImmUValue(ins: uint32)
    ensures DecodeImmU(ins) == ToU64(Signed32(ins / 0x1000 * 4096))
  {
    RawUValue(ins);
    SignExtendU32IsSigned(RawImmU(ins));
  }

  lemma ImmU1(ins: uint32)
    ensures Shl64(ExtractBits(ins, 12, Mask(20)), 12) == ins / 0x1000 % 0x10_0000 * 4096
  {
    hide ExtractBits, Mask, Shl64;
    PositionConstants();
    PlacedField(ins, 12, 20, 0x1000, 0x10_0000, 12, 4096);
  }

  lemma RawJValue(ins: uint32)
    ensures RawImmJ(ins) ==
      ins / 0x1000 % 256 * 4096 + ins / 0x10_0000 % 2 * 2048 + ins / 0x20_0000 % 1024 * 2 + ins / TWO31 % 2 * 0x10_0000
  {
    hide ExtractBits, Shl64;
    ImmJ1(ins);
    ImmJ2(ins);
    ImmJ3(ins);
    ImmJ4(ins);
    NoWrap(ins / 0x1000 % 256 * 4096, ins / 0x10_0000 % 2 * 2048, ins / 0x20_0000 % 1024 * 2,
      ins / TWO31 % 2 * 0x10_0000);
  }

  lemma ImmJValue(ins: uint32)
    ensures var u := ins / 0x1000 % 256 * 4096 + ins / 0x10_0000 % 2 * 2048 + ins / 0x20_0000 % 1024 * 2 +
      ins / TWO31 % 2 * 0x10_0000;
            u < 0x20_0000 && DecodeImmJ(ins) == ToU64(if u < 0x10_0000 then u else u - 0x20_0000)
  {
    RawJValue(ins);
    SignJ(ins);
    FillSign20(RawImmJ(ins), SignBit32(ins));
  }

  lemma ImmJ1(ins: uint32)
    ensures Shl64(ExtractBits(ins, 12, Mask(8)), 12) == ins / 0x1000 % 256 * 4096
  {
    hide ExtractBits, Mask, Shl64;
    PositionConstants();
    PlacedField(ins, 12, 8, 0x1000, 256, 12, 4096);
  }

  lemma ImmJ2(ins: uint32)
    ensures Shl64(ExtractBits(ins, 20, Mask(1)), 11) == ins / 0x10_0000 % 2 * 2048
  {
    hide ExtractBits, Mask, Shl64;
    PositionConstants();
    PlacedField(ins, 20, 1, 0x10_0000, 2, 11, 2048);
  }

  lemma ImmJ3(ins: uint32)
    ensures Shl64(ExtractBits(ins, 21, Mask(10)), 1) == ins / 0x20_0000 % 1024 * 2
  {
    hide ExtractBits, Mask, Shl64;
    PositionConstants();
    PlacedField(ins, 21, 10, 0x20_0000, 1024, 1, 2);
  }

  lemma ImmJ4(ins: uint32)
    ensures Shl64(ExtractBits(ins, 31, Mask(1)), 20) == ins / TWO31 % 2 * 0x10_0000
  {
    hide ExtractBits, Mask, Shl64;
    PositionConstants();
    PlacedField(ins, 31, 1, TWO31, 2, 20, 0x10_0000);
  }
}
