/**
 The decoder inverts the encoding of the standard, in both directions.

 `DecodeInvertsEncode`: the word of a valid instruction decodes to its handler, registers and immediate.
 The `Reencode` lemmas: encoding the decoded fields and immediate gives the word back. `Exactness`
 draws the conclusion for all words.
 */
module Encoding {
  import opened Words
  import opened Isa
  import opened Decoder

  predicate InFields(opcode: int, rd: int, func3: int, rs1: int, rs2: int, func7: int) {
    0 <= opcode < 128 && 0 <= rd < 32 && 0 <= func3 < 8 && 0 <= rs1 < 32 && 0 <= rs2 < 32 && 0 <= func7 < 128
  }

  // ---------- words and their fields ----------

  lemma WordFields(opcode: int, rd: int, func3: int, rs1: int, rs2: int, func7: int)
    requires InFields(opcode, rd, func3, rs1, rs2, func7)
    ensures var w := Word(opcode, rd, func3, rs1, rs2, func7);
      && 0 <= w < TWO32
      && w % 128 == opcode && w / 0x80 % 32 == rd && w / 0x1000 % 8 == func3
      && w / 0x8000 % 32 == rs1 && w / 0x10_0000 % 32 == rs2 && w / 0x200_0000 == func7
  {
    var w5 := rs2 + 32 * func7;
    var w4 := rs1 + 32 * w5;
    var w3 := func3 + 8 * w4;
    var w2 := rd + 32 * w3;
    var w := opcode + 128 * w2;
    assert w / 0x80 == w2;
    assert w / 0x1000 == w3;
    assert w / 0x8000 == w4;
    assert w / 0x10_0000 == w5;
  }

  /** Every word is the word of its fields. */
  lemma FieldsWord(w: uint32)
    ensures InFields(w % 128, w / 0x80 % 32, w / 0x1000 % 8, w / 0x8000 % 32, w / 0x10_0000 % 32, w / 0x200_0000)
    ensures Word(w % 128, w / 0x80 % 32, w / 0x1000 % 8, w / 0x8000 % 32, w / 0x10_0000 % 32, w / 0x200_0000) == w
  {
    assert w / 0x80 / 32 == w / 0x1000;
    assert w / 0x1000 / 8 == w / 0x8000;
    assert w / 0x8000 / 32 == w / 0x10_0000;
    assert w / 0x10_0000 / 32 == w / 0x200_0000;
  }

  // ---------- the five immediates ----------

  /** Reading back a signed value from its residue, for the three immediate ranges. */
  lemma SignedResidue(imm: int)
    ensures Imm12(imm) ==> var u := imm % 4096; imm == if u < 2048 then u else u - 4096
    ensures -4096 <= imm < 4096 ==> var u := imm % 8192; imm == if u < 4096 then u else u - 8192
    ensures -0x10_0000 <= imm < 0x10_0000 ==>
      var u := imm % 0x20_0000; imm == if u < 0x10_0000 then u else u - 0x20_0000
  {}

  lemma SignedToU64(x: int)
    requires -TWO63 <= x < TWO63
    ensures Signed(ToU64(x)) == x
  {}

  /** The residue of the signed reading of a residue. */
  lemma ResidueSigned(u: nat)
    ensures u < 4096 ==> var v := if u < 2048 then u else u - 4096; v % 4096 == u && Imm12(v)
    ensures u < 8192 ==> (if u < 4096 then u else u - 8192) % 8192 == u
    ensures u < 0x20_0000 ==> (if u < 0x10_0000 then u else u - 0x20_0000) % 0x20_0000 == u
  {}

  /** Two fields side by side. */
  lemma Pair(low: nat, high: nat, d: nat)
    requires low < d
    ensures (low + high * d) % d == low && (low + high * d) / d == high
  {
    DivModUnique(low + high * d, d, high, low);
  }

  lemma ImmIRoundTrip(opcode: int, rd: int, func3: int, rs1: int, imm: int)
    requires InFields(opcode, rd, func3, rs1, 0, 0) && Imm12(imm)
    ensures 0 <= WordI(opcode, rd, func3, rs1, imm) < TWO32
    ensures DecodeImmI(WordI(opcode, rd, func3, rs1, imm)) == ToU64(imm)
  {
    hide DecodeImmI, Word, ToU64;
    var u := imm % 4096;
    WordFields(opcode, rd, func3, rs1, u % 32, u / 32);
    SignedResidue(imm);
    var w := WordI(opcode, rd, func3, rs1, imm);
    ImmIValue(w);
    TopField(w);
  }

  lemma TopField(w: uint32)
    ensures w / 0x10_0000 == w / 0x200_0000 * 32 + w / 0x10_0000 % 32
  {}

  lemma ImmSRoundTrip(opcode: int, func3: int, rs1: int, rs2: int, imm: int)
    requires InFields(opcode, 0, func3, rs1, rs2, 0) && Imm12(imm)
    ensures 0 <= WordS(opcode, func3, rs1, rs2, imm) < TWO32
    ensures DecodeImmS(WordS(opcode, func3, rs1, rs2, imm)) == ToU64(imm)
  {
    hide DecodeImmS, Word, ToU64;
    var u := imm % 4096;
    WordFields(opcode, u % 32, func3, rs1, rs2, u / 32);
    SignedResidue(imm);
    ImmSValue(WordS(opcode, func3, rs1, rs2, imm));
  }

  lemma ImmBRoundTrip(opcode: int, func3: int, rs1: int, rs2: int, imm: int)
    requires InFields(opcode, 0, func3, rs1, rs2, 0) && -4096 <= imm < 4096 && imm % 2 == 0
    ensures 0 <= WordB(opcode, func3, rs1, rs2, imm) < TWO32
    ensures DecodeImmB(WordB(opcode, func3, rs1, rs2, imm)) == ToU64(imm)
  {
    hide DecodeImmB, Word, ToU64;
    var u := imm % 8192;
    JoinB(u);
    WordFields(opcode, u / 2 % 16 * 2 + u / 2048 % 2, func3, rs1, rs2, u / 4096 * 64 + u / 32 % 64);
    SignedResidue(imm);
    WordBValue(WordB(opcode, func3, rs1, rs2, imm));
  }

  lemma SplitB(w: uint32)
    ensures w / 0x80 % 2 == w / 0x80 % 32 % 2 && w / 0x100 % 16 == w / 0x80 % 32 / 2
    ensures w / TWO31 % 2 == w / 0x200_0000 / 64 && w / 0x200_0000 < 128
  {
    DivDiv(w, 0x80, 2);
    SplitFive(w / 0x80);
    DivDiv(w, 0x200_0000, 64);
    assert w / TWO31 < 2;
  }

  lemma SplitFive(a: nat)
    ensures a % 2 == a % 32 % 2 && a / 2 % 16 == a % 32 / 2
  {}

  lemma JoinB(u: int)
    requires 0 <= u < 8192 && u % 2 == 0
    ensures var low, high := u / 2 % 16 * 2 + u / 2048 % 2, u / 4096 * 64 + u / 32 % 64;
      && 0 <= low < 32 && 0 <= high < 128
      && low % 2 * 2048 + low / 2 * 2 + high % 64 * 32 + high / 64 * 4096 == u
  {
    Pair(u / 2048 % 2, u / 2 % 16, 2);
    Pair(u / 32 % 64, u / 4096, 64);
    DivDiv(u, 2, 16);
    DivDiv(u, 32, 64);
    DivDiv(u, 32, 128);
    SumB(u / 2, u / 32);
  }

  lemma SumB(h: nat, q: nat)
    requires q == h / 16 && q < 256
    ensures q / 64 % 2 * 2048 + h % 16 * 2 + q % 64 * 32 + q / 128 * 4096 == 2 * h
  {
    assert q / 128 == q / 64 / 2;
  }

  /** Two further fields above the low 12 bits. */
  lemma UpperFields(opcode: int, rd: int, high: int)
    requires 0 <= opcode < 128 && 0 <= rd < 32 && 0 <= high < 0x10_0000
    ensures var w := opcode + 128 * (rd + 32 * high);
      0 <= w < TWO32 && w % 128 == opcode && w / 0x80 % 32 == rd && w / 0x1000 == high
  {}

  lemma ImmURoundTrip(opcode: int, rd: int, imm: int)
    requires InFields(opcode, rd, 0, 0, 0, 0) && -TWO31 <= imm < TWO31 && imm % 4096 == 0
    ensures 0 <= WordU(opcode, rd, imm) < TWO32
    ensures DecodeImmU(WordU(opcode, rd, imm)) == ToU64(imm)
  {
    hide DecodeImmU;
    UpperFields(opcode, rd, imm % TWO32 / 4096);
    ImmUValue(WordU(opcode, rd, imm));
  }

  lemma ImmJRoundTrip(opcode: int, rd: int, imm: int)
    requires InFields(opcode, rd, 0, 0, 0, 0) && -0x10_0000 <= imm < 0x10_0000 && imm % 2 == 0
    ensures 0 <= WordJ(opcode, rd, imm) < TWO32
    ensures DecodeImmJ(WordJ(opcode, rd, imm)) == ToU64(imm)
    ensures WordJ(opcode, rd, imm) % 128 == opcode && WordJ(opcode, rd, imm) / 0x80 % 32 == rd
  {
    hide DecodeImmJ, ToU64;
    var u := imm % 0x20_0000;
    JoinJ(u);
    HighJ(opcode, rd, imm);
    SignedResidue(imm);
    WordJValue(WordJ(opcode, rd, imm));
  }

  lemma HighJ(opcode: int, rd: int, imm: int)
    requires InFields(opcode, rd, 0, 0, 0, 0) && -0x10_0000 <= imm < 0x10_0000 && imm % 2 == 0
    ensures var w, u := WordJ(opcode, rd, imm), imm % 0x20_0000;
      && 0 <= w < TWO32 && w % 128 == opcode && w / 0x80 % 32 == rd
      && w / 0x1000 == u / 4096 % 256 + u / 2048 % 2 * 256 + u / 2 % 1024 * 512 + u / 0x10_0000 * 0x8_0000
  {
    var u := imm % 0x20_0000;
    JoinJ(u);
    UpperFields(opcode, rd, u / 4096 % 256 + u / 2048 % 2 * 256 + u / 2 % 1024 * 512 + u / 0x10_0000 * 0x8_0000);
  }

  /** `ImmJValue` in terms of the 20 high bits. */
  lemma WordJValue(w: uint32)
    ensures var h := w / 0x1000;
      var u := h % 256 * 4096 + h / 256 % 2 * 2048 + h / 512 % 1024 * 2 + h / 0x8_0000 * 0x10_0000;
      DecodeImmJ(w) == ToU64(if u < 0x10_0000 then u else u - 0x20_0000)
  {
    hide DecodeImmJ, ToU64;
    ImmJValue(w);
    SplitJ(w);
  }

  lemma SplitJ(w: uint32)
    ensures w / 0x10_0000 % 2 == w / 0x1000 / 256 % 2 && w / 0x20_0000 % 1024 == w / 0x1000 / 512 % 1024
    ensures w / TWO31 % 2 == w / 0x1000 / 0x8_0000
  {
    DivDiv(w, 0x1000, 256);
    DivDiv(w, 0x1000, 512);
    DivDiv(w, 0x1000, 0x8_0000);
    assert w / TWO31 < 2;
  }

  lemma JoinJ(u: int)
    requires 0 <= u < 0x20_0000 && u % 2 == 0
    ensures var h := u / 4096 % 256 + u / 2048 % 2 * 256 + u / 2 % 1024 * 512 + u / 0x10_0000 * 0x8_0000;
      && 0 <= h < 0x10_0000
      && h % 256 * 4096 + h / 256 % 2 * 2048 + h / 512 % 1024 * 2 + h / 0x8_0000 * 0x10_0000 == u
  {
    var q := u / 2048;
    DivDiv(u, 2, 1024);
    DivDiv(u, 2048, 2);
    DivDiv(u, 2048, 512);
    ScatterJ(q / 2 % 256, q % 2, u / 2 % 1024, q / 512);
    GatherJ(q);
  }

  lemma ScatterJ(a: int, b: int, c: int, d: int)
    requires 0 <= a < 256 && 0 <= b < 2 && 0 <= c < 1024 && 0 <= d < 2
    ensures var h := a + b * 256 + c * 512 + d * 0x8_0000;
      0 <= h < 0x10_0000 && h % 256 == a && h / 256 % 2 == b && h / 512 % 1024 == c && h / 0x8_0000 == d
  {
    var h := a + b * 256 + c * 512 + d * 0x8_0000;
    DivModUnique(h, 256, b + 2 * (c + 1024 * d), a);
    DivModUnique(h, 512, c + 1024 * d, a + b * 256);
    DivModUnique(h, 0x8_0000, d, a + b * 256 + c * 512);
    Pair(b, c + 1024 * d, 2);
    Pair(c, d, 1024);
  }

  lemma GatherJ(q: nat)
    ensures q == q / 512 * 512 + q / 2 % 256 * 2 + q % 2
  {
    DivDiv(q, 2, 256);
  }

  /** Every branch and jump immediate is even and within the range of its format. */
  lemma TargetImmediatesAreEven(w: uint32)
    ensures Signed(DecodeImmB(w)) % 2 == 0 && -4096 <= Signed(DecodeImmB(w)) < 4096
    ensures Signed(DecodeImmJ(w)) % 2 == 0 && -0x10_0000 <= Signed(DecodeImmJ(w)) < 0x10_0000
  {
    hide DecodeImmB, DecodeImmJ;
    ImmBValue(w);
    ImmJValue(w);
    EvenTarget(w / 0x80 % 2 * 1024, w / 0x100 % 16, w / 0x200_0000 % 64 * 16, w / TWO31 % 2 * 2048, 4096,
      DecodeImmB(w));
    EvenTarget(w / 0x1000 % 256 * 2048, w / 0x10_0000 % 2 * 1024, w / 0x20_0000 % 1024, w / TWO31 % 2 * 0x8_0000,
      0x10_0000, DecodeImmJ(w));
  }

  lemma EvenTarget(a: nat, b: nat, c: nat, d: nat, h: int, imm: uint64)
    requires h in {4096, 0x10_0000}
    requires var u := a * 2 + b * 2 + c * 2 + d * 2; u < 2 * h && imm == ToU64(if u < h then u else u - 2 * h)
    ensures Signed(imm) % 2 == 0 && -h <= Signed(imm) < h
  {
    var u := a * 2 + b * 2 + c * 2 + d * 2;
    SignedToU64(if u < h then u else u - 2 * h);
  }

  // ---------- encode, then decode ----------

  function HandlerOf(i: Instr): Handler {
    match i
    case Lui(_, _) => ELui
    case Auipc(_, _) => EAuipc
    case Jal(_, _) => EJal
    case Jalr(_, _, _) => EJalr
    case Branch(op, _, _, _) => EBranch(op)
    case Load(op, _, _, _) => ELoad(op)
    case Store(op, _, _, _) => EStore(op)
    case Imm(op, _, _, _) => EImm(AluImmOf(op))
    case Shift(op, _, _, _) => EImm(AluShiftOf(op))
    case Reg(op, _, _, _) => EReg(AluRegOf(op))
  }

  function AluImmOf(op: ImmOp): AluImm {
    match op
    case ADDI => EAddi
    case SLTI => ESlti
    case SLTIU => ESltiu
    case XORI => EXori
    case ORI => EOri
    case ANDI => EAndi
    case ADDIW => EAddiw
  }

  function AluShiftOf(op: ShiftOp): AluImm {
    match op
    case SLLI => ESlli
    case SRLI => ESrlai
    case SRAI => ESrlai
    case SLLIW => ESlliw
    case SRLIW => ESrlaiw
    case SRAIW => ESrlaiw
  }

  function AluRegOf(op: RegOp): AluReg {
    match op
    case ADD => EAdd
    case SUB => ESub
    case SLL => ESll
    case SLT => ESlt
    case SLTU => ESltu
    case XOR => EXor
    case SRL => ESrla
    case SRA => ESrla
    case OR => EOr
    case AND => EAnd
    case ADDW => EAddw
    case SUBW => ESubw
    case SLLW => ESllw
    case SRLW => ESrlaw
    case SRAW => ESrlaw
  }

  lemma SmallToU64(x: nat)
    requires x < TWO32
    ensures ToU64(x) == x
  {}

  /** The record the decoder should produce. */
  function DecodedOf(i: Instr): Decoded
    requires Valid(i)
  {
    match i
    case Lui(rd, imm) => Decoded(FU, rd, 0, 0, 0, ToU64(imm))
    case Auipc(rd, imm) => Decoded(FU, rd, 0, 0, 0, ToU64(imm))
    case Jal(rd, imm) => Decoded(FJ, rd, 0, 0, 0, ToU64(imm))
    case Jalr(rd, rs1, imm) => Decoded(FI, rd, rs1, 0, 0, ToU64(imm))
    case Branch(_, rs1, rs2, imm) => Decoded(FB, 0, rs1, rs2, 0, ToU64(imm))
    case Load(_, rd, rs1, imm) => Decoded(FI, rd, rs1, 0, 0, ToU64(imm))
    case Store(_, rs1, rs2, imm) => Decoded(FS, 0, rs1, rs2, 0, ToU64(imm))
    case Imm(_, rd, rs1, imm) => Decoded(FI, rd, rs1, 0, 0, ToU64(imm))
    case Shift(op, rd, rs1, shamt) => Decoded(FI, rd, rs1, 0, 0, shamt + 32 * ShiftFunc7(op))
    case Reg(op, rd, rs1, rs2) => Decoded(FR, rd, rs1, rs2, RegFunc7(op), 0)
  }

  /** Decoding inverts encoding. */
  lemma DecodeInvertsEncode(i: Instr)
    requires Valid(i)
    ensures 0 <= Encode(i) < TWO32
    ensures SelectHandler(Encode(i)) == HandlerOf(i)
    ensures DecodeFields(Encode(i)) == DecodedOf(i)
  {
    hide SelectHandler, DecodeFields, WordU, WordJ, WordI, WordB, WordS, Word, ToU64;
    match i
    case Lui(rd, imm) => EncodedU(0x37, rd, imm);
    case Auipc(rd, imm) => EncodedU(0x17, rd, imm);
    case Jal(rd, imm) => EncodedJ(rd, imm);
    case Jalr(rd, rs1, imm) => EncodedI(0x67, rd, 0, rs1, imm);
    case Branch(op, rs1, rs2, imm) => EncodedB(BranchFunc3(op), rs1, rs2, imm);
    case Load(op, rd, rs1, imm) => EncodedI(0x03, rd, LoadFunc3(op), rs1, imm);
    case Store(op, rs1, rs2, imm) => EncodedS(StoreFunc3(op), rs1, rs2, imm);
    case Imm(op, rd, rs1, imm) =>
      EncodedI(if op == ADDIW then 0x1b else 0x13, rd, ImmFunc3(op), rs1, imm);
    case Shift(_, _, _, _) => ShiftDecodes(i);
    case Reg(_, _, _, _) => RegDecodes(i);
  }

  lemma ShiftDecodes(i: Instr)
    requires Valid(i) && i.Shift?
    ensures 0 <= Encode(i) < TWO32
    ensures SelectHandler(Encode(i)) == HandlerOf(i) && DecodeFields(Encode(i)) == DecodedOf(i)
  {
    hide SelectHandler, DecodeFields, WordI, ToU64;
    var op := i.hop;
    SmallToU64(i.shamt + 32 * ShiftFunc7(op));
    EncodedI(if ShamtLimit(op) == 64 then 0x13 else 0x1b, i.rd, ShiftFunc3(op), i.rs1, i.shamt + 32 * ShiftFunc7(op));
  }

  lemma RegDecodes(i: Instr)
    requires Valid(i) && i.Reg?
    ensures 0 <= Encode(i) < TWO32
    ensures SelectHandler(Encode(i)) == HandlerOf(i) && DecodeFields(Encode(i)) == DecodedOf(i)
  {
    hide SelectHandler, DecodeFields, Word, ToU64;
    var op := i.rop;
    EncodedR(if IsWordOp(op) then 0x3b else 0x33, i.rd, RegFunc3(op), i.rs1, i.rs2, RegFunc7(op));
  }

  lemma EncodedU(opcode: int, rd: int, imm: int)
    requires opcode in {0x37, 0x17} && IsReg(rd) && -TWO31 <= imm < TWO31 && imm % 4096 == 0
    ensures var w := WordU(opcode, rd, imm);
      && 0 <= w < TWO32 && SelectHandler(w) == HandlerAt(opcode, 0, 0)
      && DecodeFields(w) == Decoded(FU, rd, 0, 0, 0, ToU64(imm))
  {
    hide DecodeImmU, DecodeOpcode, DecodeRd, HandlerAt;
    ImmURoundTrip(opcode, rd, imm);
    UpperFields(opcode, rd, imm % TWO32 / 4096);
    FieldValues(WordU(opcode, rd, imm));
  }

  lemma EncodedJ(rd: int, imm: int)
    requires IsReg(rd) && -0x10_0000 <= imm < 0x10_0000 && imm % 2 == 0
    ensures var w := WordJ(0x6f, rd, imm);
      && 0 <= w < TWO32 && SelectHandler(w) == HandlerAt(0x6f, 0, 0)
      && DecodeFields(w) == Decoded(FJ, rd, 0, 0, 0, ToU64(imm))
  {
    hide DecodeImmJ, DecodeOpcode, DecodeRd, HandlerAt, ToU64, WordJ;
    ImmJRoundTrip(0x6f, rd, imm);
    FieldValues(WordJ(0x6f, rd, imm));
  }

  lemma EncodedI(opcode: int, rd: int, func3: int, rs1: int, imm: int)
    requires opcode in {0x03, 0x13, 0x1b, 0x67} && InFields(opcode, rd, func3, rs1, 0, 0) && Imm12(imm)
    ensures var w := WordI(opcode, rd, func3, rs1, imm);
      && 0 <= w < TWO32 && SelectHandler(w) == HandlerAt(opcode, func3, imm % 4096 / 64 * 2)
      && DecodeFields(w) == Decoded(FI, rd, rs1, 0, 0, ToU64(imm))
  {
    hide DecodeImmI, DecodeOpcode, DecodeRd, DecodeFunc3, DecodeRs1, DecodeFunc7, HandlerAt;
    ImmIRoundTrip(opcode, rd, func3, rs1, imm);
    var u := imm % 4096;
    WordFields(opcode, rd, func3, rs1, u % 32, u / 32);
    FieldValues(WordI(opcode, rd, func3, rs1, imm));
    assert u / 32 / 2 == u / 64;
  }

  lemma EncodedS(func3: int, rs1: int, rs2: int, imm: int)
    requires InFields(0x23, 0, func3, rs1, rs2, 0) && Imm12(imm)
    ensures var w := WordS(0x23, func3, rs1, rs2, imm);
      && 0 <= w < TWO32 && SelectHandler(w) == HandlerAt(0x23, func3, 0)
      && DecodeFields(w) == Decoded(FS, 0, rs1, rs2, 0, ToU64(imm))
  {
    hide DecodeImmS, DecodeOpcode, DecodeFunc3, DecodeRs1, DecodeRs2, HandlerAt;
    ImmSRoundTrip(0x23, func3, rs1, rs2, imm);
    var u := imm % 4096;
    WordFields(0x23, u % 32, func3, rs1, rs2, u / 32);
    FieldValues(WordS(0x23, func3, rs1, rs2, imm));
  }

  lemma EncodedB(func3: int, rs1: int, rs2: int, imm: int)
    requires InFields(0x63, 0, func3, rs1, rs2, 0) && -4096 <= imm < 4096 && imm % 2 == 0
    ensures var w := WordB(0x63, func3, rs1, rs2, imm);
      && 0 <= w < TWO32 && SelectHandler(w) == HandlerAt(0x63, func3, 0)
      && DecodeFields(w) == Decoded(FB, 0, rs1, rs2, 0, ToU64(imm))
  {
    hide DecodeImmB, DecodeOpcode, DecodeFunc3, DecodeRs1, DecodeRs2, HandlerAt;
    ImmBRoundTrip(0x63, func3, rs1, rs2, imm);
    var u := imm % 8192;
    WordFields(0x63, u / 2 % 16 * 2 + u / 2048 % 2, func3, rs1, rs2, u / 4096 * 64 + u / 32 % 64);
    FieldValues(WordB(0x63, func3, rs1, rs2, imm));
  }

  lemma EncodedR(opcode: int, rd: int, func3: int, rs1: int, rs2: int, func7: int)
    requires opcode in {0x33, 0x3b} && InFields(opcode, rd, func3, rs1, rs2, func7)
    ensures var w := Word(opcode, rd, func3, rs1, rs2, func7);
      && 0 <= w < TWO32 && SelectHandler(w) == HandlerAt(opcode, func3, func7)
      && DecodeFields(w) == Decoded(FR, rd, rs1, rs2, func7, 0)
  {
    hide DecodeOpcode, DecodeRd, DecodeFunc3, DecodeRs1, DecodeRs2, DecodeFunc7, HandlerAt;
    WordFields(opcode, rd, func3, rs1, rs2, func7);
    FieldValues(Word(opcode, rd, func3, rs1, rs2, func7));
  }

  // ---------- decode, then encode ----------

  lemma ReencodeI(w: uint32)
    ensures Imm12(Signed(DecodeImmI(w)))
    ensures WordI(w % 128, w / 0x80 % 32, w / 0x1000 % 8, w / 0x8000 % 32, Signed(DecodeImmI(w))) == w
  {
    hide DecodeImmI, Word, Signed, ToU64;
    ImmIValue(w);
    var u := w / 0x10_0000;
    SignedToU64(if u < 2048 then u else u - 4096);
    ResidueSigned(u);
    TopField(w);
    Pair(w / 0x10_0000 % 32, w / 0x200_0000, 32);
    FieldsWord(w);
  }

  lemma ReencodeS(w: uint32)
    ensures Imm12(Signed(DecodeImmS(w)))
    ensures WordS(w % 128, w / 0x1000 % 8, w / 0x8000 % 32, w / 0x10_0000 % 32, Signed(DecodeImmS(w))) == w
  {
    hide DecodeImmS, Word, Signed, ToU64;
    ImmSValue(w);
    FieldsWord(w);
    TopSeven(w);
    var u := w / 0x80 % 32 + w / 0x200_0000 * 32;
    SignedToU64(if u < 2048 then u else u - 4096);
    ResidueSigned(u);
    Pair(w / 0x80 % 32, w / 0x200_0000, 32);
  }

  lemma TopSeven(w: uint32)
    ensures w / 0x200_0000 % 128 == w / 0x200_0000
    ensures w / 0x80 % 32 + w / 0x200_0000 * 32 < 4096
  {}

  lemma ReencodeB(w: uint32)
    ensures WordB(w % 128, w / 0x1000 % 8, w / 0x8000 % 32, w / 0x10_0000 % 32, Signed(DecodeImmB(w))) == w
  {
    hide DecodeImmB, Word, Signed, ToU64;
    WordBValue(w);
    FieldsWord(w);
    var low, high := w / 0x80 % 32, w / 0x200_0000;
    var u := low % 2 * 2048 + low / 2 * 2 + high % 64 * 32 + high / 64 * 4096;
    ScatterB(low, high);
    SignedToU64(if u < 4096 then u else u - 8192);
    ResidueSigned(u);
  }

  /** `ImmBValue` in terms of the low and high fields. */
  lemma WordBValue(w: uint32)
    ensures var low, high := w / 0x80 % 32, w / 0x200_0000;
      var u := low % 2 * 2048 + low / 2 * 2 + high % 64 * 32 + high / 64 * 4096;
      DecodeImmB(w) == ToU64(if u < 4096 then u else u - 8192)
  {
    hide DecodeImmB, ToU64;
    ImmBValue(w);
    SplitB(w);
  }

  lemma ScatterB(low: int, high: int)
    requires 0 <= low < 32 && 0 <= high < 128
    ensures var u := low % 2 * 2048 + low / 2 * 2 + high % 64 * 32 + high / 64 * 4096;
      0 <= u < 8192 && u / 2 % 16 * 2 + u / 2048 % 2 == low && u / 4096 * 64 + u / 32 % 64 == high
  {
    PlaceB(low % 2, low / 2, high % 64, high / 64);
  }

  lemma PlaceB(a: int, b: int, c: int, d: int)
    requires 0 <= a < 2 && 0 <= b < 16 && 0 <= c < 64 && 0 <= d < 2
    ensures var u := a * 2048 + b * 2 + c * 32 + d * 4096;
      0 <= u < 8192 && u / 2 % 16 == b && u / 2048 % 2 == a && u / 4096 == d && u / 32 % 64 == c
  {
    var u := a * 2048 + b * 2 + c * 32 + d * 4096;
    DivModUnique(u, 2, b + 16 * (c + 64 * (a + 2 * d)), 0);
    DivModUnique(u, 32, c + 64 * (a + 2 * d), b * 2);
    DivModUnique(u, 2048, a + 2 * d, b * 2 + c * 32);
    DivModUnique(u, 4096, d, a * 2048 + b * 2 + c * 32);
    Pair(b, c + 64 * (a + 2 * d), 16);
    Pair(c, a + 2 * d, 64);
    Pair(a, d, 2);
  }

  lemma ReencodeU(w: uint32)
    ensures var imm := Signed(DecodeImmU(w)); -TWO31 <= imm < TWO31 && imm % 4096 == 0
    ensures WordU(w % 128, w / 0x80 % 32, Signed(DecodeImmU(w))) == w
  {
    hide DecodeImmU, Signed;
    ImmUValue(w);
    SignedToU64(Signed32(w / 0x1000 * 4096));
    UpperWord(w);
  }

  lemma UpperWord(w: uint32)
    ensures w % 128 + 128 * (w / 0x80 % 32 + 32 * (w / 0x1000)) == w && w / 0x1000 < 0x10_0000
    ensures Signed32(w / 0x1000 * 4096) % TWO32 / 4096 == w / 0x1000 && Signed32(w / 0x1000 * 4096) % 4096 == 0
  {
    DivDiv(w, 0x80, 32);
  }

  lemma ReencodeJ(w: uint32)
    ensures WordJ(w % 128, w / 0x80 % 32, Signed(DecodeImmJ(w))) == w
  {
    hide DecodeImmJ, Signed, ToU64;
    WordJValue(w);
    UpperWord(w);
    var h := w / 0x1000;
    var u := h % 256 * 4096 + h / 256 % 2 * 2048 + h / 512 % 1024 * 2 + h / 0x8_0000 * 0x10_0000;
    PlaceJ(h % 256, h / 256 % 2, h / 512 % 1024, h / 0x8_0000);
    GatherHigh(h);
    SignedToU64(if u < 0x10_0000 then u else u - 0x20_0000);
    ResidueSigned(u);
  }

  lemma PlaceJ(a: int, b: int, c: int, d: int)
    requires 0 <= a < 256 && 0 <= b < 2 && 0 <= c < 1024 && 0 <= d < 2
    ensures var u := a * 4096 + b * 2048 + c * 2 + d * 0x10_0000;
      0 <= u < 0x20_0000 && u / 4096 % 256 == a && u / 2048 % 2 == b && u / 2 % 1024 == c && u / 0x10_0000 == d
  {
    var u := a * 4096 + b * 2048 + c * 2 + d * 0x10_0000;
    DivModUnique(u, 2, c + 1024 * (b + 2 * (a + 256 * d)), 0);
    DivModUnique(u, 2048, b + 2 * (a + 256 * d), c * 2);
    DivModUnique(u, 4096, a + 256 * d, b * 2048 + c * 2);
    DivModUnique(u, 0x10_0000, d, a * 4096 + b * 2048 + c * 2);
    Pair(c, b + 2 * (a + 256 * d), 1024);
    Pair(b, a + 256 * d, 2);
    Pair(a, d, 256);
  }

  lemma GatherHigh(h: int)
    requires 0 <= h < 0x10_0000
    ensures h % 256 + h / 256 % 2 * 256 + h / 512 % 1024 * 512 + h / 0x8_0000 * 0x8_0000 == h
    ensures 0 <= h / 0x8_0000 < 2
  {
    DivDiv(h, 256, 2);
    DivDiv(h, 512, 1024);
  }
}
