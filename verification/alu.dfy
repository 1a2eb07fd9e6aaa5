/** The ALU and branch handlers compute the values of the standard. */
module Alu {
  import opened Words
  import opened Helper
  import opened Isa
  import opened Decoder
  import opened Encoding
  import opened Machine

  // ---------- masks and truncations ----------

  lemma Shamt(x: uint64)
    ensures And64(x, Mask(6)) == x % 64 && And64(x, Mask(5)) == x % 32
  {
    hide Bitwise;
    assert Pow2(6) == 64 && Pow2(5) == 32;
    AndMask(x, 6);
    AndMask(x, 5);
  }

  lemma ArithmeticFlag(x: uint64)
    ensures And64(x, 1024) == x / 1024 % 2 * 1024 && And64(x, 32) == x / 32 % 2 * 32
  {
    hide Bitwise;
    assert Pow2(10) == 1024 && Pow2(5) == 32;
    AndSingleBit(x, 10);
    AndSingleBit(x, 5);
  }

  lemma SextIs(v: uint32)
    ensures SignExtendU32(v) == Sext32(v)
  {
    hide SignExtendU32;
    SignExtendU32IsSigned(v);
  }

  lemma SumLow32(a: uint64, b: uint64, imm: int)
    ensures (Low32(a) + Low32(b)) % TWO32 == (a + b) % TWO32
    ensures (Low32(a) - Low32(b)) % TWO32 == (a - b) % TWO32
    ensures (Low32(a) + Low32(ToU64(imm))) % TWO32 == (a + imm) % TWO32
  {
    Congruent(a + b, Low32(a) + Low32(b), a / TWO32 + b / TWO32);
    Congruent(a - b, Low32(a) - Low32(b), a / TWO32 - b / TWO32);
    var i := ToU64(imm);
    assert i == imm - imm / TWO64 * TWO64;
    Congruent(a + imm, Low32(a) + Low32(i), a / TWO32 + i / TWO32 + imm / TWO64 * TWO32);
  }

  lemma Congruent(x: int, y: int, k: int)
    requires x == y + k * TWO32
    ensures y % TWO32 == x % TWO32
  {}

  lemma AddImmediate(a: uint64, imm: int)
    ensures Add64(a, ToU64(imm)) == ToU64(a + imm)
  {}

  // ---------- values ----------

  lemma ImmRefines(op: ImmOp, a: uint64, imm: int)
    requires Imm12(imm)
    ensures AluImmValue(AluImmOf(op), a, ToU64(imm)) == ImmValue(op, a, imm)
  {
    hide And64, Or64, Xor64, SignExtendU32, Signed, Sext32, Low32, ToU64, Add64;
    match op
    case ADDIW =>
      SumLow32(a, 0, imm);
      SextIs((Low32(a) + Low32(ToU64(imm))) % TWO32);
      SextMod(a + imm);
    case ADDI => AddImmediate(a, imm);
    case _ => SignedToU64(imm);
  }

  lemma SextMod(x: int)
    ensures Sext32(x % TWO32) == Sext32(x)
  {}

  lemma ShiftRefines(op: ShiftOp, a: uint64, shamt: nat)
    requires shamt < ShamtLimit(op)
    ensures AluImmValue(AluShiftOf(op), a, shamt + 32 * ShiftFunc7(op)) == ShiftValue(op, a, shamt)
  {
    hide And64, SignExtendU32, Sra64, Sra32, Low32, Sext32;
    var imm := shamt + 32 * ShiftFunc7(op);
    Shamt(imm);
    ArithmeticFlag(imm);
    assert imm % 64 == shamt && (shamt < 32 ==> imm % 32 == shamt);
    assert imm / 1024 == if op in {SRAI, SRAIW} then 1 else 0;
    ShiftCases(a, shamt);
  }

  /** Each C shift against its arithmetic meaning. */
  lemma ShiftCases(a: uint64, k: nat)
    ensures k < 64 ==> Shl64(a, k) == ShiftValue(SLLI, a, k) && Shr64(a, k) == ShiftValue(SRLI, a, k)
    ensures Sra64(a, k) == ShiftValue(SRAI, a, k)
    ensures k < 32 ==> SignExtendU32(Shl32(Low32(a), k)) == ShiftValue(SLLIW, a, k)
    ensures k < 32 ==> SignExtendU32(Shr32(Low32(a), k)) == ShiftValue(SRLIW, a, k)
    ensures SignExtendU32(Sra32(Low32(a), k)) == ShiftValue(SRAIW, a, k)
  {
    hide *;
    ShiftCases64(a, k);
    if k < 32 { ShiftCasesW(a, k); }
    ShiftCaseSraw(a, k);
  }

  lemma ShiftCases64(a: uint64, k: nat)
    ensures k < 64 ==> Shl64(a, k) == ShiftValue(SLLI, a, k) && Shr64(a, k) == ShiftValue(SRLI, a, k)
    ensures Sra64(a, k) == ShiftValue(SRAI, a, k)
  {
    DivBound(a, Pow2(k));
  }

  lemma ShiftCasesW(a: uint64, k: nat)
    requires k < 32
    ensures SignExtendU32(Shl32(Low32(a), k)) == ShiftValue(SLLIW, a, k)
    ensures SignExtendU32(Shr32(Low32(a), k)) == ShiftValue(SRLIW, a, k)
  {
    hide SignExtendU32, Sext32;
    SextIs(Shl32(Low32(a), k));
    SextIs(Shr32(Low32(a), k));
    SextMod(Low32(a) * Pow2(k));
  }

  lemma ShiftCaseSraw(a: uint64, k: nat)
    ensures SignExtendU32(Sra32(Low32(a), k)) == ShiftValue(SRAIW, a, k)
  {
    hide SignExtendU32, Sra32, Signed32;
    SignExtendU32IsSigned(Sra32(Low32(a), k));
    SraRound32(Low32(a), k);
  }

  lemma RegRefines(op: RegOp, a: uint64, b: uint64)
    ensures AluRegValue(AluRegOf(op), a, b, RegFunc7(op)) == RegValue(op, a, b)
  {
    hide And64, Or64, Xor64, SignExtendU32, Signed, Sext32, Low32, Sra64, Sra32, Shl64, Shr64, Shl32, Shr32, ShiftValue;
    Shamt(b);
    ArithmeticFlag(RegFunc7(op));
    ShiftCases(a, b % 64);
    ShiftCases(a, b % 32);
    SumLow32(a, b, 0);
    SextIs((Low32(a) + Low32(b)) % TWO32);
    SextIs((Low32(a) - Low32(b)) % TWO32);
    SextMod(a + b);
    SextMod(a - b);
  }

  lemma BranchRefines(op: BranchOp, a: uint64, b: uint64)
    ensures BranchTaken(op, a, b) == Taken(op, a, b)
  {}

  // ---------- what the values mean ----------

  /** The bits of AND, OR and XOR, register and immediate, in the reference and in the handlers. */
  lemma BitwiseMeaning(a: uint64, b: uint64, imm: int, k: nat)
    requires Imm12(imm)
    ensures var x, y, z := a / Pow2(k) % 2, b / Pow2(k) % 2, imm % 0x1_0000_0000_0000_0000 / Pow2(k) % 2;
      && RegValue(AND, a, b) / Pow2(k) % 2 == (if x == 1 && y == 1 then 1 else 0)
      && RegValue(OR, a, b) / Pow2(k) % 2 == (if x == 1 || y == 1 then 1 else 0)
      && RegValue(XOR, a, b) / Pow2(k) % 2 == (if x != y then 1 else 0)
      && ImmValue(ANDI, a, imm) / Pow2(k) % 2 == (if x == 1 && z == 1 then 1 else 0)
      && ImmValue(ORI, a, imm) / Pow2(k) % 2 == (if x == 1 || z == 1 then 1 else 0)
      && ImmValue(XORI, a, imm) / Pow2(k) % 2 == (if x != z then 1 else 0)
    ensures AluRegValue(EAnd, a, b, 0) == RegValue(AND, a, b) && AluImmValue(EAndi, a, ToU64(imm)) == ImmValue(ANDI, a, imm)
    ensures AluRegValue(EOr, a, b, 0) == RegValue(OR, a, b) && AluImmValue(EOri, a, ToU64(imm)) == ImmValue(ORI, a, imm)
    ensures AluRegValue(EXor, a, b, 0) == RegValue(XOR, a, b) && AluImmValue(EXori, a, ToU64(imm)) == ImmValue(XORI, a, imm)
  {
    hide And64, Or64, Xor64, Pow2;
    WordBits(a, b, k);
    WordBits(a, ToU64(imm), k);
  }

  /**
   Sums, differences and comparisons without the conversions: a signed comparison is the unsigned one
   with both sign bits flipped, that is, with 2^63 added to both sides modulo 2^64.
   */
  lemma ArithmeticMeaning(a: uint64, b: uint64)
    ensures RegValue(ADD, a, b) == (a + b) % 0x1_0000_0000_0000_0000
    ensures (RegValue(SUB, a, b) + b) % 0x1_0000_0000_0000_0000 == a
    ensures RegValue(SLTU, a, b) == if a < b then 1 else 0
    ensures var x, y := (a + 0x8000_0000_0000_0000) % 0x1_0000_0000_0000_0000,
                        (b + 0x8000_0000_0000_0000) % 0x1_0000_0000_0000_0000;
      && RegValue(SLT, a, b) == (if x < y then 1 else 0)
      && (Taken(BLT, a, b) <==> x < y) && (Taken(BGE, a, b) <==> x >= y)
    ensures Taken(BLTU, a, b) <==> a < b
    ensures Taken(BGEU, a, b) <==> a >= b
    ensures Taken(BEQ, a, b) <==> a == b
    ensures Taken(BNE, a, b) <==> a != b
  {}

  /** The W results as 32-bit words with their top bit repeated 32 times. */
  lemma WordMeaning(a: uint64, b: uint64)
    ensures IsSext(RegValue(ADDW, a, b), (a + b) % 0x1_0000_0000)
    ensures IsSext(RegValue(SUBW, a, b), (a - b) % 0x1_0000_0000)
  {}

  predicate IsSext(r: uint64, w: int) {
    r % 0x1_0000_0000 == w && r / 0x1_0000_0000 == if w / 0x8000_0000 % 2 == 1 then 0xffff_ffff else 0
  }

  // ---------- the W instructions ----------

  predicate IsWordHandler(h: AluReg) { h in {EAddw, ESubw, ESllw, ESrlaw} }

  /**
   Every W handler depends only on the operands' low 32 bits, and its result is the sign
   extension of a 32-bit value.
   */
  lemma WordHandlersUseLow32(h: AluReg, a: uint64, b: uint64, a': uint64, b': uint64, func7: uint64)
    requires IsWordHandler(h) && Low32(a) == Low32(a') && Low32(b) == Low32(b')
    ensures AluRegValue(h, a, b, func7) == AluRegValue(h, a', b', func7)
    ensures AluRegValue(h, a, b, func7) == Sext32(AluRegValue(h, a, b, func7))
  {
    hide And64, SignExtendU32, Sra32, Shl32, Shr32, Sext32, Low32;
    Shamt(b);
    Shamt(b');
    assert b % 32 == b' % 32 by { LowFive(b); LowFive(b'); }
    var k := b % 32;
    SextTwice((Low32(a) + Low32(b)) % TWO32);
    SextTwice((Low32(a) - Low32(b)) % TWO32);
    SextTwice(Shl32(Low32(a), k));
    SextTwice(Sra32(Low32(a), k));
    SextTwice(Shr32(Low32(a), k));
  }

  /** The same for the immediate W handlers. */
  lemma WordImmediatesUseLow32(h: AluImm, a: uint64, a': uint64, imm: uint64)
    requires h in {EAddiw, ESlliw, ESrlaiw} && Low32(a) == Low32(a')
    ensures AluImmValue(h, a, imm) == AluImmValue(h, a', imm) == Sext32(AluImmValue(h, a, imm))
  {
    hide And64, SignExtendU32, Sra32, Shl32, Shr32, Sext32, Low32;
    Shamt(imm);
    var k := imm % 32;
    SextTwice((Low32(a) + Low32(imm)) % TWO32);
    SextTwice(Shl32(Low32(a), k));
    SextTwice(Sra32(Low32(a), k));
    SextTwice(Shr32(Low32(a), k));
  }

  lemma LowFive(b: uint64)
    ensures b % 32 == Low32(b) % 32
  {}

  lemma SextTwice(v: uint32)
    ensures Sext32(SignExtendU32(v)) == SignExtendU32(v)
  {
    hide SignExtendU32;
    SextIs(v);
  }
}
