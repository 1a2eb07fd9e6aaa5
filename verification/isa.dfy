/**
 The reference: RV64I instructions, their encoding and their effect in one step.

 Written from the RISC-V Unprivileged ISA (section 2.3 for the formats, 2.4 to 2.6
 for RV32I, 4.2 and 4.3 for RV64I), not from the emulator, with three exceptions.
 FENCE, ECALL and EBREAK are absent: the emulator has no handler for them. A jump or
 taken branch to an address that is not a multiple of four goes there; the standard
 (section 2.5) raises an exception, which the emulator leaves as a TODO. A store to an
 unmapped address vanishes, as it does on the emulator's bus; the standard leaves that
 to the execution environment.
 */
module Isa {
  import opened Words

  // ---------- instructions ----------

  datatype BranchOp = BEQ | BNE | BLT | BGE | BLTU | BGEU
  datatype LoadOp = LB | LH | LW | LD | LBU | LHU | LWU
  datatype StoreOp = SB | SH | SW | SD
  datatype ImmOp = ADDI | SLTI | SLTIU | XORI | ORI | ANDI | ADDIW
  datatype ShiftOp = SLLI | SRLI | SRAI | SLLIW | SRLIW | SRAIW
  datatype RegOp =
    | ADD | SUB | SLL | SLT | SLTU | XOR | SRL | SRA | OR | AND
    | ADDW | SUBW | SLLW | SRLW | SRAW

  /** Immediates are the signed values an assembler programmer writes. */
  datatype Instr =
    | Lui(rd: int, imm: int)
    | Auipc(rd: int, imm: int)
    | Jal(rd: int, imm: int)
    | Jalr(rd: int, rs1: int, imm: int)
    | Branch(bop: BranchOp, rs1: int, rs2: int, imm: int)
    | Load(lop: LoadOp, rd: int, rs1: int, imm: int)
    | Store(sop: StoreOp, rs1: int, rs2: int, imm: int)
    | Imm(iop: ImmOp, rd: int, rs1: int, imm: int)
    | Shift(hop: ShiftOp, rd: int, rs1: int, shamt: int)
    | Reg(rop: RegOp, rd: int, rs1: int, rs2: int)

  predicate IsReg(r: int) { 0 <= r < 32 }

  predicate Imm12(imm: int) { -2048 <= imm < 2048 }

  predicate Valid(i: Instr) {
    match i
    case Lui(rd, imm) => IsReg(rd) && -TWO31 <= imm < TWO31 && imm % 4096 == 0
    case Auipc(rd, imm) => IsReg(rd) && -TWO31 <= imm < TWO31 && imm % 4096 == 0
    case Jal(rd, imm) => IsReg(rd) && -0x10_0000 <= imm < 0x10_0000 && imm % 2 == 0
    case Jalr(rd, rs1, imm) => IsReg(rd) && IsReg(rs1) && Imm12(imm)
    case Branch(_, rs1, rs2, imm) => IsReg(rs1) && IsReg(rs2) && -4096 <= imm < 4096 && imm % 2 == 0
    case Load(_, rd, rs1, imm) => IsReg(rd) && IsReg(rs1) && Imm12(imm)
    case Store(_, rs1, rs2, imm) => IsReg(rs1) && IsReg(rs2) && Imm12(imm)
    case Imm(_, rd, rs1, imm) => IsReg(rd) && IsReg(rs1) && Imm12(imm)
    case Shift(op, rd, rs1, shamt) => IsReg(rd) && IsReg(rs1) && 0 <= shamt < ShamtLimit(op)
    case Reg(_, rd, rs1, rs2) => IsReg(rd) && IsReg(rs1) && IsReg(rs2)
  }

  function ShamtLimit(op: ShiftOp): int {
    if op in {SLLI, SRLI, SRAI} then 64 else 32
  }

  // ---------- encoding ----------

  /** The fields of a word from the low end: 7, 5, 3, 5, 5 and 7 bits. */
  function Word(opcode: int, rd: int, func3: int, rs1: int, rs2: int, func7: int): int {
    opcode + 128 * (rd + 32 * (func3 + 8 * (rs1 + 32 * (rs2 + 32 * func7))))
  }

  function WordI(opcode: int, rd: int, func3: int, rs1: int, imm: int): int {
    var u := imm % 4096;
    Word(opcode, rd, func3, rs1, u % 32, u / 32)
  }

  function WordS(opcode: int, func3: int, rs1: int, rs2: int, imm: int): int {
    var u := imm % 4096;
    Word(opcode, u % 32, func3, rs1, rs2, u / 32)
  }

  /** imm[12|10:5] in the high field, imm[4:1|11] in the low one. */
  function WordB(opcode: int, func3: int, rs1: int, rs2: int, imm: int): int {
    var u := imm % 8192;
    Word(opcode, u / 2 % 16 * 2 + u / 2048 % 2, func3, rs1, rs2, u / 4096 * 64 + u / 32 % 64)
  }

  /** imm[31:12] in bits 31 to 12. */
  function WordU(opcode: int, rd: int, imm: int): int {
    opcode + 128 * (rd + 32 * (imm % TWO32 / 4096))
  }

  /** imm[20|10:1|11|19:12] in bits 31 to 12. */
  function WordJ(opcode: int, rd: int, imm: int): int {
    var u := imm % 0x20_0000;
    opcode + 128 * (rd + 32 *
      (u / 4096 % 256 + u / 2048 % 2 * 256 + u / 2 % 1024 * 512 + u / 0x10_0000 * 0x8_0000))
  }

  function BranchFunc3(op: BranchOp): int {
    match op
    case BEQ => 0
    case BNE => 1
    case BLT => 4
    case BGE => 5
    case BLTU => 6
    case BGEU => 7
  }

  function LoadFunc3(op: LoadOp): int {
    match op
    case LB => 0
    case LH => 1
    case LW => 2
    case LD => 3
    case LBU => 4
    case LHU => 5
    case LWU => 6
  }

  function StoreFunc3(op: StoreOp): int {
    match op
    case SB => 0
    case SH => 1
    case SW => 2
    case SD => 3
  }

  function ImmFunc3(op: ImmOp): int {
    match op
    case ADDI => 0
    case SLTI => 2
    case SLTIU => 3
    case XORI => 4
    case ORI => 6
    case ANDI => 7
    case ADDIW => 0
  }

  function ShiftFunc3(op: ShiftOp): int { if op in {SLLI, SLLIW} then 1 else 5 }

  /** The bits above the shift amount: 32 marks the arithmetic right shifts. */
  function ShiftFunc7(op: ShiftOp): int { if op in {SRAI, SRAIW} then 32 else 0 }

  function RegFunc3(op: RegOp): int {
    match op
    case ADD => 0
    case SUB => 0
    case SLL => 1
    case SLT => 2
    case SLTU => 3
    case XOR => 4
    case SRL => 5
    case SRA => 5
    case OR => 6
    case AND => 7
    case ADDW => 0
    case SUBW => 0
    case SLLW => 1
    case SRLW => 5
    case SRAW => 5
  }

  function RegFunc7(op: RegOp): int { if op in {SUB, SRA, SUBW, SRAW} then 32 else 0 }

  predicate IsWordOp(op: RegOp) { op in {ADDW, SUBW, SLLW, SRLW, SRAW} }

  /** The 32-bit word of an instruction. */
  function Encode(i: Instr): int {
    match i
    case Lui(rd, imm) => WordU(0x37, rd, imm)
    case Auipc(rd, imm) => WordU(0x17, rd, imm)
    case Jal(rd, imm) => WordJ(0x6f, rd, imm)
    case Jalr(rd, rs1, imm) => WordI(0x67, rd, 0, rs1, imm)
    case Branch(op, rs1, rs2, imm) => WordB(0x63, BranchFunc3(op), rs1, rs2, imm)
    case Load(op, rd, rs1, imm) => WordI(0x03, rd, LoadFunc3(op), rs1, imm)
    case Store(op, rs1, rs2, imm) => WordS(0x23, StoreFunc3(op), rs1, rs2, imm)
    case Imm(op, rd, rs1, imm) =>
      WordI(if op == ADDIW then 0x1b else 0x13, rd, ImmFunc3(op), rs1, imm)
    case Shift(op, rd, rs1, shamt) =>
      WordI(if ShamtLimit(op) == 64 then 0x13 else 0x1b, rd, ShiftFunc3(op), rs1, shamt + 32 * ShiftFunc7(op))
    case Reg(op, rd, rs1, rs2) =>
      Word(if IsWordOp(op) then 0x3b else 0x33, rd, RegFunc3(op), rs1, rs2, RegFunc7(op))
  }

  // ---------- state and step ----------

  type Memory = map<uint64, uint8>

  type XRegs = s: seq<uint64> | |s| == 32 witness seq(32, _ => 0)

  datatype State = State(x: XRegs, pc: uint64, mem: Memory)

  /** Register read: x0 is zero. */
  function X(s: State, r: int): uint64 {
    if 0 < r < 32 then s.x[r] else 0
  }

  /** Register write: writes to x0 are discarded. */
  function SetX(s: State, r: int, v: uint64): State {
    if 0 < r < 32 then s.(x := s.x[r := v]) else s
  }

  function LoadBytes(op: LoadOp): nat {
    match op
    case LB => 1
    case LBU => 1
    case LH => 2
    case LHU => 2
    case LW => 4
    case LWU => 4
    case LD => 8
  }

  function StoreBytes(op: StoreOp): nat {
    match op
    case SB => 1
    case SH => 2
    case SW => 4
    case SD => 8
  }

  /** Every byte of [a, a + n), wrapping at 2^64, is mapped. */
  ghost predicate Mapped(mem: Memory, a: uint64, n: nat) {
    forall j :: 0 <= j < n ==> Add64(a, j) in mem
  }

  /** The little-endian value of `n` bytes at `a`: the sum of mem[a + j] * 256^j. */
  function LoadLE(mem: Memory, a: uint64, n: nat): (v: nat)
    requires Mapped(mem, a, n)
    ensures v < Pow2(8 * n)
  {
    if n == 0 then 0
    else
      OneByteMore(LoadLE(mem, a, n - 1), mem[Add64(a, n - 1)], n - 1);
      LoadLE(mem, a, n - 1) + mem[Add64(a, n - 1)] * Pow2(8 * (n - 1))
  }

  lemma OneByteMore(v: nat, b: uint8, k: nat)
    requires v < Pow2(8 * k)
    ensures 0 <= v + b * Pow2(8 * k) < Pow2(8 * (k + 1))
  {
    hide Pow2;
    ByteStep(k);
    MulMonotonic(0, b, Pow2(8 * k));
    MulMonotonic(b, 255, Pow2(8 * k));
  }

  lemma ByteStep(k: nat)
    ensures Pow2(8 * (k + 1)) == TWO8 * Pow2(8 * k)
  {
    Pow2Constants();
    Pow2Add(8 * k, 8);
  }

  /** Byte `j` of a value. */
  function ByteOf(v: nat, j: nat): uint8 { v / Pow2(8 * j) % TWO8 }

  /** Memory after an `n`-byte little-endian store at `a`; unmapped bytes stay unmapped. */
  ghost function StoreLE(mem: Memory, a: uint64, v: uint64, n: nat): Memory {
    map x: uint64 | x in mem :: if (x - a) % TWO64 < n then ByteOf(v, (x - a) % TWO64) else mem[x]
  }

  /** The two's-complement reading of the low `n` bits, as a 64-bit register value. */
  function SignExtend(v: nat, n: nat): uint64
    requires n > 0
  {
    ToU64(if v % Pow2(n) < Pow2(n - 1) then v % Pow2(n) else v % Pow2(n) - Pow2(n))
  }

  function Sext32(v: int): uint64 { ToU64(Signed32(v % TWO32)) }

  predicate Taken(op: BranchOp, a: uint64, b: uint64) {
    match op
    case BEQ => a == b
    case BNE => a != b
    case BLT => Signed(a) < Signed(b)
    case BGE => Signed(a) >= Signed(b)
    case BLTU => a < b
    case BGEU => a >= b
  }

  function ImmValue(op: ImmOp, a: uint64, imm: int): uint64 {
    match op
    case ADDI => ToU64(a + imm)
    case SLTI => if Signed(a) < imm then 1 else 0
    case SLTIU => if a < ToU64(imm) then 1 else 0
    case XORI => Xor64(a, ToU64(imm))
    case ORI => Or64(a, ToU64(imm))
    case ANDI => And64(a, ToU64(imm))
    case ADDIW => Sext32(a + imm)
  }

  /** Right shifts of signed values are floor divisions. */
  function ShiftValue(op: ShiftOp, a: uint64, shamt: nat): uint64 {
    match op
    case SLLI => ToU64(a * Pow2(shamt))
    case SRLI => ToU64(a / Pow2(shamt))
    case SRAI => ToU64(Signed(a) / Pow2(shamt))
    case SLLIW => Sext32(Low32(a) * Pow2(shamt))
    case SRLIW => Sext32(Low32(a) / Pow2(shamt))
    case SRAIW => ToU64(Signed32(Low32(a)) / Pow2(shamt))
  }

  function RegValue(op: RegOp, a: uint64, b: uint64): uint64 {
    match op
    case ADD => ToU64(a + b)
    case SUB => ToU64(a - b)
    case SLL => ShiftValue(SLLI, a, b % 64)
    case SLT => if Signed(a) < Signed(b) then 1 else 0
    case SLTU => if a < b then 1 else 0
    case XOR => Xor64(a, b)
    case SRL => ShiftValue(SRLI, a, b % 64)
    case SRA => ShiftValue(SRAI, a, b % 64)
    case OR => Or64(a, b)
    case AND => And64(a, b)
    case ADDW => Sext32(a + b)
    case SUBW => Sext32(a - b)
    case SLLW => ShiftValue(SLLIW, a, b % 32)
    case SRLW => ShiftValue(SRLIW, a, b % 32)
    case SRAW => ShiftValue(SRAIW, a, b % 32)
  }

  /** What a load makes of the value in memory. */
  function Extension(op: LoadOp, v: nat): uint64 {
    match op
    case LB => SignExtend(v, 8)
    case LH => SignExtend(v, 16)
    case LW => SignExtend(v, 32)
    case _ => ToU64(v)
  }

  function LoadValue(op: LoadOp, mem: Memory, a: uint64): uint64
    requires Mapped(mem, a, LoadBytes(op))
  {
    Extension(op, LoadLE(mem, a, LoadBytes(op)))
  }

  /** The address a load or store uses. */
  function Address(i: Instr, s: State): uint64
    requires i.Load? || i.Store?
  {
    ToU64(X(s, i.rs1) + i.imm)
  }

  /** A load needs its bytes mapped: what an unmapped load returns is not defined here. */
  ghost predicate Accessible(i: Instr, s: State) {
    i.Load? ==> Mapped(s.mem, Address(i, s), LoadBytes(i.lop))
  }

  function Next(s: State): State { s.(pc := Add64(s.pc, 4)) }

  /** One instruction, all at once. */
  ghost function Execute(i: Instr, s: State): State
    requires Valid(i) && Accessible(i, s)
  {
    match i
    case Lui(rd, imm) => Next(SetX(s, rd, ToU64(imm)))
    case Auipc(rd, imm) => Next(SetX(s, rd, ToU64(s.pc + imm)))
    case Jal(rd, imm) => SetX(s, rd, Add64(s.pc, 4)).(pc := ToU64(s.pc + imm))
    case Jalr(rd, rs1, imm) => SetX(s, rd, Add64(s.pc, 4)).(pc := ToU64(X(s, rs1) + imm) / 2 * 2)
    case Branch(op, rs1, rs2, imm) =>
      if Taken(op, X(s, rs1), X(s, rs2)) then s.(pc := ToU64(s.pc + imm)) else Next(s)
    case Load(op, rd, rs1, imm) => Next(SetX(s, rd, LoadValue(op, s.mem, Address(i, s))))
    case Store(op, rs1, rs2, imm) =>
      Next(s.(mem := StoreLE(s.mem, Address(i, s), X(s, rs2), StoreBytes(op))))
    case Imm(op, rd, rs1, imm) => Next(SetX(s, rd, ImmValue(op, X(s, rs1), imm)))
    case Shift(op, rd, rs1, shamt) => Next(SetX(s, rd, ShiftValue(op, X(s, rs1), shamt)))
    case Reg(op, rd, rs1, rs2) => Next(SetX(s, rd, RegValue(op, X(s, rs1), X(s, rs2))))
  }
}
