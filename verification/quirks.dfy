/**
 Where the emulator differs from the standard, exactly.

 Three quirks: LB and LH zero-extend; a load whose `rd` is its `rs1` recomputes its base from
 partial results; JALR writes the link before it reads the base. `CodeMatchesReferenceIff` gives
 the states in which an instruction is nevertheless right, and `RunMatchesReferenceIff` says the same
 of the cycles of the main loop. `Faithfulness.FaithfulIff` gives the instructions that are always right.
 */
module Quirks {
  import opened Words
  import opened Helper
  import opened Isa
  import opened Decoder
  import opened Encoding
  import opened Machine
  import opened Access
  import opened Cycles
  import opened Refinement
  import opened MainLoop

  /**
   Whether the emulator's result for `i` in `s` is the standard's. A load into x0 always is.
   Otherwise LB and LH need the sign bit of the loaded value clear; a load over its own base needs
   the bytes at the shifted base to equal the ones it should have read; and JALR over its own base
   needs link and base to give the same target.
   */
  ghost predicate Agrees(i: Instr, s: State)
    requires Valid(i) && Accessible(i, s)
  {
    match i
    case Load(op, rd, _, imm) =>
      rd == 0 ||
      (&& (op in {LB, LH} ==> LoadLE(s.mem, Address(i, s), LoadBytes(op)) < Pow2(8 * LoadBytes(op) - 1))
       && (Aliased(i) ==> forall j :: 0 < j < LoadBytes(op) ==> SameByte(i, s, j)))
    case Jalr(_, rs1, imm) =>
      Aliased(i) ==> ToU64(Add64(s.pc, 4) + imm) / 2 == ToU64(X(s, rs1) + imm) / 2
    case _ => true
  }

  /**
   The byte that the base given by the first j - 1 bytes leads to is the true byte `j`. An unmapped
   address repeats the byte before.
   */
  ghost predicate SameByte(i: Instr, s: State, j: nat)
    requires Valid(i) && i.Load? && 0 < j < LoadBytes(i.lop) && Mapped(s.mem, Address(i, s), LoadBytes(i.lop))
  {
    var a := Address(i, s);
    var x := Add64(Add64(LoadExtension(i.lop, ToU64(LoadLE(s.mem, a, j - 1))), ToU64(i.imm)), j);
    (if x in s.mem then s.mem[x] else s.mem[Add64(a, j - 1)]) == s.mem[Add64(a, j)]
  }

  // ---------- the bytes of a load ----------

  /** Two little-endian values agree exactly if their prefixes and their last bytes do. */
  lemma TopByte(v: nat, u: nat, b: uint8, c: uint8, p: nat)
    requires v < p && u < p
    ensures v + b * p == u + c * p <==> v == u && b == c
  {
    if v + b * p == u + c * p {
      DivModUnique(v + b * p, p, b, v);
      DivModUnique(v + b * p, p, c, u);
    }
  }

  lemma MappedPrefix(mem: Memory, a: uint64, n: nat, k: nat)
    requires k <= n && Mapped(mem, a, n)
    ensures Mapped(mem, a, k)
  {}

  /** One byte more: the loaded value stays right exactly if it was and the byte is right. */
  lemma OneMoreByte(op: LoadOp, d: Decoded, mem: Memory, a: uint64, k: nat)
    requires k < 8 && a in mem && Mapped(mem, a, k + 1)
    ensures LoadedBytes(op, d, mem, a, k + 1) == LoadLE(mem, a, k + 1) <==>
      && LoadedBytes(op, d, mem, a, k) == LoadLE(mem, a, k)
      && ByteRead(op, d, mem, a, k) == mem[Add64(a, k)]
  {
    hide LoadedBytes, ByteRead, LoadLE, Pow2;
    LoadedBytesFit(op, d, mem, a, k);
    LoadedBytesFit(op, d, mem, a, k + 1);
    LoadLEStep(mem, a, k);
    TopByte(LoadedBytes(op, d, mem, a, k), LoadLE(mem, a, k), ByteRead(op, d, mem, a, k), mem[Add64(a, k)],
      Pow2(8 * k));
  }

  lemma BaseMapped(mem: Memory, a: uint64, n: nat)
    requires n > 0 && Mapped(mem, a, n)
    ensures a in mem
  {
    assert Add64(a, 0) == a;
  }

  /** `SameByte` is the byte condition of `OneMoreByte`, once the bytes before are right. */
  lemma SameByteIs(i: Instr, s: State, j: nat)
    requires Valid(i) && i.Load? && 0 < j < LoadBytes(i.lop) && Mapped(s.mem, Address(i, s), LoadBytes(i.lop))
    requires Address(i, s) in s.mem && Aliased(i)
    requires LoadedBytes(i.lop, DecodedOf(i), s.mem, Address(i, s), j - 1) == LoadLE(s.mem, Address(i, s), j - 1)
    requires ByteRead(i.lop, DecodedOf(i), s.mem, Address(i, s), j - 1) == s.mem[Add64(Address(i, s), j - 1)]
    ensures SameByte(i, s, j) <==>
      ByteRead(i.lop, DecodedOf(i), s.mem, Address(i, s), j) == s.mem[Add64(Address(i, s), j)]
  {
    hide LoadedBytes, LoadLE, LoadExtension, Address, Pow2, Add64;
    var d, a := DecodedOf(i), Address(i, s);
    MappedPrefix(s.mem, a, LoadBytes(i.lop), j);
    LoadLEBound(s.mem, a, j - 1);
    assert ByteAddress(i.lop, d, s.mem, a, j) ==
      Add64(Add64(LoadExtension(i.lop, ToU64(LoadLE(s.mem, a, j - 1))), ToU64(i.imm)), j);
  }

  lemma LoadLEBound(mem: Memory, a: uint64, k: nat)
    requires k <= 8 && Mapped(mem, a, k)
    ensures ToU64(LoadLE(mem, a, k)) == LoadLE(mem, a, k)
  {
    hide LoadLE;
    ByteFits(k, 8);
    Pow2Constants();
    assert LoadLE(mem, a, k) < Pow2(8 * k);
  }

  /** One more byte of a load: right so far, and `SameByte` if the base has moved. */
  lemma RightStep(i: Instr, s: State, k: nat)
    requires Valid(i) && i.Load? && 0 < k <= LoadBytes(i.lop) && Mapped(s.mem, Address(i, s), LoadBytes(i.lop))
    requires Mapped(s.mem, Address(i, s), k) && Mapped(s.mem, Address(i, s), k - 1)
    ensures var op, d, a := i.lop, DecodedOf(i), Address(i, s);
      LoadedBytes(op, d, s.mem, a, k) == LoadLE(s.mem, a, k) <==>
      && LoadedBytes(op, d, s.mem, a, k - 1) == LoadLE(s.mem, a, k - 1)
      && (k > 1 && Aliased(i) ==> SameByte(i, s, k - 1))
  {
    hide SameByte, LoadedBytes, LoadLE, LoadExtension, ByteRead;
    var op, d, a := i.lop, DecodedOf(i), Address(i, s);
    BaseMapped(s.mem, a, k);
    OneMoreByte(op, d, s.mem, a, k - 1);
    if k > 1 && Aliased(i) {
      if LoadedBytes(op, d, s.mem, a, k - 1) == LoadLE(s.mem, a, k - 1) {
        MappedPrefix(s.mem, a, k, k - 2);
        OneMoreByte(op, d, s.mem, a, k - 2);
        SameByteIs(i, s, k - 1);
      }
    } else {
      TrueByte(op, d, s.mem, a, k - 1);
    }
  }

  lemma TrueByte(op: LoadOp, d: Decoded, mem: Memory, a: uint64, j: nat)
    requires a in mem && Mapped(mem, a, j + 1) && (j == 0 || d.rd != d.rs1 || d.rd == 0)
    ensures ByteRead(op, d, mem, a, j) == mem[Add64(a, j)]
  {
    assert Add64(a, j) in mem;
  }

  /** The loaded value is right exactly if the load is not aliased or all later bytes agree. */
  lemma {:induction false} LoadedRightIff(i: Instr, s: State, k: nat)
    requires Valid(i) && i.Load? && k <= LoadBytes(i.lop) && Mapped(s.mem, Address(i, s), LoadBytes(i.lop))
    requires Mapped(s.mem, Address(i, s), k)
    ensures LoadedBytes(i.lop, DecodedOf(i), s.mem, Address(i, s), k) == LoadLE(s.mem, Address(i, s), k) <==>
      (Aliased(i) ==> forall j :: 0 < j < k ==> SameByte(i, s, j))
    decreases k
  {
    if k == 0 {
      LoadLEZero(s.mem, Address(i, s));
    } else {
      hide SameByte, LoadedBytes, LoadLE;
      MappedPrefix(s.mem, Address(i, s), k, k - 1);
      LoadedRightIff(i, s, k - 1);
      RightStep(i, s, k);
    }
  }

  /** The handler's extension is the reference's exactly if the value is right and LB or LH has no sign to extend. */
  lemma ExtensionRightIff(op: LoadOp, v: uint64, u: nat)
    requires v < Pow2(8 * LoadBytes(op)) && u < Pow2(8 * LoadBytes(op))
    ensures LoadExtension(op, v) == Extension(op, u) <==>
      v == u && (op in {LB, LH} ==> u < Pow2(8 * LoadBytes(op) - 1))
  {
    hide SignExtendU32, SignExtend, ToU64, Pow2;
    WidthConstants();
    match op
    case LB => SmallValue(v); Narrow(u, 8, 0x80); ZeroIsNotSign(v, u, 0x80);
    case LH => SmallValue(v); Narrow(u, 16, 0x8000); ZeroIsNotSign(v, u, 0x8000);
    case LW =>
      SignExtendU32IsSigned(Low32(v));
      Narrow(u, 32, TWO31);
      SignIsInjective(v, u);
    case _ => Fits(u);
  }

  lemma WidthConstants()
    ensures Pow2(7) == 0x80 && Pow2(8) == TWO8 && Pow2(15) == 0x8000 && Pow2(16) == TWO16
    ensures Pow2(31) == TWO31 && Pow2(32) == TWO32 && Pow2(64) == TWO64
  {
    Pow2Constants();
  }

  lemma Narrow(u: nat, n: nat, h: int)
    requires n > 0 && h == Pow2(n - 1) && u < 2 * h
    ensures SignExtend(u, n) == ToU64(if u < h then u else u - 2 * h)
  {
    DivModUnique(u, Pow2(n), 0, u);
  }

  lemma SmallValue(v: uint64)
    requires v < TWO16
    ensures SignExtendU32(Low32(v)) == v
  {
    hide SignExtendU32;
    SignExtendU32IsSigned(v);
  }

  lemma ZeroIsNotSign(v: nat, u: nat, h: int)
    requires h in {0x80, 0x8000} && v < 2 * h && u < 2 * h
    ensures v == ToU64(if u < h then u else u - 2 * h) <==> v == u && u < h
  {}

  lemma SignIsInjective(v: uint64, u: nat)
    requires v < TWO32 && u < TWO32
    ensures ToU64(Signed32(Low32(v))) == ToU64(if u < TWO31 then u else u - 2 * TWO31) <==> v == u
  {}

  lemma Fits(u: nat)
    ensures u < TWO64 ==> ToU64(u) == u
  {}

  // ---------- agreement in a state ----------

  /** The emulator's step is the reference step exactly if `Agrees` holds. */
  lemma CodeMatchesReferenceIff(i: Instr, s: State)
    requires Valid(i) && Accessible(i, s)
    ensures CodeExecute(i, s) == Execute(i, s) <==> Agrees(i, s)
  {
    hide LoadedBytes, LoadExtension, LoadLE, SignExtend, ToU64, SameByte, Pow2;
    match i
    case Load(op, rd, rs1, imm) => LoadMatchesIff(i, s);
    case Jalr(rd, rs1, imm) =>
      var c, e := CodeExecute(i, s), Execute(i, s);
      assert c == e.(pc := c.pc);
      var base := if Aliased(i) then Add64(s.pc, 4) else X(s, rs1);
      HalvesEqual(ToU64(base + imm), ToU64(X(s, rs1) + imm));
    case _ =>
  }

  lemma HalvesEqual(a: nat, b: nat)
    ensures a / 2 * 2 == b / 2 * 2 <==> a / 2 == b / 2
  {}

  lemma LoadMatchesIff(i: Instr, s: State)
    requires Valid(i) && i.Load? && Accessible(i, s)
    ensures CodeExecute(i, s) == Execute(i, s) <==> Agrees(i, s)
  {
    hide LoadedBytes, LoadExtension, LoadLE, SignExtend, ToU64, SameByte, Pow2, SetX;
    var op, n, a := i.lop, LoadBytes(i.lop), Address(i, s);
    var v, u := LoadedBytes(op, DecodedOf(i), s.mem, a, n), LoadLE(s.mem, a, n);
    BaseMapped(s.mem, a, n);
    LoadedBytesFit(op, DecodedOf(i), s.mem, a, n);
    LoadedRightIff(i, s, n);
    ExtensionRightIff(op, v, u);
    assert Execute(i, s) == Next(SetX(s, i.rd, Extension(op, u)));
    SetXInjective(s, i.rd, LoadExtension(op, v), Extension(op, u));
  }

  lemma SetXInjective(s: State, rd: int, v: uint64, u: uint64)
    requires IsReg(rd)
    ensures Next(SetX(s, rd, v)) == Next(SetX(s, rd, u)) <==> rd == 0 || v == u
  {
    var x, y := Next(SetX(s, rd, v)), Next(SetX(s, rd, u));
    if rd != 0 {
      assert x.x[rd] == v && y.x[rd] == u;
    }
  }

  /**
   The many cycles of an instruction have the effect of the reference step exactly if `Agrees`
   holds at the boundary before it; either way they end at the next boundary.
   */
  lemma RunMatchesReferenceIff(m: Machine, i: Instr)
    requires Boundary(m) && Holds(i, Abs(m.core)) && Accessible(i, Abs(m.core))
    ensures Boundary(Run(m, CyclesOf(i)))
    ensures Abs(Run(m, CyclesOf(i)).core) == Execute(i, Abs(m.core)) <==> Agrees(i, Abs(m.core))
  {
    hide CodeExecute, Execute, Agrees, Run, Encode;
    RunIsCodeExecute(m, i, 0);
    CodeMatchesReferenceIff(i, Abs(m.core));
  }
}
