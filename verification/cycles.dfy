/**
 What a handler does when the main loop repeats it until `stall` drops.

 `Cost` is the number of repetitions. `LoadCourse` and `StoreCourse` follow the control of a load and
 a store through them, `LoadData` the bytes of a load; `MainLoop.HandlerTiming` says that `Cost` is exact.
 */
module Cycles {
  import opened Words
  import opened Isa
  import opened Decoder
  import opened Machine
  import opened Access

  /** One repetition: the handler, the end of `step_rv64_cpu`, a bus cycle. */
  function Step(c: Core, h: Handler, d: Decoded): Core
    requires h != EIllegal
  {
    Tick(AdvancePc(ExecHandler(c, h, d)))
  }

  function Steps(c: Core, h: Handler, d: Decoded, k: nat): Core
    requires h != EIllegal
  {
    if k == 0 then c else Step(Steps(c, h, d, k - 1), h, d)
  }

  /** Bus cycles a handler takes: n + 1 for an n-byte load, n for an n-byte store, else 1. */
  function Cost(h: Handler): nat {
    match h
    case ELoad(op) => LoadBytes(op) + 1
    case EStore(op) => StoreBytes(op)
    case _ => 1
  }

  /** `regs` with `rd` written, x0 excepted. */
  function WithRd(regs: Regs, rd: uint5, v: uint64): Regs {
    if rd == 0 then regs else regs[rd := v]
  }

  function WithPc(regs: Regs, pc: uint64): Regs { regs[PC := pc] }

  // ---------- loads ----------

  /** One repetition of a load handler, in terms of the read it makes. */
  lemma LoadStep(c: Core, op: LoadOp, d: Decoded)
    requires !c.pcUpdated
    ensures var (r, v) := ReadTyped(c, Add64(c.regs[d.rs1], d.imm), Loaded(c, op), LoadBytes(op));
      var c' := Step(c, ELoad(op), d);
      var regs := WithRd(c.regs, d.rd, LoadExtension(op, v));
      && c'.regs == (if r.stall then regs else WithPc(regs, Add64(c.regs[PC], 4)))
      && Loaded(c', op) == v && c'.bus == Tick(r).bus && c'.stall == r.stall && c'.readOffset == r.readOffset
      && !c'.pcUpdated && c'.writeOffset == r.writeOffset
  {
    hide BusStep, LoadExtension, Or64, Shl64, Pow2;
  }

  /**
   The state of a load after `k` cycles: `a` is the address it now computes, everything but `rd`
   is as in `c0`.
   */
  ghost predicate InLoad(c0: Core, c: Core, d: Decoded, k: nat) {
    && 0 < k && c.stall && c.readOffset == k && !c.pcUpdated && !c.bus.memwrite
    && c.bus.mem == c0.bus.mem && c.writeOffset == c0.writeOffset
    && (exists v: uint64 :: c.regs == WithRd(c0.regs, d.rd, v))
  }

  lemma {:induction false} LoadCourse(c0: Core, op: LoadOp, d: Decoded, k: nat)
    requires !c0.stall && !c0.pcUpdated && 0 < k <= LoadBytes(op)
    ensures InLoad(c0, Steps(c0, ELoad(op), d, k), d, k)
    decreases k
  {
    hide Step, WithRd, LoadExtension, ReadTyped, Tick;
    var n := LoadBytes(op);
    if k == 1 {
      assert Steps(c0, ELoad(op), d, 0) == c0;
      LoadStep(c0, op, d);
      ReadFirst(c0, Add64(c0.regs[d.rs1], d.imm), Loaded(c0, op), n);
      var v := ReadTyped(c0, Add64(c0.regs[d.rs1], d.imm), Loaded(c0, op), n).1;
      assert Steps(c0, ELoad(op), d, 1).regs == WithRd(c0.regs, d.rd, LoadExtension(op, v));
    } else {
      LoadCourse(c0, op, d, k - 1);
      var c := Steps(c0, ELoad(op), d, k - 1);
      LoadStep(c, op, d);
      ReadNext(c, Add64(c.regs[d.rs1], d.imm), Loaded(c, op), n);
      var v := ReadTyped(c, Add64(c.regs[d.rs1], d.imm), Loaded(c, op), n).1;
      RewriteRd(c0.regs, c.regs, d.rd, LoadExtension(op, v));
    }
  }

  lemma RewriteRd(regs0: Regs, regs: Regs, rd: uint5, v: uint64)
    requires exists u: uint64 :: regs == WithRd(regs0, rd, u)
    ensures WithRd(regs, rd, v) == WithRd(regs0, rd, v)
    ensures regs[PC] == regs0[PC] && regs[0] == regs0[0]
    ensures forall r: uint5 :: r != rd || rd == 0 ==> regs[r] == regs0[r]
  {}

  /** The last cycle of a load. */
  lemma LoadEnd(c0: Core, op: LoadOp, d: Decoded)
    requires !c0.stall && !c0.pcUpdated
    ensures var c := Steps(c0, ELoad(op), d, LoadBytes(op) + 1);
      && !c.stall && !c.pcUpdated && !c.bus.memwrite && c.bus.mem == c0.bus.mem
      && c.regs == WithPc(WithRd(c0.regs, d.rd, LoadExtension(op, Loaded(c, op))), Add64(c0.regs[PC], 4))
  {
    hide Step, WithRd, LoadExtension, ReadTyped, Tick;
    var n := LoadBytes(op);
    LoadCourse(c0, op, d, n);
    var c := Steps(c0, ELoad(op), d, n);
    LoadStep(c, op, d);
    ReadNext(c, Add64(c.regs[d.rs1], d.imm), Loaded(c, op), n);
    RewriteRd(c0.regs, c.regs, d.rd, LoadExtension(op, Loaded(Step(c, ELoad(op), d), op)));
  }

  /**
   The address a load reads byte `j` from. When `rd` is `rs1` the handler recomputes the base
   from the partial value it wrote the cycle before.
   */
  function ByteAddress(op: LoadOp, d: Decoded, mem: Memory, a: uint64, j: nat): uint64
    decreases j, 0
  {
    if j == 0 || d.rd != d.rs1 || d.rd == 0 then Add64(a, j)
    else Add64(Add64(LoadExtension(op, LoadedBytes(op, d, mem, a, j - 1)), d.imm), j)
  }

  /** Byte `j` as the load sees it: an unmapped address leaves the byte before it on the bus. */
  function ByteRead(op: LoadOp, d: Decoded, mem: Memory, a: uint64, j: nat): uint8
    requires a in mem
    decreases j, 1
  {
    var x := ByteAddress(op, d, mem, a, j);
    if x in mem then mem[x] else if j == 0 then mem[a] else ByteRead(op, d, mem, a, j - 1)
  }

  /** The accumulator after `k` bytes; a load at an unmapped address is not described. */
  function LoadedBytes(op: LoadOp, d: Decoded, mem: Memory, a: uint64, k: nat): uint64
    decreases k, 0
  {
    if k == 0 || a !in mem then 0
    else ToU64(LoadedBytes(op, d, mem, a, k - 1) + ByteRead(op, d, mem, a, k - 1) * Pow2(8 * (k - 1)))
  }

  lemma {:induction false} LoadedBytesFit(op: LoadOp, d: Decoded, mem: Memory, a: uint64, k: nat)
    requires k <= 8 && a in mem
    ensures LoadedBytes(op, d, mem, a, k) < Pow2(8 * k)
    ensures k > 0 ==>
      (LoadedBytes(op, d, mem, a, k) ==
       LoadedBytes(op, d, mem, a, k - 1) + ByteRead(op, d, mem, a, k - 1) * Pow2(8 * (k - 1)))
    decreases k
  {
    hide ByteRead, Or64, Shl64;
    if k == 0 {
      assert Pow2(0) == 1;
    } else {
      hide Pow2;
      LoadedBytesFit(op, d, mem, a, k - 1);
      assert Pow2(8 * k) <= TWO64 by { ByteFits(k, 8); Pow2Constants(); }
      PlaceByte(LoadedBytes(op, d, mem, a, k - 1), ByteRead(op, d, mem, a, k - 1), k - 1);
    }
  }

  /** After `k` cycles the accumulator holds k - 1 bytes, `rd` their extension, and byte k - 1 is on the bus. */
  lemma {:induction false} LoadData(c0: Core, op: LoadOp, d: Decoded, k: nat)
    requires !c0.stall && !c0.pcUpdated && 0 < k <= LoadBytes(op)
    requires Add64(c0.regs[d.rs1], d.imm) in c0.bus.mem
    ensures HoldsBytes(c0, Steps(c0, ELoad(op), d, k), op, d, k)
    decreases k
  {
    hide Step, WithRd, LoadExtension, ReadTyped, Tick, Pow2;
    LoadCourse(c0, op, d, k);
    var n, a := LoadBytes(op), Add64(c0.regs[d.rs1], d.imm);
    if k == 1 {
      assert Steps(c0, ELoad(op), d, 0) == c0;
      LoadStep(c0, op, d);
      ReadFirst(c0, a, Loaded(c0, op), n);
      assert ByteAddress(op, d, c0.bus.mem, a, 0) == a;
    } else {
      LoadData(c0, op, d, k - 1);
      var c := Steps(c0, ELoad(op), d, k - 1);
      NextByte(c0, c, op, d, k - 1);
      LoadStep(c, op, d);
      RewriteRd(c0.regs, c.regs, d.rd, LoadExtension(op, LoadedBytes(op, d, c0.bus.mem, a, k - 1)));
    }
  }

  /** The data side of a load after `k` cycles. */
  ghost predicate HoldsBytes(c0: Core, c: Core, op: LoadOp, d: Decoded, k: nat) {
    var a := Add64(c0.regs[d.rs1], d.imm);
    && a in c0.bus.mem && InLoad(c0, c, d, k)
    && Loaded(c, op) == LoadedBytes(op, d, c0.bus.mem, a, k - 1)
    && c.regs == WithRd(c0.regs, d.rd, LoadExtension(op, LoadedBytes(op, d, c0.bus.mem, a, k - 1)))
    && c.bus.readdata == ByteRead(op, d, c0.bus.mem, a, k - 1)
  }

  /** Cycle k + 1 of a load: the byte on the bus joins the accumulator, the next one is requested. */
  lemma NextByte(c0: Core, c: Core, op: LoadOp, d: Decoded, k: nat)
    requires 0 < k <= LoadBytes(op) && HoldsBytes(c0, c, op, d, k)
    ensures var a := Add64(c0.regs[d.rs1], d.imm);
      var (r, v) := ReadTyped(c, Add64(c.regs[d.rs1], d.imm), Loaded(c, op), LoadBytes(op));
      && v == LoadedBytes(op, d, c0.bus.mem, a, k)
      && (k < LoadBytes(op) ==> Tick(r).bus.readdata == ByteRead(op, d, c0.bus.mem, a, k))
  {
    hide LoadedBytes, LoadExtension, Or64, Shl64, Pow2;
    var n, a, mem := LoadBytes(op), Add64(c0.regs[d.rs1], d.imm), c0.bus.mem;
    LoadedBytesFit(op, d, mem, a, k - 1);
    LoadedBytesFit(op, d, mem, a, k);
    PlaceByte(Loaded(c, op), c.bus.readdata, k - 1);
    ByteFits(k, n);
    DivModUnique(LoadedBytes(op, d, mem, a, k), Pow2(8 * n), 0, LoadedBytes(op, d, mem, a, k));
    assert ReadTyped(c, Add64(c.regs[d.rs1], d.imm), Loaded(c, op), n).1 == LoadedBytes(op, d, mem, a, k);
    assert ByteAddress(op, d, mem, a, k) == Add64(Add64(c.regs[d.rs1], d.imm), k);
  }

  /** A whole load. */
  lemma LoadResult(c0: Core, op: LoadOp, d: Decoded)
    requires !c0.stall && !c0.pcUpdated
    requires Add64(c0.regs[d.rs1], d.imm) in c0.bus.mem
    ensures var c, a, n := Steps(c0, ELoad(op), d, LoadBytes(op) + 1), Add64(c0.regs[d.rs1], d.imm), LoadBytes(op);
      && !c.stall && !c.pcUpdated && c.bus.mem == c0.bus.mem
      && c.regs == WithPc(WithRd(c0.regs, d.rd, LoadExtension(op, LoadedBytes(op, d, c0.bus.mem, a, n))),
        Add64(c0.regs[PC], 4))
  {
    hide Step, WithRd, LoadExtension, ReadTyped, Tick, LoadedBytes;
    var n := LoadBytes(op);
    LoadEnd(c0, op, d);
    LoadData(c0, op, d, n);
    var c := Steps(c0, ELoad(op), d, n);
    NextByte(c0, c, op, d, n);
    LoadStep(c, op, d);
  }

  // ---------- stores ----------

  lemma StoreStep1(c: Core, op: StoreOp, d: Decoded)
    requires !c.pcUpdated
    ensures var n := StoreBytes(op);
      var w := Tick(WriteMem(c, Add64(c.regs[d.rs1], d.imm), n, StoredValue(c, op, d)));
      Step(c, EStore(op), d) == if w.stall then w else w.(regs := WithPc(c.regs, Add64(c.regs[PC], 4)))
  {
    hide BusStep, Shr64, Pow2;
  }

  /** The operand the typed macro passes: the register truncated to the width of the store. */
  function StoredValue(c: Core, op: StoreOp, d: Decoded): uint64 {
    DivBound(c.regs[d.rs2], Pow2(8 * StoreBytes(op)));
    c.regs[d.rs2] % Pow2(8 * StoreBytes(op))
  }

  /** After `k` cycles bytes 0 to k - 1 have landed; cycle n advances the pc. */
  lemma {:induction false} StoreCourse(c0: Core, op: StoreOp, d: Decoded, k: nat)
    requires !c0.stall && !c0.pcUpdated && 0 < k <= StoreBytes(op)
    ensures var c, n := Steps(c0, EStore(op), d, k), StoreBytes(op);
      && c.bus.mem == StoreLE(c0.bus.mem, Add64(c0.regs[d.rs1], d.imm), StoredValue(c0, op, d), k)
      && c.stall == (k != n) && c.writeOffset == k && !c.pcUpdated && c.readOffset == c0.readOffset
      && c.bus.memwrite
      && c.regs == if k == n then WithPc(c0.regs, Add64(c0.regs[PC], 4)) else c0.regs
    decreases k
  {
    hide Step, StoreLE, StoredValue, Tick, WriteMem;
    var a, n, v := Add64(c0.regs[d.rs1], d.imm), StoreBytes(op), StoredValue(c0, op, d);
    if k == 1 {
      StoreNothing(c0.bus.mem, a, v);
      assert Steps(c0, EStore(op), d, 0) == c0;
    } else {
      StoreCourse(c0, op, d, k - 1);
    }
    var c := Steps(c0, EStore(op), d, k - 1);
    SameOperand(c0, c, op, d);
    StoreStep1(c, op, d);
    WriteByte(c, a, n, v, c0.bus.mem, k - 1);
  }

  lemma SameOperand(c0: Core, c: Core, op: StoreOp, d: Decoded)
    requires c.regs == c0.regs
    ensures StoredValue(c, op, d) == StoredValue(c0, op, d)
  {}

  /** Truncating the operand first stores the same bytes. */
  lemma TruncationIsHarmless(mem: Memory, a: uint64, v: uint64, n: nat)
    requires n <= 8
    ensures v % Pow2(8 * n) < TWO64
    ensures StoreLE(mem, a, v % Pow2(8 * n), n) == StoreLE(mem, a, v, n)
  {
    DivBound(v, Pow2(8 * n));
    forall j: nat | j < n
      ensures ByteOf(v % Pow2(8 * n), j) == ByteOf(v, j)
    {
      LowByte(v, n, j);
    }
  }

  lemma LowByte(v: nat, n: nat, j: nat)
    requires j < n
    ensures ByteOf(v % Pow2(8 * n), j) == ByteOf(v, j)
  {
    hide Pow2;
    var p, q, r, m := Pow2(8 * j), v / Pow2(8 * n), v % Pow2(8 * n), 8 * (n - j - 1);
    assert Pow2(8 * n) == TWO8 * p * Pow2(m) by {
      ByteStep(j);
      Pow2Add(8 * (j + 1), m);
      assert 8 * n == 8 * (j + 1) + m;
    }
    Regroup(q, TWO8 * p, Pow2(m));
    HighPart(v, r, p, q * Pow2(m));
  }

  lemma Regroup(q: nat, x: nat, m: nat)
    ensures q * (x * m) == q * m * x && q * m >= 0
  {}

  /** Adding a multiple of 256 p leaves the byte at p. */
  lemma HighPart(v: nat, r: nat, p: nat, k: nat)
    requires p > 0 && v == k * (TWO8 * p) + r
    ensures v / p % TWO8 == r / p % TWO8
  {
    var q, s := r / p, r % p;
    assert v == (k * TWO8 + q) * p + s;
    DivModUnique(v, p, k * TWO8 + q, s);
    DivModUnique(k * TWO8 + q, TWO8, k + q / TWO8, q % TWO8);
  }
}
