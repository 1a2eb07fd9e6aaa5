/**
 Multi-cycle memory access: `read_mem` and `write_mem` called once per bus cycle.

 A read of n bytes takes n + 1 calls and yields the little-endian value; a write takes n
 calls and lands one byte per cycle. The step lemmas say what one more call and bus cycle
 do; the theorems follow them through a whole access.
 */
module Access {
  import opened Words
  import opened Isa
  import opened Machine

  // ---------- reading ----------

  /** `k` calls of an access at `a` have been made, each followed by a bus cycle: byte k - 1 is on the bus. */
  ghost predicate Reading(c: Core, a: uint64, k: nat) {
    && k > 0 && c.stall && c.readOffset == k
    && c.bus.address == Add64(a, k - 1) && !c.bus.memwrite
    && (Add64(a, k - 1) in c.bus.mem ==> c.bus.readdata == c.bus.mem[Add64(a, k - 1)])
  }

  /** What an access leaves alone. */
  predicate SameButAccess(c: Core, c': Core) {
    && c'.regs == c.regs && c'.pcUpdated == c.pcUpdated && c'.loaded == c.loaded
    && c'.writeOffset == c.writeOffset && c'.bus.mem == c.bus.mem && c'.bus.writedata == c.bus.writedata
  }

  /** The first call only puts the address on the bus and clears the accumulator. */
  lemma ReadFirst(c: Core, a: uint64, ret: uint64, n: nat)
    requires !c.stall
    ensures ReadTyped(c, a, ret, n).1 == 0
    ensures var c' := ReadTyped(c, a, ret, n).0;
      && c'.stall && c'.readOffset == 1 && SameButAccess(c, c')
      && Reading(Tick(c'), a, 1) && SameButAccess(c, Tick(c'))
  {
    DivModUnique(0, Pow2(8 * n), 0, 0);
  }

  /** Call k + 1 requests byte k; it is the last exactly if k = n. */
  lemma ReadNext(c: Core, a: uint64, ret: uint64, n: nat)
    requires c.stall
    ensures var c' := ReadTyped(c, a, ret, n).0;
      && c'.stall == (c.readOffset != n) && SameButAccess(c, c') && SameButAccess(c, Tick(c'))
      && c'.readOffset == c.readOffset + 1 && !Tick(c').bus.memwrite
      && (c.readOffset != n ==> Reading(Tick(c'), a, c.readOffset + 1))
  {
    hide Or64, Shl64, Pow2;
  }

  /** Call k + 1 takes byte k - 1 off the bus into the accumulator. */
  lemma ReadByte(c: Core, a: uint64, ret: uint64, n: nat)
    requires n <= 8 && c.readOffset <= n && Reading(c, a, c.readOffset)
    requires Mapped(c.bus.mem, a, c.readOffset) && ret == LoadLE(c.bus.mem, a, c.readOffset - 1)
    ensures ReadTyped(c, a, ret, n).1 == LoadLE(c.bus.mem, a, c.readOffset)
  {
    hide LoadLE, Bitwise;
    var k := c.readOffset;
    LoadLEStep(c.bus.mem, a, k - 1);
    assert Add64(a, k - 1) in c.bus.mem;
    var b := c.bus.readdata;
    PlaceByte(ret, b, k - 1);
    ByteFits(k, n);
    DivModUnique(ret + b * Pow2(8 * (k - 1)), Pow2(8 * n), 0, ret + b * Pow2(8 * (k - 1)));
    assert ReadTyped(c, a, ret, n).1 == Or64(ret, Shl64(b, (k - 1) * 8)) % Pow2(8 * n);
  }

  lemma LoadLEStep(mem: Memory, a: uint64, k: nat)
    requires Mapped(mem, a, k + 1)
    ensures LoadLE(mem, a, k) < Pow2(8 * k)
    ensures LoadLE(mem, a, k + 1) == LoadLE(mem, a, k) + mem[Add64(a, k)] * Pow2(8 * k)
  {}

  lemma PlaceByte(v: uint64, b: uint8, k: nat)
    requires k < 8 && v < Pow2(8 * k)
    ensures Or64(v, Shl64(b, k * 8)) == v + b * Pow2(8 * k) < Pow2(8 * (k + 1))
  {
    hide Bitwise;
    ByteStep(k);
    ByteFits(k + 1, 8);
    assert Pow2(64) == TWO64 by { Pow2Constants(); }
    MulMonotonic(0, b, Pow2(8 * k));
    MulMonotonic(b, 255, Pow2(8 * k));
    assert Shl64(b, k * 8) == b * Pow2(8 * k) by { assert k * 8 == 8 * k; }
    OrDisjoint(v, b, 8 * k);
  }

  lemma ByteFits(k: nat, n: nat)
    requires k <= n
    ensures Pow2(8 * k) <= Pow2(8 * n)
  {
    Pow2Monotonic(8 * k, 8 * n);
  }

  /** `k` calls of a read at a fixed address, each followed by a bus cycle. */
  function ReadCalls(c: Core, a: uint64, ret: uint64, n: nat, k: nat): (Core, uint64) {
    if k == 0 then (c, ret)
    else
      var (c1, v1) := ReadCalls(c, a, ret, n, k - 1);
      var (c2, v2) := ReadTyped(c1, a, v1, n);
      (Tick(c2), v2)
  }

  /** The course of an access, whatever is mapped: it stalls until call n + 1. */
  lemma {:induction false} ReadCourse(c: Core, a: uint64, ret: uint64, n: nat, k: nat)
    requires !c.stall && 0 < k <= n + 1 && n > 0
    ensures var c' := ReadCalls(c, a, ret, n, k).0;
      && SameButAccess(c, c') && !c'.bus.memwrite && c'.readOffset == k
      && c'.stall == (k <= n) && (k <= n ==> Reading(c', a, k))
    decreases k
  {
    hide ReadTyped, Tick;
    if k == 1 {
      ReadFirst(c, a, ret, n);
      assert ReadCalls(c, a, ret, n, 0) == (c, ret);
    } else {
      ReadCourse(c, a, ret, n, k - 1);
      var (c1, v1) := ReadCalls(c, a, ret, n, k - 1);
      ReadNext(c1, a, v1, n);
      TickFrame(ReadTyped(c1, a, v1, n).0);
    }
  }

  lemma TickFrame(c: Core)
    ensures Tick(c) == c.(bus := Tick(c).bus)
    ensures Tick(c).bus.memwrite == c.bus.memwrite && Tick(c).bus.address == c.bus.address
  {}

  /**
   Little-endian read: after k + 1 calls the accumulator is the value of the first k bytes, so
   n + 1 calls give the n-byte value. Only the bytes [a, a + n) need be mapped: the byte past
   the end, which the last bus cycle reads, is not used.
   */
  lemma {:induction false} ReadIsLittleEndian(c: Core, a: uint64, ret: uint64, n: nat, k: nat)
    requires !c.stall && 0 < n <= 8 && k <= n && Mapped(c.bus.mem, a, n)
    ensures ReadCalls(c, a, ret, n, k + 1).1 == LoadLE(c.bus.mem, a, k)
    ensures ReadCalls(c, a, ret, n, k + 1).0.stall == (k < n)
    ensures SameButAccess(c, ReadCalls(c, a, ret, n, k + 1).0)
    decreases k
  {
    hide ReadTyped, Tick, LoadLE;
    ReadCourse(c, a, ret, n, k + 1);
    if k == 0 {
      ReadFirst(c, a, ret, n);
      assert ReadCalls(c, a, ret, n, 0) == (c, ret);
      LoadLEZero(c.bus.mem, a);
    } else {
      ReadIsLittleEndian(c, a, ret, n, k - 1);
      ReadCourse(c, a, ret, n, k);
      var (c1, v1) := ReadCalls(c, a, ret, n, k);
      ReadByte(c1, a, v1, n);
    }
  }

  lemma LoadLEZero(mem: Memory, a: uint64)
    ensures LoadLE(mem, a, 0) == 0
  {}

  /** Bytes that are those of a value load as that value. */
  lemma {:induction false} LoadOfBytes(mem: Memory, a: uint64, n: nat, w: nat)
    requires Mapped(mem, a, n)
    requires forall j :: 0 <= j < n ==> mem[Add64(a, j)] == ByteOf(w, j)
    ensures LoadLE(mem, a, n) == w % Pow2(8 * n)
    decreases n
  {
    hide ByteOf, Pow2;
    if n == 0 {
      assert Pow2(0) == 1 by { Pow2Zero(); }
    } else {
      LoadOfBytes(mem, a, n - 1, w);
      LoadLEStep(mem, a, n - 1);
      ByteStep(n - 1);
      assert mem[Add64(a, n - 1)] == ByteOf(w, n - 1);
      SplitTop(w, n - 1);
    }
  }

  lemma Pow2Zero()
    ensures Pow2(0) == 1
  {}

  lemma SplitTop(w: nat, k: nat)
    ensures w % (TWO8 * Pow2(8 * k)) == w % Pow2(8 * k) + ByteOf(w, k) * Pow2(8 * k)
  {
    ModSplit(w, Pow2(8 * k));
  }

  lemma ModSplit(w: nat, p: nat)
    requires p > 0
    ensures w % (TWO8 * p) == w % p + w / p % TWO8 * p
  {
    var q, r := w / p, w % p;
    var t, b := q / TWO8, q % TWO8;
    assert w == (t * TWO8 + b) * p + r == t * (TWO8 * p) + (b * p + r);
    MulMonotonic(b, 255, p);
    MulMonotonic(0, b, p);
    DivModUnique(w, TWO8 * p, t, b * p + r);
  }

  /** Four bytes that are those of a word load as the word. */
  lemma WordLoads(mem: Memory, a: uint64, w: uint32)
    requires forall j: nat :: j < 4 ==> Add64(a, j) in mem && mem[Add64(a, j)] == ByteOf(w, j)
    ensures Mapped(mem, a, 4) && LoadLE(mem, a, 4) == w
  {
    hide ByteOf, LoadLE;
    LoadOfBytes(mem, a, 4, w);
    assert w % Pow2(8 * 4) == w by { Pow2Constants(); }
  }

  // ---------- writing ----------

  /** `k` calls of a write at `a` are in progress. */
  predicate Writing(c: Core, k: nat) { k > 0 && c.stall && c.writeOffset == k }

  /** Call k + 1 lands byte k and ends the access exactly if k + 1 = n. */
  lemma WriteByte(c: Core, a: uint64, n: nat, v: uint64, mem0: Memory, k: nat)
    requires n <= 8 && k < n && (if k == 0 then !c.stall else Writing(c, k))
    requires c.bus.mem == StoreLE(mem0, a, v, k)
    ensures var c' := Tick(WriteMem(c, a, n, v));
      && c'.bus.mem == StoreLE(mem0, a, v, k + 1)
      && c' == c.(writeOffset := k + 1, stall := k + 1 != n, bus := c'.bus) && c'.bus.memwrite
  {
    hide StoreLE;
    var c1 := WriteMem(c, a, n, v);
    assert c1.bus.address == Add64(a, k);
    assert c1.bus.writedata == ByteOf(v, k) by { assert k * 8 == 8 * k; }
    assert Tick(c1).bus.mem == Put(c.bus.mem, Add64(a, k), ByteOf(v, k));
    StoreStep(mem0, a, v, k);
  }

  /** A byte write to a partial memory. */
  function Put(mem: Memory, x: uint64, b: uint8): Memory {
    if x in mem then mem[x := b] else mem
  }

  lemma StoreStep(mem: Memory, a: uint64, v: uint64, k: nat)
    requires k < 8
    ensures Put(StoreLE(mem, a, v, k), Add64(a, k), ByteOf(v, k)) == StoreLE(mem, a, v, k + 1)
  {
    hide ByteOf;
    var m0, m1 := StoreLE(mem, a, v, k), StoreLE(mem, a, v, k + 1);
    assert (Add64(a, k) - a) % TWO64 == k by { Distance(a, k); }
    forall x: uint64 | x in mem && x != Add64(a, k)
      ensures m1[x] == m0[x]
    {
      if (x - a) % TWO64 == k { FromDistance(a, x); }
    }
  }

  lemma Distance(a: uint64, k: nat)
    requires k < TWO64
    ensures (Add64(a, k) - a) % TWO64 == k
  {}

  lemma FromDistance(a: uint64, x: uint64)
    ensures x == Add64(a, (x - a) % TWO64)
  {}

  /** `k` calls of a write at a fixed address, each followed by a bus cycle. */
  function WriteCalls(c: Core, a: uint64, n: nat, v: uint64, k: nat): Core {
    if k == 0 then c else Tick(WriteMem(WriteCalls(c, a, n, v, k - 1), a, n, v))
  }

  lemma StoreNothing(mem: Memory, a: uint64, v: uint64)
    ensures StoreLE(mem, a, v, 0) == mem
  {}

  /**
   Little-endian write: after k calls exactly the bytes 0 to k - 1 have landed (`StoreLE` says
   which bytes those are and that every other one is unchanged); call n ends the access.
   */
  lemma {:induction false} WriteIsLittleEndian(c: Core, a: uint64, n: nat, v: uint64, k: nat)
    requires !c.stall && n <= 8 && 0 < k <= n
    ensures var c' := WriteCalls(c, a, n, v, k);
      && c'.bus.mem == StoreLE(c.bus.mem, a, v, k)
      && c' == c.(writeOffset := k, stall := k != n, bus := c'.bus)
    decreases k
  {
    hide WriteMem, Tick, StoreLE;
    if k == 1 {
      StoreNothing(c.bus.mem, a, v);
      assert WriteCalls(c, a, n, v, 0) == c;
    } else {
      WriteIsLittleEndian(c, a, n, v, k - 1);
    }
    WriteByte(WriteCalls(c, a, n, v, k - 1), a, n, v, c.bus.mem, k - 1);
  }
}
