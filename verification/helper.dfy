/**
 The bit helpers of src/helper/helper.c.

 The two loops are methods proved against closed forms; the pure members use the
 closed forms. The lemmas say what the results mean as integers.
 */
module Helper {
  import opened Words

  /** `size` low ones. */
  function Mask(size: nat): uint64
    requires size <= 31
  {
    Pow2Constants();
    Pow2Monotonic(size, 31);
    Pow2(size) - 1
  }

  /** The mask loop; `1 << i` is an `int` shift, defined in C only up to bit 30. */
  method BitmaskFromBitSize(bitSize: nat) returns (ret: uint64)
    requires bitSize <= 31
    ensures ret == Mask(bitSize)
    ensures forall k: nat :: Bit(ret, k) == if k < bitSize then 1 else 0
  {
    ret := 0;
    for i := 0 to bitSize
      invariant ret == Mask(i)
    {
      assert Shl64(1, i) == Pow2(i) by {
        Pow2Constants();
        Pow2Monotonic(i, 31);
      }
      OrDisjoint(ret, 1, i);
      ret := Or64(ret, Shl64(1, i));
    }
    forall k: nat
      ensures Bit(ret, k) == if k < bitSize then 1 else 0
    {
      MaskBit(bitSize, k);
    }
  }

  lemma {:induction false} MaskBit(n: nat, k: nat)
    ensures Bit(Pow2(n) - 1, k) == if k < n then 1 else 0
    decreases k
  {
    if k > 0 {
      DivDiv(Pow2(n) - 1, 2, Pow2(k - 1));
      if n > 0 {
        assert (Pow2(n) - 1) / 2 == Pow2(n - 1) - 1;
        MaskBit(n - 1, k - 1);
      } else {
        MaskBit(0, k - 1);
      }
    }
  }

  /** Shift down, then mask. */
  function ExtractBits(num: uint64, start: nat, bitmask: uint64): uint64 {
    And64(Shr64(num, start), bitmask)
  }

  /** With a mask of `size` ones this is the bit field [start, start + size). */
  lemma ExtractBitsIsField(num: uint64, start: nat, size: nat)
    requires start < 64 && size <= 31
    ensures ExtractBits(num, start, Mask(size)) == num / Pow2(start) % Pow2(size)
  {
    hide Bitwise;
    AndMask(Shr64(num, start), size);
  }

  /** `num` with every bit from `start` up OR-ed with `bit`. */
  function RepeatBit(num: uint64, start: nat, bit: int): uint64
    requires 0 <= bit <= 1
  {
    if bit == 0 || start >= 64 then num
    else
      assert Pow2(start) <= TWO64 by { Pow2Constants(); Pow2Monotonic(start, 64); }
      num % Pow2(start) + (TWO64 - Pow2(start))
  }

  /** `bit` shifted up by `j` has bit `k` set. */
  predicate ShiftedHas(bit: nat, j: nat, k: nat) { j <= k && Bit(bit, k - j) == 1 }

  /** So has some copy of `bit`, shifted up by `start` to `end - 1`. */
  ghost predicate Repeated(bit: nat, start: nat, end: nat, k: nat) {
    exists j :: start <= j < end && ShiftedHas(bit, j, k)
  }

  lemma NotRepeated(bit: nat, start: nat)
    ensures forall end: nat, k: nat :: end <= start ==> !Repeated(bit, start, end, k)
  {}

  lemma RepeatedStep(bit: nat, start: nat, end: nat, k: nat)
    requires start <= end
    ensures Repeated(bit, start, end + 1, k) <==> Repeated(bit, start, end, k) || ShiftedHas(bit, end, k)
  {
    hide ShiftedHas;
    if j :| start <= j < end && ShiftedHas(bit, j, k) { assert start <= j < end + 1; }
    if ShiftedHas(bit, end, k) { assert start <= end < end + 1; }
  }

  /** The OR loop. The argument is a whole byte in C; its callers pass 0 or 1. */
  method RepeatBitInNum(num: uint64, start: nat, bit: uint8) returns (ret: uint64)
    ensures bit <= 1 ==> ret == RepeatBit(num, start, bit)
    ensures forall k: nat :: k < 64 ==> (Bit(ret, k) == 1 <==> Bit(num, k) == 1 || Repeated(bit, start, 64, k))
  {
    hide Bit, Bitwise, Pow2, Filled, Shl64, ShiftedHas, Repeated;
    ret := num;
    NotRepeated(bit, start);
    var i := start;
    FilledStart(num, start);
    while i < 64
      invariant start <= i && (start < 64 ==> i <= 64)
      invariant bit == 0 || start >= 64 ==> ret == num
      invariant bit == 1 && start < 64 ==> ret == Filled(num, start, i)
      invariant forall k: nat :: k < 64 ==> (Bit(ret, k) == 1 <==> Bit(num, k) == 1 || Repeated(bit, start, i, k))
    {
      if bit == 0 {
        OrNothing(ret, i);
      } else if bit == 1 {
        FilledStep(num, start, i);
        SingleBit(i);
      }
      forall k: nat | k < 64
        ensures Bit(Or64(ret, Shl64(bit, i)), k) == 1 <==> Bit(num, k) == 1 || Repeated(bit, start, i + 1, k)
      {
        OrShiftedBit(ret, bit, i, k);
        RepeatedStep(bit, start, i, k);
      }
      ret := Or64(ret, Shl64(bit, i));
      i := i + 1;
    }
    if bit == 1 && start < 64 {
      FilledEnd(num, start);
    }
  }

  lemma OrNothing(x: uint64, i: nat)
    ensures Or64(x, Shl64(0, i)) == x
  {
    OrZero(x);
    BitwiseCommutes(BitOr, x, 0);
  }

  lemma OrShiftedBit(x: uint64, b: uint8, i: nat, k: nat)
    requires i < 64 && k < 64
    ensures Bit(Or64(x, Shl64(b, i)), k) == 1 <==> Bit(x, k) == 1 || ShiftedHas(b, i, k)
  {
    hide Bitwise, Pow2;
    BitwiseBit(BitOr, x, Shl64(b, i), k);
    assert Pow2(64) == TWO64 by { Pow2Constants(); }
    ResidueBit(b * Pow2(i), 64, k);
    ShiftedBit(b, i, k);
  }

  /** The low `n` bits of a residue modulo 2^n are those of the number. */
  lemma {:induction false} ResidueBit(y: nat, n: nat, k: nat)
    requires k < n
    ensures Bit(y % Pow2(n), k) == Bit(y, k)
    decreases k
  {
    ModDouble(y, Pow2(n - 1));
    if k > 0 {
      ResidueBit(y / 2, n - 1, k - 1);
      DivDiv(y % Pow2(n), 2, Pow2(k - 1));
      DivDiv(y, 2, Pow2(k - 1));
    }
  }

  /** A left shift moves every bit up. */
  lemma ShiftedBit(b: nat, i: nat, k: nat)
    ensures b * Pow2(i) >= 0
    ensures Bit(b * Pow2(i), k) == if i <= k then Bit(b, k - i) else 0
  {
    hide Pow2;
    MulMonotonic(0, b, Pow2(i));
    if i <= k {
      Pow2Add(i, k - i);
      DivDiv(b * Pow2(i), Pow2(i), Pow2(k - i));
      DivModUnique(b * Pow2(i), Pow2(i), b, 0);
    } else {
      Pow2Add(i - k, k);
      DoublePow2(i - k - 1);
      var c := b * Pow2(i - k - 1);
      Associate(b, Pow2(i - k - 1), Pow2(k));
      DivModUnique(b * Pow2(i), Pow2(k), 2 * c, 0);
    }
  }

  lemma DoublePow2(k: nat)
    ensures Pow2(k + 1) == 2 * Pow2(k)
  {}

  lemma Associate(b: nat, q: nat, p: nat)
    ensures b * (2 * q * p) == 2 * (b * q) * p
  {
    assert b * (2 * q) == 2 * (b * q);
    MulAssociates(b, 2 * q, p);
  }

  lemma MulAssociates(a: int, b: int, c: int)
    ensures a * (b * c) == a * b * c
  {}

  lemma SingleBit(i: nat)
    requires i < 64
    ensures Shl64(1, i) == Pow2(i) < TWO64
  {
    Pow2Constants();
    Pow2Monotonic(i, 63);
  }

  lemma FilledEnd(num: uint64, start: nat)
    requires start < 64
    ensures Filled(num, start, 64) == RepeatBit(num, start, 1)
  {
    Pow2Constants();
    assert num / Pow2(64) == 0;
  }

  /** `num` with bits [start, i) set: the state of the loop before bit `i`. */
  ghost function Filled(num: uint64, start: nat, i: nat): int
  {
    num % Pow2(start) + (Pow2(i) - Pow2(start)) + num / Pow2(i) * Pow2(i)
  }

  lemma FilledStart(num: uint64, start: nat)
    ensures Filled(num, start, start) == num
  {}

  lemma FilledStep(num: uint64, start: nat, i: nat)
    requires start <= i < 64
    ensures Filled(num, start, i) >= 0
    ensures Bitwise(BitOr, Filled(num, start, i), Pow2(i)) == Filled(num, start, i + 1)
  {
    var low := num % Pow2(start) + (Pow2(i) - Pow2(start));
    Pow2Monotonic(start, i);
    var p, q := Pow2(i), num / Pow2(i);
    assert 0 <= low < p;
    DivBound(num, p);
    MulMonotonic(0, q, p);
    DivDiv(num, p, 2);
    OrAboveField(low, q, i);
    FilledRearrange(low, q / 2, p);
  }

  lemma FilledRearrange(low: int, h: int, p: int)
    ensures low + (h * 2 + 1) * p == low + p + h * (2 * p)
  {}

  /** Setting bit `i` above a field of `i` bits. */
  lemma {:induction false} OrAboveField(low: nat, q: nat, i: nat)
    requires low < Pow2(i)
    ensures Bitwise(BitOr, low + q * Pow2(i), Pow2(i)) == low + (q / 2 * 2 + 1) * Pow2(i)
    decreases i
  {
    if i == 0 {
      OrZero(q / 2);
      BitwiseCommutes(BitOr, q / 2, 0);
    } else {
      OrAboveField(low / 2, q, i - 1);
      HalveField(low, q, Pow2(i - 1));
      HalveField(low, q / 2 * 2 + 1, Pow2(i - 1));
    }
  }

  lemma HalveField(low: nat, q: nat, p: nat)
    ensures q * p >= 0
    ensures (low + q * (2 * p)) / 2 == low / 2 + q * p && (low + q * (2 * p)) % 2 == low % 2
  {
    MulMonotonic(0, q, p);
    assert q * (2 * p) == 2 * (q * p);
  }

  // ---------- sign extension ----------

  /** The top bit of a 32-bit word. */
  function SignBit32(num: uint32): (b: int)
    ensures 0 <= b <= 1
  {
    num / TWO31
  }

  function SignExtendU32(num: uint32): uint64 { RepeatBit(num, 32, SignBit32(num)) }

  /** The 16-bit and 8-bit variants take a 32-bit argument, and look at its bit 31. */
  function SignExtendU16(num: uint32): uint64 { RepeatBit(num, 16, SignBit32(num)) }

  function SignExtendU8(num: uint32): uint64 { RepeatBit(num, 8, SignBit32(num)) }

  /** Repeating the top bit of an n-bit value is two's-complement sign extension. */
  lemma RepeatBitIsSignExtension(num: uint64, n: nat)
    requires 0 < n < 64 && num < Pow2(n)
    ensures num / Pow2(n - 1) <= 1
    ensures RepeatBit(num, n, num / Pow2(n - 1)) == ToU64(if num < Pow2(n - 1) then num else num - Pow2(n))
  {
    Pow2Constants();
    Pow2Monotonic(n, 63);
    var h := Pow2(n - 1);
    if num < h {
      DivModUnique(num, h, 0, num);
    } else {
      DivModUnique(num, h, 1, num - h);
      DivModUnique(num, Pow2(n), 0, num);
      DivModUnique(num - Pow2(n), TWO64, -1, num - Pow2(n) + TWO64);
    }
  }

  lemma SignExtendU32IsSigned(num: uint32)
    ensures SignExtendU32(num) == ToU64(Signed32(num))
  {
    Pow2Constants();
    RepeatBitIsSignExtension(num, 32);
  }

  /**
   Applied to a value that fits its nominal width, the 16-bit and 8-bit helpers
   return it unchanged: they extend the sign exactly when there is none to extend.
   */
  lemma NarrowSignExtensionIsIdentity(num: uint32)
    ensures num < TWO16 ==> SignExtendU16(num) == num
    ensures num < TWO16 ==>
      (SignExtendU16(num) == ToU64(if num < 0x8000 then num else num - TWO16) <==> num < 0x8000)
    ensures num < TWO8 ==> SignExtendU8(num) == num
    ensures num < TWO8 ==>
      (SignExtendU8(num) == ToU64(if num < 0x80 then num else num - TWO8) <==> num < 0x80)
  {
  }

  /** On any word the narrow helpers look at bit 31 alone. */
  lemma NarrowSignExtension(num: uint32)
    ensures SignExtendU16(num) == if num < 0x8000_0000 then num else num % 0x1_0000 + 0xffff_ffff_ffff_0000
    ensures SignExtendU8(num) == if num < 0x8000_0000 then num else num % 0x100 + 0xffff_ffff_ffff_ff00
  {
    Pow2Constants();
  }

  // ---------- arithmetic right shift ----------

  /** Floor division of the signed value by 2^k: the meaning of an arithmetic right shift. */
  function Sra64(x: uint64, k: nat): uint64 { ToU64(Signed(x) / Pow2(k)) }

  function Sra32(x: uint32, k: nat): uint32 { (Signed32(x) / Pow2(k)) % TWO32 }

  /** One round of the loop: shift right by one and OR the sign bit back in. */
  lemma SraRound(x: uint64, k: nat)
    ensures Sra64(x, 0) == x
    ensures Signed(Sra64(x, k)) == Signed(x) / Pow2(k)
    ensures Or64(Sra64(x, k) / 2, if x >= TWO63 then TWO63 else 0) == Sra64(x, k + 1)
  {
    hide Bitwise;
    FloorBounds(Signed(x), k, TWO63);
    DivDiv(Signed(x), Pow2(k), 2);
    HalveSigned(Signed(x) / Pow2(k));
  }

  lemma HalveSigned(v: int)
    requires -TWO63 <= v < TWO63
    ensures Signed(ToU64(v)) == v
    ensures Or64(ToU64(v) / 2, if v < 0 then TWO63 else 0) == ToU64(v / 2)
  {
    hide Bitwise;
    if v < 0 {
      assert ToU64(v) / 2 == v / 2 + TWO63 && ToU64(v / 2) == v / 2 + TWO64;
      Pow2Constants();
      OrDisjoint(v / 2 + TWO63, 1, 63);
    } else {
      OrZero(v / 2);
      BitwiseCommutes(BitOr, v / 2, 0);
    }
  }

  lemma SraRound32(x: uint32, k: nat)
    ensures Sra32(x, 0) == x
    ensures Signed32(Sra32(x, k)) == Signed32(x) / Pow2(k)
    ensures Bitwise(BitOr, Sra32(x, k) / 2, if x >= TWO31 then TWO31 else 0) == Sra32(x, k + 1)
  {
    hide Bitwise;
    FloorBounds(Signed32(x), k, TWO31);
    DivDiv(Signed32(x), Pow2(k), 2);
    HalveSigned32(Signed32(x) / Pow2(k));
  }

  lemma HalveSigned32(v: int)
    requires -TWO31 <= v < TWO31
    ensures Signed32(v % TWO32) == v
    ensures Bitwise(BitOr, v % TWO32 / 2, if v < 0 then TWO31 else 0) == v / 2 % TWO32
  {
    hide Bitwise;
    if v < 0 {
      assert v % TWO32 / 2 == v / 2 + TWO31 && v / 2 % TWO32 == v / 2 + TWO32;
      Pow2Constants();
      OrDisjoint(v / 2 + TWO31, 1, 31);
    } else {
      OrZero(v / 2);
      BitwiseCommutes(BitOr, v / 2, 0);
    }
  }

  /** Floor division by a power of two keeps a value in a two's-complement range, and its sign. */
  lemma FloorBounds(s: int, k: nat, h: int)
    requires -h <= s < h
    ensures -h <= s / Pow2(k) < h
    ensures s < 0 <==> s / Pow2(k) < 0
  {
    if s >= 0 {
      DivBound(s, Pow2(k));
    } else {
      NegativeFloor(s, Pow2(k));
    }
  }

  lemma NegativeFloor(s: int, p: nat)
    requires s < 0 < p
    ensures s <= s / p < 0
  {
    var q, r := s / p, s % p;
    assert s == q * p + r;
    if q >= 0 { MulMonotonic(0, q, p); }
    if q < s {
      MulMonotonic(q + 1, s, p);
      assert (q + 1) * p == q * p + p;
      ScaledNegative(s, p);
    }
  }

  lemma ScaledNegative(s: int, p: nat)
    requires s < 0 < p
    ensures s * p <= s
  {}

  /** The 64-bit loop of `srai` and `sra`. */
  method SraLoop(x: uint64, signBit: uint64, shamt: nat) returns (val: uint64)
    requires signBit == if x >= TWO63 then TWO63 else 0
    ensures val == ToU64(Signed(x) / Pow2(shamt))
  {
    val := x;
    SraRound(x, 0);
    for i := 0 to shamt
      invariant val == Sra64(x, i)
    {
      SraRound(x, i);
      val := val / 2;
      val := Or64(val, signBit);
    }
  }

  /** The 32-bit loop of `sraiw` and `sraw`. */
  method SrawLoop(x: uint32, signBit: uint32, shamt: nat) returns (val: uint32)
    requires signBit == if x >= TWO31 then TWO31 else 0
    ensures val == (Signed32(x) / Pow2(shamt)) % TWO32
  {
    val := x;
    SraRound32(x, 0);
    for i := 0 to shamt
      invariant val == Sra32(x, i)
    {
      SraRound32(x, i);
      val := val / 2;
      val := Or64(val, signBit);
    }
  }

  /** Two arithmetic shifts compose to one by the sum, capped at the width minus one. */
  lemma SraComposes(x: uint64, a: nat, b: nat)
    ensures Sra64(Sra64(x, a), b) == Sra64(x, if a + b <= 63 then a + b else 63)
  {
    SraRound(x, a);
    DivDiv(Signed(x), Pow2(a), Pow2(b));
    Pow2Add(a, b);
    Pow2Constants();
    if a + b > 63 { SraSaturates(Signed(x), a + b, 63, TWO63); }
  }

  lemma SrawComposes(x: uint32, a: nat, b: nat)
    ensures Sra32(Sra32(x, a), b) == Sra32(x, if a + b <= 31 then a + b else 31)
  {
    SraRound32(x, a);
    DivDiv(Signed32(x), Pow2(a), Pow2(b));
    Pow2Add(a, b);
    Pow2Constants();
    if a + b > 31 { SraSaturates(Signed32(x), a + b, 31, TWO31); }
  }

  lemma SraSaturates(s: int, k: nat, w: nat, h: int)
    requires w <= k && h == Pow2(w) && -h <= s < h
    ensures s / Pow2(k) == s / Pow2(w)
  {
    Pow2Monotonic(w, k);
    if s >= 0 {
      DivModUnique(s, Pow2(k), 0, s);
      DivModUnique(s, h, 0, s);
    } else {
      DivModUnique(s, Pow2(k), -1, s + Pow2(k));
      DivModUnique(s, h, -1, s + h);
    }
  }
}
