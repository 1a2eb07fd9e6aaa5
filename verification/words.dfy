/**
 Fixed-width unsigned words as bounded integers, and the C operators on them.

 Wrap-around, truncation and the bitwise operators are written out explicitly.
 The bitwise operators work digit by digit on naturals; `BitwiseBit` states that
 every bit of the result is the operator applied to the operands' bits.
 */
module Words {

  const TWO8 := 0x100
  const TWO16 := 0x1_0000
  const TWO31 := 0x8000_0000
  const TWO32 := 0x1_0000_0000
  const TWO63 := 0x8000_0000_0000_0000
  const TWO64 := 0x1_0000_0000_0000_0000

  type uint8 = x: int | 0 <= x < TWO8
  type uint32 = x: int | 0 <= x < TWO32
  type uint64 = x: int | 0 <= x < TWO64

  // ---------- powers of two, division ----------

  function Pow2(k: nat): (p: nat)
    ensures p > 0
  {
    if k == 0 then 1 else 2 * Pow2(k - 1)
  }

  lemma {:induction false} Pow2Add(a: nat, b: nat)
    ensures Pow2(a + b) == Pow2(a) * Pow2(b)
  {
    if a > 0 {
      Pow2Add(a - 1, b);
      assert Pow2(a + b) == 2 * Pow2(a - 1 + b);
    }
  }

  lemma Pow2Monotonic(a: nat, b: nat)
    requires a <= b
    ensures Pow2(a) <= Pow2(b)
    decreases b
  {
    if a < b { Pow2Monotonic(a, b - 1); }
  }

  lemma Pow2Constants()
    ensures Pow2(3) == 8 && Pow2(5) == 0x20 && Pow2(6) == 0x40 && Pow2(7) == 0x80
    ensures Pow2(8) == TWO8 && Pow2(12) == 0x1000 && Pow2(15) == 0x8000 && Pow2(16) == TWO16
    ensures Pow2(20) == 0x10_0000 && Pow2(25) == 0x200_0000 && Pow2(31) == TWO31
    ensures Pow2(32) == TWO32 && Pow2(63) == TWO63 && Pow2(64) == TWO64
  {
    Pow2Upper();
  }

  lemma Pow2Upper()
    ensures Pow2(25) == 0x200_0000 && Pow2(31) == TWO31
    ensures Pow2(32) == TWO32 && Pow2(63) == TWO63 && Pow2(64) == TWO64
  {
    assert Pow2(16) == TWO16 && Pow2(15) == 0x8000 && Pow2(9) == 512;
    Pow2Add(16, 9);
    Pow2Add(16, 15);
    Pow2Add(16, 16);
    Pow2Add(32, 31);
    Pow2Add(32, 32);
  }

  lemma MulMonotonic(a: int, b: int, d: nat)
    requires a <= b
    ensures a * d <= b * d
  {}

  lemma DivModUnique(x: int, d: int, q: int, r: int)
    requires 0 <= r < d && x == q * d + r
    ensures x / d == q && x % d == r
  {
    var q', r' := x / d, x % d;
    assert x == q' * d + r';
    if q' < q {
      MulMonotonic(q' + 1, q, d);
    } else if q < q' {
      MulMonotonic(q + 1, q', d);
    }
  }

  lemma DivDiv(x: int, a: int, b: int)
    requires a > 0 && b > 0
    ensures a * b > 0
    ensures x / a / b == x / (a * b)
  {
    var q, r := x / a, x % a;
    var p, s := q / b, q % b;
    assert x == (p * b + s) * a + r == p * (a * b) + (s * a + r);
    MulMonotonic(s, b - 1, a);
    DivModUnique(x, a * b, p, s * a + r);
  }

  // ---------- two's complement readings ----------

  /** The residue modulo 2^64, i.e. the conversion of any integer to `uint64_t`. */
  function ToU64(x: int): uint64 { x % TWO64 }

  /** The conversion of a `uint64_t` to `int64_t`. */
  function Signed(x: uint64): int { if x < TWO63 then x else x - TWO64 }

  /** The conversion of a `uint32_t` to `int32_t`. */
  function Signed32(x: uint32): int { if x < TWO31 then x else x - TWO32 }

  function Add64(a: int, b: int): uint64 { (a + b) % TWO64 }

  function Low32(x: uint64): uint32 { x % TWO32 }

  function Low8(x: uint64): uint8 { x % TWO8 }

  // ---------- C shifts ----------

  /** `x << k` on 64 bits; C gives no meaning to `k >= 64` (nor to a negative `k`), and 0 stands for that. */
  function Shl64(x: uint64, k: int): uint64 {
    if 0 <= k < 64 then x * Pow2(k) % TWO64 else 0
  }

  /** `x << k` on 32 bits. */
  function Shl32(x: uint32, k: int): uint32 {
    if 0 <= k < 32 then x * Pow2(k) % TWO32 else 0
  }

  function Shr32(x: uint32, k: int): (r: uint32)
    ensures r <= x
  {
    if 0 <= k < 32 then DivBound(x, Pow2(k)); x / Pow2(k) else 0
  }

  lemma DivBound(x: nat, d: nat)
    requires d > 0
    ensures 0 <= x / d <= x
  {
    if x / d > x { MulMonotonic(1, d, x / d); }
    assert x == x / d * d + x % d;
  }

  /** `x >> k` on unsigned words; as for `Shl64`, 0 stands for an undefined shift. */
  function Shr64(x: uint64, k: int): (r: uint64)
    ensures r <= x
  {
    if 0 <= k < 64 then DivBound(x, Pow2(k)); x / Pow2(k) else 0
  }

  // ---------- bitwise operators ----------

  datatype BitOp = BitAnd | BitOr | BitXor

  function Combine(op: BitOp, a: int, b: int): (r: int)
    ensures 0 <= r <= 1
  {
    match op
    case BitAnd => if a == 1 && b == 1 then 1 else 0
    case BitOr => if a == 1 || b == 1 then 1 else 0
    case BitXor => if a != b then 1 else 0
  }

  function Bitwise(op: BitOp, a: nat, b: nat): nat
    decreases a + b
  {
    if a == 0 && b == 0 then 0
    else 2 * Bitwise(op, a / 2, b / 2) + Combine(op, a % 2, b % 2)
  }

  function Bit(x: nat, k: nat): int { x / Pow2(k) % 2 }

  /** The defining property of a bitwise operator. */
  lemma {:induction false} BitwiseBit(op: BitOp, a: nat, b: nat, k: nat)
    ensures Bit(Bitwise(op, a, b), k) == Combine(op, Bit(a, k), Bit(b, k))
    decreases k
  {
    var r := Bitwise(op, a, b);
    assert r / 2 == Bitwise(op, a / 2, b / 2) && r % 2 == Combine(op, a % 2, b % 2);
    if k > 0 {
      BitwiseBit(op, a / 2, b / 2, k - 1);
      DivDiv(r, 2, Pow2(k - 1));
      DivDiv(a, 2, Pow2(k - 1));
      DivDiv(b, 2, Pow2(k - 1));
    }
  }

  lemma {:induction false} BitwiseBound(op: BitOp, a: nat, b: nat, k: nat)
    requires a < Pow2(k) && b < Pow2(k)
    ensures Bitwise(op, a, b) < Pow2(k)
    decreases k
  {
    if k > 0 { BitwiseBound(op, a / 2, b / 2, k - 1); }
  }

  function And64(a: uint64, b: uint64): uint64 {
    Pow2Constants();
    BitwiseBound(BitAnd, a, b, 64);
    Bitwise(BitAnd, a, b)
  }

  function Or64(a: uint64, b: uint64): uint64 {
    Pow2Constants();
    BitwiseBound(BitOr, a, b, 64);
    Bitwise(BitOr, a, b)
  }

  function Xor64(a: uint64, b: uint64): uint64 {
    Pow2Constants();
    BitwiseBound(BitXor, a, b, 64);
    Bitwise(BitXor, a, b)
  }

  /** AND, OR and XOR of two words, bit by bit. */
  lemma WordBits(a: uint64, b: uint64, k: nat)
    ensures And64(a, b) / Pow2(k) % 2 == if a / Pow2(k) % 2 == 1 && b / Pow2(k) % 2 == 1 then 1 else 0
    ensures Or64(a, b) / Pow2(k) % 2 == if a / Pow2(k) % 2 == 1 || b / Pow2(k) % 2 == 1 then 1 else 0
    ensures Xor64(a, b) / Pow2(k) % 2 == if a / Pow2(k) % 2 != b / Pow2(k) % 2 then 1 else 0
  {
    hide Bitwise, Pow2;
    BitwiseBit(BitAnd, a, b, k);
    BitwiseBit(BitOr, a, b, k);
    BitwiseBit(BitXor, a, b, k);
  }

  /** The bits determine the word, so `WordBits` leaves no freedom. */
  lemma {:induction false} BitsDetermine(a: nat, b: nat, n: nat)
    requires a < Pow2(n) && b < Pow2(n)
    requires forall k: nat :: k < n ==> Bit(a, k) == Bit(b, k)
    ensures a == b
    decreases n
  {
    if n > 0 {
      assert Bit(a, 0) == Bit(b, 0);
      forall k: nat | k < n - 1
        ensures Bit(a / 2, k) == Bit(b / 2, k)
      {
        hide Bit;
        HigherBit(a, k);
        HigherBit(b, k);
        assert Bit(a, k + 1) == Bit(b, k + 1);
      }
      hide Bit;
      BitsDetermine(a / 2, b / 2, n - 1);
      LowBit(a);
      LowBit(b);
    }
  }

  lemma HigherBit(a: nat, k: nat)
    ensures Bit(a / 2, k) == Bit(a, k + 1)
  {
    DivDiv(a, 2, Pow2(k));
  }

  lemma LowBit(a: nat)
    ensures a == 2 * (a / 2) + Bit(a, 0)
  {}

  /** The conversions are residues, and the signed readings are the residues' representatives around zero. */
  lemma Conversions(x: int, y: int, u: uint64, w: uint32)
    ensures Add64(x, y) == (x + y) % 0x1_0000_0000_0000_0000
    ensures 0 <= ToU64(x) < 0x1_0000_0000_0000_0000 && (x - ToU64(x)) % 0x1_0000_0000_0000_0000 == 0
    ensures -0x8000_0000_0000_0000 <= Signed(u) < 0x8000_0000_0000_0000
    ensures (Signed(u) - u) % 0x1_0000_0000_0000_0000 == 0
    ensures -0x8000_0000 <= Signed32(w) < 0x8000_0000 && (Signed32(w) - w) % 0x1_0000_0000 == 0
    ensures 0 <= Low32(u) < 0x1_0000_0000 && (u - Low32(u)) % 0x1_0000_0000 == 0
    ensures 0 <= Low8(u) < 0x100 && (u - Low8(u)) % 0x100 == 0
  {}

  /** OR with a multiple of 2^k above the operand is addition. */
  lemma {:induction false} OrDisjoint(a: nat, b: nat, k: nat)
    requires a < Pow2(k)
    ensures Bitwise(BitOr, a, b * Pow2(k)) == a + b * Pow2(k)
    decreases k
  {
    if k == 0 {
      OrZero(b);
    } else {
      HalfMultiple(b, Pow2(k - 1));
      OrDisjoint(a / 2, b, k - 1);
    }
  }

  lemma HalfMultiple(b: nat, p: nat)
    ensures b * (2 * p) == 2 * (b * p) >= 0 && b * (2 * p) / 2 == b * p && b * (2 * p) % 2 == 0
  {
    MulMonotonic(0, b, p);
  }

  lemma {:induction false} OrZero(b: nat)
    ensures Bitwise(BitOr, 0, b) == b
  {
    if b > 0 { OrZero(b / 2); }
  }

  /** AND with a mask of `k` ones is the remainder modulo 2^k. */
  lemma {:induction false} AndMask(x: nat, k: nat)
    ensures Bitwise(BitAnd, x, Pow2(k) - 1) == x % Pow2(k)
    decreases k
  {
    if k == 0 {
      AndZero(x);
    } else {
      AndMask(x / 2, k - 1);
      assert (Pow2(k) - 1) / 2 == Pow2(k - 1) - 1 && (Pow2(k) - 1) % 2 == 1;
      ModDouble(x, Pow2(k - 1));
    }
  }

  lemma ModDouble(x: nat, p: nat)
    requires p > 0
    ensures x % (2 * p) == 2 * (x / 2 % p) + x % 2
  {
    var q, r := x / 2 / p, x / 2 % p;
    assert x / 2 == q * p + r;
    DivModUnique(x, 2 * p, q, 2 * r + x % 2);
  }

  lemma {:induction false} AndZero(x: nat)
    ensures Bitwise(BitAnd, x, 0) == 0
  {
    if x > 0 { AndZero(x / 2); }
  }

  /** AND with 2^k isolates bit `k`. */
  lemma {:induction false} AndSingleBit(x: nat, k: nat)
    ensures Bitwise(BitAnd, x, Pow2(k)) == Bit(x, k) * Pow2(k)
    decreases k
  {
    if k == 0 {
      AndZero(x / 2);
    } else {
      AndSingleBit(x / 2, k - 1);
      DivDiv(x, 2, Pow2(k - 1));
    }
  }

  lemma {:induction false} BitwiseCommutes(op: BitOp, a: nat, b: nat)
    ensures Bitwise(op, a, b) == Bitwise(op, b, a)
    decreases a + b
  {
    if a != 0 || b != 0 { BitwiseCommutes(op, a / 2, b / 2); }
  }
}
