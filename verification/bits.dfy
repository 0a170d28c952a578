/**
 * Machine words and the bitwise operators that the C++ sources use, stated on
 * natural numbers: `x >> b` is `x / Pow2(b)`, `x << b` is `x * Pow2(b)` (reduced
 * modulo the word size where the source can overflow), `x & (2^b - 1)` is
 * `x % Pow2(b)`, and `^`, `|` are the recursive `Xor` and `Or` below.
 */
module Bits {

  const TWO_8: nat := 0x100
  const TWO_32: nat := 0x1_0000_0000
  const TWO_64: nat := 0x1_0000_0000_0000_0000

  type u8 = x: nat | x < 0x100
  type u32 = x: nat | x < 0x1_0000_0000
  type u64 = x: nat | x < 0x1_0000_0000_0000_0000

  datatype Option<T> = None | Some(value: T)

  function Pow2(n: nat): (r: nat)
    ensures r >= 1
  {
    if n == 0 then 1 else 2 * Pow2(n - 1)
  }

  lemma Pow2Constants()
    ensures Pow2(8) == TWO_8 && Pow2(16) == 0x1_0000
    ensures Pow2(32) == TWO_32 && Pow2(64) == TWO_64
  {
    assert Pow2(0) == 1;
    assert Pow2(4) == 16;
    assert Pow2(8) == 256;
    Pow2Add(8, 8);
    Pow2Add(16, 16);
    Pow2Add(32, 32);
  }

  lemma {:induction false} Pow2Add(a: nat, b: nat)
    ensures Pow2(a + b) == Pow2(a) * Pow2(b)
  {
    if b > 0 {
      Pow2Add(a, b - 1);
      calc {
        Pow2(a + b);
        2 * Pow2(a + b - 1);
        2 * (Pow2(a) * Pow2(b - 1));
        Pow2(a) * (2 * Pow2(b - 1));
      }
    }
  }

  lemma {:induction false} Pow2Strict(a: nat, b: nat)
    requires a < b
    ensures Pow2(a) < Pow2(b)
  {
    if a + 1 < b {
      Pow2Strict(a, b - 1);
    }
  }

  lemma Pow2Monotone(a: nat, b: nat)
    requires a <= b
    ensures Pow2(a) <= Pow2(b)
  {
    if a < b {
      Pow2Strict(a, b);
    }
  }

  /** Bitwise exclusive or, `a ^ b`. */
  function Xor(a: nat, b: nat): nat
    decreases a + b
  {
    if a == 0 && b == 0 then 0
    else 2 * Xor(a / 2, b / 2) + (if a % 2 == b % 2 then 0 else 1)
  }

  /** Bitwise or, `a | b`. */
  function Or(a: nat, b: nat): nat
    decreases a + b
  {
    if a == 0 && b == 0 then 0
    else 2 * Or(a / 2, b / 2) + (if a % 2 == 1 || b % 2 == 1 then 1 else 0)
  }

  lemma {:induction false} XorBound(a: nat, b: nat, n: nat)
    requires a < Pow2(n) && b < Pow2(n)
    ensures Xor(a, b) < Pow2(n)
    decreases n
  {
    if !(a == 0 && b == 0) {
      assert n > 0;
      XorBound(a / 2, b / 2, n - 1);
    }
  }

  lemma {:induction false} XorCancel(a: nat, b: nat)
    ensures Xor(Xor(a, b), b) == a
    decreases a + b
  {
    if a == 0 && b == 0 {
    } else {
      var x := Xor(a, b);
      XorCancel(a / 2, b / 2);
      assert x / 2 == Xor(a / 2, b / 2) && x % 2 == (if a % 2 == b % 2 then 0 else 1);
      XorUnfold(x, b);
    }
  }

  lemma {:induction false} XorComm(a: nat, b: nat)
    ensures Xor(a, b) == Xor(b, a)
    decreases a + b
  {
    if !(a == 0 && b == 0) {
      XorComm(a / 2, b / 2);
    }
  }

  /** The defining equation of `Xor` also holds at (0, 0). */
  lemma XorUnfold(a: nat, b: nat)
    ensures Xor(a, b) == 2 * Xor(a / 2, b / 2) + (if a % 2 == b % 2 then 0 else 1)
  {
  }

  lemma {:induction false} OrZero(a: nat)
    ensures Or(a, 0) == a
    decreases a
  {
    if a > 0 {
      OrZero(a / 2);
    }
  }

  /**
   * Or-ing a value below 2^s into a multiple of 2^s is addition: the two
   * operands have no set bit in common.
   */
  lemma {:induction false} OrDisjoint(j: nat, low: nat, s: nat)
    requires low < Pow2(s)
    ensures Or(j * Pow2(s), low) == j * Pow2(s) + low
    decreases s
  {
    if s == 0 {
      OrZero(j * Pow2(s));
    } else {
      var high := j * Pow2(s);
      assert high == 2 * (j * Pow2(s - 1));
      OrDisjoint(j, low / 2, s - 1);
      if high == 0 && low == 0 {
      } else {
        assert high / 2 == j * Pow2(s - 1) && high % 2 == 0;
        assert Or(high, low) == 2 * Or(high / 2, low / 2) + (if low % 2 == 1 then 1 else 0);
      }
    }
  }

  /** Dividing by d a value below j * d gives a quotient below j. */
  lemma DivBelow(k: nat, d: nat, j: nat)
    requires d > 0 && k < j * d
    ensures k / d < j
  {
    var q := k / d;
    assert d * q <= k;
    MulCancelLess(d, q, j);
  }

  lemma MulCancelLess(d: nat, q: nat, j: nat)
    requires d > 0 && d * q < d * j
    ensures q < j
  {
  }

  /** Euclidean division is unique: `m * q + r` with `0 <= r < m` has remainder `r`. */
  lemma ModUnique(q: int, r: int, m: int)
    requires 0 <= r < m
    ensures (m * q + r) % m == r && (m * q + r) / m == q
  {
    var n := m * q + r;
    var q', r' := n / m, n % m;
    assert m * q' + r' == m * q + r;
    var d := q' - q;
    assert m * d == r - r' by {
      assert m * q' - m * q == m * (q' - q);
    }
    if d >= 1 {
      MulAtLeast(m, d);
    } else if d <= -1 {
      MulAtLeast(m, -d);
    }
  }

  lemma MulAtLeast(m: int, d: int)
    requires m > 0 && d >= 1
    ensures m * d >= m
  {
    assert m * d == m + m * (d - 1);
    assert m * (d - 1) >= 0;
  }

  /** `x >> s`: s halvings. */
  function ShiftRight(x: nat, s: nat): (r: nat)
    ensures r <= x
  {
    if s == 0 then x else ShiftRight(x / 2, s - 1)
  }

  /** Shifting right by s divides by 2^s. */
  lemma {:induction false} ShiftRightDiv(x: nat, s: nat)
    ensures ShiftRight(x, s) == x / Pow2(s)
  {
    if s > 0 {
      ShiftRightDiv(x / 2, s - 1);
      HalveThenDivide(x, Pow2(s - 1));
    }
  }

  /** `x & (2^s - 1)`: the low s bits, one halving at a time. */
  function LowBits(x: nat, s: nat): (r: nat)
    ensures r <= x
  {
    if s == 0 then 0 else 2 * LowBits(x / 2, s - 1) + x % 2
  }

  lemma {:induction false} LowBitsBelow(x: nat, s: nat)
    ensures LowBits(x, s) < Pow2(s)
  {
    if s > 0 {
      LowBitsBelow(x / 2, s - 1);
    }
  }

  /** The high bits shifted back up, plus the low bits, give the value back. */
  lemma {:induction false} SplitBits(x: nat, s: nat)
    ensures ShiftRight(x, s) * Pow2(s) + LowBits(x, s) == x
  {
    if s > 0 {
      SplitBits(x / 2, s - 1);
      var h := ShiftRight(x / 2, s - 1);
      assert h * Pow2(s) == 2 * (h * Pow2(s - 1));
    }
  }

  lemma HalveThenDivide(x: nat, d: nat)
    requires d > 0
    ensures x / 2 / d == x / (2 * d)
  {
    var h, q := x / 2, x / 2 / d;
    var r := h % d;
    assert x == 2 * h + x % 2;
    assert h == d * q + r;
    assert x == (2 * d) * q + (2 * r + x % 2);
    ModUnique(q, 2 * r + x % 2, 2 * d);
  }

  lemma {:induction false} OrComm(a: nat, b: nat)
    ensures Or(a, b) == Or(b, a)
    decreases a + b
  {
    if !(a == 0 && b == 0) {
      OrComm(a / 2, b / 2);
    }
  }

  /** `lo | ((uint64_t) hi << 32)`: the 64-bit word with low half lo and high half hi. */
  function Word(lo: u32, hi: u32): (r: u64)
    ensures r == hi * TWO_32 + lo
  {
    WordDisjoint(lo, hi);
    Or(hi * TWO_32, lo)
  }

  lemma WordDisjoint(lo: u32, hi: u32)
    ensures Or(hi * TWO_32, lo) == hi * TWO_32 + lo
    ensures hi * TWO_32 + lo < TWO_64
  {
    Pow2Constants();
    OrDisjoint(hi, lo, 32);
  }

  /** The two halves come back out of the word. */
  lemma WordHalves(lo: u32, hi: u32)
    ensures Word(lo, hi) / TWO_32 == hi && Word(lo, hi) % TWO_32 == lo
  {
  }
}
