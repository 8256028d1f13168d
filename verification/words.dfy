/**
  Machine words and the bit operations that `__arch_get_hw_counter` uses to
  glue the two halves of the RV32 time counter back together, and the
  arithmetic meaning of that glue (`Join`).

  Words are integer newtypes, so the C operators are written out: an unsigned
  left shift is a multiplication by a power of two truncated to 64 bits, and
  `|` is the bitwise or of two naturals, computed one bit at a time.
 */
module Words {

  /*
    2^32 and 2^64. The bodies below write these numbers as literals instead:
    the solver treats a named constant as an unknown, which turns each
    multiplication or division by it into nonlinear arithmetic.
   */
  const TWO32: int := 0x1_0000_0000
  const TWO64: int := 0x1_0000_0000_0000_0000

  newtype u32 = x: int | 0 <= x < 0x1_0000_0000
  newtype u64 = x: int | 0 <= x < 0x1_0000_0000_0000_0000
  newtype s32 = x: int | -0x8000_0000 <= x < 0x8000_0000

  function Pow2(n: nat): (p: nat)
    ensures p >= 1
  {
    if n == 0 then 1 else 2 * Pow2(n - 1)
  }

  lemma {:induction false} Pow2Add(a: nat, b: nat)
    ensures Pow2(a + b) == Pow2(a) * Pow2(b)
  {
    if a > 0 {
      Pow2Add(a - 1, b);
      assert Pow2(a + b) == 2 * Pow2(a - 1 + b);
    }
  }

  lemma Pow2Words()
    ensures Pow2(32) == TWO32 && Pow2(64) == TWO64
  {
    assert Pow2(2) == 4;
    Pow2Add(2, 2);
    Pow2Add(4, 4);
    Pow2Add(8, 8);
    Pow2Add(16, 16);
    Pow2Add(32, 32);
  }

  /** Bitwise or of two naturals: the low bits are or-ed, the rest recursively. */
  function BitOr(a: nat, b: nat): (r: nat)
    ensures a <= r && b <= r
    ensures r <= a + b
    decreases a + b
  {
    if a == 0 && b == 0 then 0
    else 2 * BitOr(a / 2, b / 2) + (if a % 2 == 1 || b % 2 == 1 then 1 else 0)
  }

  lemma {:induction false} BitOrZero(a: nat)
    ensures BitOr(a, 0) == a
    decreases a
  {
    if a > 0 {
      BitOrZero(a / 2);
    }
  }

  /** Or-ing two values of at most `n` bits gives a value of at most `n` bits. */
  lemma {:induction false} BitOrBelow(a: nat, b: nat, n: nat)
    requires a < Pow2(n) && b < Pow2(n)
    ensures BitOr(a, b) < Pow2(n)
  {
    if n > 0 && !(a == 0 && b == 0) {
      BitOrBelow(a / 2, b / 2, n - 1);
    }
  }

  /** When `l` fits in the `n` bits that `h << n` leaves clear, or is addition. */
  lemma {:induction false} BitOrDisjoint(h: nat, l: nat, n: nat)
    requires l < Pow2(n)
    ensures BitOr(h * Pow2(n), l) == h * Pow2(n) + l
  {
    if n == 0 {
      BitOrZero(h);
    } else {
      var a := h * Pow2(n);
      var half := h * Pow2(n - 1);
      assert a == 2 * half;
      assert a / 2 == half && a % 2 == 0;
      BitOrDisjoint(h, l / 2, n - 1);
      if a != 0 || l != 0 {
        assert BitOr(a, l) == 2 * BitOr(half, l / 2) + (if l % 2 == 1 then 1 else 0);
      }
    }
  }

  /** C's `a | b` on two u64 values. */
  function Or64(a: u64, b: u64): (r: u64)
    ensures a <= r && b <= r
    ensures r as int <= a as int + b as int
  {
    Pow2Words();
    BitOrBelow(a as nat, b as nat, 64);
    BitOr(a as nat, b as nat) as u64
  }

  /** `a % m` is the remainder of any division of `a` into `q` parts of `m` and a rest below `m`. */
  lemma ModOfDivision(a: int, q: int, m: int, rest: int)
    requires m > 0 && 0 <= rest < m && a == q * m + rest
    ensures a % m == rest
  {
    var d := a / m;
    var e := d - q;
    assert a == d * m + a % m;
    assert e * m == d * m - q * m;
    assert e * m == rest - a % m;
  }

  /** Scaling both sides of a division by `p` scales the remainder by `p`. */
  lemma ModScaled(x: int, m: int, p: int)
    requires x >= 0 && m > 0 && p > 0
    ensures (x * p) % (m * p) == (x % m) * p
  {
    var k := x / m;
    var rest := x % m;
    ScaleDivision(x, k, m, rest, p);
    ModOfDivision(x * p, k, m * p, rest * p);
  }

  lemma ScaleDivision(x: int, k: int, m: int, rest: int, p: int)
    requires x == k * m + rest && 0 <= rest < m && p > 0
    ensures x * p == k * (m * p) + rest * p
    ensures 0 <= rest * p < m * p
  {
    calc {
      x * p;
      (k * m + rest) * p;
      k * m * p + rest * p;
      k * (m * p) + rest * p;
    }
    assert m * p - rest * p == (m - rest) * p;
  }

  /**
    C's `x << 32` on a u64: the low 32 bits move into the high half and the
    high 32 bits are shifted out and lost.
   */
  function ShiftLeft64By32(x: u64): (r: u64)
    ensures r == Join(Lo(x), 0)
    ensures x < 0x1_0000_0000 ==> r as int == x as int * 0x1_0000_0000
  {
    ModScaled(x as int, 0x1_0000_0000, 0x1_0000_0000);
    (x as int * 0x1_0000_0000 % 0x1_0000_0000_0000_0000) as u64
  }

  /** Upper 32 bits of a 64-bit value: what CSR `timeh` shows of the counter. */
  function Hi(v: u64): u32
  {
    (v as int / 0x1_0000_0000) as u32
  }

  /** Lower 32 bits of a 64-bit value: what CSR `time` shows on RV32. */
  function Lo(v: u64): u32
  {
    (v as int % 0x1_0000_0000) as u32
  }

  /** The 64-bit value whose upper half is `hi` and whose lower half is `lo`. */
  function Join(hi: u32, lo: u32): u64
  {
    (hi as int * 0x1_0000_0000 + lo as int) as u64
  }

  /** Joining two halves and then splitting the result gives both halves back. */
  lemma JoinSplit(hi: u32, lo: u32)
    ensures Hi(Join(hi, lo)) == hi && Lo(Join(hi, lo)) == lo
  {
  }

  /** Splitting any 64-bit value into its halves and joining them gives it back. */
  lemma SplitJoin(v: u64)
    ensures Join(Hi(v), Lo(v)) == v
  {
    assert v as int == (v as int / 0x1_0000_0000) * 0x1_0000_0000 + v as int % 0x1_0000_0000;
  }

  /**
    `((u64)hi << 32) | lo`, operator by operator: it joins the two halves.
    A method, so that callers see only what it computes, not how.
   */
  method Combine(hi: u32, lo: u32) returns (v: u64)
    ensures v == Join(hi, lo)
  {
    Pow2Words();
    var shifted := ShiftLeft64By32(hi as u64);
    assert shifted as int == hi as int * Pow2(32);
    BitOrDisjoint(hi as nat, lo as nat, 32);
    v := Or64(shifted, lo as u64);
  }

  /** The high half never decreases as the counter grows. */
  lemma HiMonotone(a: u64, b: u64)
    requires a <= b
    ensures Hi(a) <= Hi(b)
  {
    assert (a as int / 0x1_0000_0000) * 0x1_0000_0000 <= a as int;
  }

  /**
    A value caught between two values with the same high half has that high
    half too, so the low half alone pins it down.
   */
  lemma SameHighBetween(a: u64, b: u64, c: u64)
    requires a <= b <= c && Hi(a) == Hi(c)
    ensures Join(Hi(a), Lo(b)) == b
  {
    HiMonotone(a, b);
    HiMonotone(b, c);
    SplitJoin(b);
  }
}
