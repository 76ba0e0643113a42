/** Machine words and power-of-two arithmetic, as src/CircularBuffer.cpp uses them.

Words are natural numbers below `WORD`; wrap-around is written out with `% WORD`.
*/
module Bits {

  newtype byte = x: int | 0 <= x < 256

  const WORD: nat := 0x1_0000_0000
  const HALF: nat := 0x8000_0000

  type uint32 = x: nat | x < WORD

  /** Unsigned 32-bit addition and subtraction with wrap-around. */
  function Add32(a: uint32, b: uint32): uint32 {
    if a + b < WORD then a + b else a + b - WORD
  }

  function Sub32(a: uint32, b: uint32): uint32 {
    if a >= b then a - b else a - b + WORD
  }

  lemma WrapAround(a: uint32, b: uint32)
    ensures Add32(a, b) == (a + b) % WORD && Sub32(a, b) == (a - b) % WORD
  {
  }

  lemma Associate<T>(a: seq<T>, b: seq<T>, c: seq<T>)
    ensures (a + b) + c == a + (b + c)
  {
  }

  /** memcpy: `d` with `s` copied over the bytes from `at` on. */
  function Splice(d: seq<byte>, at: nat, s: seq<byte>): (d': seq<byte>)
    requires at + |s| <= |d|
  {
    seq(|d|, i requires 0 <= i < |d| => if at <= i < at + |s| then s[i - at] else d[i])
  }

  function Min(a: nat, b: nat): nat {
    if a < b then a else b
  }

  /** Bitwise conjunction, one binary digit at a time. */
  function BitAnd(x: nat, y: nat): nat {
    if x == 0 || y == 0 then 0
    else 2 * BitAnd(x / 2, y / 2) + (if x % 2 == 1 && y % 2 == 1 then 1 else 0)
  }

  predicate PowerOfTwo(n: nat) {
    n == 1 || (n != 0 && n % 2 == 0 && PowerOfTwo(n / 2))
  }

  /** The bit trick of `is_pow_of_two`. */
  predicate IsPowOfTwo(v: uint32) {
    v != 0 && BitAnd(v, v - 1) == 0
  }

  lemma {:induction false} BitAndSelf(x: nat)
    ensures BitAnd(x, x) == x
  {
    if x != 0 {
      BitAndSelf(x / 2);
    }
  }

  lemma {:induction false} PowOfTwoTrick(v: nat)
    requires v != 0
    ensures BitAnd(v, v - 1) == 0 <==> PowerOfTwo(v)
  {
    if v == 1 {
    } else if v % 2 == 0 {
      assert (v - 1) / 2 == v / 2 - 1;
      PowOfTwoTrick(v / 2);
    } else {
      assert (v - 1) / 2 == v / 2;
      BitAndSelf(v / 2);
    }
  }

  /** The bit trick accepts exactly the powers of two. */
  lemma IsPowOfTwoIsExact(v: uint32)
    ensures IsPowOfTwo(v) <==> PowerOfTwo(v)
  {
    if v != 0 {
      PowOfTwoTrick(v);
    }
  }

  /** Masking with `m - 1` is the remainder modulo `m` for a power of two `m`. */
  lemma {:induction false} MaskIsModulo(x: nat, m: nat)
    requires PowerOfTwo(m)
    ensures BitAnd(x, m - 1) == x % m
  {
    if m == 1 || x == 0 {
    } else {
      var h := m / 2;
      MaskIsModulo(x / 2, h);
      assert (m - 1) / 2 == h - 1 && (m - 1) % 2 == 1;
      DoubleModulo(x, h);
    }
  }

  lemma DoubleModulo(x: nat, h: nat)
    requires h > 0
    ensures x % (2 * h) == 2 * ((x / 2) % h) + x % 2
  {
    var q, r := (x / 2) / h, (x / 2) % h;
    assert x == (2 * h) * q + (2 * r + x % 2);
    ModuloUnique(x, 2 * h, q, 2 * r + x % 2);
  }

  lemma {:induction false} MulMonotone(m: nat, a: int, b: int)
    requires a < b
    ensures m * a + m <= m * b
    decreases b - a
  {
    if a + 1 < b {
      MulMonotone(m, a, b - 1);
    }
  }

  lemma ModuloUnique(x: int, m: nat, q: int, r: nat)
    requires m > 0 && r < m && x == m * q + r
    ensures x % m == r && x / m == q
  {
    var q', r' := x / m, x % m;
    assert x == m * q' + r';
    if q > q' {
      MulMonotone(m, q', q);
    } else if q < q' {
      MulMonotone(m, q, q');
    }
  }

  lemma {:induction false} PowersDivide(a: nat, b: nat)
    requires PowerOfTwo(a) && PowerOfTwo(b) && a <= b
    ensures b % a == 0
  {
    if a == 1 {
    } else {
      PowersDivide(a / 2, b / 2);
      var q := (b / 2) / (a / 2);
      assert b / 2 == (a / 2) * q;
      assert b == a * q;
      ModuloUnique(b, a, q, 0);
    }
  }

  function Pow2(k: nat): (p: nat)
    ensures PowerOfTwo(p)
  {
    if k == 0 then 1 else 2 * Pow2(k - 1)
  }

  lemma {:induction false} Pow2Monotone(j: nat, k: nat)
    requires j <= k
    ensures Pow2(j) <= Pow2(k)
  {
    if j < k {
      Pow2Monotone(j, k - 1);
    }
  }

  lemma WordIsPower()
    ensures Pow2(31) == HALF && PowerOfTwo(HALF) && PowerOfTwo(WORD)
  {
    assert Pow2(4) == 16 && Pow2(8) == 256 && Pow2(12) == 0x1000 && Pow2(16) == 0x1_0000;
    assert Pow2(20) == 0x10_0000 && Pow2(24) == 0x100_0000 && Pow2(28) == 0x1000_0000;
    assert Pow2(32) == WORD;
  }

  lemma DropMultiple(y: int, w: nat, m: nat)
    requires m > 0 && w % m == 0
    ensures (y - w) % m == y % m
  {
    var d, e, f := w / m, (y - w) / m, (y - w) % m;
    assert m * (d + e) == m * d + m * e;
    ModuloUnique(y, m, d + e, f);
  }

  /** A counter that wraps at 2^32 keeps its remainder modulo every buffer capacity. */
  lemma WrapKeepsIndex(x: uint32, n: uint32, m: nat)
    requires PowerOfTwo(m) && m <= HALF
    ensures Add32(x, n) % m == (x + n) % m
  {
    WordIsPower();
    PowersDivide(m, WORD);
    DropMultiple(x + n, WORD, m);
  }

  lemma ModuloShift(a: int, b: int, m: nat)
    requires m > 0
    ensures (a % m + b) % m == (a + b) % m
  {
    var q, r := (a % m + b) / m, (a % m + b) % m;
    assert a + b == m * (a / m + q) + r;
    ModuloUnique(a + b, m, a / m + q, r);
  }

  /** Walking at most one lap from an index needs at most one subtraction. */
  lemma ModuloStep(o: nat, i: nat, m: nat)
    requires o < m && i <= m
    ensures (o + i) % m == if o + i < m then o + i else o + i - m
  {
    if o + i < m {
      ModuloUnique(o + i, m, 0, o + i);
    } else {
      ModuloUnique(o + i, m, 1, o + i - m);
    }
  }

  /** The least power of two that is at least `v`, defined by halving. */
  function LeastPower(v: nat): (p: nat)
    ensures PowerOfTwo(p) && v <= p && (1 < v ==> p < 2 * v)
  {
    if v <= 1 then 1
    else
      var half := LeastPower((v + 1) / 2);
      assert (2 * half) / 2 == half && half != 0;
      2 * half
  }

  lemma {:induction false} LeastPowerIsLeast(v: nat, p: nat)
    requires PowerOfTwo(p) && v <= p
    ensures LeastPower(v) <= p
  {
    if v > 1 {
      LeastPowerIsLeast((v + 1) / 2, p / 2);
    }
  }

  lemma {:induction false} PowerGap(p: nat, q: nat)
    requires PowerOfTwo(p) && PowerOfTwo(q) && p < q
    ensures 2 * p <= q
  {
    if p > 1 {
      PowerGap(p / 2, q / 2);
    }
  }

  /** What `roundup_pow_of_two` returns: 2 below 2, saturation at 2^31 above it. */
  function Roundup(v: uint32): (p: uint32)
    ensures PowerOfTwo(p) && p <= HALF
    ensures v <= HALF ==> v <= p
  {
    WordIsPower();
    if v < 2 then 2
    else if v > HALF then HALF
    else LeastPowerIsLeast(v, HALF); LeastPower(v)
  }

  /** In range, the result is a power of two, large enough, and no smaller power of two is. */
  lemma RoundupIsLeast(v: uint32, p: nat)
    requires 2 <= v <= HALF && PowerOfTwo(p)
    ensures v <= p <==> Roundup(v) <= p
  {
    if v <= p {
      LeastPowerIsLeast(v, p);
    }
  }

  /** The rounding loop of `roundup_pow_of_two`: 31 tests, then the last shift unchecked. */
  method RoundupPowOfTwo(v: uint32) returns (ret: uint32)
    ensures ret == Roundup(v)
  {
    WordIsPower();
    if v < 2 {
      return 2;
    }
    ret := 1;
    var i := 1;
    while i < 32
      invariant 1 <= i <= 32
      invariant ret == Pow2(i - 1) <= HALF
      invariant ret < 2 * v
    {
      if ret >= v {
        FoundLeast(v, ret);
        return ret;
      }
      Pow2Monotone(i, 31);
      assert ret * 2 == Pow2(i) <= HALF;
      ret := ret * 2 % WORD;
      i := i + 1;
    }
    if v <= HALF {
      FoundLeast(v, ret);
    }
  }

  lemma FoundLeast(v: nat, p: nat)
    requires PowerOfTwo(p) && 1 < v <= p < 2 * v
    ensures p == LeastPower(v)
  {
    LeastPowerIsLeast(v, p);
    if LeastPower(v) < p {
      PowerGap(LeastPower(v), p);
    }
  }
}
