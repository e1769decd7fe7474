/** Rust's 64-bit `isize` and the handful of its operations the allocator uses,
    stated on unbounded integers with the machine bounds written out. */
module Isize {

  const MIN: int := -0x8000_0000_0000_0000
  const MAX: int := 0x7fff_ffff_ffff_ffff
  /** Number of distinct 64-bit values; wrapping arithmetic works modulo this. */
  const MODULUS: int := 0x1_0000_0000_0000_0000

  predicate InRange(x: int) {
    MIN <= x <= MAX
  }

  /** 2^k, the value `2_usize.pow(k)` computes when it does not overflow. */
  function Pow2(k: nat): (r: int)
    ensures r >= 1
  {
    if k == 0 then 1 else 2 * Pow2(k - 1)
  }

  lemma {:induction false} Pow2Add(j: nat, k: nat)
    ensures Pow2(j + k) == Pow2(j) * Pow2(k)
  {
    if k > 0 {
      Pow2Add(j, k - 1);
      assert Pow2(j + k) == 2 * Pow2(j + k - 1);
    }
  }

  lemma Pow2Monotone(j: nat, k: nat)
    requires j <= k
    ensures Pow2(j) <= Pow2(k)
  {
    Pow2Add(j, k - j);
  }

  /** The powers of two at the top of the 64-bit range. */
  lemma Pow2Top()
    ensures Pow2(62) == 0x4000_0000_0000_0000
    ensures Pow2(63) == MAX + 1
    ensures Pow2(64) == MODULUS
  {
    assert Pow2(2) == 4;
    Pow2Add(2, 2);
    Pow2Add(4, 4);
    Pow2Add(8, 8);
    Pow2Add(16, 16);
    Pow2Add(32, 32);
    assert Pow2(64) == MODULUS;
    Pow2Add(62, 2);
    Pow2Add(63, 1);
  }

  /** Every power of two up to 2^64 divides 2^64. */
  lemma Pow2DividesModulus(k: nat)
    requires k <= 64
    ensures MODULUS == Pow2(k) * Pow2(64 - k)
  {
    Pow2Add(k, 64 - k);
    Pow2Top();
  }

  /** Euclidean division is determined by quotient and remainder. */
  lemma DivUnique(n: int, d: int, q: int, r: int)
    requires d > 0 && 0 <= r < d && n == d * q + r
    ensures n / d == q && n % d == r
  {
    var q', r' := n / d, n % d;
    assert d * (q - q') == r' - r;
    MultipleBound(d, q - q');
  }

  /** A non-zero multiple of d is at least d away from zero. */
  lemma MultipleBound(d: int, t: int)
    requires d > 0
    ensures t == 0 || d * t >= d || d * t <= -d
  {
    if t > 0 {
      MultiplePositive(d, t);
    } else if t < 0 {
      MultiplePositive(d, -t);
      assert d * t == -(d * -t);
    }
  }

  lemma {:induction false} MultiplePositive(d: int, t: int)
    requires d > 0 && t > 0
    ensures d * t >= d
  {
    if t > 1 {
      MultiplePositive(d, t - 1);
      assert d * t == d * (t - 1) + d;
    }
  }

  /** Dividing by 2 and then by p is dividing by 2p (with floors). */
  lemma HalfThenDiv(y: int, p: int)
    requires p > 0
    ensures (y / 2) / p == y / (2 * p)
  {
    var q, r := y / (2 * p), y % (2 * p);
    assert y == 2 * (p * q + r / 2) + r % 2;
    DivUnique(y, 2, p * q + r / 2, r % 2);
    DivUnique(y / 2, p, q, r / 2);
  }

  /** A multiple of d leaves no remainder. */
  lemma MultipleMod(d: int, t: int)
    requires d > 0
    ensures (d * t) % d == 0
  {
    DivUnique(d * t, d, t, 0);
  }

  /** Rounding n down to a multiple of d moves it by less than d. */
  lemma RoundDown(n: int, d: int)
    requires d > 0
    ensures ((n / d) * d) % d == 0
    ensures n - d < (n / d) * d <= n
  {
    var q := n / d;
    assert q * d == d * q;
    assert n == d * q + n % d;
    MultipleMod(d, q);
  }

  /** A negative multiple of d is at most -d. */
  lemma NegativeMultiple(r: int, d: int)
    requires d > 0 && r % d == 0
    ensures r < 0 ==> r <= -d
  {
    assert r == d * (r / d);
    MultipleBound(d, r / d);
  }

  /** If a divides b, x and every multiple of b, it divides x plus a multiple of b. */
  lemma DividesSum(a: int, b: int, x: int, y: int)
    requires a > 0 && b > 0
    requires b % a == 0 && x % a == 0 && y % b == 0
    ensures (x + y) % a == 0
  {
    var i, c, j := x / a, b / a, y / b;
    assert x == a * i;
    assert b == a * c;
    assert y == b * j;
    assert y == a * (c * j);
    assert x + y == a * (i + c * j);
    MultipleMod(a, i + c * j);
  }

  /** `isize::abs`; it overflows (and panics in a debug build) on `isize::MIN`. */
  function Abs(x: int): (r: int)
    requires InRange(x) && x != MIN
    ensures InRange(r) && r >= 0
    ensures r == x || r == -x
  {
    if x < 0 then -x else x
  }

  /** Rust's `%` on isize: the remainder of a division truncated toward zero,
      so it takes the sign of the dividend. `isize::MIN % -1` overflows and
      panics in Rust, so it is excluded. */
  function Rem(x: int, m: int): (r: int)
    requires InRange(x) && InRange(m) && m != 0
    requires !(x == MIN && m == -1)
    ensures (x - r) % m == 0
    ensures x >= 0 ==> 0 <= r < (if m < 0 then -m else m)
    ensures x < 0 ==> -(if m < 0 then -m else m) < r <= 0
  {
    var d := if m < 0 then -m else m;
    var q := if x >= 0 then x / d else -((-x) / d);
    var r := if x >= 0 then x % d else -((-x) % d);
    assert x - r == d * q;
    var q' := if m < 0 then -q else q;
    assert x - r == m * q';
    RemOfMultiple(m, q');
    r
  }

  /** A multiple of m leaves no remainder, whatever the sign of m. */
  lemma RemOfMultiple(m: int, t: int)
    requires m != 0
    ensures (m * t) % m == 0
  {
    if m > 0 {
      MultipleMod(m, t);
    } else {
      var n := -m;
      var q, r := (m * t) / m, (m * t) % m;
      assert m * t == m * q + r && 0 <= r < n;
      assert n * (q - t) == r;
      MultipleBound(n, q - t);
    }
  }

  /** `isize::saturating_sub`: the isize nearest to the exact difference. */
  function SaturatingSub(a: int, b: int): (r: int)
    requires InRange(a) && InRange(b)
    ensures InRange(r)
    ensures InRange(a - b) ==> r == a - b
    ensures forall y :: InRange(y) ==> Distance(r, a - b) <= Distance(y, a - b)
  {
    if a - b < MIN then MIN else if a - b > MAX then MAX else a - b
  }

  function Distance(x: int, y: int): nat {
    if x < y then y - x else x - y
  }

  /** The `!` operator on two's-complement integers of unbounded width,
      flipping every bit, lowest first; arithmetically it is -x - 1. */
  function BitNot(x: int): (r: int)
    ensures r == -x - 1
    decreases if x < 0 then -x else x
  {
    if x == 0 then -1
    else if x == -1 then 0
    else 2 * BitNot(x / 2) + (1 - x % 2)
  }

  /** The `&` operator on two's-complement integers of unbounded width, bit
      by bit, lowest first. The sign bit of the result is the `&` of the sign
      bits, and a non-negative operand bounds the result. */
  function BitAnd(x: int, y: int): (r: int)
    ensures r < 0 <==> x < 0 && y < 0
    ensures x >= 0 ==> r <= x
    ensures y >= 0 ==> r <= y
    decreases if x < 0 then -x else x
  {
    if x == 0 || y == 0 then 0
    else if x == -1 then y
    else if y == -1 then x
    else 2 * BitAnd(x / 2, y / 2) + (if x % 2 == 1 && y % 2 == 1 then 1 else 0)
  }

  /** Masking with -2^k (the mask `!(2^k - 1)`) clears the k low bits, which is
      rounding down to a multiple of 2^k, for negative values too. */
  lemma {:induction false} BitAndClearsLowBits(y: int, k: nat)
    ensures BitAnd(y, -Pow2(k)) == (y / Pow2(k)) * Pow2(k)
    decreases k
  {
    var p := Pow2(k);
    if k == 0 {
      assert p == 1;
    } else if y == 0 {
    } else if y == -1 {
      DivUnique(-1, p, -1, p - 1);
    } else {
      BitAndStep(y, k);
      BitAndClearsLowBits(y / 2, k - 1);
      HalfThenDiv(y, Pow2(k - 1));
      DoubleFactor(y / p, Pow2(k - 1));
    }
  }

  lemma DoubleFactor(q: int, p: int)
    ensures 2 * (q * p) == q * (2 * p)
  {
  }

  lemma BitAndStep(y: int, k: nat)
    requires k > 0 && y != 0 && y != -1
    ensures Pow2(k) == 2 * Pow2(k - 1)
    ensures BitAnd(y, -Pow2(k)) == 2 * BitAnd(y / 2, -Pow2(k - 1))
  {
    var p, p' := Pow2(k), Pow2(k - 1);
    DivUnique(-p, 2, -p', 0);
  }

  /** Wrapping conversion to isize: the one isize congruent to x modulo 2^64,
      which is what a release build computes for an overflowing `+`. */
  function Wrap(x: int): (r: int)
    ensures InRange(r)
    ensures (r - x) % MODULUS == 0
    ensures InRange(x) ==> r == x
  {
    var r := (x - MIN) % MODULUS + MIN;
    assert (r - x) % MODULUS == 0 by {
      assert r - x == MODULUS * -((x - MIN) / MODULUS);
      MultipleMod(MODULUS, -((x - MIN) / MODULUS));
    }
    assert InRange(x) ==> r == x by {
      if InRange(x) {
        DivUnique(x - MIN, MODULUS, 0, x - MIN);
      }
    }
    r
  }
}
