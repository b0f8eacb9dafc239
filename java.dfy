/**
 * The Java platform semantics the library relies on: 32-bit `int` and 64-bit
 * `long` two's-complement values, wrap-around arithmetic, truncating division
 * and remainder, masked shift counts, and the exceptions the library throws.
 *
 * Dafny's own `/` and `%` are Euclidean; Java's truncate toward zero and give
 * the remainder the sign of the dividend, so both are written out here.
 */
module Java {

  const INT_MIN: int := -0x8000_0000
  const INT_MAX: int := 0x7fff_ffff
  const LONG_MIN: int := -0x8000_0000_0000_0000
  const LONG_MAX: int := 0x7fff_ffff_ffff_ffff

  /** A Java `int`. */
  type Int = x: int | INT_MIN <= x <= INT_MAX

  /** A Java `long`. */
  type Long = x: int | LONG_MIN <= x <= LONG_MAX

  /** The unchecked exceptions the modelled code can raise. */
  datatype Exception =
    | IllegalArgument     // Guava's Preconditions.checkArgument failed
    | IndexOutOfBounds    // an array or list index outside its bounds
    | Arithmetic          // integer division or remainder by zero
    | NegativeArraySize   // an array or bit set allocated with a negative size

  /** The outcome of a Java call that returns a value or throws. */
  datatype Result<+T> = Ok(value: T) | Throws(exception: Exception)

  /** The outcome of a Java call returning `void`. */
  datatype Status = Done | Threw(exception: Exception)

  /**
   * The `float` quotient `(float) numerator / denominator` an estimator
   * returns, kept as its two integer operands (floating point is not modelled).
   */
  datatype Ratio = Ratio(numerator: int, denominator: int)

  function Pow2(n: nat): (r: int)
    ensures r >= 1
  {
    if n == 0 then 1 else 2 * Pow2(n - 1)
  }

  lemma {:induction false} Pow2Add(m: nat, n: nat)
    ensures Pow2(m + n) == Pow2(m) * Pow2(n)
  {
    if m > 0 {
      Pow2Add(m - 1, n);
    }
  }

  lemma {:induction false} Pow2Monotonic(m: nat, n: nat)
    requires m <= n
    ensures Pow2(m) <= Pow2(n)
  {
    if m < n {
      Pow2Monotonic(m, n - 1);
    }
  }

  /** Truncation of an exact integer result to a Java `int` (two's complement wrap-around). */
  function Wrap32(x: int): (r: Int)
    ensures (x - r) % 0x1_0000_0000 == 0
    ensures INT_MIN <= x <= INT_MAX ==> r == x
  {
    (x - INT_MIN) % 0x1_0000_0000 + INT_MIN
  }

  /** Truncation of an exact integer result to a Java `long`. */
  function Wrap64(x: int): (r: Long)
    ensures (x - r) % 0x1_0000_0000_0000_0000 == 0
    ensures LONG_MIN <= x <= LONG_MAX ==> r == x
  {
    (x - LONG_MIN) % 0x1_0000_0000_0000_0000 + LONG_MIN
  }

  function Abs(x: int): nat { if x < 0 then -x else x }

  /** Exact quotient rounded toward zero, as Java's `/` computes it before any wrap-around. */
  function Quot(a: int, d: int): int
    requires d != 0
  {
    var q := Abs(a) / Abs(d);
    if (a < 0) == (d < 0) then q else -q
  }

  /** Java's `%`: the remainder takes the sign of the dividend. */
  function Rem(a: int, d: int): int
    requires d != 0
  {
    var r := Abs(a) % Abs(d);
    if a < 0 then -r else r
  }

  /** Euclidean division by a positive divisor never increases a non-negative dividend. */
  lemma DivShrinks(a: nat, d: nat)
    requires d >= 1
    ensures a / d <= a
    ensures d >= 2 && a >= 1 ==> a / d < a
  {
    var q := a / d;
    assert a == q * d + a % d;
    assert q * d >= q by { MulMonotonic(q, 1, d); }
    if d >= 2 && a >= 1 && q >= 1 {
      assert q * d >= 2 * q by { MulMonotonic(q, 2, d); }
    }
  }

  /** Euclidean quotient and remainder are determined by the division identity. */
  lemma DivUnique(x: int, p: int, q: int, r: int)
    requires p >= 1 && x == q * p + r && 0 <= r < p
    ensures x / p == q && x % p == r
  {
    var q', r' := x / p, x % p;
    assert (q - q') * p == r' - r;
    if q > q' {
      MulMonotonic(p, 1, q - q');
    } else if q < q' {
      MulMonotonic(p, 1, q' - q);
    }
  }

  lemma MulMonotonic(q: nat, c: nat, d: nat)
    requires c <= d
    ensures q * c <= q * d
  {
  }

  lemma MulNegate(q: int, d: int)
    ensures q * -d == -(q * d) && -q * d == -(q * d) && -q * -d == q * d
  {
  }

  /** Java's division identity `(a / d) * d + a % d == a`, with the remainder's bounds and sign. */
  lemma QuotRem(a: int, d: int)
    requires d != 0
    ensures Quot(a, d) * d + Rem(a, d) == a
    ensures Abs(Rem(a, d)) < Abs(d)
    ensures a >= 0 ==> Rem(a, d) >= 0
    ensures a <= 0 ==> Rem(a, d) <= 0
  {
    QuotRemIdentity(a, d);
  }

  lemma QuotRemIdentity(a: int, d: int)
    requires d != 0
    ensures Quot(a, d) * d + Rem(a, d) == a
  {
    var aa: int, dd: int := Abs(a), Abs(d);
    var q, r := aa / dd, aa % dd;
    assert aa == q * dd + r && 0 <= r < dd;
    var p := q * dd;
    assert Quot(a, d) * d == (if a < 0 then -p else p) by {
      MulNegate(q, dd);
      if d < 0 {
        assert d == -dd;
      } else {
        assert d == dd;
      }
    }
  }

  /** Only `INT_MIN / -1` leaves the `int` range. */
  lemma QuotRange(a: Int, d: Int)
    requires d != 0
    ensures a != INT_MIN || d != -1 ==> INT_MIN <= Quot(a, d) <= INT_MAX
  {
    var aa, dd := Abs(a), Abs(d);
    DivShrinks(aa, dd);
    if dd == 1 {
      assert aa / dd == aa;
    }
  }

  /** Java `int / int`: throws on a zero divisor; `INT_MIN / -1` wraps back to `INT_MIN`. */
  function IntDiv(a: Int, d: Int): (r: Result<Int>)
    ensures r.Throws? <==> d == 0
    ensures r.Throws? ==> r.exception == Arithmetic
    ensures r.Ok? && (a != INT_MIN || d != -1) ==> r.value == Quot(a, d)
    ensures r.Ok? && a == INT_MIN && d == -1 ==> r.value == INT_MIN
  {
    if d == 0 then Throws(Arithmetic)
    else
      QuotRange(a, d);
      Ok(Wrap32(Quot(a, d)))
  }

  /** Java `int % int`: throws on a zero divisor. */
  function IntRem(a: Int, d: Int): (r: Result<Int>)
    ensures r.Throws? <==> d == 0
    ensures r.Throws? ==> r.exception == Arithmetic
    ensures r.Ok? ==> Abs(r.value) < Abs(d)
    ensures r.Ok? && a < 0 ==> r.value <= 0
    ensures r.Ok? && a >= 0 ==> r.value >= 0
  {
    if d == 0 then Throws(Arithmetic)
    else
      QuotRem(a, d);
      Ok(Rem(a, d))
  }

  /** For a non-zero divisor, `(a / d) * d + a % d == a` holds in 32-bit arithmetic, `INT_MIN / -1` included. */
  lemma IntDivRemIdentity(a: Int, d: Int)
    requires d != 0
    ensures IntDiv(a, d).Ok? && IntRem(a, d).Ok?
    ensures Wrap32(IntDiv(a, d).value * d + IntRem(a, d).value) == a
  {
    QuotRem(a, d);
    if a == INT_MIN && d == -1 {
      assert Rem(a, d) == 0;
      assert IntDiv(a, d).value * d == 0x8000_0000;
    } else {
      QuotRange(a, d);
    }
  }

  /** Java masks an `int` shift count to its low 5 bits; Euclidean `% 32` is exactly that mask. */
  function IntShiftCount(n: int): (s: nat)
    ensures s < 32
    ensures 0 <= n < 32 ==> s == n
  {
    n % 32
  }

  /** Java masks a `long` shift count to its low 6 bits. */
  function LongShiftCount(n: int): (s: nat)
    ensures s < 64
    ensures 0 <= n < 64 ==> s == n
  {
    n % 64
  }

  /** Java `x << n` on `int`. */
  function IntShiftLeft(x: Int, n: int): Int
  {
    Wrap32(x * Pow2(IntShiftCount(n)))
  }

  /** Java `x << n` on `long`. */
  function LongShiftLeft(x: Long, n: int): Long
  {
    Wrap64(x * Pow2(LongShiftCount(n)))
  }

  /** Java `x >> n` on `int`: an arithmetic shift, which rounds toward negative infinity. */
  function IntShiftRight(x: Int, n: int): (r: Int)
    ensures 0 <= x ==> 0 <= r <= x
    ensures x < 0 ==> x <= r < 0
  {
    FloorDivBounds(x, Pow2(IntShiftCount(n)));
    x / Pow2(IntShiftCount(n))
  }

  lemma FloorDivBounds(x: int, p: int)
    requires p >= 1
    ensures 0 <= x ==> 0 <= x / p <= x
    ensures x < 0 ==> x <= x / p < 0
  {
    if x >= 0 {
      DivShrinks(x, p);
    } else {
      var y: nat := -x - 1;
      var a, b := y / p, y % p;
      var ap := a * p;
      assert y == ap + b;
      assert ap >= a by { MulMonotonic(a, 1, p); }
      assert (-a - 1) * p == -ap - p;
      DivUnique(x, p, -a - 1, p - 1 - b);
    }
  }

  /** Adding a multiple of m does not change the Euclidean remainder by m. */
  lemma ModAddMultiple(z: int, m: int, c: int)
    requires m >= 1
    ensures (z + m * c) % m == z % m
  {
    assert z + m * c == (z / m + c) * m + z % m;
    DivUnique(z + m * c, m, z / m + c, z % m);
  }

  /** Wrapping a shift distance to 32 bits does not change the masked shift count. */
  lemma ShiftCountOfWrap32(x: int)
    ensures IntShiftCount(Wrap32(x)) == IntShiftCount(x)
    ensures LongShiftCount(Wrap32(x)) == LongShiftCount(x)
  {
    var r := Wrap32(x);
    var c := (x - r) / 0x1_0000_0000;
    assert x == r + 0x1_0000_0000 * c;
    ModAddMultiple(r, 32, 0x800_0000 * c);
    ModAddMultiple(r, 64, 0x400_0000 * c);
  }
}
