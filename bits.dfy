/**
 * Two's-complement bit strings. A Java `int` is 32 bits and a `long` 64 bits,
 * least significant bit first. Bitwise operators (`&`, `|`, `~`, `<<`, `>>>`)
 * act bit by bit on these strings, and `Unsigned` / `Signed` turn a string back
 * into the number it denotes. The lemmas connect the two views.
 */
module Bits {
  import opened Java

  /** The 64 bits of a Java `long`. */
  type Word = w: seq<bool> | |w| == 64 witness BitsOf(0, 64)

  /** Bit i of x in two's complement, sign-extended without end (so -1 has every bit set). */
  function Bit(x: int, i: nat): bool
    decreases i
  {
    if i == 0 then x % 2 == 1 else Bit(x / 2, i - 1)
  }

  /** The n low bits of x, least significant first. */
  function BitsOf(x: int, n: nat): (s: seq<bool>)
    ensures |s| == n
  {
    seq(n, i requires 0 <= i < n => Bit(x, i))
  }

  /** The number a bit string denotes in unsigned binary. */
  function Unsigned(s: seq<bool>): nat
  {
    if s == [] then 0 else (if s[0] then 1 else 0) + 2 * Unsigned(s[1..])
  }

  /** The number a non-empty bit string denotes in two's complement: the top bit weighs -2^(n-1). */
  function Signed(s: seq<bool>): (r: int)
    requires |s| >= 1
    ensures -Pow2(|s| - 1) <= r < Pow2(|s| - 1)
    ensures !s[|s| - 1] ==> r == Unsigned(s)
  {
    UnsignedTop(s);
    UnsignedBound(s[..|s| - 1]);
    Unsigned(s) - (if s[|s| - 1] then Pow2(|s|) else 0)
  }

  function AndBits(a: seq<bool>, b: seq<bool>): (r: seq<bool>)
    requires |a| == |b|
    ensures |r| == |a|
  {
    seq(|a|, i requires 0 <= i < |a| => a[i] && b[i])
  }

  function OrBits(a: seq<bool>, b: seq<bool>): (r: seq<bool>)
    requires |a| == |b|
    ensures |r| == |a|
  {
    seq(|a|, i requires 0 <= i < |a| => a[i] || b[i])
  }

  function NotBits(a: seq<bool>): (r: seq<bool>)
    ensures |r| == |a|
  {
    seq(|a|, i requires 0 <= i < |a| => !a[i])
  }

  /** `<<` by s places: bits move up, zeros come in at the bottom, bits at the top are lost. */
  function ShiftLeftBits(a: seq<bool>, s: nat): (r: seq<bool>)
    ensures |r| == |a|
  {
    seq(|a|, i requires 0 <= i < |a| => i >= s && a[i - s])
  }

  /** `>>>` by s places: bits move down, zeros come in at the top. */
  function ShiftRightBits(a: seq<bool>, s: nat): (r: seq<bool>)
    ensures |r| == |a|
  {
    seq(|a|, i requires 0 <= i < |a| => i + s < |a| && a[i + s])
  }

  // ---------------------------------------------------------------------------
  // Arithmetic facts about bits

  lemma ZeroBits(i: nat)
    ensures !Bit(0, i)
  {
    if i > 0 { ZeroBits(i - 1); }
  }

  lemma MinusOneBits(i: nat)
    ensures Bit(-1, i)
  {
    if i > 0 { MinusOneBits(i - 1); }
  }

  /** Splitting a Euclidean division by 2p into a division by 2 followed by a division by p. */
  lemma DivModStep(x: int, p: int)
    requires p >= 1
    ensures x / (2 * p) == (x / 2) / p
    ensures x % (2 * p) == x % 2 + 2 * ((x / 2) % p)
  {
    var q, r := x / 2, x % 2;
    var a, b := q / p, q % p;
    assert x == 2 * q + r && q == a * p + b;
    assert x == a * (2 * p) + (2 * b + r);
    DivUnique(x, 2 * p, a, 2 * b + r);
  }

  lemma {:induction false} UnsignedBound(s: seq<bool>)
    ensures Unsigned(s) < Pow2(|s|)
  {
    if s != [] {
      UnsignedBound(s[1..]);
    }
  }

  /** Unsigned(a + b) weighs b's bits by 2^|a|. */
  lemma {:induction false} UnsignedConcat(a: seq<bool>, b: seq<bool>)
    ensures Unsigned(a + b) == Unsigned(a) + Pow2(|a|) * Unsigned(b)
  {
    if a == [] {
      assert a + b == b;
    } else {
      var ab := a + b;
      assert ab[0] == a[0] && ab[1..] == a[1..] + b;
      UnsignedConcat(a[1..], b);
      var h, p, u := if a[0] then 1 else 0, Pow2(|a| - 1), Unsigned(b);
      assert Unsigned(ab) == h + 2 * Unsigned(a[1..] + b);
      assert Unsigned(a[1..] + b) == Unsigned(a[1..]) + p * u;
      assert Unsigned(a) == h + 2 * Unsigned(a[1..]);
      DoubleProduct(p, u);
    }
  }

  lemma DoubleProduct(p: int, u: int)
    ensures 2 * (p * u) == (2 * p) * u
  {
  }

  lemma UnsignedTop(s: seq<bool>)
    requires |s| >= 1
    ensures Unsigned(s) == Unsigned(s[..|s| - 1]) + (if s[|s| - 1] then Pow2(|s| - 1) else 0)
  {
    var init, last := s[..|s| - 1], [s[|s| - 1]];
    assert s == init + last;
    UnsignedConcat(init, last);
    assert last[1..] == [];
    var b := if s[|s| - 1] then 1 else 0;
    assert Unsigned(last) == b;
    assert Pow2(|init|) * b == if s[|s| - 1] then Pow2(|s| - 1) else 0;
  }

  lemma {:induction false} UnsignedAllFalse(s: seq<bool>)
    requires forall i :: 0 <= i < |s| ==> !s[i]
    ensures Unsigned(s) == 0
  {
    if s != [] {
      UnsignedAllFalse(s[1..]);
    }
  }

  /** Bits that are all clear above position n do not contribute. */
  lemma UnsignedClearTail(s: seq<bool>, n: nat)
    requires n <= |s|
    requires forall i :: n <= i < |s| ==> !s[i]
    ensures Unsigned(s) == Unsigned(s[..n])
  {
    assert s == s[..n] + s[n..];
    UnsignedConcat(s[..n], s[n..]);
    UnsignedAllFalse(s[n..]);
  }

  /** The n low bits of x denote x mod 2^n. */
  lemma {:induction false} UnsignedOfBits(x: int, n: nat)
    ensures Unsigned(BitsOf(x, n)) == x % Pow2(n)
    decreases n
  {
    if n > 0 {
      var s := BitsOf(x, n);
      assert s[1..] == BitsOf(x / 2, n - 1);
      UnsignedOfBits(x / 2, n - 1);
      DivModStep(x, Pow2(n - 1));
    }
  }

  /** A bit string is the bit pattern of the number it denotes. */
  lemma {:induction false} BitsOfUnsigned(s: seq<bool>)
    ensures BitsOf(Unsigned(s), |s|) == s
  {
    if s != [] {
      BitsOfUnsigned(s[1..]);
      var u := Unsigned(s);
      assert u / 2 == Unsigned(s[1..]) && (u % 2 == 1 <==> s[0]);
      forall i | 0 <= i < |s|
        ensures BitsOf(u, |s|)[i] == s[i]
      {
        if i > 0 {
          assert Bit(u, i) == Bit(u / 2, i - 1);
          assert BitsOf(Unsigned(s[1..]), |s| - 1)[i - 1] == s[1..][i - 1];
        }
      }
    }
  }

  /** A non-negative number below 2^n has no bit set at or above n. */
  lemma {:induction false} HighBitsClear(x: int, n: nat, i: nat)
    requires 0 <= x < Pow2(n) && i >= n
    ensures !Bit(x, i)
    decreases n
  {
    if n == 0 {
      ZeroBits(i);
    } else {
      HighBitsClear(x / 2, n - 1, i - 1);
    }
  }

  /** A negative number at or above -2^n has every bit set at or above n. */
  lemma {:induction false} HighBitsSet(x: int, n: nat, i: nat)
    requires -Pow2(n) <= x < 0 && i >= n
    ensures Bit(x, i)
    decreases n
  {
    if n == 0 {
      MinusOneBits(i);
    } else {
      HighBitsSet(x / 2, n - 1, i - 1);
    }
  }

  /** The bits of x mod 2^k are x's own k low bits, and clear above. */
  lemma {:induction false} BitOfMod(x: int, k: nat, i: nat)
    ensures Bit(x % Pow2(k), i) == (i < k && Bit(x, i))
    decreases k
  {
    if k == 0 {
      ZeroBits(i);
    } else {
      var p := Pow2(k - 1);
      DivModStep(x, p);
      var r, t := x % 2, (x / 2) % p;
      assert x % Pow2(k) == r + 2 * t;
      HalfStep(r, t);
      if i > 0 {
        BitOfMod(x / 2, k - 1, i - 1);
      }
    }
  }

  lemma HalfStep(r: int, t: int)
    requires 0 <= r < 2
    ensures (r + 2 * t) % 2 == r && (r + 2 * t) / 2 == t
  {
    DivUnique(r + 2 * t, 2, t, r);
  }

  /** The bits of x div 2^r are x's bits from r on. */
  lemma {:induction false} BitOfDiv(x: int, r: nat, i: nat)
    ensures Bit(x / Pow2(r), i) == Bit(x, i + r)
    decreases r
  {
    if r > 0 {
      DivModStep(x, Pow2(r - 1));
      BitOfDiv(x / 2, r - 1, i);
    }
  }

  /** A number in the n-bit two's-complement range is what its n bits denote. */
  lemma SignedOfBits(x: int, n: nat)
    requires n >= 1 && -Pow2(n - 1) <= x < Pow2(n - 1)
    ensures Signed(BitsOf(x, n)) == x
  {
    UnsignedOfBits(x, n);
    assert Pow2(n) == 2 * Pow2(n - 1);
    if x >= 0 {
      HighBitsClear(x, n - 1, n - 1);
      DivUnique(x, Pow2(n), 0, x);
    } else {
      HighBitsSet(x, n - 1, n - 1);
      DivUnique(x, Pow2(n), -1, x + Pow2(n));
    }
  }

  /** The bits of 2^k - 1 are exactly the k low ones. */
  lemma {:induction false} LowOnesBits(k: nat, i: nat)
    ensures Bit(Pow2(k) - 1, i) == (i < k)
  {
    if k == 0 {
      ZeroBits(i);
    } else if i > 0 {
      assert (Pow2(k) - 1) / 2 == Pow2(k - 1) - 1;
      LowOnesBits(k - 1, i - 1);
    }
  }

  /** Shifting right by s places divides the unsigned value by 2^s. */
  lemma ShiftRightSplit(a: seq<bool>, s: nat)
    requires s <= |a|
    ensures ShiftRightBits(a, s)[..|a| - s] == a[s..]
    ensures forall i :: |a| - s <= i < |a| ==> !ShiftRightBits(a, s)[i]
  {
  }

  /** Splitting a bit string at s: the low s bits, plus 2^s times the rest. */
  lemma UnsignedSplit(a: seq<bool>, s: nat)
    requires s <= |a|
    ensures Unsigned(a) == Unsigned(a[..s]) + Pow2(s) * Unsigned(a[s..])
  {
    assert a == a[..s] + a[s..];
    UnsignedConcat(a[..s], a[s..]);
  }

  lemma DivOfSplit(u: int, p: int, q: int, m: int)
    requires p >= 1 && 0 <= m < p && u == m + p * q
    ensures u / p == q
  {
    assert u == q * p + m;
    DivUnique(u, p, q, m);
  }

  /** Shifting right by s places divides the unsigned value by 2^s. */
  lemma UnsignedShiftRight(a: seq<bool>, s: nat)
    requires s <= |a|
    ensures Unsigned(ShiftRightBits(a, s)) == Unsigned(a) / Pow2(s)
  {
    ShiftRightSplit(a, s);
    UnsignedClearTail(ShiftRightBits(a, s), |a| - s);
    UnsignedSplit(a, s);
    UnsignedBound(a[..s]);
    DivOfSplit(Unsigned(a), Pow2(s), Unsigned(a[s..]), Unsigned(a[..s]));
  }

  // ---------------------------------------------------------------------------
  // Java `int` and `long` operators defined on their bits

  lemma Pow2Of31()
    ensures Pow2(31) == 0x8000_0000
  {
    assert Pow2(8) == 0x100;
    Pow2Add(8, 8);
    Pow2Add(16, 8);
    Pow2Add(24, 7);
    assert Pow2(7) == 0x80;
  }

  lemma Pow2Of63()
    ensures Pow2(63) == 0x8000_0000_0000_0000
  {
    Pow2Of31();
    Pow2Add(31, 32);
    Pow2Add(31, 1);
  }

  /** The Java `int` a 32-bit string denotes: bit 31 weighs -2^31 (`IntOfBitsSigned` shows it is `Signed`). */
  function IntOfBits(s: seq<bool>): Int
    requires |s| == 32
  {
    UnsignedBound(s[..31]);
    Pow2Of31();
    Unsigned(s[..31]) - (if s[31] then 0x8000_0000 else 0)
  }

  lemma IntOfBitsSigned(s: seq<bool>)
    requires |s| == 32
    ensures IntOfBits(s) == Signed(s)
  {
    Pow2Of31();
    UnsignedTop(s);
    assert Pow2(32) == 2 * Pow2(31);
  }

  /** The Java `long` a 64-bit string denotes: bit 63 weighs -2^63. */
  function LongOfBits(s: seq<bool>): Long
    requires |s| == 64
  {
    UnsignedBound(s[..63]);
    Pow2Of63();
    Unsigned(s[..63]) - (if s[63] then 0x8000_0000_0000_0000 else 0)
  }

  lemma LongOfBitsSigned(s: seq<bool>)
    requires |s| == 64
    ensures LongOfBits(s) == Signed(s)
  {
    Pow2Of63();
    UnsignedTop(s);
    assert Pow2(64) == 2 * Pow2(63);
  }

  /** `(1 << bits) - 1` in `int` arithmetic: the k = bits mod 32 low ones (for k = 31 the shift gives INT_MIN and the subtraction wraps to INT_MAX). */
  function IntLowMask(bits: Int): (m: Int)
    ensures m == Pow2(IntShiftCount(bits)) - 1
  {
    var k := IntShiftCount(bits);
    Pow2Of31();
    Pow2Monotonic(k, 31);
    assert k == 31 ==> Wrap32(Pow2(31)) == INT_MIN;
    Wrap32(IntShiftLeft(1, bits) - 1)
  }

  /** Java `x & y` on `int`. */
  function IntAnd(x: Int, y: Int): Int
  {
    IntOfBits(AndBits(BitsOf(x, 32), BitsOf(y, 32)))
  }

  /** Java `x & y` on `long` (an `int` operand is first sign-extended to a `long`). */
  function LongAnd(x: Long, y: Long): Long
  {
    LongOfBits(AndBits(BitsOf(x, 64), BitsOf(y, 64)))
  }

  /** Java `x >>> n` on `int`. */
  function IntUnsignedShiftRight(x: Int, n: int): Int
  {
    IntOfBits(ShiftRightBits(BitsOf(x, 32), IntShiftCount(n)))
  }

  /** Java `x >>> n` on `long`. */
  function LongUnsignedShiftRight(x: Long, n: int): Long
  {
    LongOfBits(ShiftRightBits(BitsOf(x, 64), LongShiftCount(n)))
  }

  /** With a mask of k low ones, `&` keeps x mod 2^k (Euclidean, so also for negative x). */
  lemma AndLowOnes(x: int, k: nat, w: nat)
    ensures AndBits(BitsOf(x, w), BitsOf(Pow2(k) - 1, w)) == BitsOf(x % Pow2(k), w)
  {
    var m := x % Pow2(k);
    forall i | 0 <= i < w
      ensures AndBits(BitsOf(x, w), BitsOf(Pow2(k) - 1, w))[i] == BitsOf(m, w)[i]
    {
      LowOnesBits(k, i);
      BitOfMod(x, k, i);
    }
  }

  /** Java's `x & m` on `int` with m = 2^k - 1 (k in 0..31) is x mod 2^k. */
  lemma IntAndLowMask(x: Int, k: nat, m: Int)
    requires k <= 31 && m == Pow2(k) - 1
    ensures IntAnd(x, m) == x % Pow2(k)
  {
    IntRangeAsPow2(x);
    AndLowOnesSigned(x, k, 32);
    IntOfBitsSigned(AndBits(BitsOf(x, 32), BitsOf(m, 32)));
  }

  lemma IntRangeAsPow2(x: Int)
    ensures -Pow2(31) <= x < Pow2(31)
  {
    Pow2Of31();
  }

  lemma AndLowOnesSigned(x: int, k: nat, w: nat)
    requires k < w
    requires -Pow2(w - 1) <= x < Pow2(w - 1)
    ensures Signed(AndBits(BitsOf(x, w), BitsOf(Pow2(k) - 1, w))) == x % Pow2(k)
  {
    AndLowOnes(x, k, w);
    Pow2Monotonic(k, w - 1);
    SignedOfBits(x % Pow2(k), w);
  }

  /** Java's `x & m` on `long` with m = 2^k - 1 (k in 0..31) keeps x mod 2^k. */
  lemma LongAndLowMask(x: Long, k: nat, m: Long)
    requires k <= 31 && m == Pow2(k) - 1
    ensures LongAnd(x, m) == x % Pow2(k)
  {
    LongRangeAsPow2(x);
    AndLowOnesSigned(x, k, 64);
    LongOfBitsSigned(AndBits(BitsOf(x, 64), BitsOf(m, 64)));
  }

  lemma LongRangeAsPow2(x: Long)
    ensures -Pow2(63) <= x < Pow2(63)
  {
    Pow2Of63();
  }

  /** `x >>> s` on a w-bit value: the unsigned value divided by 2^s, or x itself for s == 0. */
  lemma UnsignedShiftRightValue(x: int, s: nat, w: nat)
    requires 1 <= w && s < w
    requires -Pow2(w - 1) <= x < Pow2(w - 1)
    ensures s == 0 ==> Signed(ShiftRightBits(BitsOf(x, w), s)) == x
    ensures s > 0 ==> Signed(ShiftRightBits(BitsOf(x, w), s)) == (x % Pow2(w)) / Pow2(s)
  {
    var a := BitsOf(x, w);
    if s == 0 {
      assert ShiftRightBits(a, 0) == a;
      SignedOfBits(x, w);
    } else {
      UnsignedShiftRight(a, s);
      UnsignedOfBits(x, w);
    }
  }
}
