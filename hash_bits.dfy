/**
 * The hash values of the `hash` package: a 32-bit hash (`Hash32Bits`), a
 * 64-bit hash (`Hash64Bits`), and the `Hash` interface they both implement,
 * which the sketches consume through `mod` and `getLeastSignificantBits`.
 */
module HashBits {
  import opened Java
  import opened Bits

  /** A `hash.Hash`: either implementation of the interface. */
  datatype Hash = Of32(h32: Hash32Bits) | Of64(h64: Hash64Bits)
  {
    function DivideBy(divisor: Int): Result<Int>
    {
      match this
      case Of32(h) => h.DivideBy(divisor)
      case Of64(h) => h.DivideBy(divisor)
    }

    function Mod(divisor: Int): Result<Int>
    {
      match this
      case Of32(h) => h.Mod(divisor)
      case Of64(h) => h.Mod(divisor)
    }

    /** An `Integer` for a 32-bit hash, a `Long` for a 64-bit one; both fit in a `long`. */
    function LeastSignificantBits(bits: Int): Result<Long>
    {
      match this
      case Of32(h) => (match h.LeastSignificantBits(bits) case Ok(v) => Ok(v) case Throws(e) => Throws(e))
      case Of64(h) => h.LeastSignificantBits(bits)
    }

    function Size(): Int
    {
      match this
      case Of32(h) => h.Size
      case Of64(h) => h.Size
    }

    /** The number the hash holds: an `int` or a `long`. */
    function Value(): Long
    {
      match this
      case Of32(h) => h.hash
      case Of64(h) => h.hash
    }
  }

  /** `hash.Hash32Bits`: an immutable 32-bit hash. */
  datatype Hash32Bits = Hash32Bits(hash: Int)
  {
    const Size: Int := 32

    /** Java `int` division of the hash. */
    function DivideBy(divisor: Int): (r: Result<Int>)
      ensures r.Throws? <==> divisor == 0
      ensures r.Throws? ==> r.exception == Arithmetic
      ensures r.Ok? && (hash != INT_MIN || divisor != -1) ==> r.value == Quot(hash, divisor)
      ensures r.Ok? && hash == INT_MIN && divisor == -1 ==> r.value == INT_MIN
    {
      IntDiv(hash, divisor)
    }

    /** Java `int` remainder of the hash: smaller than the divisor in magnitude, with the hash's sign. */
    function Mod(divisor: Int): (r: Result<Int>)
      ensures r.Throws? <==> divisor == 0
      ensures r.Throws? ==> r.exception == Arithmetic
      ensures r.Ok? ==> Abs(r.value) < Abs(divisor)
      ensures r.Ok? && hash < 0 ==> r.value <= 0
      ensures r.Ok? && hash >= 0 ==> r.value >= 0
    {
      IntRem(hash, divisor)
    }

    /** The low bits of the hash as a non-negative number; Java masks the shift count, so `bits` counts modulo 32. */
    function LeastSignificantBits(bits: Int): (r: Result<Int>)
      ensures r.Throws? <==> bits >= 32
      ensures r.Throws? ==> r.exception == IllegalArgument
      ensures r.Ok? ==> r.value == hash % Pow2(IntShiftCount(bits))
      ensures r.Ok? ==> 0 <= r.value < Pow2(IntShiftCount(bits))
    {
      if bits >= 32 then Throws(IllegalArgument)
      else
        IntAndLowMask(hash, IntShiftCount(bits), IntLowMask(bits));
        Ok(IntAnd(hash, IntLowMask(bits)))
    }

    /**
     * `hash >>> (32 - bits)`: the top bits. With s = (32 - bits) mod 32, the
     * result is the hash itself when s is 0 and otherwise its unsigned 32-bit
     * value divided by 2^s.
     */
    function MostSignificantBits(bits: Int): (r: Result<Int>)
      ensures r.Throws? <==> bits > 32
      ensures r.Throws? ==> r.exception == IllegalArgument
      ensures r.Ok? && IntShiftCount(32 - bits) == 0 ==> r.value == hash
      ensures r.Ok? && IntShiftCount(32 - bits) > 0 ==>
                r.value == (hash % Pow2(32)) / Pow2(IntShiftCount(32 - bits))
    {
      if bits > 32 then Throws(IllegalArgument)
      else
        ShiftCountOfWrap32(32 - bits);
        Pow2Of31();
        UnsignedShiftRightValue(hash, IntShiftCount(32 - bits), 32);
        IntOfBitsSigned(ShiftRightBits(BitsOf(hash, 32), IntShiftCount(32 - bits)));
        Ok(IntUnsignedShiftRight(hash, Wrap32(32 - bits)))
    }

    /** `equals(Object)`: true exactly for another `Hash32Bits` with the same value. */
    function Equals(other: Hash): (r: bool)
      ensures r <==> other == Of32(this)
    {
      other.Of32? && other.h32.hash == hash
    }

    /** `compareTo`: zero exactly on equal hashes, and the sign of the difference when it does not overflow. */
    function CompareTo(other: Hash32Bits): (r: Int)
      ensures r == 0 <==> this == other
      ensures INT_MIN <= hash - other.hash <= INT_MAX ==> r == hash - other.hash
    {
      if other.hash == hash then 0 else Wrap32(hash - other.hash)
    }
  }

  /** `hash.Hash64Bits`: an immutable 64-bit hash. */
  datatype Hash64Bits = Hash64Bits(hash: Long)
  {
    const Size: Int := 64

    /** `(int) hash / divisor`: the cast binds first, so only the low 32 bits are divided. */
    function DivideBy(divisor: Int): (r: Result<Int>)
      ensures r == Hash32Bits(Wrap32(hash)).DivideBy(divisor)
      ensures INT_MIN <= hash <= INT_MAX ==> r == Hash32Bits(hash).DivideBy(divisor)
    {
      IntDiv(Wrap32(hash), divisor)
    }

    /** `(int) hash % divisor`: the remainder of the low 32 bits. */
    function Mod(divisor: Int): (r: Result<Int>)
      ensures r == Hash32Bits(Wrap32(hash)).Mod(divisor)
      ensures INT_MIN <= hash <= INT_MAX ==> r == Hash32Bits(hash).Mod(divisor)
    {
      IntRem(Wrap32(hash), divisor)
    }

    /**
     * `hash & ((1 << bits) - 1)`: the mask is an `int`, so its shift count is
     * taken modulo 32 and at most 31 low bits survive even though `bits` may
     * go up to 63.
     */
    function LeastSignificantBits(bits: Int): (r: Result<Long>)
      ensures r.Throws? <==> bits >= 64
      ensures r.Throws? ==> r.exception == IllegalArgument
      ensures r.Ok? ==> r.value == hash % Pow2(IntShiftCount(bits))
    {
      if bits >= 64 then Throws(IllegalArgument)
      else
        LongAndLowMask(hash, IntShiftCount(bits), IntLowMask(bits));
        Ok(LongAnd(hash, IntLowMask(bits)))
    }

    /** `hash >>> (64 - bits)`: with s = (64 - bits) mod 64, the hash when s is 0, otherwise its unsigned 64-bit value divided by 2^s. */
    function MostSignificantBits(bits: Int): (r: Result<Long>)
      ensures r.Throws? <==> bits > 64
      ensures r.Throws? ==> r.exception == IllegalArgument
      ensures r.Ok? && LongShiftCount(64 - bits) == 0 ==> r.value == hash
      ensures r.Ok? && LongShiftCount(64 - bits) > 0 ==>
                r.value == (hash % Pow2(64)) / Pow2(LongShiftCount(64 - bits))
    {
      if bits > 64 then Throws(IllegalArgument)
      else
        ShiftCountOfWrap32(64 - bits);
        Pow2Of63();
        UnsignedShiftRightValue(hash, LongShiftCount(64 - bits), 64);
        LongOfBitsSigned(ShiftRightBits(BitsOf(hash, 64), LongShiftCount(64 - bits)));
        Ok(LongUnsignedShiftRight(hash, Wrap32(64 - bits)))
    }

    /** `equals(Object)`: true exactly for another `Hash64Bits` with the same value. */
    function Equals(other: Hash): (r: bool)
      ensures r <==> other == Of64(this)
    {
      other.Of64? && other.h64.hash == hash
    }

    /** `compareTo`: `(int) (this.hash - other.hash)` unless the hashes are equal. */
    function CompareTo(other: Hash64Bits): (r: Int)
      ensures this == other ==> r == 0
      ensures r == 0 <==> (hash - other.hash) % 0x1_0000_0000 == 0
    {
      if other.hash == hash then 0 else Wrap32(Wrap64(hash - other.hash))
    }
  }

  // ---------------------------------------------------------------------------
  // Properties

  /** `divideBy` and `mod` agree with each other: `(h / d) * d + h % d == h` in `int` arithmetic. */
  lemma DivideByModIdentity(h: Hash32Bits, d: Int)
    requires d != 0
    ensures h.DivideBy(d).Ok? && h.Mod(d).Ok?
    ensures Wrap32(h.DivideBy(d).value * d + h.Mod(d).value) == h.hash
  {
    IntDivRemIdentity(h.hash, d);
  }

  /** The least significant bits and the bits above them rebuild the hash: h == low + 2^k * (h div 2^k). */
  lemma LeastSignificantBitsSplit(h: Hash32Bits, k: nat)
    requires k < 32
    ensures h.LeastSignificantBits(k).Ok?
    ensures h.LeastSignificantBits(k).value + Pow2(k) * (h.hash / Pow2(k)) == h.hash
  {
    assert IntShiftCount(k) == k;
    var p := Pow2(k);
    var v := h.LeastSignificantBits(k).value;
    assert v == h.hash % p;
    EuclidIdentity(h.hash, p);
  }

  /** For 1 <= bits <= 31 the most significant bits fit in `bits` bits. */
  lemma MostSignificantBitsRange(h: Hash32Bits, bits: Int)
    requires 1 <= bits <= 31
    ensures h.MostSignificantBits(bits).Ok?
    ensures 0 <= h.MostSignificantBits(bits).value < Pow2(bits)
  {
    var s: nat := 32 - bits;
    var u := h.hash % Pow2(32);
    Pow2Add(bits, s);
    DivBelow(u, Pow2(s), Pow2(bits));
  }

  lemma EuclidIdentity(x: int, p: int)
    requires p >= 1
    ensures x % p + p * (x / p) == x
  {
  }

  lemma DivBelow(u: int, p: int, q: int)
    requires p >= 1 && q >= 1 && 0 <= u < q * p
    ensures 0 <= u / p < q
  {
    if u / p >= q {
      MulMonotonic(p, q, u / p);
    }
  }

  /** The 64-bit hash's least significant bits repeat with period 32 in `bits`: asking for 40 bits gives 8. */
  lemma LeastSignificantBits64Period(h: Hash64Bits, bits: Int)
    requires 0 <= bits < 32
    ensures h.LeastSignificantBits(bits + 32) == h.LeastSignificantBits(bits)
  {
    assert IntShiftCount(bits + 32) == bits;
    var a := h.LeastSignificantBits(bits + 32);
    var b := h.LeastSignificantBits(bits);
    assert a.value == b.value;
  }

  /** `Hash32Bits.compareTo` is not an order: INT_MAX and -1 each compare below the other. */
  lemma CompareTo32Overflow()
    ensures Hash32Bits(INT_MAX).CompareTo(Hash32Bits(-1)) < 0
    ensures Hash32Bits(-1).CompareTo(Hash32Bits(INT_MAX)) < 0
  {
  }

  /** `Hash64Bits.compareTo` calls two distinct hashes equal when they differ by 2^32. */
  lemma CompareTo64Collision()
    ensures Hash64Bits(0x1_0000_0000).CompareTo(Hash64Bits(0)) == 0
  {
  }

  /** A 64-bit hash at or above 2^32 loses its high half before `divideBy`. */
  lemma DivideBy64Truncates()
    ensures Hash64Bits(0x1_0000_0005).DivideBy(1) == Ok(5)
  {
  }

  // ---------------------------------------------------------------------------
  // The unit tests' expectations

  lemma LeastSignificantBitsExamples()
    ensures Hash32Bits(255).LeastSignificantBits(3) == Ok(7)
    ensures Hash32Bits(255).LeastSignificantBits(0) == Ok(0)
    ensures Hash32Bits(-255).LeastSignificantBits(5) == Ok(1)
  {
    assert IntShiftCount(3) == 3 && IntShiftCount(0) == 0 && IntShiftCount(5) == 5;
    assert Pow2(3) == 8 && Pow2(5) == 32 && Pow2(0) == 1;
    var a, b, c := Hash32Bits(255).LeastSignificantBits(3), Hash32Bits(255).LeastSignificantBits(0), Hash32Bits(-255).LeastSignificantBits(5);
    assert a.value == 255 % 8;
    assert b.value == 255 % 1;
    assert c.value == -255 % 32;
  }

  lemma LeastSignificantBits64Examples()
    ensures Hash64Bits(255).LeastSignificantBits(3) == Ok(7)
    ensures Hash64Bits(255).LeastSignificantBits(0) == Ok(0)
    ensures Hash64Bits(-255).LeastSignificantBits(5) == Ok(1)
    ensures Hash64Bits(255).LeastSignificantBits(32) == Ok(0)
  {
    assert IntShiftCount(3) == 3 && IntShiftCount(0) == 0 && IntShiftCount(5) == 5 && IntShiftCount(32) == 0;
    assert Pow2(3) == 8 && Pow2(5) == 32 && Pow2(0) == 1;
    var a, b, c := Hash64Bits(255).LeastSignificantBits(3), Hash64Bits(255).LeastSignificantBits(0), Hash64Bits(-255).LeastSignificantBits(5);
    assert a.value == 255 % 8;
    assert b.value == 255 % 1;
    assert c.value == -255 % 32;
  }

  /** `hash >>> 32` on an `int` shifts by 0 and leaves the hash. */
  lemma MostSignificantBitsNone(h: Hash32Bits)
    ensures h.MostSignificantBits(0) == Ok(h.hash)
  {
    assert IntShiftCount(32) == 0;
  }

  lemma MostSignificantBits32Examples()
    ensures Hash32Bits(256).MostSignificantBits(30) == Ok(64)
    ensures Hash32Bits(INT_MIN).MostSignificantBits(32) == Ok(INT_MIN)
    ensures Hash32Bits(INT_MAX).MostSignificantBits(5) == Ok(15)
    ensures Hash32Bits(-1).MostSignificantBits(5) == Ok(31)
  {
    assert IntShiftCount(2) == 2 && IntShiftCount(0) == 0 && IntShiftCount(27) == 27;
    Pow2Of31();
    assert Pow2(32) == 0x1_0000_0000 && Pow2(2) == 4;
    Pow2Add(8, 19);
    assert Pow2(27) == 0x800_0000;
    var a := Hash32Bits(256).MostSignificantBits(30);
    var b := Hash32Bits(INT_MIN).MostSignificantBits(32);
    var c := Hash32Bits(INT_MAX).MostSignificantBits(5);
    var d := Hash32Bits(-1).MostSignificantBits(5);
    assert a.Ok? && a.value == (256 % 0x1_0000_0000) / 4;
    assert (256 % 0x1_0000_0000) / 4 == 64;
    assert c.Ok? && c.value == (INT_MAX % 0x1_0000_0000) / 0x800_0000;
    DivUnique(INT_MAX, 0x800_0000, 15, 0x7ff_ffff);
    assert d.Ok? && d.value == (-1 % 0x1_0000_0000) / 0x800_0000;
    DivUnique(-1, 0x1_0000_0000, -1, 0xffff_ffff);
    DivUnique(0xffff_ffff, 0x800_0000, 31, 0x7ff_ffff);
  }

  lemma MostSignificantBits64Examples()
    ensures Hash64Bits(256).MostSignificantBits(62) == Ok(64)
    ensures Hash64Bits(LONG_MIN).MostSignificantBits(64) == Ok(LONG_MIN)
  {
    assert LongShiftCount(2) == 2 && LongShiftCount(0) == 0;
    Pow2Of63();
    assert Pow2(64) == 0x1_0000_0000_0000_0000 && Pow2(2) == 4;
    var a := Hash64Bits(256).MostSignificantBits(62);
    var b := Hash64Bits(LONG_MIN).MostSignificantBits(64);
    assert a.Ok? && a.value == (256 % 0x1_0000_0000_0000_0000) / 4;
    DivUnique(256, 0x1_0000_0000_0000_0000, 0, 256);
    DivUnique(256, 4, 64, 0);
  }

  lemma MostSignificantBits64TopExamples()
    ensures Hash64Bits(LONG_MAX).MostSignificantBits(5) == Ok(15)
    ensures Hash64Bits(-1).MostSignificantBits(5) == Ok(31)
  {
    assert LongShiftCount(59) == 59;
    Pow2Of63();
    assert Pow2(64) == 0x1_0000_0000_0000_0000;
    Pow2Of31();
    Pow2Add(31, 28);
    Pow2Add(8, 20);
    assert Pow2(59) == 0x800_0000_0000_0000;
    var c := Hash64Bits(LONG_MAX).MostSignificantBits(5);
    var d := Hash64Bits(-1).MostSignificantBits(5);
    assert c.Ok? && c.value == (LONG_MAX % 0x1_0000_0000_0000_0000) / 0x800_0000_0000_0000;
    DivUnique(LONG_MAX, 0x1_0000_0000_0000_0000, 0, LONG_MAX);
    DivUnique(LONG_MAX, 0x800_0000_0000_0000, 15, 0x7ff_ffff_ffff_ffff);
    assert d.Ok? && d.value == (-1 % 0x1_0000_0000_0000_0000) / 0x800_0000_0000_0000;
    DivUnique(-1, 0x1_0000_0000_0000_0000, -1, 0xffff_ffff_ffff_ffff);
    DivUnique(0xffff_ffff_ffff_ffff, 0x800_0000_0000_0000, 31, 0x7ff_ffff_ffff_ffff);
  }
}
