/**
 * `collections.PackedBitsSet`: `setSize` slots of `bitSize` bits each
 * (1 <= bitSize <= 31), packed without padding into an array of `long` words.
 * Slot p occupies the global bit positions [p * b, (p + 1) * b), where global
 * bit j is bit j mod 64 of word j div 64; a slot may straddle two words.
 *
 * The array is modelled as an `array<Word>`, each `long` being held as its 64
 * bits. The pure functions below describe each operation on a sequence of
 * words; the class's methods update the array in place and are proved to
 * agree with them; the lemmas state what the operations mean.
 */
module PackedBits {
  import opened Java
  import opened Bits

  // ---------------------------------------------------------------------------
  // Layout

  /** The length of the backing array, ceil(bitSize * setSize / 64); the `double` arithmetic is exact here. */
  function WordCount(bitSize: nat, setSize: nat): (n: nat)
    ensures bitSize * setSize <= 64 * n < bitSize * setSize + 64
  {
    (bitSize * setSize + 63) / 64
  }

  lemma ProductBounds(p: Int, b: int)
    requires 0 < b < 32
    ensures -0x10_0000_0000 <= p * b <= 0x10_0000_0000
  {
    if p >= 0 {
      MulMonotonic(p, b, 32);
    } else {
      var q: nat := -(p as int);
      MulMonotonic(q, b, 32);
      MulNegate(p, b);
    }
  }

  /** `getBucket`: the word holding the slot's first bit, floor(p * b / 64) (the `double` arithmetic is exact). */
  function Bucket(bitSize: Int, position: Int): (r: Int)
    requires 0 < bitSize < 32
    ensures 64 * r <= position * bitSize < 64 * r + 64
  {
    ProductBounds(position, bitSize);
    (position * bitSize) / 64
  }

  /** `((position + 1) * bitSize) - 1` in `int` arithmetic, which wraps for very large positions. */
  function LastBitIndex(bitSize: Int, position: Int): (r: Int)
  {
    Wrap32(Wrap32(Wrap32(position + 1) * bitSize) - 1)
  }

  /** Without overflow the last bit index is the exact (p + 1) * b - 1. */
  lemma LastBitIndexValue(b: Int, p: Int)
    requires 0 < b < 32 && NoOverflow(b, p)
    ensures LastBitIndex(b, p) == (p + 1) * b - 1
  {
    var n: nat := p + 1;
    MulMonotonic(n, 1, b);
    assert Wrap32(p + 1) == n;
    assert Wrap32(n * b) == n * b;
  }

  /** `getLastBitBucket`: the word holding the slot's last bit. */
  function LastBitBucket(bitSize: Int, position: Int): (r: Int)
    ensures 64 * r <= LastBitIndex(bitSize, position) < 64 * r + 64
  {
    LastBitIndex(bitSize, position) / 64
  }

  /** `(position * bitSize) % 64` in `int` arithmetic: the slot's first bit within its word. */
  function Offset(bitSize: Int, position: Int): (r: Int)
    requires 0 < bitSize < 32
    ensures -64 < r < 64
  {
    QuotRem(Wrap32(position * bitSize), 64);
    Rem(Wrap32(position * bitSize), 64)
  }

  /** A negative position has a negative bucket. */
  lemma NegativeBucket(b: Int, p: Int)
    requires 0 < b < 32
    ensures p < 0 ==> Bucket(b, p) < 0
  {
    if p < 0 {
      var q: nat := -(p as int);
      MulMonotonic(q, 1, b);
      MulNegate(p, b);
    }
  }

  /** The positions whose whole slot is addressable without `int` overflow in the index arithmetic. */
  predicate NoOverflow(bitSize: Int, position: Int)
  {
    0 <= position && (position + 1) * bitSize <= INT_MAX
  }

  /** Without overflow the offset is the Euclidean p * b mod 64. */
  lemma OffsetValue(b: Int, p: Int)
    requires 0 < b < 32 && 0 <= p * b <= INT_MAX
    ensures Offset(b, p) == p * b - 64 * Bucket(b, p)
    ensures 0 <= Offset(b, p) < 64
  {
    var x := p * b;
    assert Wrap32(x) == x;
    assert Rem(x, 64) == x % 64;
  }

  lemma LastBucketValue(b: Int, q: int, off: int, e: int)
    requires 0 < b < 32 && 0 <= off < 64 && e == 64 * q + off + b - 1
    ensures off + b <= 64 ==> e / 64 == q
    ensures off + b > 64 ==> e / 64 == q + 1
  {
    if off + b <= 64 {
      DivUnique(e, 64, q, off + b - 1);
    } else {
      DivUnique(e, 64, q + 1, off + b - 65);
    }
  }

  /** Slot p starts at bit `Offset` of word `Bucket`, and ends in that word or in the next one. */
  lemma Layout(b: Int, p: Int)
    requires 0 < b < 32 && NoOverflow(b, p)
    ensures p * b == 64 * Bucket(b, p) + Offset(b, p)
    ensures 0 <= Offset(b, p) < 64
    ensures 0 <= Bucket(b, p)
    ensures LastBitBucket(b, p) == Bucket(b, p) <==> Offset(b, p) + b <= 64
    ensures LastBitBucket(b, p) == Bucket(b, p) || LastBitBucket(b, p) == Bucket(b, p) + 1
  {
    assert (p + 1) * b == p * b + b;
    assert 0 <= p * b;
    LastBitIndexValue(b, p);
    OffsetValue(b, p);
    LastBucketValue(b, Bucket(b, p), Offset(b, p), LastBitIndex(b, p));
  }

  // ---------------------------------------------------------------------------
  // One word

  const ZERO: Word := BitsOf(0, 64)

  /** `(1L << n) - 1` as a `long`: the n mod 64 low ones (`LongLowOnesValue` shows it is that Java expression). */
  function LongLowOnes(n: int): (w: Word)
  {
    seq(64, i requires 0 <= i < 64 => i < LongShiftCount(n))
  }

  /** `LongLowOnes(n)` holds the bits of the `long` computed by `(1L << n) - 1`. */
  lemma LongLowOnesValue(n: int)
    ensures LongLowOnes(n) == BitsOf(Wrap64(LongShiftLeft(1, n) - 1), 64)
  {
    var k := LongShiftCount(n);
    Pow2Of63();
    Pow2Monotonic(k, 63);
    assert k == 63 ==> Wrap64(Pow2(63)) == LONG_MIN && Wrap64(LONG_MIN - 1) == Pow2(63) - 1;
    assert k < 63 ==> Pow2(k) <= Pow2(62) by {
      if k < 63 { Pow2Monotonic(k, 62); }
    }
    var ones := Wrap64(LongShiftLeft(1, n) - 1);
    assert ones == Pow2(k) - 1;
    forall i | 0 <= i < 64
      ensures BitsOf(ones, 64)[i] == LongLowOnes(n)[i]
    {
      LowOnesBits(k, i);
    }
  }

  /**
   * The write of `setIthBitsInBucket` on one word: clear `bitSize` bits from
   * `offset` up, then OR in the value (sign-extended to a `long`) shifted to
   * `offset`.
   */
  function MergeWord(w: Word, bitSize: Int, offset: Int, value: Int): Word
  {
    var s := LongShiftCount(offset);
    var mask := NotBits(ShiftLeftBits(LongLowOnes(bitSize), s));
    OrBits(AndBits(w, mask), ShiftLeftBits(BitsOf(value, 64), s))
  }

  /** The read of `getIthBitsInBucket` on one word: `(int) ((w & (((1L << bits) - 1) << offset)) >>> offset)`. */
  function ExtractWord(w: Word, offset: Int, bits: Int): Int
  {
    var s := LongShiftCount(offset);
    var masked := AndBits(w, ShiftLeftBits(LongLowOnes(bits), s));
    IntOfBits(ShiftRightBits(masked, s)[..32])
  }

  /** Below the offset the word is kept, the next `bitSize` bits take the value's bits, and above them the value's bits are ORed in. */
  lemma MergeWordBits(w: Word, b: Int, off: int, v: Int, i: nat)
    requires 0 < b < 32 && 0 <= off < 64 && i < 64
    ensures MergeWord(w, b, off, v)[i] ==
      if i < off then w[i]
      else if i < off + b then Bit(v, i - off)
      else w[i] || Bit(v, i - off)
  {
    var ones := LongLowOnes(b);
    assert LongShiftCount(b) == b && LongShiftCount(off) == off;
    if i >= off {
      assert ones[i - off] <==> i - off < b;
      assert BitsOf(v, 64)[i - off] == Bit(v, i - off);
    }
  }

  /** Reading `bits` bits at `offset` from one word gives the unsigned value of those bits. */
  lemma ExtractWordValue(w: Word, off: int, bits: int)
    requires 0 <= off && 0 <= bits <= 31 && off + bits <= 64
    ensures ExtractWord(w, off, bits) == Unsigned(w[off..off + bits])
  {
    var ones := LongLowOnes(bits);
    assert LongShiftCount(bits) == bits;
    assert LongShiftCount(off) == off || off == 64;
    var s := LongShiftCount(off);
    if off == 64 {
      assert bits == 0 && s == 0;
      var r := ShiftRightBits(AndBits(w, ShiftLeftBits(ones, s)), s)[..32];
      forall i | 0 <= i < 32 ensures !r[i] { assert !ones[i]; }
      UnsignedAllFalse(r);
      IntOfBitsSigned(r);
      assert w[off..off + bits] == [];
    } else {
      var r := ShiftRightBits(AndBits(w, ShiftLeftBits(ones, s)), s)[..32];
      forall i | 0 <= i < 32
        ensures r[i] == (i < bits && w[i + off])
      {
        if i + off < 64 {
          assert ShiftLeftBits(ones, s)[i + off] == ones[i];
        }
      }
      assert !r[31];
      IntOfBitsSigned(r);
      UnsignedClearTail(r, bits);
      assert r[..bits] == w[off..off + bits];
    }
  }

  // ---------------------------------------------------------------------------
  // The operations on the sequence of words

  /** A `void` call that may throw, together with the array contents it leaves behind. */
  datatype Outcome = Outcome(status: Status, words: seq<Word>)

  /** `setIthBitsInBucket`: word `bucket` becomes the merge of the value at `offset`. */
  function WriteInBucket(words: seq<Word>, bitSize: Int, bucket: Int, offset: Int, value: Int): (r: Outcome)
    ensures |r.words| == |words|
    ensures r.status.Threw? <==> !(0 <= bucket < |words|)
    ensures r.status.Threw? ==> r.status.exception == IndexOutOfBounds && r.words == words
    ensures r.status.Done? ==> forall k :: 0 <= k < |words| && k != bucket ==> r.words[k] == words[k]
  {
    if 0 <= bucket < |words| then
      Outcome(Done, words[bucket := MergeWord(words[bucket], bitSize, offset, value)])
    else
      Outcome(Threw(IndexOutOfBounds), words)
  }

  /** `getIthBitsInBucket`: `bits` bits of word `bucket` from `offset` up. */
  function ReadInBucket(words: seq<Word>, bucket: Int, offset: Int, bits: Int): (r: Result<Int>)
    ensures r.Throws? <==> !(0 <= bucket < |words|)
    ensures r.Throws? ==> r.exception == IndexOutOfBounds
  {
    if 0 <= bucket < |words| then
      Ok(ExtractWord(words[bucket], offset, bits))
    else
      Throws(IndexOutOfBounds)
  }

  /** Inside the array, the read is the unsigned value of the addressed bits. */
  lemma ReadInBucketValue(words: seq<Word>, bucket: Int, offset: Int, bits: Int)
    requires 0 <= bucket < |words| && 0 <= offset && 0 <= bits <= 31 && offset + bits <= 64
    ensures ReadInBucket(words, bucket, offset, bits) == Ok(Unsigned(words[bucket][offset..offset + bits]))
  {
    ExtractWordValue(words[bucket], offset, bits);
  }

  /** The value check of `setIthBits`: `(1 << bitSize) > value`. */
  predicate Representable(bitSize: Int, value: Int)
  {
    IntShiftLeft(1, bitSize) > value
  }

  /**
   * `setIthBits`. A slot inside one word is merged in place. A straddling slot
   * is split: the low `64 - offset` bits of the value go to the top of the
   * first word, the rest (`value >> (64 - offset)`) to the bottom of the next
   * one, where the merge clears `bitSize` bits. When the second word is
   * outside the array the first write has already happened.
   */
  function WriteSlot(words: seq<Word>, bitSize: Int, position: Int, value: Int): (r: Outcome)
    requires 0 < bitSize < 32
    ensures |r.words| == |words|
    ensures r.status == Threw(IllegalArgument) <==> !Representable(bitSize, value)
    ensures !Representable(bitSize, value) ==> r.words == words
    ensures r.status.Threw? ==> r.status.exception == IllegalArgument || r.status.exception == IndexOutOfBounds
    ensures Representable(bitSize, value) && (position < 0 || Bucket(bitSize, position) >= |words|) ==>
      r == Outcome(Threw(IndexOutOfBounds), words)
  {
    NegativeBucket(bitSize, position);
    if !Representable(bitSize, value) then
      Outcome(Threw(IllegalArgument), words)
    else
      WriteParts(words, bitSize, Bucket(bitSize, position), LastBitBucket(bitSize, position), Offset(bitSize, position), value)
  }

  /** The writes of `setIthBits` once the bucket, last bucket and offset are computed. */
  function WriteParts(words: seq<Word>, bitSize: Int, bucket: Int, last: Int, offset: Int, value: Int): (r: Outcome)
    requires -64 < offset < 64
    ensures |r.words| == |words|
    ensures r.status.Threw? ==> r.status.exception == IndexOutOfBounds
    ensures !(0 <= bucket < |words|) ==> r == Outcome(Threw(IndexOutOfBounds), words)
  {
    if bucket == last then
      WriteInBucket(words, bitSize, bucket, offset, value)
    else
      var remanent := 64 - offset;
      var first := IntShiftRight(value, remanent);
      var second := IntAnd(value, IntLowMask(remanent));
      var o := WriteInBucket(words, bitSize, bucket, offset, second);
      if o.status.Threw? then o else WriteInBucket(o.words, bitSize, last, 0, first)
  }

  /**
   * `getIthBits`: the bounds check admits `position <= setSize`; a straddling
   * slot is read as its low part from the first word and its high part from
   * the next, recombined as `(first << (64 - offset)) + second`.
   */
  function ReadSlot(words: seq<Word>, bitSize: Int, setSize: Int, position: Int): (r: Result<Int>)
    requires 0 < bitSize < 32
    ensures r == Throws(IllegalArgument) <==> setSize < position
    ensures r.Throws? ==> r.exception == IllegalArgument || r.exception == IndexOutOfBounds
    ensures position <= setSize && (position < 0 || Bucket(bitSize, position) >= |words|) ==> r == Throws(IndexOutOfBounds)
  {
    NegativeBucket(bitSize, position);
    if !(setSize >= position) then
      Throws(IllegalArgument)
    else
      ReadParts(words, bitSize, Bucket(bitSize, position), LastBitBucket(bitSize, position), Offset(bitSize, position))
  }

  /** The reads of `getIthBits` once the bucket, last bucket and offset are computed. */
  function ReadParts(words: seq<Word>, bitSize: Int, bucket: Int, last: Int, offset: Int): (r: Result<Int>)
    requires 0 < bitSize < 32 && -64 < offset < 64
    ensures r.Throws? ==> r.exception == IndexOutOfBounds
    ensures !(0 <= bucket < |words|) ==> r == Throws(IndexOutOfBounds)
  {
    if bucket == last then
      ReadInBucket(words, bucket, offset, bitSize)
    else
      var remanent := 64 - offset;
      var second := ReadInBucket(words, bucket, offset, remanent);
      if second.Throws? then second
      else
        var first := ReadInBucket(words, last, 0, bitSize - remanent);
        if first.Throws? then first
        else Ok(Wrap32(IntShiftLeft(first.value, remanent) + second.value))
  }

  // ---------------------------------------------------------------------------
  // The packed view: global bit j is bit j mod 64 of word j div 64

  function GBit(words: seq<Word>, j: int): bool
    requires 0 <= j < 64 * |words|
  {
    words[j / 64][j % 64]
  }

  lemma GBitAt(words: seq<Word>, q: int, i: int)
    requires 0 <= q < |words| && 0 <= i < 64
    ensures 0 <= 64 * q + i < 64 * |words|
    ensures GBit(words, 64 * q + i) == words[q][i]
  {
    DivUnique(64 * q + i, 64, q, i);
  }

  /** Word and bit of a global bit index. */
  lemma GBitSplit(words: seq<Word>, j: int)
    requires 0 <= j < 64 * |words|
    ensures 0 <= j / 64 < |words| && j == 64 * (j / 64) + j % 64
  {
  }

  /** The b bits of slot p. */
  function Slot(words: seq<Word>, b: nat, p: nat): (s: seq<bool>)
    requires (p + 1) * b <= 64 * |words|
    ensures |s| == b
  {
    assert p * b + b == (p + 1) * b;
    seq(b, i requires 0 <= i < b => GBit(words, p * b + i))
  }

  /** Whether slot p crosses a word boundary. */
  predicate Straddles(b: Int, p: Int)
    requires 0 < b < 32
  {
    Bucket(b, p) != LastBitBucket(b, p)
  }

  /** Inside one word, slot p is the b bits of word `Bucket` from `Offset` up. */
  lemma SlotInOneWord(words: seq<Word>, b: Int, p: Int)
    requires 0 < b < 32 && NoOverflow(b, p) && (p + 1) * b <= 64 * |words|
    requires !Straddles(b, p)
    ensures 0 <= Bucket(b, p) < |words| && 0 <= Offset(b, p) && Offset(b, p) + b <= 64
    ensures Slot(words, b, p) == words[Bucket(b, p)][Offset(b, p)..Offset(b, p) + b]
  {
    Layout(b, p);
    var bucket, off := Bucket(b, p), Offset(b, p);
    var slot := Slot(words, b, p);
    forall i | 0 <= i < b
      ensures slot[i] == words[bucket][off + i]
    {
      GBitAt(words, bucket, off + i);
    }
  }

  /** A straddling slot p is the top `64 - Offset` bits of word `Bucket` followed by the bottom bits of the next word. */
  lemma SlotInTwoWords(words: seq<Word>, b: Int, p: Int)
    requires 0 < b < 32 && NoOverflow(b, p) && (p + 1) * b <= 64 * |words|
    requires Straddles(b, p)
    ensures 0 <= Bucket(b, p) && LastBitBucket(b, p) == Bucket(b, p) + 1 < |words|
    ensures 0 < 64 - Offset(b, p) < b
    ensures Slot(words, b, p) == words[Bucket(b, p)][Offset(b, p)..64] + words[Bucket(b, p) + 1][..b - (64 - Offset(b, p))]
  {
    Layout(b, p);
    LastBitIndexValue(b, p);
    var bucket, last, off := Bucket(b, p), LastBitBucket(b, p), Offset(b, p);
    var rem := 64 - off;
    var slot := Slot(words, b, p);
    var lo, hi := words[bucket][off..64], words[last][..b - rem];
    forall i | 0 <= i < b
      ensures slot[i] == (lo + hi)[i]
    {
      if i < rem {
        GBitAt(words, bucket, off + i);
      } else {
        GBitAt(words, last, i - rem);
      }
    }
  }

  lemma MulBelow(a: int, x: int, m: int)
    requires a >= 1 && 0 <= x < m
    ensures 0 <= a * x <= a * m - a
  {
    MulMonotonic(a, x, m - 1);
  }

  lemma SumFits(first: int, second: int, pr: int, pk: int)
    requires 0 <= second < pr && 0 <= first < pk && pr * pk <= 0x8000_0000
    ensures 0 <= pr * first && pr * first + second <= INT_MAX
  {
    MulBelow(pr, first, pk);
  }

  /** `(first << rem) + second` in `int` arithmetic is exact when the parts fit in 31 bits together. */
  lemma RecombineValue(first: int, second: int, rem: nat, k: nat)
    requires 0 <= second < Pow2(rem) && 0 <= first < Pow2(k) && 1 <= rem && rem + k <= 31
    ensures first <= INT_MAX && second <= INT_MAX
    ensures Wrap32(IntShiftLeft(first, rem) + second) == Pow2(rem) * first + second
  {
    var pr, pk := Pow2(rem), Pow2(k);
    Pow2Add(rem, k);
    Pow2Of31();
    Pow2Monotonic(rem + k, 31);
    Pow2Monotonic(rem, 31);
    Pow2Monotonic(k, 31);
    SumFits(first, second, pr, pk);
    var t := pr * first;
    ShiftLeftValue(first, rem, t);
  }

  lemma ShiftLeftValue(x: Int, n: nat, t: int)
    requires n < 32 && t == Pow2(n) * x && INT_MIN <= t <= INT_MAX
    ensures IntShiftLeft(x, n) == t
  {
    var p := Pow2(IntShiftCount(n));
    assert p == Pow2(n);
    assert x * p == t;
    assert IntShiftLeft(x, n) == Wrap32(x * p);
  }

  /** A straddling read of two in-range words recombines the top of the first and the bottom of the second. */
  lemma ReadPartsStraddle(words: seq<Word>, b: Int, bucket: Int, last: Int, off: Int)
    requires 0 < b < 32 && 0 <= bucket && last == bucket + 1 < |words| && 0 < 64 - off < b
    ensures ReadParts(words, b, bucket, last, off) ==
      Ok(Unsigned(words[bucket][off..64] + words[last][..b - (64 - off)]))
  {
    var rem := 64 - off;
    var lo, hi := words[bucket][off..64], words[last][..b - rem];
    UnsignedConcat(lo, hi);
    UnsignedBound(lo);
    UnsignedBound(hi);
    var second, first := Unsigned(lo), Unsigned(hi);
    RecombineValue(first, second, rem, b - rem);
    ReadInBucketValue(words, bucket, off, rem);
    ReadInBucketValue(words, last, 0, b - rem);
  }

  /** A read inside the bounds check and the array returns the unsigned value of the slot's bits. */
  lemma ReadSlotValue(words: seq<Word>, b: Int, s: Int, p: Int)
    requires 0 < b < 32 && NoOverflow(b, p) && p <= s
    requires (p + 1) * b <= 64 * |words|
    ensures ReadSlot(words, b, s, p) == Ok(Unsigned(Slot(words, b, p)))
  {
    if !Straddles(b, p) {
      SlotInOneWord(words, b, p);
      ReadInBucketValue(words, Bucket(b, p), Offset(b, p), b);
    } else {
      SlotInTwoWords(words, b, p);
      ReadPartsStraddle(words, b, Bucket(b, p), LastBitBucket(b, p), Offset(b, p));
    }
  }

  /** The value check passes exactly for bit sizes up to 30 and values below 2^bitSize; `1 << 31` is negative. */
  lemma RepresentableValues(b: Int, v: Int)
    requires 0 < b < 32
    ensures Representable(b, v) <==> b <= 30 && v < Pow2(b)
  {
    if b == 31 {
      ShiftOneBy31();
    } else {
      ShiftOneBelow31(b);
    }
  }

  lemma ShiftOneBy31()
    ensures IntShiftLeft(1, 31) == INT_MIN
  {
    Pow2Of31();
    assert IntShiftCount(31) == 31;
    DivUnique(0x1_0000_0000, 0x1_0000_0000, 1, 0);
  }

  lemma ShiftOneBelow31(b: Int)
    requires 0 <= b <= 30
    ensures IntShiftLeft(1, b) == Pow2(b)
  {
    Pow2Of31();
    Pow2Monotonic(b, 30);
    assert Pow2(31) == 2 * Pow2(30);
    assert IntShiftCount(b) == b;
  }

  /** The two parts of a straddling write: `value >> rem` and `value & ((1 << rem) - 1)`. */
  lemma SplitValue(v: Int, rem: Int)
    requires 0 < rem < 32
    ensures IntShiftRight(v, rem) == v / Pow2(rem)
    ensures IntAnd(v, IntLowMask(rem)) == v % Pow2(rem)
  {
    ShiftRightValue(v, rem);
    LowMaskValue(v, rem);
  }

  lemma ShiftRightValue(v: Int, rem: Int)
    requires 0 < rem < 32
    ensures IntShiftRight(v, rem) == v / Pow2(rem)
  {
    assert IntShiftCount(rem) == rem;
  }

  lemma LowMaskValue(v: Int, rem: Int)
    requires 0 < rem < 32
    ensures IntAnd(v, IntLowMask(rem)) == v % Pow2(rem)
  {
    LowMaskIsLowOnes(rem);
    IntAndLowMask(v, rem, IntLowMask(rem));
  }

  lemma LowMaskIsLowOnes(rem: Int)
    requires 0 < rem < 32
    ensures IntLowMask(rem) == Pow2(rem) - 1
  {
    assert IntShiftCount(rem) == rem;
  }

  /** The first word of a straddling write: bits from `off` up are the value's low bits. */
  lemma MergeTop(w: Word, b: Int, off: int, v: Int, rem: nat)
    requires 0 < b < 32 && 0 < rem < b && off == 64 - rem && 0 <= v % Pow2(rem) <= INT_MAX
    ensures forall i :: 0 <= i < 64 ==>
      MergeWord(w, b, off, v % Pow2(rem))[i] == if i < off then w[i] else Bit(v, i - off)
  {
    var second: Int := v % Pow2(rem);
    forall i | 0 <= i < 64
      ensures MergeWord(w, b, off, second)[i] == if i < off then w[i] else Bit(v, i - off)
    {
      MergeWordBits(w, b, off, second, i);
      if i >= off {
        BitOfMod(v, rem, i - off);
      }
    }
  }

  /** The second word of a straddling write: `bitSize` bits from 0 up are cleared and take the value's bits from `rem` on. */
  lemma MergeBottom(w: Word, b: Int, v: Int, rem: nat)
    requires 0 < b < 32 && 0 < rem && INT_MIN <= v / Pow2(rem) <= INT_MAX
    ensures forall i :: 0 <= i < 64 ==>
      MergeWord(w, b, 0, v / Pow2(rem))[i] == if i < b then Bit(v, i + rem) else w[i] || Bit(v, i + rem)
  {
    var first: Int := v / Pow2(rem);
    forall i | 0 <= i < 64
      ensures MergeWord(w, b, 0, first)[i] == if i < b then Bit(v, i + rem) else w[i] || Bit(v, i + rem)
    {
      MergeWordBits(w, b, 0, first, i);
      BitOfDiv(v, rem, i);
    }
  }

  /** A straddling write sets the top of the first word to the value's low bits, and the next word as the merge of `value >> (64 - offset)` at bit 0. */
  lemma WritePartsStraddle(words: seq<Word>, b: Int, bucket: Int, last: Int, off: Int, v: Int)
    requires 0 < b < 32 && 0 <= bucket && last == bucket + 1 && 0 < 64 - off < b
    ensures var r := WriteParts(words, b, bucket, last, off, v);
      && (r.status.Done? <==> last < |words|)
      && (r.status.Threw? ==> r.status.exception == IndexOutOfBounds)
      && (bucket < |words| ==> forall i :: 0 <= i < 64 ==>
            r.words[bucket][i] == if i < off then words[bucket][i] else Bit(v, i - off))
      && (last < |words| ==> forall i :: 0 <= i < 64 ==>
            r.words[last][i] == if i < b then Bit(v, i + (64 - off)) else words[last][i] || Bit(v, i + (64 - off)))
      && (forall k :: 0 <= k < |words| && k != bucket && k != last ==> r.words[k] == words[k])
  {
    var rem := 64 - off;
    SplitValue(v, rem);
    var first := IntShiftRight(v, rem);
    var second := IntAnd(v, IntLowMask(rem));
    var o := WriteInBucket(words, b, bucket, off, second);
    var r := WriteParts(words, b, bucket, last, off, v);
    assert r == if o.status.Threw? then o else WriteInBucket(o.words, b, last, 0, first);
    if bucket < |words| {
      MergeTop(words[bucket], b, off, v, rem);
      if last < |words| {
        assert r == WriteInBucket(o.words, b, last, 0, first);
        assert r.words[bucket] == o.words[bucket];
        MergeBottom(words[last], b, v, rem);
      }
    }
  }

  /** The end of the run of bits a write sets from the value: the slot's end, or for a straddling slot `bitSize` bits into the next word. */
  function ClearedEnd(b: Int, p: Int): int
    requires 0 < b < 32
  {
    if Straddles(b, p) then 64 * LastBitBucket(b, p) + b else (p + 1) * b
  }

  /**
   * What a write leaves in global bit j: bits outside the slot's words are
   * unchanged; below the slot they are kept; from the slot's start up to
   * `ClearedEnd` they are the value's bits; above that they are ORed with
   * the value's (sign-extended) bits.
   */
  predicate WrittenBit(old_: seq<Word>, new_: seq<Word>, b: Int, p: Int, v: Int, j: int)
    requires 0 < b < 32 && 0 <= j < 64 * |old_| && |new_| == |old_|
  {
    WrittenBitAt(old_, new_, p * b, ClearedEnd(b, p), 64 * (LastBitBucket(b, p) + 1), v, j)
  }

  /** `WrittenBit` for a write starting at global bit `start`, setting value bits up to `cleared` and ending with word boundary `end`. */
  predicate WrittenBitAt(old_: seq<Word>, new_: seq<Word>, start: int, cleared: int, end: int, v: int, j: int)
    requires 0 <= j < 64 * |old_| && |new_| == |old_|
  {
    GBit(new_, j) ==
      if j < start || j >= end then GBit(old_, j)
      else if j < cleared then Bit(v, j - start)
      else GBit(old_, j) || Bit(v, j - start)
  }

  lemma WriteSlotBitOneWord(words: seq<Word>, b: Int, p: Int, v: Int, j: int)
    requires 0 < b < 32 && NoOverflow(b, p) && (p + 1) * b <= 64 * |words| && Representable(b, v)
    requires 0 <= j < 64 * |words| && !Straddles(b, p)
    ensures WriteSlot(words, b, p, v).status == Done
    ensures WrittenBit(words, WriteSlot(words, b, p, v).words, b, p, v, j)
  {
    Layout(b, p);
    LastBitIndexValue(b, p);
    var bucket, off := Bucket(b, p), Offset(b, p);
    assert bucket < |words|;
    var r := WriteSlot(words, b, p, v);
    assert r == WriteInBucket(words, b, bucket, off, v);
    GBitSplit(words, j);
    var q, i := j / 64, j % 64;
    if q == bucket {
      MergeWordBits(words[bucket], b, off, v, i);
    }
  }

  /** The bits after a straddling write of two in-range words, with the slot starting at global bit `start`. */
  lemma WritePartsStraddleBit(words: seq<Word>, b: Int, bucket: Int, last: Int, off: Int, v: Int, start: int, j: int)
    requires 0 < b < 32 && 0 <= bucket && last == bucket + 1 < |words| && 0 < 64 - off < b
    requires start == 64 * bucket + off && 0 <= j < 64 * |words|
    ensures var r := WriteParts(words, b, bucket, last, off, v);
      && r.status.Done?
      && GBit(r.words, j) ==
        if j < start || j >= 64 * (last + 1) then GBit(words, j)
        else if j < 64 * last + b then Bit(v, j - start)
        else GBit(words, j) || Bit(v, j - start)
  {
    WritePartsStraddle(words, b, bucket, last, off, v);
    GBitSplit(words, j);
    var q := j / 64;
    if q == bucket || q == last {
      assert j - 64 * q == j % 64;
    }
  }

  lemma WriteSlotBitTwoWords(words: seq<Word>, b: Int, p: Int, v: Int, j: int)
    requires 0 < b < 32 && NoOverflow(b, p) && (p + 1) * b <= 64 * |words| && Representable(b, v)
    requires 0 <= j < 64 * |words| && Straddles(b, p)
    ensures WriteSlot(words, b, p, v).status == Done
    ensures WrittenBit(words, WriteSlot(words, b, p, v).words, b, p, v, j)
  {
    Layout(b, p);
    LastBitIndexValue(b, p);
    var bucket, last, off := Bucket(b, p), LastBitBucket(b, p), Offset(b, p);
    assert last < |words|;
    assert WriteSlot(words, b, p, v) == WriteParts(words, b, bucket, last, off, v);
    WritePartsStraddleBit(words, b, bucket, last, off, v, p * b, j);
  }

  /** A representable write of an in-range slot completes, and leaves every bit as `WrittenBit` says. */
  lemma WriteSlotBit(words: seq<Word>, b: Int, p: Int, v: Int, j: int)
    requires 0 < b < 32 && NoOverflow(b, p) && (p + 1) * b <= 64 * |words| && Representable(b, v)
    requires 0 <= j < 64 * |words|
    ensures WriteSlot(words, b, p, v).status == Done
    ensures WrittenBit(words, WriteSlot(words, b, p, v).words, b, p, v, j)
  {
    if Straddles(b, p) {
      WriteSlotBitTwoWords(words, b, p, v, j);
    } else {
      WriteSlotBitOneWord(words, b, p, v, j);
    }
  }

  /** The whole effect of a representable write of an in-range slot, with the layout of the run of bits it sets. */
  lemma WriteEffect(words: seq<Word>, b: Int, p: Int, v: Int) returns (start: int, cleared: int, end: int)
    requires 0 < b < 32 && NoOverflow(b, p) && (p + 1) * b <= 64 * |words| && Representable(b, v)
    ensures start == p * b && cleared == ClearedEnd(b, p) && end == 64 * (LastBitBucket(b, p) + 1)
    ensures start + b <= cleared <= end
    ensures !Straddles(b, p) ==> cleared == start + b
    ensures Straddles(b, p) ==> 0 < 64 - Offset(b, p) < b && cleared == start + b + (64 - Offset(b, p))
    ensures WriteSlot(words, b, p, v).status == Done
    ensures forall j :: 0 <= j < 64 * |words| ==> WrittenBitAt(words, WriteSlot(words, b, p, v).words, start, cleared, end, v, j)
  {
    Layout(b, p);
    LastBitIndexValue(b, p);
    start, cleared, end := p * b, ClearedEnd(b, p), 64 * (LastBitBucket(b, p) + 1);
    WriteSlotBit(words, b, p, v, 0);
    forall j | 0 <= j < 64 * |words|
      ensures WrittenBitAt(words, WriteSlot(words, b, p, v).words, start, cleared, end, v, j)
    {
      WriteSlotBit(words, b, p, v, j);
    }
  }

  // ---------------------------------------------------------------------------
  // What writes and reads mean

  /** The slot written by `WrittenBitAt` holds the value's low b bits. */
  lemma WrittenSlot(old_: seq<Word>, new_: seq<Word>, b: nat, p: nat, start: int, cleared: int, end: int, v: int)
    requires |new_| == |old_| && (p + 1) * b <= 64 * |old_| && start == p * b && start + b <= cleared <= end
    requires forall j :: 0 <= j < 64 * |old_| ==> WrittenBitAt(old_, new_, start, cleared, end, v, j)
    ensures Slot(new_, b, p) == BitsOf(v, b)
  {
    forall i | 0 <= i < b
      ensures Slot(new_, b, p)[i] == BitsOf(v, b)[i]
    {
      assert WrittenBitAt(old_, new_, start, cleared, end, v, p * b + i);
    }
  }

  /** Reading back a slot just written gives the value's low `bitSize` bits: the value itself when it is non-negative. */
  lemma WriteThenRead(words: seq<Word>, b: Int, s: Int, p: Int, v: Int)
    requires 0 < b < 32 && NoOverflow(b, p) && p <= s && (p + 1) * b <= 64 * |words|
    requires Representable(b, v)
    ensures WriteSlot(words, b, p, v).status == Done
    ensures ReadSlot(WriteSlot(words, b, p, v).words, b, s, p) == Ok(v % Pow2(b))
    ensures 0 <= v ==> ReadSlot(WriteSlot(words, b, p, v).words, b, s, p) == Ok(v)
  {
    var start, cleared, end := WriteEffect(words, b, p, v);
    var r := WriteSlot(words, b, p, v);
    WrittenSlot(words, r.words, b, p, start, cleared, end, v);
    UnsignedOfBits(v, b);
    ReadSlotValue(r.words, b, s, p);
    RepresentableValues(b, v);
    if 0 <= v {
      DivUnique(v, Pow2(b), 0, v);
    }
  }

  lemma MulOrder(b: int, p: int, q: int)
    requires 0 <= b && p <= q
    ensures p * b <= q * b
  {
  }

  /** A slot outside [start, cleared) keeps its bits when a value below 2^b is written as `WrittenBitAt` says. */
  lemma KeepsSlot(old_: seq<Word>, new_: seq<Word>, b: nat, q: nat, start: int, cleared: int, end: int, v: int)
    requires |new_| == |old_| && (q + 1) * b <= 64 * |old_| && 0 <= v < Pow2(b) && start + b <= cleared
    requires (q + 1) * b <= start || cleared <= q * b
    requires forall j :: 0 <= j < 64 * |old_| ==> WrittenBitAt(old_, new_, start, cleared, end, v, j)
    ensures Slot(new_, b, q) == Slot(old_, b, q)
  {
    forall i | 0 <= i < b
      ensures Slot(new_, b, q)[i] == Slot(old_, b, q)[i]
    {
      var j := q * b + i;
      assert WrittenBitAt(old_, new_, start, cleared, end, v, j);
      if start <= j {
        HighBitsClear(v, b, j - start);
      }
    }
  }

  /**
   * A write of a non-negative value leaves every other slot as it was, except
   * the next slot when the written one straddles two words.
   */
  lemma WriteKeepsOtherSlots(words: seq<Word>, b: Int, p: Int, q: Int, v: Int)
    requires 0 < b < 32 && NoOverflow(b, p) && NoOverflow(b, q)
    requires (p + 1) * b <= 64 * |words| && (q + 1) * b <= 64 * |words|
    requires Representable(b, v) && 0 <= v
    requires q != p && !(Straddles(b, p) && q == p + 1)
    ensures Slot(WriteSlot(words, b, p, v).words, b, q) == Slot(words, b, q)
  {
    RepresentableValues(b, v);
    if q < p {
      MulOrder(b, q + 1, p);
      WriteKeepsSlot(words, b, p, q, v);
    } else if Straddles(b, p) {
      MulOrder(b, p + 2, q);
      WriteKeepsSlot(words, b, p, q, v);
    } else {
      MulOrder(b, p + 1, q);
      WriteKeepsSlot(words, b, p, q, v);
    }
  }

  lemma WriteKeepsSlot(words: seq<Word>, b: Int, p: Int, q: Int, v: Int)
    requires 0 < b < 32 && NoOverflow(b, p) && 0 <= q
    requires (p + 1) * b <= 64 * |words| && (q + 1) * b <= 64 * |words|
    requires Representable(b, v) && 0 <= v < Pow2(b)
    requires (q + 1) * b <= p * b || (Straddles(b, p) && (p + 2) * b <= q * b) || (!Straddles(b, p) && (p + 1) * b <= q * b)
    ensures Slot(WriteSlot(words, b, p, v).words, b, q) == Slot(words, b, q)
  {
    var start, cleared, end := WriteEffect(words, b, p, v);
    if Straddles(b, p) {
      assert cleared <= (p + 2) * b by {
        Layout(b, p);
      }
    }
    KeepsSlot(words, WriteSlot(words, b, p, v).words, b, q, start, cleared, end, v);
  }

  /** The next slot, beginning `rem` bits before `cleared`, loses its low `rem` bits. */
  lemma ClobbersSlot(old_: seq<Word>, new_: seq<Word>, b: nat, q: nat, start: int, cleared: int, end: int, v: int, rem: nat)
    requires |new_| == |old_| && (q + 1) * b <= 64 * |old_| && 0 <= v < Pow2(b) && rem <= b
    requires start + b == q * b && cleared == q * b + rem && cleared <= end
    requires forall j :: 0 <= j < 64 * |old_| ==> WrittenBitAt(old_, new_, start, cleared, end, v, j)
    ensures var x := Unsigned(Slot(old_, b, q));
      Unsigned(Slot(new_, b, q)) == x - x % Pow2(rem)
  {
    var olds, news := Slot(old_, b, q), Slot(new_, b, q);
    forall i | 0 <= i < b
      ensures news[i] == (rem <= i && olds[i])
    {
      var j := q * b + i;
      assert WrittenBitAt(old_, new_, start, cleared, end, v, j);
      HighBitsClear(v, b, j - start);
    }
    var lo, hi, pr := Unsigned(olds[..rem]), Unsigned(olds[rem..]), Pow2(rem);
    UnsignedSplit(olds, rem);
    UnsignedSplit(news, rem);
    assert news[rem..] == olds[rem..];
    UnsignedAllFalse(news[..rem]);
    UnsignedBound(olds[..rem]);
    var x := Unsigned(olds);
    assert x == lo + pr * hi;
    assert Unsigned(news) == pr * hi;
    DivUnique(x, pr, hi, lo);
  }

  /**
   * A straddling write clears the bits of the next word from 0 up to `bitSize`,
   * not only up to the end of its own slot: the low `64 - offset` bits of the
   * next slot are lost, whatever non-negative value is written (a negative
   * one is sign-extended and ORs ones in there instead).
   */
  lemma StraddlingWriteClobbersNext(words: seq<Word>, b: Int, p: Int, v: Int)
    requires 0 < b < 32 && 0 <= p < INT_MAX && NoOverflow(b, p + 1) && (p + 2) * b <= 64 * |words|
    requires Representable(b, v) && 0 <= v && Straddles(b, p)
    ensures 0 < 64 - Offset(b, p) < b
    ensures var x := Unsigned(Slot(words, b, p + 1));
      Unsigned(Slot(WriteSlot(words, b, p, v).words, b, p + 1)) == x - x % Pow2(64 - Offset(b, p))
  {
    MulOrder(b, p + 1, p + 2);
    RepresentableValues(b, v);
    WriteClobbersNext(words, b, p, v);
  }

  lemma WriteClobbersNext(words: seq<Word>, b: Int, p: Int, v: Int)
    requires 0 < b < 32 && 0 <= p < INT_MAX && NoOverflow(b, p) && (p + 2) * b <= 64 * |words|
    requires Representable(b, v) && 0 <= v < Pow2(b) && Straddles(b, p)
    ensures 0 < 64 - Offset(b, p) < b
    ensures var x := Unsigned(Slot(words, b, p + 1));
      Unsigned(Slot(WriteSlot(words, b, p, v).words, b, p + 1)) == x - x % Pow2(64 - Offset(b, p))
  {
    var start, cleared, end := WriteEffect(words, b, p, v);
    ClobbersSlot(words, WriteSlot(words, b, p, v).words, b, p + 1, start, cleared, end, v, 64 - Offset(b, p));
  }

  /**
   * A straddling write whose second word lies past the end of the array
   * throws, but only after writing the value's low bits into the last word.
   */
  lemma PartialStraddlingWrite(words: seq<Word>, b: Int, p: Int, v: Int, bucket: Int, off: Int)
    requires 0 < b < 32 && NoOverflow(b, p) && Representable(b, v)
    requires bucket == Bucket(b, p) == |words| - 1 && off == Offset(b, p) && 0 <= off && 64 < off + b
    ensures WriteSlot(words, b, p, v).status == Threw(IndexOutOfBounds)
    ensures forall k :: 0 <= k < bucket ==> WriteSlot(words, b, p, v).words[k] == words[k]
    ensures forall i :: 0 <= i < 64 ==>
      WriteSlot(words, b, p, v).words[bucket][i] == if i < off then words[bucket][i] else Bit(v, i - off)
  {
    Layout(b, p);
    LastBitIndexValue(b, p);
    PartialWrite(words, b, bucket, LastBitBucket(b, p), off, v);
  }

  lemma PartialWrite(words: seq<Word>, b: Int, bucket: Int, last: Int, off: Int, v: Int)
    requires 0 < b < 32 && 0 <= bucket && last == bucket + 1 == |words| && 0 < 64 - off < b
    ensures var r := WriteParts(words, b, bucket, last, off, v);
      && r.status == Threw(IndexOutOfBounds)
      && (forall k :: 0 <= k < bucket ==> r.words[k] == words[k])
      && (forall i :: 0 <= i < 64 ==>
            (r.words[bucket][i] == if i < off then words[bucket][i] else Bit(v, i - off)))
  {
    WritePartsStraddle(words, b, bucket, last, off, v);
  }

  /**
   * A negative value passes the value check and is sign-extended: writing it
   * into a slot inside one word sets every bit above the slot up to the end of
   * that word.
   */
  lemma NegativeWriteSetsHigherBits(words: seq<Word>, b: Int, p: Int, v: Int)
    requires 0 < b < 32 && NoOverflow(b, p) && (p + 1) * b <= 64 * |words|
    requires Representable(b, v) && -Pow2(b) <= v < 0 && !Straddles(b, p)
    ensures forall j :: (p + 1) * b <= j < 64 * (Bucket(b, p) + 1) ==>
      j < 64 * |words| && GBit(WriteSlot(words, b, p, v).words, j)
  {
    var start, cleared, end := WriteEffect(words, b, p, v);
    var r := WriteSlot(words, b, p, v);
    assert end <= 64 * |words| by {
      Layout(b, p);
      LastBitIndexValue(b, p);
    }
    forall j | (p + 1) * b <= j < 64 * (Bucket(b, p) + 1)
      ensures j < 64 * |words| && GBit(r.words, j)
    {
      assert WrittenBitAt(words, r.words, start, cleared, end, v, j);
      HighBitsSet(v, b, j - start);
    }
  }

  // ---------------------------------------------------------------------------
  // The object

  /** Reading any bits of a zero word gives 0. */
  lemma ExtractZero(off: Int, bits: Int)
    ensures ExtractWord(ZERO, off, bits) == 0
  {
    var s := LongShiftCount(off);
    var r := ShiftRightBits(AndBits(ZERO, ShiftLeftBits(LongLowOnes(bits), s)), s)[..32];
    forall i | 0 <= i < 32
      ensures !r[i]
    {
      if i + s < 64 { ZeroBits(i + s); }
    }
    UnsignedAllFalse(r[..31]);
  }

  /** A freshly built set reads 0 at every position the read accepts. */
  lemma FreshReadsZero(n: nat, b: Int, s: Int, p: Int)
    requires 0 < b < 32
    ensures ReadSlot(Zeros(n), b, s, p).Ok? ==> ReadSlot(Zeros(n), b, s, p) == Ok(0)
  {
    ExtractZero(Offset(b, p), b);
    ExtractZero(Offset(b, p), 64 - Offset(b, p));
    ExtractZero(0, b - (64 - Offset(b, p)));
    ExtractZero(0, b);
    assert IntShiftLeft(0, 64 - Offset(b, p)) == 0;
  }

  /** The words after `setIthBits(i, vs[i])` for i = 0, 1, .., |vs| - 1 in that order. */
  function WriteAll(words: seq<Word>, b: Int, vs: seq<Int>): (r: seq<Word>)
    requires 0 < b < 32 && |vs| <= INT_MAX + 1
    ensures |r| == |words|
  {
    if vs == [] then words
    else WriteSlot(WriteAll(words, b, vs[..|vs| - 1]), b, |vs| - 1, vs[|vs| - 1]).words
  }

  /**
   * Writing positions 0 .. n-1 in increasing order and then reading any of
   * them returns the value written there: a straddling write clobbers only
   * the next slot, which is written afterwards.
   */
  lemma {:induction false} WriteAllThenRead(words: seq<Word>, b: Int, s: Int, vs: seq<Int>, q: nat)
    requires 0 < b <= 30 && q < |vs| && q <= s && |vs| <= |vs| * b <= INT_MAX && |vs| * b <= 64 * |words|
    requires forall i :: 0 <= i < |vs| ==> 0 <= vs[i] < Pow2(b)
    ensures ReadSlot(WriteAll(words, b, vs), b, s, q) == Ok(vs[q])
  {
    var n := |vs|;
    var init := vs[..n - 1];
    var pre := WriteAll(words, b, init);
    assert WriteAll(words, b, vs) == WriteSlot(pre, b, n - 1, vs[n - 1]).words;
    MulOrder(b, n - 1, n);
    if q == n - 1 {
      WrittenReadsBack(pre, b, s, n - 1, vs[n - 1]);
    } else {
      assert ReadSlot(pre, b, s, q) == Ok(vs[q]) by {
        MulOrder(n - 1, 1, b);
        assert |init| == n - 1 && init[q] == vs[q];
        assert forall i :: 0 <= i < |init| ==> init[i] == vs[i];
        WriteAllThenRead(words, b, s, init, q);
      }
      MulOrder(b, q + 1, n - 1);
      LaterWriteKeepsRead(pre, b, s, n - 1, q, vs[n - 1]);
    }
  }

  /** `WriteThenRead` for a value in [0, 2^b) and b <= 30. */
  lemma WrittenReadsBack(words: seq<Word>, b: Int, s: Int, p: Int, v: Int)
    requires 0 < b <= 30 && NoOverflow(b, p) && p <= s && (p + 1) * b <= 64 * |words|
    requires 0 <= v < Pow2(b)
    ensures ReadSlot(WriteSlot(words, b, p, v).words, b, s, p) == Ok(v)
  {
    RepresentableValues(b, v);
    WriteThenRead(words, b, s, p, v);
  }

  /** A write at position p leaves the read of an earlier position q unchanged. */
  lemma LaterWriteKeepsRead(words: seq<Word>, b: Int, s: Int, p: Int, q: nat, v: Int)
    requires 0 < b <= 30 && NoOverflow(b, p) && q < p && q <= s && (p + 1) * b <= 64 * |words|
    requires 0 <= v < Pow2(b)
    ensures ReadSlot(WriteSlot(words, b, p, v).words, b, s, q) == ReadSlot(words, b, s, q)
  {
    RepresentableValues(b, v);
    MulOrder(b, q + 1, p);
    MulOrder(b, q + 1, p + 1);
    var post := WriteSlot(words, b, p, v).words;
    WriteKeepsSlot(words, b, p, q, v);
    ReadSlotValue(words, b, s, q);
    ReadSlotValue(post, b, s, q);
  }

  /**
   * The straddling case of the round trip, on the array of a set of ten 20-bit
   * slots: slot 3 spans bits 60 to 79.
   */
  lemma StraddlingRoundTripExample(words: seq<Word>)
    requires |words| == WordCount(20, 10)
    ensures Straddles(20, 3)
    ensures ReadSlot(WriteSlot(words, 20, 3, 0x10_0000 - 19).words, 20, 10, 3) == Ok(0x10_0000 - 19)
  {
    assert |words| == 4;
    assert Pow2(20) == 0x10_0000 by { Pow2Add(10, 10); assert Pow2(10) == 1024; }
    RepresentableValues(20, 0x10_0000 - 19);
    WriteThenRead(words, 20, 10, 3, 0x10_0000 - 19);
  }

  /** With one bit per slot, setting position 32 of 64 to 1 reads back 1. */
  lemma OneBitRoundTripExample(words: seq<Word>)
    requires |words| == 1
    ensures ReadSlot(WriteSlot(words, 1, 32, 1).words, 1, 64, 32) == Ok(1)
  {
    RepresentableValues(1, 1);
    WriteThenRead(words, 1, 64, 32, 1);
  }

  /** A fresh backing array: n words, all zero. */
  function Zeros(n: nat): seq<Word>
  {
    seq(n, _ => ZERO)
  }

  /** The Java object: two final `int` fields and the `long[] set`, here `words`, updated in place. */
  class PackedBitsSet {
    const bitSize: Int
    const setSize: Int
    const words: array<Word>

    /** What the constructor establishes; every field is final, so it holds for the object's lifetime. */
    ghost predicate Valid()
    {
      0 < bitSize < 32 && 0 < setSize && words.Length == WordCount(bitSize, setSize)
    }

    /** The constructor once its three argument checks have passed. */
    constructor (bitSize: Int, setSize: Int)
      requires 0 < bitSize < 32 && 0 < setSize
      ensures Valid() && this.bitSize == bitSize && this.setSize == setSize
      ensures fresh(words) && words[..] == Zeros(WordCount(bitSize, setSize))
    {
      this.bitSize := bitSize;
      this.setSize := setSize;
      var size := WordCount(bitSize, setSize);
      this.words := new Word[size](_ => ZERO);
    }

    /**
     * `new PackedBitsSet(bitSize, setSize)`: `IllegalArgumentException` unless
     * 0 < bitSize < 32 and setSize > 0; otherwise ceil(bitSize * setSize / 64)
     * zero words, and `getBitSize` / `getSetSize` (the fields) return the arguments.
     */
    static method Create(bitSize: Int, setSize: Int) returns (r: Result<PackedBitsSet>)
      ensures r.Throws? <==> !(bitSize > 0 && bitSize < 32 && setSize > 0)
      ensures r.Throws? ==> r.exception == IllegalArgument
      ensures r.Ok? ==> fresh(r.value) && fresh(r.value.words) && r.value.Valid()
      ensures r.Ok? ==> r.value.bitSize == bitSize && r.value.setSize == setSize
      ensures r.Ok? ==> r.value.words[..] == Zeros(WordCount(bitSize, setSize))
    {
      if !(bitSize > 0) || !(bitSize < 32) || !(setSize > 0) {
        return Throws(IllegalArgument);
      }
      var s := new PackedBitsSet(bitSize, setSize);
      return Ok(s);
    }

    /** `setIthBits`: the array afterwards, and the exception if any, are those of `WriteSlot`. */
    method SetIthBits(position: Int, value: Int) returns (status: Status)
      requires Valid()
      modifies words
      ensures Outcome(status, words[..]) == WriteSlot(old(words[..]), bitSize, position, value)
    {
      if !(IntShiftLeft(1, bitSize) > value) {
        return Threw(IllegalArgument);
      }
      var bucket := Bucket(bitSize, position);
      var bucketLastBit := LastBitBucket(bitSize, position);
      var offset := Offset(bitSize, position);
      status := SetIthBitsAt(bucket, bucketLastBit, offset, value);
    }

    /** The writes of `setIthBits` once the first and last bucket and the offset are known, as `WriteParts` states them. */
    method SetIthBitsAt(bucket: Int, bucketLastBit: Int, offset: Int, value: Int) returns (status: Status)
      requires 0 < bitSize < 32 && -64 < offset < 64
      modifies words
      ensures Outcome(status, words[..]) == WriteParts(old(words[..]), bitSize, bucket, bucketLastBit, offset, value)
    {
      if bucket == bucketLastBit {
        status := SetIthBitsInBucket(bucket, offset, value);
      } else {
        var remanent := 64 - offset;
        var firstValue := IntShiftRight(value, remanent);
        var secondValue := IntAnd(value, IntLowMask(remanent));
        status := SetIthBitsInBucket(bucket, offset, secondValue);
        if status.Threw? {
          return;
        }
        status := SetIthBitsInBucket(bucketLastBit, 0, firstValue);
      }
    }

    /** `setIthBitsInBucket`: clear `bitSize` bits of one word from `offset` up and OR in the value. */
    method SetIthBitsInBucket(bucket: Int, offset: Int, value: Int) returns (status: Status)
      requires 0 < bitSize < 32
      modifies words
      ensures Outcome(status, words[..]) == WriteInBucket(old(words[..]), bitSize, bucket, offset, value)
    {
      if !(0 <= bucket < words.Length) {
        return Threw(IndexOutOfBounds);
      }
      var longValue := BitsOf(value, 64);
      var bucketValue := words[bucket];
      var mask := NotBits(ShiftLeftBits(LongLowOnes(bitSize), LongShiftCount(offset)));
      bucketValue := AndBits(bucketValue, mask);
      bucketValue := OrBits(bucketValue, ShiftLeftBits(longValue, LongShiftCount(offset)));
      words[bucket] := bucketValue;
      status := Done;
    }

    /** `getIthBits`: the value, or the exception, is that of `ReadSlot`; the array is not modified. */
    method GetIthBits(position: Int) returns (r: Result<Int>)
      requires Valid()
      ensures r == ReadSlot(words[..], bitSize, setSize, position)
    {
      if !(setSize >= position) {
        return Throws(IllegalArgument);
      }
      var bucket := Bucket(bitSize, position);
      var bucketLastBit := LastBitBucket(bitSize, position);
      var offset := Offset(bitSize, position);
      r := GetIthBitsAt(bucket, bucketLastBit, offset);
    }

    /** The reads of `getIthBits` once the first and last bucket and the offset are known, as `ReadParts` states them. */
    method GetIthBitsAt(bucket: Int, bucketLastBit: Int, offset: Int) returns (r: Result<Int>)
      requires 0 < bitSize < 32 && -64 < offset < 64
      ensures r == ReadParts(words[..], bitSize, bucket, bucketLastBit, offset)
    {
      if bucket == bucketLastBit {
        r := GetIthBitsInBucket(bucket, offset, bitSize);
      } else {
        var remanent := 64 - offset;
        var secondValue := GetIthBitsInBucket(bucket, offset, remanent);
        if secondValue.Throws? {
          return secondValue;
        }
        var firstValue := GetIthBitsInBucket(bucketLastBit, 0, bitSize - remanent);
        if firstValue.Throws? {
          return firstValue;
        }
        r := Ok(Wrap32(IntShiftLeft(firstValue.value, remanent) + secondValue.value));
      }
    }

    /** `getIthBitsInBucket`: `bits` bits of one word from `offset` up, as `ReadInBucket` reads them. */
    method GetIthBitsInBucket(bucket: Int, offset: Int, bits: Int) returns (r: Result<Int>)
      requires 0 < bitSize < 32
      ensures r == ReadInBucket(words[..], bucket, offset, bits)
    {
      if !(0 <= bucket < words.Length) {
        return Throws(IndexOutOfBounds);
      }
      var bucketValue := words[bucket];
      var mask := ShiftLeftBits(LongLowOnes(bits), LongShiftCount(offset));
      bucketValue := AndBits(bucketValue, mask);
      var result := ShiftRightBits(bucketValue, LongShiftCount(offset));
      r := Ok(IntOfBits(result[..32]));
    }
  }
}
