/**
 * `bBitMinHash`: b-bit minwise hashing. Position i of the sketch keeps the
 * low `bitsSize` bits of the i-th minimum hash in a `collections.PackedBitsSet`;
 * two sketches are compared by the fraction of positions whose stored bits
 * agree. The `float` the estimate returns is kept as its numerator and
 * denominator.
 */
module BBitMinHash {
  import opened Java
  import opened Bits
  import opened HashBits
  import opened PackedBits

  /** `hash.getLeastSignificantBits(bitsSize).intValue()`: the hash modulo 2^bitsSize. */
  function StoredBits(hash: Hash, bitsSize: Int): (v: Int)
    requires 0 < bitsSize < 32
    ensures 0 <= v < Pow2(bitsSize)
    ensures v == hash.Value() % Pow2(bitsSize)
  {
    var low := hash.LeastSignificantBits(bitsSize);
    Pow2Monotonic(bitsSize, 31);
    Pow2Of31();
    Wrap32(low.value)
  }


  /** What `getIthBits` returns for positions 0 .. n-1 of a packed set. */
  function SlotReads(words: seq<Word>, bitSize: Int, setSize: Int, n: nat): (r: seq<Result<Int>>)
    requires 0 < bitSize < 32 && n <= INT_MAX + 1
    ensures |r| == n
  {
    SlotReadsFrom(words, bitSize, setSize, 0, n)
  }

  /** The reads at positions k .. n-1. */
  function SlotReadsFrom(words: seq<Word>, bitSize: Int, setSize: Int, k: nat, n: nat): (r: seq<Result<Int>>)
    requires 0 < bitSize < 32 && k <= n <= INT_MAX + 1
    ensures |r| == n - k
    decreases n - k
  {
    if k == n then [] else [ReadSlot(words, bitSize, setSize, k)] + SlotReadsFrom(words, bitSize, setSize, k + 1, n)
  }

  lemma {:induction false} SlotReadsFromAt(words: seq<Word>, bitSize: Int, setSize: Int, k: nat, n: nat, i: nat)
    requires 0 < bitSize < 32 && k <= i < n <= INT_MAX + 1
    ensures SlotReadsFrom(words, bitSize, setSize, k, n)[i - k] == ReadSlot(words, bitSize, setSize, i)
    decreases n - k
  {
    if k < i {
      SlotReadsFromAt(words, bitSize, setSize, k + 1, n, i);
      SlotReadsFromTail(words, bitSize, setSize, k, n, i - k);
    } else {
      SlotReadsFromHead(words, bitSize, setSize, k, n);
    }
  }

  lemma SlotReadsFromHead(words: seq<Word>, bitSize: Int, setSize: Int, k: nat, n: nat)
    requires 0 < bitSize < 32 && k < n <= INT_MAX + 1
    ensures SlotReadsFrom(words, bitSize, setSize, k, n)[0] == ReadSlot(words, bitSize, setSize, k)
  {
  }

  lemma SlotReadsFromTail(words: seq<Word>, bitSize: Int, setSize: Int, k: nat, n: nat, j: nat)
    requires 0 < bitSize < 32 && k < n <= INT_MAX + 1 && 0 < j < n - k
    ensures SlotReadsFrom(words, bitSize, setSize, k, n)[j] == SlotReadsFrom(words, bitSize, setSize, k + 1, n)[j - 1]
  {
  }

  lemma SlotReadsAt(words: seq<Word>, bitSize: Int, setSize: Int, n: nat, i: nat)
    requires 0 < bitSize < 32 && i < n <= INT_MAX + 1
    ensures SlotReads(words, bitSize, setSize, n)[i] == ReadSlot(words, bitSize, setSize, i)
  {
    SlotReadsFromAt(words, bitSize, setSize, 0, n, i);
  }

  /**
   * The loop of `estimateJaccardIndex` over the first n positions, given what
   * the two sketches' reads return: the number of positions whose reads agree,
   * or the first exception a read throws (the receiver's read of a position
   * comes before the other sketch's).
   */
  function EqualReads(xs: seq<Result<Int>>, ys: seq<Result<Int>>, n: nat): (r: Result<nat>)
    requires n <= |xs| && n <= |ys|
    ensures r.Ok? ==> r.value <= n
  {
    if n == 0 then Ok(0)
    else
      match EqualReads(xs, ys, n - 1)
      case Throws(e) => Throws(e)
      case Ok(c) =>
        var x, y := xs[n - 1], ys[n - 1];
        if x.Throws? then Throws(x.exception)
        else if y.Throws? then Throws(y.exception)
        else Ok(c + if x.value == y.value then 1 else 0)
  }

  /**
   * `estimateJaccardIndex`: `IllegalArgumentException` unless both sketches
   * have the same bit size and the same set size; otherwise the number of
   * agreeing positions over the set size.
   */
  function Estimate(a: seq<Word>, b: seq<Word>, bitsA: Int, bitsB: Int, sizeA: Int, sizeB: Int): (r: Result<Ratio>)
    requires 0 < bitsA < 32 && 0 < sizeA
    ensures bitsA != bitsB || sizeA != sizeB ==> r == Throws(IllegalArgument)
    ensures r.Ok? ==> r.value.denominator == sizeA && 0 <= r.value.numerator <= sizeA
  {
    if !(bitsB == bitsA) then Throws(IllegalArgument)
    else if !(sizeB == sizeA) then Throws(IllegalArgument)
    else
      match EqualReads(SlotReads(a, bitsA, sizeA, sizeA), SlotReads(b, bitsA, sizeA, sizeA), sizeA)
      case Throws(e) => Throws(e)
      case Ok(c) => Ok(Ratio(c, sizeA))
  }

  // ---------------------------------------------------------------------------
  // The comparison loop

  /** Once a read has thrown, the loop's outcome is that exception however many positions follow. */
  lemma {:induction false} EqualReadsThrowsOn(xs: seq<Result<Int>>, ys: seq<Result<Int>>, i: nat, n: nat)
    requires i <= n <= |xs| && n <= |ys|
    requires EqualReads(xs, ys, i).Throws?
    ensures EqualReads(xs, ys, n) == EqualReads(xs, ys, i)
    decreases n - i
  {
    if i < n {
      EqualReadsThrowsOn(xs, ys, i, n - 1);
    }
  }

  /** Comparing is symmetric when the two sketches' reads throw at the same positions with the same exceptions. */
  lemma {:induction false} EqualReadsSymmetric(xs: seq<Result<Int>>, ys: seq<Result<Int>>, n: nat)
    requires n <= |xs| && n <= |ys|
    requires forall i :: 0 <= i < n ==> (xs[i].Throws? <==> ys[i].Throws?) && (xs[i].Throws? ==> xs[i] == ys[i])
    ensures EqualReads(xs, ys, n) == EqualReads(ys, xs, n)
  {
    if n > 0 {
      EqualReadsSymmetric(xs, ys, n - 1);
    }
  }

  /** A sketch agrees with itself at every position it reads. */
  lemma {:induction false} EqualReadsSelf(xs: seq<Result<Int>>, n: nat)
    requires n <= |xs|
    ensures EqualReads(xs, xs, n).Ok? ==> EqualReads(xs, xs, n).value == n
  {
    if n > 0 {
      EqualReadsSelf(xs, n - 1);
    }
  }

  // ---------------------------------------------------------------------------
  // What the estimate counts

  /** The reference count: the positions i < n whose slots hold the same bits. */
  function AgreeingSlots(a: seq<Word>, b: seq<Word>, bitSize: nat, n: nat): nat
    requires n * bitSize <= 64 * |a| && n * bitSize <= 64 * |b|
  {
    if n == 0 then 0
    else
      MulPrefix(n, bitSize, 64 * |a|);
      MulPrefix(n, bitSize, 64 * |b|);
      AgreeingSlots(a, b, bitSize, n - 1) + if Slot(a, bitSize, n - 1) == Slot(b, bitSize, n - 1) then 1 else 0
  }

  lemma MulPrefix(n: nat, b: nat, m: int)
    requires n * b <= m && n >= 1
    ensures (n - 1) * b <= m && (n - 1 + 1) * b <= m
  {
    assert n * b == (n - 1) * b + b;
  }

  /** Two bit strings of the same length denoting the same number are equal. */
  lemma UnsignedInjective(s: seq<bool>, t: seq<bool>)
    requires |s| == |t| && Unsigned(s) == Unsigned(t)
    ensures s == t
  {
    BitsOfUnsigned(s);
    BitsOfUnsigned(t);
  }

  /**
   * Inside the `int` range of the index arithmetic no read throws, and the
   * loop counts exactly the positions whose slots agree.
   */
  lemma {:induction false} EqualReadsCountsAgreeingSlots(a: seq<Word>, b: seq<Word>, bitSize: Int, setSize: Int, m: nat, n: nat)
    requires 0 < bitSize < 32 && n <= m <= setSize && n * bitSize <= INT_MAX
    requires n * bitSize <= 64 * |a| && n * bitSize <= 64 * |b|
    ensures EqualReads(SlotReads(a, bitSize, setSize, m), SlotReads(b, bitSize, setSize, m), n) == Ok(AgreeingSlots(a, b, bitSize, n))
  {
    if n > 0 {
      MulPrefix(n, bitSize, INT_MAX);
      MulPrefix(n, bitSize, 64 * |a|);
      MulPrefix(n, bitSize, 64 * |b|);
      EqualReadsCountsAgreeingSlots(a, b, bitSize, setSize, m, n - 1);
      ReadSlotValue(a, bitSize, setSize, n - 1);
      ReadSlotValue(b, bitSize, setSize, n - 1);
      SlotReadsAt(a, bitSize, setSize, m, n - 1);
      SlotReadsAt(b, bitSize, setSize, m, n - 1);
      CountStep(SlotReads(a, bitSize, setSize, m), SlotReads(b, bitSize, setSize, m), n - 1,
        AgreeingSlots(a, b, bitSize, n - 1), Slot(a, bitSize, n - 1), Slot(b, bitSize, n - 1));
      assert AgreeingSlots(a, b, bitSize, n) ==
        AgreeingSlots(a, b, bitSize, n - 1) + if Slot(a, bitSize, n - 1) == Slot(b, bitSize, n - 1) then 1 else 0;
    }
  }

  lemma CountStep(xs: seq<Result<Int>>, ys: seq<Result<Int>>, p: nat, c: nat, sa: seq<bool>, sb: seq<bool>)
    requires p < |xs| && p < |ys| && |sa| == |sb|
    requires EqualReads(xs, ys, p) == Ok(c)
    requires xs[p] == Ok(Unsigned(sa)) && ys[p] == Ok(Unsigned(sb))
    ensures EqualReads(xs, ys, p + 1) == Ok(c + if sa == sb then 1 else 0)
  {
    if Unsigned(sa) == Unsigned(sb) {
      UnsignedInjective(sa, sb);
    }
  }

  /** Whether a read throws, and what, depends only on the number of words. */
  lemma ReadSlotThrowsAlike(a: seq<Word>, b: seq<Word>, bitSize: Int, setSize: Int, p: Int)
    requires 0 < bitSize < 32 && |a| == |b|
    ensures ReadSlot(a, bitSize, setSize, p).Throws? <==> ReadSlot(b, bitSize, setSize, p).Throws?
    ensures ReadSlot(a, bitSize, setSize, p).Throws? ==> ReadSlot(a, bitSize, setSize, p) == ReadSlot(b, bitSize, setSize, p)
  {
  }

  /** `estimateJaccardIndex` is symmetric in its two sketches. */
  lemma EstimateSymmetric(a: seq<Word>, b: seq<Word>, bits: Int, size: Int)
    requires 0 < bits < 32 && 0 < size && |a| == |b|
    ensures Estimate(a, b, bits, bits, size, size) == Estimate(b, a, bits, bits, size, size)
  {
    var xs, ys := SlotReads(a, bits, size, size), SlotReads(b, bits, size, size);
    forall i | 0 <= i < size
      ensures (xs[i].Throws? <==> ys[i].Throws?) && (xs[i].Throws? ==> xs[i] == ys[i])
    {
      SlotReadsAt(a, bits, size, size, i);
      SlotReadsAt(b, bits, size, size, i);
      ReadSlotThrowsAlike(a, b, bits, size, i);
    }
    EqualReadsSymmetric(xs, ys, size);
  }

  /** A sketch compared with itself has estimate 1 (size / size) whenever no read throws. */
  lemma EstimateSelf(a: seq<Word>, bits: Int, size: Int)
    requires 0 < bits < 32 && 0 < size
    ensures Estimate(a, a, bits, bits, size, size).Ok? ==> Estimate(a, a, bits, bits, size, size) == Ok(Ratio(size, size))
  {
    EqualReadsSelf(SlotReads(a, bits, size, size), size);
  }

  /** For sketches whose slots fit the `int` index arithmetic, the estimate is agreeing slots over slots. */
  lemma EstimateCountsAgreeingSlots(a: seq<Word>, b: seq<Word>, bits: Int, size: Int)
    requires 0 < bits < 32 && 0 < size && size * bits <= INT_MAX
    requires |a| == |b| == WordCount(bits, size)
    ensures Estimate(a, b, bits, bits, size, size) == Ok(Ratio(AgreeingSlots(a, b, bits, size), size))
  {
    EqualReadsCountsAgreeingSlots(a, b, bits, size, size, size);
  }

  /** An exception out of the loop is the exception of one of the reads. */
  lemma {:induction false} EqualReadsThrowsFromRead(xs: seq<Result<Int>>, ys: seq<Result<Int>>, n: nat)
    requires n <= |xs| && n <= |ys| && EqualReads(xs, ys, n).Throws?
    ensures exists i :: 0 <= i < n && (xs[i] == Throws(EqualReads(xs, ys, n).exception) || ys[i] == Throws(EqualReads(xs, ys, n).exception))
  {
    if EqualReads(xs, ys, n - 1).Throws? {
      EqualReadsThrowsFromRead(xs, ys, n - 1);
    } else {
      assert xs[n - 1] == Throws(EqualReads(xs, ys, n).exception) || ys[n - 1] == Throws(EqualReads(xs, ys, n).exception);
    }
  }

  /**
   * Sketches of matching shape never fail the argument checks: every read is
   * at a position below the set size, so the only exception left is an index
   * out of the word array.
   */
  lemma EstimateThrowsOnlyOutOfBounds(a: seq<Word>, b: seq<Word>, bits: Int, size: Int)
    requires 0 < bits < 32 && 0 < size
    ensures Estimate(a, b, bits, bits, size, size).Throws? ==> Estimate(a, b, bits, bits, size, size).exception == IndexOutOfBounds
  {
    var xs, ys := SlotReads(a, bits, size, size), SlotReads(b, bits, size, size);
    if EqualReads(xs, ys, size).Throws? {
      EqualReadsThrowsFromRead(xs, ys, size);
      var i :| 0 <= i < size && (xs[i] == Throws(EqualReads(xs, ys, size).exception) || ys[i] == Throws(EqualReads(xs, ys, size).exception));
      SlotReadsAt(a, bits, size, size, i);
      SlotReadsAt(b, bits, size, size, i);
    }
  }

  // ---------------------------------------------------------------------------
  // The object

  /** The Java object: the packed slots and the bit size it was built with. */
  class BBitMinHash {
    const bitsSet: PackedBitsSet
    const bitsSize: Int

    ghost predicate Valid()
      reads this, bitsSet
    {
      bitsSet.Valid() && bitsSize == bitsSet.bitSize
    }

    /** The constructor once the packed set's argument checks have passed. */
    constructor (bitsSize: Int, setSize: Int)
      requires 0 < bitsSize < 32 && 0 < setSize
      ensures Valid() && fresh(bitsSet) && fresh(bitsSet.words)
      ensures this.bitsSize == bitsSize && bitsSet.setSize == setSize
      ensures bitsSet.words[..] == Zeros(WordCount(bitsSize, setSize))
    {
      bitsSet := new PackedBitsSet(bitsSize, setSize);
      this.bitsSize := bitsSize;
    }

    /** `new bBitMinHash(bitsSize, setSize)`: the `PackedBitsSet` constructor's checks decide whether it throws. */
    static method Create(bitsSize: Int, setSize: Int) returns (r: Result<BBitMinHash>)
      ensures r.Throws? <==> !(0 < bitsSize < 32 && 0 < setSize)
      ensures r.Throws? ==> r.exception == IllegalArgument
      ensures r.Ok? ==> fresh(r.value) && fresh(r.value.bitsSet) && fresh(r.value.bitsSet.words) && r.value.Valid()
      ensures r.Ok? ==> r.value.bitsSize == bitsSize && r.value.bitsSet.setSize == setSize
      ensures r.Ok? ==> r.value.bitsSet.words[..] == Zeros(WordCount(bitsSize, setSize))
    {
      if !(bitsSize > 0) || !(bitsSize < 32) || !(setSize > 0) {
        return Throws(IllegalArgument);
      }
      var m := new BBitMinHash(bitsSize, setSize);
      return Ok(m);
    }

    /** `setHashed`: writes the hash's low `bitsSize` bits into slot `position`. */
    method SetHashed(position: Int, hash: Hash) returns (status: Status)
      requires Valid()
      modifies bitsSet.words
      ensures Outcome(status, bitsSet.words[..]) == WriteSlot(old(bitsSet.words[..]), bitsSize, position, StoredBits(hash, bitsSize))
    {
      var low := hash.LeastSignificantBits(bitsSize);
      var bits := Wrap32(low.value);
      status := bitsSet.SetIthBits(position, bits);
    }

    /** What `getIthBits` returns at each position of the set, in order. */
    ghost function Reads(): (r: seq<Result<Int>>)
      requires Valid()
      reads this, bitsSet, bitsSet.words
      ensures |r| == bitsSet.setSize
    {
      SlotReads(bitsSet.words[..], bitsSet.bitSize, bitsSet.setSize, bitsSet.setSize)
    }

    /** One pass of the estimator's loop: both reads at position i, and the count once they agree. */
    method CountAt(minHash: BBitMinHash, i: Int, equalsFound: nat) returns (r: Result<nat>)
      requires Valid() && minHash.Valid()
      requires minHash.bitsSet.bitSize == bitsSet.bitSize && minHash.bitsSet.setSize == bitsSet.setSize
      requires 0 <= i < bitsSet.setSize
      requires EqualReads(Reads(), minHash.Reads(), i) == Ok(equalsFound)
      ensures r == EqualReads(Reads(), minHash.Reads(), i + 1)
    {
      var x := bitsSet.GetIthBits(i);
      SlotReadsAt(bitsSet.words[..], bitsSet.bitSize, bitsSet.setSize, bitsSet.setSize, i);
      if x.Throws? {
        return Throws(x.exception);
      }
      var y := minHash.bitsSet.GetIthBits(i);
      SlotReadsAt(minHash.bitsSet.words[..], bitsSet.bitSize, bitsSet.setSize, bitsSet.setSize, i);
      if y.Throws? {
        return Throws(y.exception);
      }
      r := Ok(equalsFound + if x.value == y.value then 1 else 0);
    }

    /** `estimateJaccardIndex`: neither sketch changes, and the ratio is that of `Estimate`. */
    method EstimateJaccardIndex(minHash: BBitMinHash) returns (r: Result<Ratio>)
      requires Valid() && minHash.Valid()
      ensures r == Estimate(bitsSet.words[..], minHash.bitsSet.words[..], bitsSet.bitSize, minHash.bitsSet.bitSize,
                            bitsSet.setSize, minHash.bitsSet.setSize)
    {
      if !(minHash.bitsSet.bitSize == bitsSet.bitSize) {
        return Throws(IllegalArgument);
      }
      if !(minHash.bitsSet.setSize == bitsSet.setSize) {
        return Throws(IllegalArgument);
      }
      var size := bitsSet.setSize;
      var equalsFound := 0;
      var i := 0;
      ghost var xs, ys := Reads(), minHash.Reads();
      while i < size
        invariant 0 <= i <= size
        invariant xs == Reads() && ys == minHash.Reads()
        invariant EqualReads(xs, ys, i) == Ok(equalsFound)
      {
        var c := CountAt(minHash, i, equalsFound);
        if c.Throws? {
          EqualReadsThrowsOn(xs, ys, i + 1, size);
          return Throws(c.exception);
        }
        equalsFound := c.value;
        i := i + 1;
      }
      r := Ok(Ratio(equalsFound, size));
    }
  }

  // ---------------------------------------------------------------------------
  // Writing a hash

  /** A 31-bit sketch can store nothing: `1 << 31` is negative, so every write fails the value check. */
  lemma SetHashedAt31Throws(words: seq<Word>, p: Int, hash: Hash)
    ensures WriteSlot(words, 31, p, StoredBits(hash, 31)) == Outcome(Threw(IllegalArgument), words)
  {
    RepresentableValues(31, StoredBits(hash, 31));
  }

  /** After `setHashed(p, h)` with bitsSize <= 30, slot p reads back as h mod 2^bitsSize. */
  lemma SetHashedThenRead(words: seq<Word>, bitsSize: Int, setSize: Int, p: Int, hash: Hash)
    requires 0 < bitsSize <= 30 && NoOverflow(bitsSize, p) && p <= setSize && (p + 1) * bitsSize <= 64 * |words|
    ensures WriteSlot(words, bitsSize, p, StoredBits(hash, bitsSize)).status == Done
    ensures ReadSlot(WriteSlot(words, bitsSize, p, StoredBits(hash, bitsSize)).words, bitsSize, setSize, p)
              == Ok(hash.Value() % Pow2(bitsSize))
  {
    var v := StoredBits(hash, bitsSize);
    RepresentableValues(bitsSize, v);
    WriteThenRead(words, bitsSize, setSize, p, v);
  }

  /** After writing positions 0 .. n-1 in order, slot q holds the bits of the value written there. */
  lemma WrittenSlotValue(words: seq<Word>, b: Int, vs: seq<Int>, q: nat)
    requires 0 < b <= 30 && q < |vs| && |vs| <= |vs| * b <= INT_MAX && |vs| * b <= 64 * |words|
    requires forall i :: 0 <= i < |vs| ==> 0 <= vs[i] < Pow2(b)
    ensures (q + 1) * b <= 64 * |WriteAll(words, b, vs)|
    ensures Unsigned(Slot(WriteAll(words, b, vs), b, q)) == vs[q]
  {
    MulOrder(b, q + 1, |vs|);
    WriteAllThenRead(words, b, |vs|, vs, q);
    ReadSlotValue(WriteAll(words, b, vs), b, |vs|, q);
  }

  /** The stored bits of the test hashes 0 and 1 in one-bit sketches. */
  lemma StoredBitsExamples(zero: Hash, one: Hash, b: Int)
    requires zero == Of32(Hash32Bits(0)) && one == Of32(Hash32Bits(1)) && b == 1
    ensures StoredBits(zero, b) == 0 && StoredBits(one, b) == 1
  {
    assert Pow2(b) == 2;
    assert zero.Value() == 0 && one.Value() == 1;
  }

  /** The number of positions i < n at which the two sequences of values agree. */
  function Agreements(vs: seq<Int>, ws: seq<Int>, n: nat): (c: nat)
    requires n <= |vs| && n <= |ws|
    ensures c <= n
  {
    if n == 0 then 0 else Agreements(vs, ws, n - 1) + if vs[n - 1] == ws[n - 1] then 1 else 0
  }

  /** Over slots written in order, slots agree exactly where the written values do. */
  lemma {:induction false} AgreeingSlotsOfWrites(z: seq<Word>, b: Int, vs: seq<Int>, ws: seq<Int>, m: nat)
    requires 0 < b <= 30 && |vs| == |ws| && m <= |vs| && |vs| <= |vs| * b <= INT_MAX && |vs| * b <= 64 * |z|
    requires forall i :: 0 <= i < |vs| ==> 0 <= vs[i] < Pow2(b) && 0 <= ws[i] < Pow2(b)
    ensures m * b <= 64 * |z|
    ensures AgreeingSlots(WriteAll(z, b, vs), WriteAll(z, b, ws), b, m) == Agreements(vs, ws, m)
  {
    MulOrder(b, m, |vs|);
    if m > 0 {
      AgreeingSlotsOfWrites(z, b, vs, ws, m - 1);
      WrittenSlotValue(z, b, vs, m - 1);
      WrittenSlotValue(z, b, ws, m - 1);
      AgreeingStep(WriteAll(z, b, vs), WriteAll(z, b, ws), b, vs, ws, m);
    }
  }

  /** One more slot counts exactly when the two slots hold the values that agree. */
  lemma AgreeingStep(a: seq<Word>, c: seq<Word>, b: nat, vs: seq<Int>, ws: seq<Int>, m: nat)
    requires 0 < m <= |vs| && m <= |ws| && m * b <= 64 * |a| && m * b <= 64 * |c|
    requires AgreeingSlots(a, c, b, m - 1) == Agreements(vs, ws, m - 1)
    requires Unsigned(Slot(a, b, m - 1)) == vs[m - 1] && Unsigned(Slot(c, b, m - 1)) == ws[m - 1]
    ensures AgreeingSlots(a, c, b, m) == Agreements(vs, ws, m)
  {
    if vs[m - 1] == ws[m - 1] {
      UnsignedInjective(Slot(a, b, m - 1), Slot(c, b, m - 1));
    }
  }

  /**
   * Two sketches filled by `setHashed(i, ...)` for every position in order,
   * from the same words: the estimate is the fraction of positions at which
   * the stored values agree.
   */
  lemma EstimateOfWrites(z: seq<Word>, b: Int, vs: seq<Int>, ws: seq<Int>)
    requires 0 < b <= 30 && |vs| == |ws| > 0 && |vs| <= |vs| * b <= INT_MAX && |z| == WordCount(b, |vs|)
    requires forall i :: 0 <= i < |vs| ==> 0 <= vs[i] < Pow2(b) && 0 <= ws[i] < Pow2(b)
    ensures Estimate(WriteAll(z, b, vs), WriteAll(z, b, ws), b, b, |vs|, |vs|) == Ok(Ratio(Agreements(vs, ws, |vs|), |vs|))
  {
    AgreeingSlotsOfWrites(z, b, vs, ws, |vs|);
    EstimateCountsAgreeingSlots(WriteAll(z, b, vs), WriteAll(z, b, ws), b, |vs|);
  }

  /**
   * One-bit sketches of two positions filled with hashes 0, 1 and 1, 0 agree
   * nowhere (estimate 0 / 2); 0, 1 against 1, 1 agree at one position (1 / 2).
   */
  lemma EstimateExamples(z: seq<Word>, b: Int, xs: seq<Int>, ys: seq<Int>, us: seq<Int>)
    requires |z| == 1 && b == 1 && xs == [0, 1] && ys == [1, 0] && us == [1, 1]
    ensures Estimate(WriteAll(z, b, xs), WriteAll(z, b, ys), b, b, |xs|, |xs|) == Ok(Ratio(0, 2))
    ensures Estimate(WriteAll(z, b, xs), WriteAll(z, b, us), b, b, |xs|, |xs|) == Ok(Ratio(1, 2))
  {
    assert Pow2(1) == 2;
    assert |z| == WordCount(b, |xs|);
    assert |xs| <= |xs| * b <= INT_MAX;
    assert forall i :: 0 <= i < |xs| ==> 0 <= xs[i] < Pow2(b) && 0 <= ys[i] < Pow2(b) && 0 <= us[i] < Pow2(b);
    assert Agreements(xs, ys, 1) == 0 && Agreements(xs, us, 1) == 0;
    assert Agreements(xs, ys, |xs|) == 0 && Agreements(xs, us, |xs|) == 1;
    EstimateOfWrites(z, b, xs, ys);
    EstimateOfWrites(z, b, xs, us);
  }
}
