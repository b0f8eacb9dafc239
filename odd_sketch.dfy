/**
 * `OddSketch`: a parity bit vector. Adding a hash flips the bit at
 * `hash.mod(size)` and counts the addition, so a bit is set exactly when an
 * odd number of the added hashes fell into its bucket. The `BitSet` is
 * modelled as the set of indices of its set bits: `flip` toggles membership,
 * `xor` is the symmetric difference and `cardinality` the set's size.
 */
module OddSketch {
  import opened Java
  import opened AlgorithmsHashers

  // Bit sets

  /** `BitSet.flip(i)`: bit i changes and no other bit does. */
  function Toggle(bits: set<int>, i: int): (r: set<int>)
    ensures i in r <==> i !in bits
    ensures forall j :: j != i ==> (j in r <==> j in bits)
  {
    if i in bits then bits - {i} else bits + {i}
  }

  /** `BitSet.xor`: the bits set in exactly one of the two. */
  function Xor(a: set<int>, b: set<int>): (r: set<int>)
    ensures forall i :: i in r <==> (i in a) != (i in b)
  {
    (a - b) + (b - a)
  }

  lemma ToggleTwice(bits: set<int>, i: int)
    ensures Toggle(Toggle(bits, i), i) == bits
  {
  }

  /** Two flips commute, so the bits do not depend on the order of the adds. */
  lemma ToggleCommutes(bits: set<int>, i: int, j: int)
    ensures Toggle(Toggle(bits, i), j) == Toggle(Toggle(bits, j), i)
  {
  }

  lemma XorSymmetric(a: set<int>, b: set<int>)
    ensures Xor(a, b) == Xor(b, a)
  {
  }

  /** The symmetric difference is empty exactly when the two bit sets are equal. */
  lemma XorEmpty(a: set<int>, b: set<int>)
    ensures Xor(a, b) == {} <==> a == b
  {
    if Xor(a, b) == {} {
      forall i ensures i in a <==> i in b {
        assert i !in Xor(a, b);
      }
    }
  }

  // Parity of a history of buckets

  /** The bits left by flipping the buckets bs one after another on a clear vector. */
  function Parity(bs: seq<int>): set<int>
  {
    if bs == [] then {} else Toggle(Parity(bs[..|bs| - 1]), bs[|bs| - 1])
  }

  /** Bit i is set exactly when i was flipped an odd number of times. */
  lemma {:induction false} ParityOdd(bs: seq<int>, i: int)
    ensures i in Parity(bs) <==> multiset(bs)[i] % 2 == 1
  {
    if bs != [] {
      var p := bs[..|bs| - 1];
      assert bs == p + [bs[|bs| - 1]];
      assert multiset(bs) == multiset(p) + multiset{bs[|bs| - 1]};
      ParityOdd(p, i);
    }
  }

  /** The bits depend only on which buckets were flipped and how often, not on the order. */
  lemma ParityOrderIndependent(a: seq<int>, b: seq<int>)
    requires multiset(a) == multiset(b)
    ensures Parity(a) == Parity(b)
  {
    forall i ensures i in Parity(a) <==> i in Parity(b) {
      ParityOdd(a, i);
      ParityOdd(b, i);
    }
  }

  /** Flipping one history after another leaves the XOR of the two vectors. */
  lemma ParityAppend(a: seq<int>, b: seq<int>)
    ensures Parity(a + b) == Xor(Parity(a), Parity(b))
  {
    forall i ensures i in Parity(a + b) <==> i in Xor(Parity(a), Parity(b)) {
      ParityOdd(a + b, i);
      ParityOdd(a, i);
      ParityOdd(b, i);
      assert multiset(a + b) == multiset(a) + multiset(b);
    }
  }

  /** Flipping a bucket twice in a row leaves no trace. */
  lemma ParityTwice(bs: seq<int>, i: int)
    ensures Parity(bs + [i, i]) == Parity(bs)
  {
    assert (bs + [i, i])[..|bs| + 1] == bs + [i];
    assert (bs + [i])[..|bs|] == bs;
    ToggleTwice(Parity(bs), i);
  }

  // One add on values

  /** `xorIthBit`'s two argument checks. */
  function CheckIndex(i: Int, size: Int): (s: Status)
    ensures s == Done <==> 0 <= i < size
    ensures s != Done ==> s == Threw(IllegalArgument)
  {
    if !(i >= 0) then Threw(IllegalArgument)
    else if !(i < size) then Threw(IllegalArgument)
    else Done
  }

  /**
   * The bits after `addHashed(h)`: the bucket is the Java remainder of the
   * hash by the size, and the flip is refused for a bucket outside [0, size).
   */
  function AddBits(bits: set<int>, size: Int, h: Hash32Bits): (r: Result<set<int>>)
    ensures size == 0 ==> r == Throws(Arithmetic)
    ensures size != 0 && !(0 <= Rem(h.hash, size) < size) ==> r == Throws(IllegalArgument)
    ensures size != 0 && 0 <= Rem(h.hash, size) < size ==> r == Ok(Toggle(bits, Rem(h.hash, size)))
  {
    var bucket := h.Mod(size);
    if bucket.Throws? then Throws(bucket.exception)
    else
      var s := CheckIndex(bucket.value, size);
      if s.Threw? then Throws(s.exception) else Ok(Toggle(bits, bucket.value))
  }

  /**
   * For a positive size the add fails exactly for a hash whose Java remainder
   * is negative: a negative hash not divisible by the size.
   */
  lemma AddBitsFails(bits: set<int>, size: Int, h: Hash32Bits)
    requires size > 0
    ensures AddBits(bits, size, h).Throws? <==> h.hash < 0 && Rem(h.hash, size) != 0
    ensures AddBits(bits, size, h).Throws? ==> AddBits(bits, size, h).exception == IllegalArgument
  {
    ModRange(h, size);
  }

  /** Adding the same hash twice restores the bits. */
  lemma AddBitsTwice(bits: set<int>, size: Int, h: Hash32Bits)
    requires AddBits(bits, size, h).Ok?
    ensures AddBits(AddBits(bits, size, h).value, size, h) == Ok(bits)
  {
    ToggleTwice(bits, Rem(h.hash, size));
  }

  /** Two adds that both succeed give the same bits in either order. */
  lemma AddBitsCommute(bits: set<int>, size: Int, g: Hash32Bits, h: Hash32Bits)
    requires AddBits(bits, size, g).Ok? && AddBits(bits, size, h).Ok?
    ensures AddBits(AddBits(bits, size, g).value, size, h).Ok?
    ensures AddBits(AddBits(bits, size, g).value, size, h) == AddBits(AddBits(bits, size, h).value, size, g)
  {
    ToggleCommutes(bits, Rem(g.hash, size), Rem(h.hash, size));
  }

  // The Jaccard estimator's guard

  /**
   * What `computeJaccardIndex` returns once its checks pass: 0.0 when
   * `1 - 2d/n <= 0`, and otherwise `1 + n/(4k) * ln(1 - 2d/n)`, which the
   * model keeps as its three integer inputs.
   */
  datatype Jaccard = Zero | LogEstimate(symmetricDifference: nat, elementsAdded: Int, size: Int)

  /**
   * The `inner <= 0.0` test on integers. For n = 0 the double quotient is
   * +infinity when d > 0 and NaN when d = 0, and NaN compares false.
   */
  predicate InnerNotPositive(d: nat, n: Int)
  {
    if n > 0 then 2 * d >= n else n == 0 && d > 0
  }

  /** For a positive n, the real quotient x / n reaches 1 exactly when x reaches n. */
  lemma QuotientAtLeastOne(x: real, n: real)
    requires n > 0.0
    ensures x / n >= 1.0 <==> x >= n
  {
    var q := x / n;
    assert q * n == x;
    if q < 1.0 {
      assert (1.0 - q) * n > 0.0;
    }
    if q >= 1.0 {
      assert (q - 1.0) * n >= 0.0;
    }
  }

  /** The integer test agrees with the test on the real quotient for every non-zero size. */
  lemma InnerNotPositiveReal(d: nat, n: Int)
    requires n != 0
    ensures InnerNotPositive(d, n) <==> 1.0 - (2.0 * d as real / n as real) <= 0.0
  {
    if n > 0 {
      QuotientAtLeastOne(2.0 * d as real, n as real);
    } else {
      var q := 2.0 * d as real / n as real;
      assert q * n as real == 2.0 * d as real;
    }
  }

  /** Same vector and same count: never the 0.0 branch for a positive size. */
  lemma SelfNotZero(n: Int)
    requires n > 0
    ensures !InnerNotPositive(0, n)
  {
  }

  // The sketch

  class OddSketch {
    var sketch: set<int>
    var size: Int
    var elementsAdded: Int
    /** The buckets flipped since the vector was last cleared. */
    ghost var buckets: seq<int>

    /** The vector is the parity of the buckets flipped since it was last cleared. */
    ghost predicate Valid()
      reads this
    {
      sketch == Parity(buckets)
    }

    /** Every bucket flipped since the last clear lies in [0, size); a refused `setSize(s < 0)` breaks only this. */
    ghost predicate InRange()
      reads this
    {
      forall i :: 0 <= i < |buckets| ==> 0 <= buckets[i] < size
    }

    /** `new OddSketch(size)` once `checkArgument(size > 0)` has passed. */
    constructor (size: Int)
      requires size > 0
      ensures Valid() && InRange() && sketch == {} && buckets == [] && this.size == size && elementsAdded == 0
    {
      sketch := {};
      this.size := size;
      elementsAdded := 0;
      buckets := [];
    }

    /** `new OddSketch(size)`: `IllegalArgumentException` unless size > 0. */
    static method Create(size: Int) returns (r: Result<OddSketch>)
      ensures r.Throws? <==> size <= 0
      ensures r.Throws? ==> r.exception == IllegalArgument
      ensures r.Ok? ==> fresh(r.value) && r.value.Valid() && r.value.sketch == {} && r.value.size == size && r.value.elementsAdded == 0
    {
      if !(size > 0) {
        return Throws(IllegalArgument);
      }
      var s := new OddSketch(size);
      return Ok(s);
    }

    /** `getBucket`: the Java remainder of the hash by the size. */
    function GetBucket(h: Hash32Bits): (r: Result<Int>)
      reads this
      ensures r.Throws? <==> size == 0
      ensures r.Throws? ==> r.exception == Arithmetic
      ensures r.Ok? ==> Abs(r.value) < Abs(size) && (r.value < 0 ==> h.hash < 0)
      ensures r.Ok? && size > 0 ==> (0 <= r.value <==> h.hash >= 0 || r.value == 0)
    {
      if size > 0 then ModRange(h, size); h.Mod(size) else h.Mod(size)
    }

    /** `xorIthBit(i)`: flips bit i, or throws for an index outside [0, size) and changes nothing. */
    method XorIthBit(i: Int) returns (status: Status)
      modifies this`sketch, this`buckets
      ensures status == CheckIndex(i, size)
      ensures status == Done ==> sketch == Toggle(old(sketch), i) && buckets == old(buckets) + [i]
      ensures status != Done ==> sketch == old(sketch) && buckets == old(buckets)
    {
      status := CheckIndex(i, size);
      if status.Threw? {
        return;
      }
      sketch := Toggle(sketch, i);
      buckets := buckets + [i];
    }

    /**
     * `addHashed(h)`: flips the hash's bucket and counts the addition, with
     * the counter's 32-bit wrap-around. A failing bucket or flip throws
     * before the counter moves, so nothing changes.
     */
    method AddHashed(h: Hash32Bits) returns (status: Status)
      requires Valid()
      modifies this`sketch, this`buckets, this`elementsAdded
      ensures Valid() && (old(InRange()) ==> InRange())
      ensures var r := AddBits(old(sketch), size, h);
        (r.Ok? ==> status == Done && sketch == r.value && elementsAdded == Wrap32(old(elementsAdded) + 1)
                   && buckets == old(buckets) + [Rem(h.hash, size)]) &&
        (r.Throws? ==> status == Threw(r.exception) && sketch == old(sketch) && elementsAdded == old(elementsAdded)
                       && buckets == old(buckets))
    {
      var bucket := GetBucket(h);
      if bucket.Throws? {
        return Threw(bucket.exception);
      }
      status := XorIthBit(bucket.value);
      if status.Threw? {
        return;
      }
      assert buckets[..|buckets| - 1] == old(buckets);
      elementsAdded := Wrap32(elementsAdded + 1);
    }

    /** `setSize(s)`: the size changes first; then a fresh, clear vector, which Java refuses to allocate for s < 0. */
    method SetSize(s: Int) returns (status: Status)
      modifies this`size, this`sketch, this`buckets
      ensures size == s
      ensures s < 0 ==> status == Threw(NegativeArraySize) && sketch == old(sketch) && buckets == old(buckets)
      ensures s >= 0 ==> status == Done && sketch == {} && buckets == [] && InRange()
      ensures old(Valid()) ==> Valid()
    {
      size := s;
      if s < 0 {
        return Threw(NegativeArraySize);
      }
      sketch := {};
      buckets := [];
      return Done;
    }

    /** `computeSymmetricDifference`: the number of bits set in exactly one of the two vectors. */
    function ComputeSymmetricDifference(other: OddSketch): (d: nat)
      reads this, other
      ensures d == |sketch - other.sketch| + |other.sketch - sketch|
    {
      var x := Xor(sketch, other.sketch);
      assert x == (sketch - other.sketch) + (other.sketch - sketch);
      assert (sketch - other.sketch) * (other.sketch - sketch) == {};
      |x|
    }

    /**
     * `computeJaccardIndex(other)`: `IllegalArgumentException` unless both
     * sketches have the same size and the same count; 0.0 when `1 - 2d/n <= 0`
     * for the symmetric difference d and the size n.
     */
    function ComputeJaccardIndex(other: OddSketch): (r: Result<Jaccard>)
      reads this, other
      ensures r.Throws? <==> other.size != size || other.elementsAdded != elementsAdded
      ensures r.Throws? ==> r.exception == IllegalArgument
      ensures r.Ok? ==> (r.value == Zero <==> InnerNotPositive(ComputeSymmetricDifference(other), size))
      ensures r.Ok? && r.value.LogEstimate? ==>
        r.value.symmetricDifference == ComputeSymmetricDifference(other) && r.value.elementsAdded == elementsAdded && r.value.size == size
    {
      if !(other.size == size) then Throws(IllegalArgument)
      else if !(other.elementsAdded == elementsAdded) then Throws(IllegalArgument)
      else
        var d := ComputeSymmetricDifference(other);
        if InnerNotPositive(d, size) then Ok(Zero) else Ok(LogEstimate(d, elementsAdded, size))
    }
  }

  /** The symmetric difference of two sketches counts the buckets the two histories flipped an odd number of times between them. */
  lemma SymmetricDifferenceOfHistories(a: OddSketch, b: OddSketch)
    requires a.Valid() && b.Valid()
    ensures a.ComputeSymmetricDifference(b) == |Parity(a.buckets + b.buckets)|
  {
    ParityAppend(a.buckets, b.buckets);
    assert Xor(a.sketch, b.sketch) == (a.sketch - b.sketch) + (b.sketch - a.sketch);
    assert (a.sketch - b.sketch) * (b.sketch - a.sketch) == {};
  }

  lemma SymmetricDifferenceSymmetric(a: OddSketch, b: OddSketch)
    ensures a.ComputeSymmetricDifference(b) == b.ComputeSymmetricDifference(a)
  {
  }

  /** The symmetric difference is 0 exactly for equal vectors, so 0 for a sketch against itself. */
  lemma SymmetricDifferenceZero(a: OddSketch, b: OddSketch)
    ensures a.ComputeSymmetricDifference(b) == 0 <==> a.sketch == b.sketch
  {
    if a.ComputeSymmetricDifference(b) == 0 {
      assert |a.sketch - b.sketch| == 0 && |b.sketch - a.sketch| == 0;
      assert a.sketch - b.sketch == {} && b.sketch - a.sketch == {};
    }
  }

  /** Two sketches that flipped the same buckets, in any order, have symmetric difference 0. */
  lemma SameBucketsNoDifference(a: OddSketch, b: OddSketch)
    requires a.Valid() && b.Valid() && multiset(a.buckets) == multiset(b.buckets)
    ensures a.ComputeSymmetricDifference(b) == 0
  {
    ParityOrderIndependent(a.buckets, b.buckets);
    SymmetricDifferenceZero(a, b);
  }

  /** The estimator's outcome does not depend on which sketch it is called on. */
  lemma JaccardSymmetric(a: OddSketch, b: OddSketch)
    ensures a.ComputeJaccardIndex(b) == b.ComputeJaccardIndex(a)
  {
    SymmetricDifferenceSymmetric(a, b);
  }

  /** Every set bit of a sketch whose flips all lay in range is a bucket in [0, size). */
  lemma SetBitsBelowSize(a: OddSketch, i: int)
    requires a.Valid() && a.InRange() && i in a.sketch
    ensures 0 <= i < a.size
  {
    ParityOdd(a.buckets, i);
    assert i in multiset(a.buckets);
    var k :| 0 <= k < |a.buckets| && a.buckets[k] == i;
  }

  /** A sketch of positive size compared with itself is never sent to the 0.0 branch. */
  lemma JaccardSelf(a: OddSketch)
    requires a.size > 0
    ensures a.ComputeJaccardIndex(a) == Ok(LogEstimate(0, a.elementsAdded, a.size))
  {
    SymmetricDifferenceZero(a, a);
  }

  lemma ParityOneToFour()
    ensures Parity([1, 2, 3, 4]) == {1, 2, 3, 4}
  {
    assert [1, 2, 3, 4][..3] == [1, 2, 3];
    assert [1, 2, 3][..2] == [1, 2];
    assert [1, 2][..1] == [1];
    assert [1][..0] == [];
  }

  lemma ParitySixToNine()
    ensures Parity([6, 7, 8, 9]) == {6, 7, 8, 9}
  {
    assert [6, 7, 8, 9][..3] == [6, 7, 8];
    assert [6, 7, 8][..2] == [6, 7];
    assert [6, 7][..1] == [6];
    assert [6][..0] == [];
  }

  /** Buckets 1 to 4 against 6 to 9 in ten bins: eight odd bins, and 2 * 8 >= 10 sends the estimator to 0.0. */
  lemma DisjointExample()
    ensures |Xor(Parity([1, 2, 3, 4]), Parity([6, 7, 8, 9]))| == 8
    ensures InnerNotPositive(8, 10)
  {
    ParityOneToFour();
    ParitySixToNine();
    DisjointXor();
    DisjointCard();
  }

  lemma DisjointXor()
    ensures Xor({1, 2, 3, 4}, {6, 7, 8, 9}) == {1, 2, 3, 4, 6, 7, 8, 9}
  {
    assert {1, 2, 3, 4} - {6, 7, 8, 9} == {1, 2, 3, 4};
    assert {6, 7, 8, 9} - {1, 2, 3, 4} == {6, 7, 8, 9};
  }

  lemma DisjointCard()
    ensures |{1, 2, 3, 4, 6, 7, 8, 9}| == 8
  {
  }
}
