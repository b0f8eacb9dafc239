/**
 * `MinHash` (bottom-k): a `TreeSet` holding at most `maxSize` of the smallest
 * values added so far. The set is kept as a strictly increasing sequence, so
 * `first`/`pollLast` are its ends and `addAll` is the merge of two sorted
 * sequences. Elements are integers in their natural order.
 */
module MinHash {
  import opened Java

  // ---------------------------------------------------------------------------
  // Sorted sequences as sets

  /** Strictly increasing: the sequence a `TreeSet` iterates, without duplicates. */
  predicate Sorted(s: seq<int>)
  {
    forall i, j :: 0 <= i < j < |s| ==> s[i] < s[j]
  }

  function SetOf(s: seq<int>): set<int>
  {
    set x | x in s
  }

  /** `TreeSet.addAll` (and `add`, with a one-element argument): the sorted union. */
  function Union(s: seq<int>, t: seq<int>): (r: seq<int>)
    ensures forall x :: x in r <==> x in s || x in t
    ensures |r| >= |s| && |r| >= |t|
    decreases |s| + |t|
  {
    if s == [] then t
    else if t == [] then s
    else if s[0] < t[0] then [s[0]] + Union(s[1..], t)
    else if s[0] == t[0] then [s[0]] + Union(s[1..], t[1..])
    else [t[0]] + Union(s, t[1..])
  }

  /** What repeated `pollLast` leaves of a sorted set once it is no larger than k. */
  function Take(s: seq<int>, k: nat): (r: seq<int>)
    ensures |r| == if |s| <= k then |s| else k
    ensures r <= s
  {
    if |s| <= k then s else s[..k]
  }

  function Min(a: int, b: int): int { if a <= b then a else b }

  lemma SortedCons(x: int, r: seq<int>)
    requires Sorted(r) && forall y :: y in r ==> x < y
    ensures Sorted([x] + r)
  {
    var s := [x] + r;
    forall i, j | 0 <= i < j < |s|
      ensures s[i] < s[j]
    {
      assert s[j] == r[j - 1] && s[j] in r;
      if i > 0 {
        assert s[i] == r[i - 1];
      }
    }
  }

  lemma {:induction false} UnionSorted(s: seq<int>, t: seq<int>)
    requires Sorted(s) && Sorted(t)
    ensures Sorted(Union(s, t))
    decreases |s| + |t|
  {
    if s != [] && t != [] {
      assert forall y :: y in s[1..] ==> s[0] < y;
      assert forall y :: y in t[1..] ==> t[0] < y;
      if s[0] < t[0] {
        UnionSorted(s[1..], t);
        SortedCons(s[0], Union(s[1..], t));
      } else if s[0] == t[0] {
        UnionSorted(s[1..], t[1..]);
        SortedCons(s[0], Union(s[1..], t[1..]));
      } else {
        UnionSorted(s, t[1..]);
        SortedCons(t[0], Union(s, t[1..]));
      }
    }
  }

  /** The union does not depend on the order of its operands. */
  lemma {:induction false} UnionCommutes(s: seq<int>, t: seq<int>)
    ensures Union(s, t) == Union(t, s)
    decreases |s| + |t|
  {
    if s != [] && t != [] {
      if s[0] < t[0] {
        UnionCommutes(s[1..], t);
      } else if s[0] == t[0] {
        UnionCommutes(s[1..], t[1..]);
      } else {
        UnionCommutes(s, t[1..]);
      }
    }
  }

  /** Trimming one operand to its k smallest first does not change the j <= k smallest of the union. */
  lemma {:induction false} TakeUnion(s: seq<int>, t: seq<int>, j: nat, k: nat)
    requires j <= k
    ensures Take(Union(Take(s, k), t), j) == Take(Union(s, t), j)
    decreases |s| + |t|
  {
    if j == 0 || |s| <= k {
    } else if t == [] {
      assert Take(Take(s, k), j) == Take(s, j);
    } else {
      var s' := Take(s, k);
      assert s'[0] == s[0] && s'[1..] == Take(s[1..], k - 1);
      if s[0] < t[0] {
        TakeUnion(s[1..], t, j - 1, k - 1);
        assert Union(s', t) == [s[0]] + Union(Take(s[1..], k - 1), t);
      } else if s[0] == t[0] {
        TakeUnion(s[1..], t[1..], j - 1, k - 1);
        assert Union(s', t) == [s[0]] + Union(Take(s[1..], k - 1), t[1..]);
      } else {
        TakeUnion(s, t[1..], j - 1, k);
        assert Union(s', t) == [t[0]] + Union(s', t[1..]);
      }
    }
  }

  /** Adding an element already present changes nothing. */
  lemma {:induction false} UnionPresent(s: seq<int>, h: int)
    requires Sorted(s) && h in s
    ensures Union(s, [h]) == s
  {
    if s[0] != h {
      assert h in s[1..];
      UnionPresent(s[1..], h);
    }
  }

  /** Adding an element above every present one appends it. */
  lemma {:induction false} UnionAboveAll(s: seq<int>, h: int)
    requires forall x :: x in s ==> x < h
    ensures Union(s, [h]) == s + [h]
  {
    if s != [] {
      assert forall x :: x in s[1..] ==> x in s;
      UnionAboveAll(s[1..], h);
      assert s[0] in s;
      assert Union(s, [h]) == [s[0]] + (s[1..] + [h]);
    }
  }

  /** The kept prefix of a sorted sequence holds its smallest elements. */
  lemma TakeSmallest(s: seq<int>, k: nat)
    requires Sorted(s)
    ensures Sorted(Take(s, k))
    ensures forall x, y :: x in Take(s, k) && y in s && y !in Take(s, k) ==> x < y
  {
    forall x, y | x in Take(s, k) && y in s && y !in Take(s, k)
      ensures x < y
    {
      var i :| 0 <= i < |Take(s, k)| && Take(s, k)[i] == x;
      var j :| 0 <= j < |s| && s[j] == y;
      assert j < |Take(s, k)| ==> y in Take(s, k);
      assert Take(s, k)[i] == s[i];
    }
  }

  /** `addHashed` of a value already held, within the capacity, changes nothing. */
  lemma AddPresentKeeps(s: seq<int>, h: int, k: nat)
    requires Sorted(s) && h in s && |s| <= k
    ensures Take(Union(s, [h]), k) == s
  {
    UnionPresent(s, h);
  }

  /** `addHashed` of a value above every held one, on a full sketch, changes nothing: the value is trimmed away again. */
  lemma AddAboveFullKeeps(s: seq<int>, h: int, k: nat)
    requires |s| == k && forall x :: x in s ==> x < h
    ensures Take(Union(s, [h]), k) == s
  {
    UnionAboveAll(s, h);
    assert (s + [h])[..k] == s;
  }

  /** `a.merge(b)` and `b.merge(a)` have the same capacity and hold the same values, so they are `equals`. */
  lemma MergeCommutes(s: seq<int>, t: seq<int>, m: nat, n: nat)
    ensures Min(m, n) == Min(n, m)
    ensures Take(Union(s, t), Min(m, n)) == Take(Union(t, s), Min(n, m))
  {
    UnionCommutes(s, t);
  }

  /** A sorted sequence is determined by its set of elements. */
  lemma {:induction false} SortedUnique(s: seq<int>, t: seq<int>)
    requires Sorted(s) && Sorted(t) && SetOf(s) == SetOf(t)
    ensures s == t
  {
    SortedCard(s);
    SortedCard(t);
    if s != [] {
      assert s[0] in SetOf(t) && t[0] in SetOf(s);
      assert s[0] <= t[0] by {
        var j :| 0 <= j < |s| && s[j] == t[0];
        assert j == 0 || s[0] < s[j];
      }
      assert t[0] <= s[0] by {
        var i :| 0 <= i < |t| && t[i] == s[0];
        assert i == 0 || t[0] < t[i];
      }
      forall x | x in SetOf(s[1..]) ensures x in SetOf(t[1..]) {
        assert x in SetOf(t) && x != t[0];
      }
      forall x | x in SetOf(t[1..]) ensures x in SetOf(s[1..]) {
        assert x in SetOf(s) && x != s[0];
      }
      SortedUnique(s[1..], t[1..]);
    }
  }

  lemma SortedSameSet(s: seq<int>, t: seq<int>)
    requires Sorted(s) && Sorted(t)
    ensures s == t <==> SetOf(s) == SetOf(t)
  {
    if SetOf(s) == SetOf(t) {
      SortedUnique(s, t);
    }
  }

  /** A sorted sequence has as many distinct elements as positions. */
  lemma {:induction false} SortedCard(s: seq<int>)
    requires Sorted(s)
    ensures |SetOf(s)| == |s|
  {
    if s != [] {
      var p := s[..|s| - 1];
      assert SetOf(s) == SetOf(p) + {s[|s| - 1]};
      assert s[|s| - 1] !in SetOf(p);
      SortedCard(p);
    }
  }

  // ---------------------------------------------------------------------------
  // Counting

  /** The number of elements of xs that ys contains, counted in the order of xs. */
  function CountIn(xs: seq<int>, ys: seq<int>): nat
  {
    if xs == [] then 0 else CountIn(xs[..|xs| - 1], ys) + if xs[|xs| - 1] in ys then 1 else 0
  }

  /** Over a duplicate-free xs the count is the size of the intersection. */
  lemma {:induction false} CountInIsIntersection(xs: seq<int>, ys: seq<int>)
    requires Sorted(xs)
    ensures CountIn(xs, ys) == |SetOf(xs) * SetOf(ys)|
  {
    if xs != [] {
      var p, x := xs[..|xs| - 1], xs[|xs| - 1];
      CountInIsIntersection(p, ys);
      assert SetOf(xs) == SetOf(p) + {x};
      assert x !in SetOf(p);
      assert x in ys <==> x in SetOf(ys);
      IntersectionStep(SetOf(p), SetOf(ys), x);
    }
  }

  lemma IntersectionStep(a: set<int>, y: set<int>, x: int)
    requires x !in a
    ensures |(a + {x}) * y| == |a * y| + if x in y then 1 else 0
  {
    if x in y {
      assert (a + {x}) * y == a * y + {x};
    } else {
      assert (a + {x}) * y == a * y;
    }
  }

  /**
   * The pairwise estimate on the two sets: 0 when either is empty, else the
   * size of the intersection over the size of the smaller set.
   */
  ghost function PairEstimate(a: set<int>, b: set<int>): Ratio
  {
    if |a| == 0 || |b| == 0 then Ratio(0, 1)
    else Ratio(|a * b|, Min(|a|, |b|))
  }

  /** The pairwise estimate lies in [0, 1] and has a positive denominator. */
  lemma PairEstimateBounds(a: set<int>, b: set<int>)
    ensures 0 <= PairEstimate(a, b).numerator <= PairEstimate(a, b).denominator
    ensures PairEstimate(a, b).denominator >= 1
    ensures |a| > 0 && |b| > 0 ==> PairEstimate(a, b).denominator == Min(|a|, |b|)
  {
    if |a| > 0 && |b| > 0 {
      assert a * b <= a && a * b <= b;
      SubsetCard(a * b, a);
      SubsetCard(a * b, b);
    }
  }

  lemma SubsetCard(a: set<int>, b: set<int>)
    requires a <= b
    ensures |a| <= |b|
  {
    assert b == a + (b - a);
    assert a * (b - a) == {};
  }

  /** The pairwise estimate is symmetric, and a non-empty set compared with itself gives 1. */
  lemma PairEstimateSymmetric(a: set<int>, b: set<int>)
    ensures PairEstimate(a, b) == PairEstimate(b, a)
    ensures |a| > 0 ==> PairEstimate(a, a) == Ratio(|a|, |a|)
  {
    assert a * b == b * a;
    assert a * a == a;
  }

  // The static estimator over several sketches

  /** `all.addAll(hash.getTreeSet())` over the sketches in order. */
  function UnionAll(sets: seq<seq<int>>): (r: seq<int>)
    ensures forall i :: 0 <= i < |sets| ==> |r| >= |sets[i]|
  {
    if sets == [] then []
    else
      var p := sets[..|sets| - 1];
      var r := Union(UnionAll(p), sets[|sets| - 1]);
      assert forall i :: 0 <= i < |p| ==> sets[i] == p[i];
      r
  }

  lemma {:induction false} UnionAllSorted(sets: seq<seq<int>>)
    requires forall i :: 0 <= i < |sets| ==> Sorted(sets[i])
    ensures Sorted(UnionAll(sets))
    ensures forall x :: x in UnionAll(sets) <==> exists i :: 0 <= i < |sets| && x in sets[i]
  {
    if sets != [] {
      var p := sets[..|sets| - 1];
      UnionAllSorted(p);
      UnionSorted(UnionAll(p), sets[|sets| - 1]);
      forall x ensures x in UnionAll(sets) <==> exists i :: 0 <= i < |sets| && x in sets[i] {
        if x in UnionAll(p) {
          var i :| 0 <= i < |p| && x in p[i];
          assert x in sets[i];
        }
        if exists i :: 0 <= i < |sets| && x in sets[i] {
          var i :| 0 <= i < |sets| && x in sets[i];
          if i < |p| {
            assert x in p[i];
          }
        }
      }
    }
  }

  /** `Math.min` over the maximum sizes, from `Integer.MAX_VALUE`. */
  function MinSize(sizes: seq<int>): (m: int)
    ensures m <= INT_MAX
    ensures forall i :: 0 <= i < |sizes| ==> m <= sizes[i]
  {
    if sizes == [] then INT_MAX
    else
      var p := sizes[..|sizes| - 1];
      assert forall i :: 0 <= i < |p| ==> sizes[i] == p[i];
      Min(MinSize(p), sizes[|sizes| - 1])
  }

  /** `Math.max` over the set sizes, from `Integer.MIN_VALUE`. */
  function MaxLength(sets: seq<seq<int>>): (m: int)
    ensures m >= INT_MIN
    ensures forall i :: 0 <= i < |sets| ==> |sets[i]| <= m
  {
    if sets == [] then INT_MIN
    else
      var p := sets[..|sets| - 1];
      assert forall i :: 0 <= i < |p| ==> sets[i] == p[i];
      var l := |sets[|sets| - 1]|;
      if MaxLength(p) >= l then MaxLength(p) else l
  }

  /** The minimum is the start value or one of the sizes. */
  lemma {:induction false} MinSizeAttained(sizes: seq<int>)
    ensures MinSize(sizes) == INT_MAX || exists i :: 0 <= i < |sizes| && MinSize(sizes) == sizes[i]
  {
    if sizes != [] {
      var p := sizes[..|sizes| - 1];
      MinSizeAttained(p);
      if MinSize(p) != INT_MAX && MinSize(sizes) == MinSize(p) {
        var i :| 0 <= i < |p| && MinSize(p) == p[i];
        assert MinSize(sizes) == sizes[i];
      }
    }
  }

  /** The maximum is the start value or the size of one of the sets. */
  lemma {:induction false} MaxLengthAttained(sets: seq<seq<int>>)
    ensures MaxLength(sets) == INT_MIN || exists i :: 0 <= i < |sets| && MaxLength(sets) == |sets[i]|
  {
    if sets != [] {
      var p := sets[..|sets| - 1];
      MaxLengthAttained(p);
      if MaxLength(p) != INT_MIN && MaxLength(sets) == MaxLength(p) {
        var i :| 0 <= i < |p| && MaxLength(p) == |p[i]|;
        assert MaxLength(sets) == |sets[i]|;
      }
    }
  }

  predicate InAll(x: int, sets: seq<seq<int>>)
  {
    forall i :: 0 <= i < |sets| ==> x in sets[i]
  }

  /** The number of elements of xs that every set contains. */
  function CountInAll(xs: seq<int>, sets: seq<seq<int>>): nat
  {
    if xs == [] then 0 else CountInAll(xs[..|xs| - 1], sets) + if InAll(xs[|xs| - 1], sets) then 1 else 0
  }

  lemma {:induction false} CountInAllBound(xs: seq<int>, sets: seq<seq<int>>)
    ensures CountInAll(xs, sets) <= |xs|
  {
    if xs != [] {
      CountInAllBound(xs[..|xs| - 1], sets);
    }
  }

  /**
   * The static estimate: `IllegalArgumentException` for no sketches, 0 when a
   * sketch is empty, and otherwise, with k the smaller of the least maximum
   * size and the largest set size, the number of the k smallest values of the
   * union that every sketch holds, over k.
   */
  ghost function MultiEstimate(sets: seq<seq<int>>, sizes: seq<int>): Result<Ratio>
    requires |sets| == |sizes| && forall i :: 0 <= i < |sizes| ==> sizes[i] > 0
  {
    if |sets| == 0 then Throws(IllegalArgument)
    else if exists i :: 0 <= i < |sets| && |sets[i]| == 0 then Ok(Ratio(0, 1))
    else
      var k := Min(MinSize(sizes), MaxLength(sets));
      assert |sets[0]| > 0;
      MinSizeAttained(sizes);
      Ok(Ratio(CountInAll(Take(UnionAll(sets), k), sets), k))
  }

  /** k: at least 1 and no larger than the union, so `pollFirst` always returns a value. */
  lemma SmallestCountBounds(sets: seq<seq<int>>, sizes: seq<int>)
    requires |sets| == |sizes| > 0 && forall i :: 0 <= i < |sizes| ==> sizes[i] > 0
    requires forall i :: 0 <= i < |sets| ==> |sets[i]| != 0
    ensures 0 < Min(MinSize(sizes), MaxLength(sets)) <= |UnionAll(sets)|
  {
    assert |sets[0]| > 0;
    MinSizeAttained(sizes);
    MaxLengthAttained(sets);
  }

  lemma MultiEstimateOf(sets: seq<seq<int>>, sizes: seq<int>, count: int)
    requires |sets| == |sizes| > 0 && forall i :: 0 <= i < |sizes| ==> sizes[i] > 0
    requires forall i :: 0 <= i < |sets| ==> |sets[i]| != 0
    requires 0 <= Min(MinSize(sizes), MaxLength(sets))
    requires count == CountInAll(Take(UnionAll(sets), Min(MinSize(sizes), MaxLength(sets))), sets)
    ensures MultiEstimate(sets, sizes) == Ok(Ratio(count, Min(MinSize(sizes), MaxLength(sets))))
  {
  }

  /** The static estimate lies in [0, 1], over a k no larger than any maximum size or than the largest set. */
  lemma MultiEstimateBounds(sets: seq<seq<int>>, sizes: seq<int>)
    requires |sets| == |sizes| && forall i :: 0 <= i < |sizes| ==> sizes[i] > 0
    ensures MultiEstimate(sets, sizes).Ok? ==>
      var r := MultiEstimate(sets, sizes).value;
      1 <= r.denominator && 0 <= r.numerator <= r.denominator &&
      forall i :: 0 <= i < |sets| ==> r.denominator <= sizes[i]
  {
    if |sets| > 0 && !(exists i :: 0 <= i < |sets| && |sets[i]| == 0) {
      assert |sets[0]| > 0;
      MinSizeAttained(sizes);
      var k := Min(MinSize(sizes), MaxLength(sets));
      CountInAllBound(Take(UnionAll(sets), k), sets);
    }
  }

  /** A single sketch that respects its capacity has static estimate 1. */
  lemma MultiEstimateSingle(s: seq<int>, size: Int)
    requires Sorted(s) && 0 < |s| <= size
    ensures MultiEstimate([s], [size]) == Ok(Ratio(|s|, |s|))
  {
    assert MinSize([size]) == size;
    assert MaxLength([s]) == |s|;
    assert UnionAll([s]) == s by {
      assert [s][..0] == [];
    }
    CountInAllOwn(s, s);
  }

  lemma {:induction false} CountInAllOwn(xs: seq<int>, s: seq<int>)
    requires forall x :: x in xs ==> x in s
    ensures CountInAll(xs, [s]) == |xs|
  {
    if xs != [] {
      assert forall x :: x in xs[..|xs| - 1] ==> x in xs;
      CountInAllOwn(xs[..|xs| - 1], s);
      assert InAll(xs[|xs| - 1], [s]);
    }
  }

  // ---------------------------------------------------------------------------
  // The object

  class MinHash {
    var elems: seq<int>
    var maxSize: Int

    ghost predicate Valid()
      reads this
    {
      Sorted(elems) && 0 < maxSize && |elems| <= maxSize
    }

    /** The set the `TreeSet` holds. */
    ghost function Elements(): set<int>
      reads this
    {
      SetOf(elems)
    }

    /** `new MinHash(maxSize)` once `checkArgument(maxSize > 0)` has passed. */
    constructor (maxSize: Int)
      requires 0 < maxSize
      ensures Valid() && elems == [] && this.maxSize == maxSize
    {
      elems := [];
      this.maxSize := maxSize;
    }

    /** `new MinHash(maxSize)`: `IllegalArgumentException` unless maxSize > 0. */
    static method Create(maxSize: Int) returns (r: Result<MinHash>)
      ensures r.Throws? <==> maxSize <= 0
      ensures r.Throws? ==> r.exception == IllegalArgument
      ensures r.Ok? ==> fresh(r.value) && r.value.Valid() && r.value.elems == [] && r.value.maxSize == maxSize
    {
      if !(maxSize > 0) {
        return Throws(IllegalArgument);
      }
      var m := new MinHash(maxSize);
      return Ok(m);
    }

    /** `removeExtra`: `pollLast` until the set is no larger than `maxSize`. */
    method RemoveExtra()
      requires Sorted(elems) && 0 < maxSize
      modifies this`elems
      ensures Valid() && elems == Take(old(elems), maxSize)
    {
      while |elems| > maxSize
        invariant Sorted(elems)
        invariant elems <= old(elems)
        invariant |old(elems)| > maxSize ==> |elems| >= maxSize
        invariant |old(elems)| <= maxSize ==> elems == old(elems)
        decreases |elems|
      {
        elems := elems[..|elems| - 1];
      }
    }

    /** `addHashed`: insert, then trim to the `maxSize` smallest. */
    method AddHashed(hash: int)
      requires Valid()
      modifies this
      ensures Valid() && maxSize == old(maxSize)
      ensures elems == Take(Union(old(elems), [hash]), maxSize)
    {
      UnionSorted(elems, [hash]);
      elems := Union(elems, [hash]);
      RemoveExtra();
    }

    /** `mergeHelper`: add the other set, lower `maxSize` to the smaller of the two, and trim. */
    method MergeHelper(other: MinHash)
      requires Valid() && other.Valid()
      modifies this
      ensures Valid() && maxSize == Min(old(other.maxSize), old(maxSize))
      ensures elems == Take(Union(old(elems), old(other.elems)), maxSize)
    {
      UnionSorted(elems, other.elems);
      elems := Union(elems, other.elems);
      maxSize := if other.maxSize <= maxSize then other.maxSize else maxSize;
      RemoveExtra();
    }

    /**
     * `merge`: a fresh sketch with the smaller capacity holding that many
     * smallest values of the union; neither operand changes.
     */
    method Merge(other: MinHash) returns (r: MinHash)
      requires Valid() && other.Valid()
      ensures fresh(r) && r.Valid()
      ensures r.maxSize == Min(other.maxSize, maxSize)
      ensures r.elems == Take(Union(elems, other.elems), r.maxSize)
    {
      var minNumHash := if other.maxSize <= maxSize then other.maxSize else maxSize;
      r := new MinHash(minNumHash);
      r.MergeHelper(other);
      r.MergeHelper(this);
      TakeUnion(other.elems, elems, minNumHash, minNumHash);
      UnionCommutes(Take(other.elems, minNumHash), elems);
      UnionCommutes(other.elems, elems);
    }

    /** `equals`: the same set and the same `maxSize`. */
    function Equals(other: MinHash): (b: bool)
      requires Valid() && other.Valid()
      reads this, other
      ensures b <==> Elements() == other.Elements() && maxSize == other.maxSize
    {
      SortedSameSet(elems, other.elems);
      elems == other.elems && maxSize == other.maxSize
    }

    /**
     * `estimateJaccardIndex(minHash)`: 0 for an empty set, otherwise the smaller
     * set's elements that the other holds, over the smaller set's size.
     */
    method EstimateJaccardIndex(other: MinHash) returns (r: Ratio)
      requires Valid() && other.Valid()
      ensures r == PairEstimate(Elements(), other.Elements())
    {
      SortedCard(elems);
      SortedCard(other.elems);
      if |elems| == 0 || |other.elems| == 0 {
        return Ratio(0, 1);
      }
      var smaller := if |other.elems| > |elems| then this else other;
      var bigger := if this == smaller then other else this;
      var intersectionCounter := 0;
      var i := 0;
      while i < |smaller.elems|
        invariant 0 <= i <= |smaller.elems|
        invariant intersectionCounter == CountIn(smaller.elems[..i], bigger.elems)
      {
        assert smaller.elems[..i + 1][..i] == smaller.elems[..i];
        if smaller.elems[i] in bigger.elems {
          intersectionCounter := intersectionCounter + 1;
        }
        i := i + 1;
      }
      assert smaller.elems[..i] == smaller.elems;
      CountInIsIntersection(smaller.elems, bigger.elems);
      assert SetOf(smaller.elems) * SetOf(bigger.elems) == Elements() * other.Elements();
      r := Ratio(intersectionCounter, |smaller.elems|);
    }
  }

  // ---------------------------------------------------------------------------
  // The static estimator

  ghost function ElemsOf(hashes: seq<MinHash>): (r: seq<seq<int>>)
    reads hashes
    ensures |r| == |hashes| && forall i :: 0 <= i < |hashes| ==> r[i] == hashes[i].elems
  {
    if hashes == [] then []
    else ElemsOf(hashes[..|hashes| - 1]) + [hashes[|hashes| - 1].elems]
  }

  ghost function MaxSizesOf(hashes: seq<MinHash>): (r: seq<int>)
    reads hashes
    ensures |r| == |hashes| && forall i :: 0 <= i < |hashes| ==> r[i] == hashes[i].maxSize
    ensures (forall i :: 0 <= i < |hashes| ==> hashes[i].Valid()) ==> forall i :: 0 <= i < |r| ==> r[i] > 0
  {
    if hashes == [] then []
    else MaxSizesOf(hashes[..|hashes| - 1]) + [hashes[|hashes| - 1].maxSize]
  }

  /** The inner loop of the static estimator: does every sketch hold x? */
  method AllContain(hashes: seq<MinHash>, x: int) returns (b: bool)
    ensures b == InAll(x, ElemsOf(hashes))
  {
    b := true;
    for i := 0 to |hashes|
      invariant b == InAll(x, ElemsOf(hashes)[..i])
    {
      if x !in hashes[i].elems {
        b := false;
        return;
      }
    }
  }

  /** The first loop of the static estimator: the union, the least maximum size and the largest set size. */
  method Gather(hashes: seq<MinHash>, ghost sets: seq<seq<int>>, ghost sizes: seq<int>) returns (all: seq<int>, mink: int, maxs: int)
    requires sets == ElemsOf(hashes) && sizes == MaxSizesOf(hashes)
    ensures all == UnionAll(sets) && mink == MinSize(sizes) && maxs == MaxLength(sets)
    ensures sets == ElemsOf(hashes) && sizes == MaxSizesOf(hashes)
  {
    all, mink, maxs := [], INT_MAX, INT_MIN;
    for j := 0 to |hashes|
      invariant all == UnionAll(sets[..j])
      invariant mink == MinSize(sizes[..j])
      invariant maxs == MaxLength(sets[..j])
    {
      GatherStep(sets, sizes, j);
      var h := hashes[j];
      all := Union(all, h.elems);
      mink := if mink <= h.maxSize then mink else h.maxSize;
      maxs := if maxs >= |h.elems| then maxs else |h.elems|;
    }
    assert sets[..|hashes|] == sets && sizes[..|hashes|] == sizes;
  }

  lemma GatherStep(sets: seq<seq<int>>, sizes: seq<int>, j: nat)
    requires j < |sets| && j < |sizes|
    ensures UnionAll(sets[..j + 1]) == Union(UnionAll(sets[..j]), sets[j])
    ensures MinSize(sizes[..j + 1]) == Min(MinSize(sizes[..j]), sizes[j])
    ensures MaxLength(sets[..j + 1]) == if MaxLength(sets[..j]) >= |sets[j]| then MaxLength(sets[..j]) else |sets[j]|
  {
    assert sets[..j + 1][..j] == sets[..j] && sizes[..j + 1][..j] == sizes[..j];
  }

  /** The second loop: `pollFirst` k times, counting the values every sketch holds. */
  method CountSmallest(hashes: seq<MinHash>, ghost sets: seq<seq<int>>, ghost sizes: seq<int>, all: seq<int>, k: nat) returns (result: nat)
    requires sets == ElemsOf(hashes) && sizes == MaxSizesOf(hashes) && k <= |all|
    ensures result == CountInAll(Take(all, k), sets)
    ensures sets == ElemsOf(hashes) && sizes == MaxSizesOf(hashes)
  {
    var rest := all;
    result := 0;
    var i := 0;
    while i < k
      invariant 0 <= i <= k
      invariant rest == all[i..]
      invariant result == CountInAll(all[..i], sets)
    {
      assert all[..i + 1][..i] == all[..i];
      var l := rest[0];
      rest := rest[1..];
      var allContain := AllContain(hashes, l);
      if allContain {
        result := result + 1;
      }
      i := i + 1;
    }
    assert Take(all, k) == all[..k];
  }

  /** The static `estimateJaccardIndex(Iterable<MinHash>)`: reads the sketches, changes none. */
  method EstimateJaccardIndexOfAll(hashes: seq<MinHash>) returns (r: Result<Ratio>)
    requires forall i :: 0 <= i < |hashes| ==> hashes[i].Valid()
    ensures r == MultiEstimate(ElemsOf(hashes), MaxSizesOf(hashes))
  {
    ghost var sets, sizes := ElemsOf(hashes), MaxSizesOf(hashes);
    if !(|hashes| > 0) {
      r := Throws(IllegalArgument);
      assert r == MultiEstimate(sets, sizes);
      return;
    }
    if exists i :: 0 <= i < |hashes| && |hashes[i].elems| <= 0 {
      ghost var i :| 0 <= i < |hashes| && |hashes[i].elems| <= 0;
      assert |sets[i]| == 0;
      r := Ok(Ratio(0, 1));
      assert r == MultiEstimate(sets, sizes);
      return;
    }
    assert !exists i :: 0 <= i < |sets| && |sets[i]| == 0 by {
      forall i | 0 <= i < |sets| ensures |sets[i]| != 0 {
        assert sets[i] == hashes[i].elems;
      }
    }
    var all, mink, maxs := Gather(hashes, sets, sizes);
    mink := if maxs < mink then maxs else mink;
    SmallestCountBounds(sets, sizes);
    var result := CountSmallest(hashes, sets, sizes, all, mink);
    MultiEstimateOf(sets, sizes, result);
    r := Ok(Ratio(result, mink));
    assert r == MultiEstimate(sets, sizes);
  }
}
