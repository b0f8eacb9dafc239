/**
 * `CountMinSketch`: a matrix of `long` counters with one row per hash. An add
 * updates one cell per row, the one the row's hash selects; a point query
 * returns the least of the selected cells. As written, the add doubles the
 * selected cell (`localCount += localCount`) and ignores its `count`, so a
 * sketch that starts at zero stays at zero.
 */
module CountMinSketch {
  import opened Java
  import opened HashBits

  /**
   * The cell a hash selects in a row of `cols` counters: `hash.mod(cols)`,
   * which throws for no columns, used as an array index, which throws when
   * it is negative.
   */
  function Bucket(h: Hash, cols: Int): (r: Result<nat>)
    ensures r.Ok? ==> r.value < cols
    ensures r.Ok? <==> h.Mod(cols).Ok? && 0 <= h.Mod(cols).value < cols
    ensures cols == 0 ==> r == Throws(Arithmetic)
  {
    var j := h.Mod(cols);
    if j.Throws? then Throws(j.exception)
    else if !(0 <= j.value < cols) then Throws(IndexOutOfBounds)
    else Ok(j.value)
  }

  /** With no columns, every hash's bucket throws. */
  lemma NoColumnsNoBucket(h: Hash)
    ensures Bucket(h, 0).Throws?
  {
    match h
    case Of32(g) =>
    case Of64(g) =>
  }

  /** The index of the first hash whose bucket throws, or the number of hashes when none does. */
  function FirstFailure(hs: seq<Hash>, cols: Int): (f: nat)
    ensures f <= |hs|
    ensures forall r :: 0 <= r < f ==> Bucket(hs[r], cols).Ok?
    ensures f < |hs| ==> Bucket(hs[f], cols).Throws?
  {
    if hs == [] then 0
    else if Bucket(hs[0], cols).Throws? then 0
    else
      var f := 1 + FirstFailure(hs[1..], cols);
      assert forall r :: 1 <= r < f ==> hs[r] == hs[1..][r - 1];
      f
  }

  /** A row whose bucket throws after rows that all succeeded is the first failure. */
  lemma FirstFailureAt(hs: seq<Hash>, cols: Int, i: nat)
    requires i < |hs| && Bucket(hs[i], cols).Throws?
    requires forall r :: 0 <= r < i ==> Bucket(hs[r], cols).Ok?
    ensures FirstFailure(hs, cols) == i
  {
  }

  /**
   * What the checks of `addHashed` and `estimatePointQuery` lead to on a
   * sketch of `rows` rows of `cols` cells: `IllegalArgumentException` unless
   * there is one hash per row, `IndexOutOfBoundsException` from reading row 0
   * of a sketch without rows, and otherwise the exception of the first row
   * whose bucket throws.
   */
  function RowsStatus(rows: nat, cols: Int, hashes: seq<Hash>): (s: Status)
    ensures s == Done <==> |hashes| == rows > 0 && forall r :: 0 <= r < rows ==> Bucket(hashes[r], cols).Ok?
    ensures |hashes| != rows ==> s == Threw(IllegalArgument)
    ensures |hashes| == rows == 0 ==> s == Threw(IndexOutOfBounds)
  {
    if !(|hashes| == rows) then Threw(IllegalArgument)
    else if rows == 0 then Threw(IndexOutOfBounds)
    else
      var f := FirstFailure(hashes, cols);
      if f < |hashes| then Threw(Bucket(hashes[f], cols).exception) else Done
  }

  /** A sketch with rows but no columns refuses every add and every query. */
  lemma NoColumnsFails(rows: nat, hashes: seq<Hash>)
    ensures RowsStatus(rows, 0, hashes) != Done
  {
    if |hashes| == rows > 0 {
      NoColumnsNoBucket(hashes[0]);
    }
  }

  /** A 32-bit hash that is non-negative selects a cell in every row that has cells. */
  lemma NonNegativeHashesSucceed(rows: nat, cols: Int, hashes: seq<Hash>)
    requires |hashes| == rows > 0 && cols > 0
    requires forall r :: 0 <= r < rows ==> hashes[r].Of32? && hashes[r].h32.hash >= 0
    ensures RowsStatus(rows, cols, hashes) == Done
  {
    forall r | 0 <= r < rows
      ensures Bucket(hashes[r], cols).Ok?
    {
      QuotRem(hashes[r].h32.hash, cols);
    }
  }

  /** `localCount += localCount` on a `long`: the cell doubles, with wrap-around. */
  function Doubled(v: Long): (r: Long)
    ensures v == 0 ==> r == 0
    ensures -0x4000_0000_0000_0000 <= v < 0x4000_0000_0000_0000 ==> r == 2 * v
  {
    Wrap64(v + v)
  }

  class CountMinSketch {
    /** The `ArrayList<long[]>`: row i is `cells[i, ..]`. */
    var cells: array2<Long>

    /** Java list sizes and array lengths are `int`s. */
    ghost predicate Valid()
      reads this
    {
      cells.Length0 <= INT_MAX && cells.Length1 <= INT_MAX
    }

    /** Every counter is 0. */
    ghost predicate AllZero()
      reads this, cells
    {
      forall r, c :: 0 <= r < cells.Length0 && 0 <= c < cells.Length1 ==> cells[r, c] == 0
    }

    /** `new CountMinSketch(numRows, numCols)` for non-negative arguments: numRows rows of numCols zeros. */
    constructor (numRows: nat, numCols: nat)
      requires numRows <= INT_MAX && numCols <= INT_MAX
      ensures Valid() && fresh(cells) && cells.Length0 == numRows && cells.Length1 == numCols && AllZero()
    {
      cells := new Long[numRows, numCols]((r, c) => 0);
    }

    /**
     * `new CountMinSketch(numRows, numCols)`: neither argument is checked; a
     * negative numCols throws from `new long[numCols]` once there is a row to
     * allocate, and a non-positive numRows gives a sketch without rows.
     */
    static method Create(numRows: Int, numCols: Int) returns (r: Result<CountMinSketch>)
      ensures r.Throws? <==> numRows > 0 && numCols < 0
      ensures r.Throws? ==> r.exception == NegativeArraySize
      ensures r.Ok? ==> fresh(r.value) && fresh(r.value.cells) && r.value.Valid() && r.value.AllZero()
      ensures r.Ok? ==> r.value.cells.Length0 == (if numRows > 0 then numRows else 0)
      ensures r.Ok? && numRows > 0 ==> r.value.cells.Length1 == numCols
    {
      if numRows > 0 && numCols < 0 {
        return Throws(NegativeArraySize);
      }
      var s := new CountMinSketch(if numRows > 0 then numRows else 0, if numRows > 0 then numCols else 0);
      return Ok(s);
    }

    /** `getNumCols`: the length of row 0, which a sketch without rows does not have. */
    function NumCols(): (r: Result<Int>)
      requires Valid()
      reads this
      ensures r.Throws? <==> cells.Length0 == 0
      ensures r.Throws? ==> r.exception == IndexOutOfBounds
      ensures r.Ok? ==> r.value == cells.Length1
    {
      if cells.Length0 == 0 then Throws(IndexOutOfBounds) else Ok(cells.Length1)
    }

    /**
     * `addHashed(count, hashes)`: after the checks, row by row, the selected
     * cell doubles; `count` plays no part. A row whose bucket throws ends the
     * add, with the earlier rows already updated.
     */
    method AddHashed(count: Long, hashes: seq<Hash>) returns (status: Status)
      requires Valid()
      modifies cells
      ensures status == RowsStatus(cells.Length0, cells.Length1, hashes)
      ensures forall r, c :: 0 <= r < cells.Length0 && 0 <= c < cells.Length1 ==>
        cells[r, c] == if |hashes| == cells.Length0 && r < FirstFailure(hashes, cells.Length1) && Bucket(hashes[r], cells.Length1) == Ok(c)
                       then Doubled(old(cells[r, c])) else old(cells[r, c])
      ensures old(AllZero()) ==> AllZero()
    {
      if !(|hashes| == cells.Length0) {
        return Threw(IllegalArgument);
      }
      var numRows := cells.Length0;
      var numCols := NumCols();
      if numCols.Throws? {
        return Threw(numCols.exception);
      }
      for i := 0 to numRows
        invariant forall r :: 0 <= r < i ==> Bucket(hashes[r], cells.Length1).Ok?
        invariant forall r, c :: 0 <= r < cells.Length0 && 0 <= c < cells.Length1 ==>
          cells[r, c] == if r < i && Bucket(hashes[r], cells.Length1) == Ok(c) then Doubled(old(cells[r, c])) else old(cells[r, c])
      {
        var j := hashes[i].Mod(numCols.value);
        if j.Throws? {
          FirstFailureAt(hashes, cells.Length1, i);
          return Threw(j.exception);
        }
        if !(0 <= j.value < numCols.value) {
          FirstFailureAt(hashes, cells.Length1, i);
          return Threw(IndexOutOfBounds);
        }
        assert Bucket(hashes[i], cells.Length1) == Ok(j.value);
        var localCount := cells[i, j.value];
        localCount := Doubled(localCount);
        cells[i, j.value] := localCount;
      }
      return Done;
    }

    /** `addHashed(hashes)`: `addHashed(1, hashes)`. */
    method AddHashedOnce(hashes: seq<Hash>) returns (status: Status)
      requires Valid()
      modifies cells
      ensures status == RowsStatus(cells.Length0, cells.Length1, hashes)
      ensures forall r, c :: 0 <= r < cells.Length0 && 0 <= c < cells.Length1 ==>
        cells[r, c] == if |hashes| == cells.Length0 && r < FirstFailure(hashes, cells.Length1) && Bucket(hashes[r], cells.Length1) == Ok(c)
                       then Doubled(old(cells[r, c])) else old(cells[r, c])
      ensures old(AllZero()) ==> AllZero()
    {
      status := AddHashed(1, hashes);
    }

    /**
     * `estimatePointQuery(hashes)`: after the same checks as the add, the
     * least of the cells the hashes select, one per row; nothing changes.
     */
    method EstimatePointQuery(hashes: seq<Hash>) returns (r: Result<Long>)
      requires Valid()
      ensures r.Throws? <==> RowsStatus(cells.Length0, cells.Length1, hashes) != Done
      ensures r.Throws? ==> Threw(r.exception) == RowsStatus(cells.Length0, cells.Length1, hashes)
      ensures r.Ok? ==> forall i :: 0 <= i < cells.Length0 ==> r.value <= cells[i, Bucket(hashes[i], cells.Length1).value]
      ensures r.Ok? ==> exists i :: 0 <= i < cells.Length0 && r.value == cells[i, Bucket(hashes[i], cells.Length1).value]
      ensures r.Ok? && AllZero() ==> r.value == 0
    {
      if !(|hashes| == cells.Length0) {
        return Throws(IllegalArgument);
      }
      var min := LONG_MAX;
      var numCols := NumCols();
      if numCols.Throws? {
        return Throws(numCols.exception);
      }
      ghost var at := 0;
      for i := 0 to |hashes|
        invariant forall k :: 0 <= k < i ==> Bucket(hashes[k], cells.Length1).Ok?
        invariant forall k :: 0 <= k < i ==> min <= cells[k, Bucket(hashes[k], cells.Length1).value]
        invariant min == LONG_MAX || (0 <= at < i && min == cells[at, Bucket(hashes[at], cells.Length1).value])
      {
        var j := hashes[i].Mod(numCols.value);
        if j.Throws? {
          FirstFailureAt(hashes, cells.Length1, i);
          return Throws(j.exception);
        }
        if !(0 <= j.value < numCols.value) {
          FirstFailureAt(hashes, cells.Length1, i);
          return Throws(IndexOutOfBounds);
        }
        assert Bucket(hashes[i], cells.Length1) == Ok(j.value);
        var val := cells[i, j.value];
        if min > val {
          min := val;
          at := i;
        }
      }
      if min == LONG_MAX {
        at := 0;
      }
      return Ok(min);
    }
  }
}
