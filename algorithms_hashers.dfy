/**
 * `algorithms.hashers.Hash32Bits`, the hash the odd sketch takes: a 32-bit
 * hash with `int` division and remainder, stubbed bit extractors and no order.
 */
module AlgorithmsHashers {
  import opened Java
  import AlgorithmsHash

  datatype Hash32Bits = Hash32Bits(hash: Int)
  {
    const Size: Int := 32

    /** Java `int` division, as in the `algorithms.hash` copy. */
    function DivideBy(divisor: Int): (r: Result<Int>)
      ensures r == AlgorithmsHash.Hash32Bits(hash).DivideBy(divisor)
      ensures r.Ok? && (hash != INT_MIN || divisor != -1) ==> r.value == Quot(hash, divisor)
    {
      IntDiv(hash, divisor)
    }

    /** Java `int` remainder: it has the hash's sign, so a negative hash that the size does not divide gives a negative bucket. */
    function Mod(divisor: Int): (r: Result<Int>)
      ensures r == AlgorithmsHash.Hash32Bits(hash).Mod(divisor)
      ensures r.Ok? ==> r.value == Rem(hash, divisor)
    {
      IntRem(hash, divisor)
    }

    /** A stub (misspelt in the source) answering 0. */
    function LeastSignficantBits(bits: Int): (r: Int)
      ensures r == AlgorithmsHash.Hash32Bits(hash).LeastSignficantBits(bits)
    {
      0
    }

    /** A stub answering 0. */
    function MostSignificantBits(bits: Int): (r: Int)
      ensures r == AlgorithmsHash.Hash32Bits(hash).MostSignificantBits(bits)
    {
      0
    }
  }

  /** `mod` by a positive size lands in (-size, size); it lands in [0, size) unless the hash is negative and the size does not divide it. */
  lemma ModRange(h: Hash32Bits, size: Int)
    requires size > 0
    ensures h.Mod(size).Ok?
    ensures -size < h.Mod(size).value < size
    ensures 0 <= h.Mod(size).value <==> h.hash >= 0 || h.Mod(size).value == 0
  {
    QuotRem(h.hash, size);
  }
}
