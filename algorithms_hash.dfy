/**
 * `algorithms.hash.Hash32Bits`, the earlier copy of the 32-bit hash: the same
 * division, remainder and comparison, but its bit extractors are stubs.
 */
module AlgorithmsHash {
  import opened Java
  import HashBits

  datatype Hash32Bits = Hash32Bits(hash: Int)
  {
    const Size: Int := 32

    /** Java `int` division, exactly as in the `hash` package. */
    function DivideBy(divisor: Int): (r: Result<Int>)
      ensures r == HashBits.Hash32Bits(hash).DivideBy(divisor)
      ensures r.Throws? <==> divisor == 0
    {
      IntDiv(hash, divisor)
    }

    /** Java `int` remainder, exactly as in the `hash` package. */
    function Mod(divisor: Int): (r: Result<Int>)
      ensures r == HashBits.Hash32Bits(hash).Mod(divisor)
      ensures r.Throws? <==> divisor == 0
    {
      IntRem(hash, divisor)
    }

    /** A stub (its name misspelt in the source) that answers 0 whatever it is asked. */
    function LeastSignficantBits(bits: Int): (r: Int)
      ensures r == 0
    {
      0
    }

    /** A stub that answers 0 whatever it is asked. */
    function MostSignificantBits(bits: Int): (r: Int)
      ensures r == 0
    {
      0
    }

    /** The same comparison as the `hash` package's class, overflow included. */
    function CompareTo(other: Hash32Bits): (r: Int)
      ensures r == HashBits.Hash32Bits(hash).CompareTo(HashBits.Hash32Bits(other.hash))
      ensures r == 0 <==> hash == other.hash
    {
      if other.hash == hash then 0 else Wrap32(hash - other.hash)
    }
  }

  /** Unlike the `hash` package's class, the stubbed extractors give 0 even where that one gives the hash's bits. */
  lemma StubsDiffer()
    ensures Hash32Bits(255).LeastSignficantBits(3) == 0
    ensures HashBits.Hash32Bits(255).LeastSignificantBits(3) == Ok(7)
  {
    HashBits.LeastSignificantBitsExamples();
  }
}
