/** Splitting a byte address into the set it maps to and the tag stored there. */
module AddressDecode {

  /** Every block is 64 bytes; the simulator hard-codes this in the decode and in the set count. */
  const BlockSize: nat := 64

  /** The set an address maps to: the block number modulo the number of sets. */
  function SetIndex(address: nat, numSets: nat): (index: nat)
    requires numSets >= 1
    ensures index < numSets
  {
    address / BlockSize % numSets
  }

  /** The tag kept in the way: the block number with the set bits divided away. */
  function Tag(address: nat, numSets: nat): (tag: nat)
    requires numSets >= 1
    ensures tag * numSets + SetIndex(address, numSets) == address / BlockSize
    ensures tag <= address / BlockSize
  {
    address / BlockSize / numSets
  }

  /** The decode is the only way of writing a block number as tag * numSets + index,
      so two addresses agree on (index, tag) exactly when they lie in the same block. */
  lemma DecodeUnique(address: nat, numSets: nat, index: nat, tag: nat)
    requires numSets >= 1 && index < numSets
    requires tag * numSets + index == address / BlockSize
    ensures index == SetIndex(address, numSets) && tag == Tag(address, numSets)
  {
    var t0, i0 := Tag(address, numSets), SetIndex(address, numSets);
    assert (tag - t0) * numSets == i0 - index;
    MultipleOfAtLeast(tag - t0, numSets);
  }

  /** A non-zero multiple of n is at least n away from 0. */
  lemma MultipleOfAtLeast(d: int, n: int)
    requires n >= 1
    ensures d == 0 || d * n >= n || d * n <= -n
  {
    if d >= 1 {
      assert d * n == (d - 1) * n + n;
    } else if d <= -1 {
      assert d * n == (d + 1) * n - n;
    }
  }

  /** The decode loses nothing but the offset within the block. */
  lemma SameDecodeSameBlock(a1: nat, a2: nat, numSets: nat)
    requires numSets >= 1
    ensures (SetIndex(a1, numSets) == SetIndex(a2, numSets) && Tag(a1, numSets) == Tag(a2, numSets))
            <==> a1 / BlockSize == a2 / BlockSize
  {
    assert Tag(a1, numSets) * numSets + SetIndex(a1, numSets) == a1 / BlockSize;
    assert Tag(a2, numSets) * numSets + SetIndex(a2, numSets) == a2 / BlockSize;
  }
}
