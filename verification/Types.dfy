/** Entities shared by the buffer pool and the hash table. */
module Types {

  /** The template parameters `KeyType` and `ValueType`: any types with equality and a default value. */
  type Key(==, 0, !new)
  type Value(==, 0, !new)

  datatype Pair = Pair(key: Key, value: Value)

  type PageId = int
  type FrameId = nat

  /** `Hash`: a fixed but arbitrary function to 32-bit words. */
  type Word32 = x: nat | x < 0x1_0000_0000
  type HashFunction = Key -> Word32

  const INVALID_PAGE_ID: PageId := -1

  /** `DIRECTORY_ARRAY_SIZE` is 512, so the global depth never exceeds 9. */
  const MAX_DEPTH: nat := 9
  const DIRECTORY_ARRAY_SIZE: nat := 512

  lemma {:induction false} SubsetCardinality<T>(a: set<T>, b: set<T>)
    requires a <= b
    ensures |a| <= |b|
    ensures |a| == |b| ==> a == b
  {
    assert b == a + (b - a);
  }
}
