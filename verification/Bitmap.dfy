/** The packed bitmaps `occupied_` and `readable_`: eight flags to a byte. */
module Bitmap {

  function Mask(k: nat): bv8
    requires k < 8
  {
    (1 as bv8) << k
  }

  predicate ByteFlag(b: bv8, k: nat)
    requires k < 8
  {
    b & Mask(k) != 0
  }

  /** `(n - 1) / 8 + 1`, the number of bytes that hold `n` flags. */
  function BytesFor(n: nat): nat
    requires n > 0
  {
    (n - 1) / 8 + 1
  }

  predicate Flag(bytes: seq<bv8>, i: nat)
    requires i / 8 < |bytes|
  {
    ByteFlag(bytes[i / 8], i % 8)
  }

  function Set(bytes: seq<bv8>, i: nat): seq<bv8>
    requires i / 8 < |bytes|
  {
    bytes[i / 8 := bytes[i / 8] | Mask(i % 8)]
  }

  function Flip(bytes: seq<bv8>, i: nat): seq<bv8>
    requires i / 8 < |bytes|
  {
    bytes[i / 8 := bytes[i / 8] ^ Mask(i % 8)]
  }

  lemma ByteUpdate(b: bv8, k: nat, j: nat)
    requires k < 8 && j < 8
    ensures ByteFlag(b | Mask(k), j) == (j == k || ByteFlag(b, j))
    ensures ByteFlag(b ^ Mask(k), j) == (if j == k then !ByteFlag(b, j) else ByteFlag(b, j))
  {
    assert Mask(k) in {1, 2, 4, 8, 16, 32, 64, 128};
    assert Mask(j) in {1, 2, 4, 8, 16, 32, 64, 128};
  }

  /** A flag is found by its byte and its bit. */
  lemma SameFlag(i: nat, j: nat)
    ensures i == j <==> i / 8 == j / 8 && i % 8 == j % 8
  {
  }

  /** Setting a flag changes that flag only, whatever byte it shares. */
  lemma SetFlag(bytes: seq<bv8>, i: nat, j: nat)
    requires i / 8 < |bytes| && j / 8 < |bytes|
    ensures Flag(Set(bytes, i), j) == (j == i || Flag(bytes, j))
  {
    hide ByteFlag, Mask;
    SameFlag(i, j);
    if j / 8 == i / 8 {
      ByteUpdate(bytes[i / 8], i % 8, j % 8);
    }
  }

  lemma FlipFlag(bytes: seq<bv8>, i: nat, j: nat)
    requires i / 8 < |bytes| && j / 8 < |bytes|
    ensures Flag(Flip(bytes, i), j) == (if j == i then !Flag(bytes, j) else Flag(bytes, j))
  {
    hide ByteFlag, Mask;
    SameFlag(i, j);
    if j / 8 == i / 8 {
      ByteUpdate(bytes[i / 8], i % 8, j % 8);
    }
  }

  lemma NoFlags(bytes: seq<bv8>, i: nat)
    requires i / 8 < |bytes| && bytes[i / 8] == 0
    ensures !Flag(bytes, i)
  {
    assert Mask(i % 8) in {1, 2, 4, 8, 16, 32, 64, 128};
  }
}
