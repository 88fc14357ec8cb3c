/** Byte strings and their xor, and the length of a cipher block, which the modes of operation share. */
module AesBytes {
  const BLOCK_LEN: nat := 16

  type Bytes = seq<bv8>

  function Mix(a: bv8, b: bv8): bv8
  {
    a ^ b
  }

  function XorBytes(a: Bytes, b: Bytes): (r: Bytes)
    requires |a| == |b|
    ensures |r| == |a|
  {
    seq(|a|, i requires 0 <= i < |a| => Mix(a[i], b[i]))
  }

  lemma XorBytesAt(a: Bytes, b: Bytes, i: nat)
    requires i < |a| == |b|
    ensures XorBytes(a, b)[i] == a[i] ^ b[i]
  {
  }
}
