/**
  Cipher block chaining block by block (section 6.2 of SP 800-38A), and the
  layout of a file that encfile writes when its last block is partial: the
  block before is cut short to the length that is missing, and comes last
  (CBC-CS2 of the addendum to SP 800-38A, without its zero padding).
*/
module AesCbcLaws {
  import opened AesBytes
  import opened AesCbc
  import opened AesCbcMode

  /** Each block of ciphertext is the encryption of the message xored with the one before, the IV at first. */
  lemma {:induction false} CbcBlocks(p: Permutation, c: Bytes, m: Bytes, j: nat)
    requires WholeBlocks(p, c, m) && 16 * j + 16 <= |m|
    ensures var y := Cbc(p, c, m);
      y[16 * j..16 * j + 16]
        == p.enc(XorBytes(if j == 0 then c else y[16 * j - 16..16 * j], m[16 * j..16 * j + 16]))
    decreases j
  {
    hide XorBytes, Inverse;
    var e := FirstBlock(p, c, m);
    var y, rest, n := Cbc(p, c, m), Cbc(p, e, m[16..]), m[16..];
    if j > 0 {
      CbcBlocks(p, e, n, j - 1);
      Behind(e, rest, y, 16 * j - 16);
      Behind(m[..16], n, m, 16 * j - 16);
      if j > 1 {
        Behind(e, rest, y, 16 * j - 32);
      }
    }
  }

  lemma FirstBlock(p: Permutation, c: Bytes, m: Bytes) returns (e: Bytes)
    requires WholeBlocks(p, c, m) && m != []
    ensures |m| >= 16 && e == p.enc(XorBytes(c, m[..16])) && |e| == 16 && WholeBlocks(p, e, m[16..])
    ensures Cbc(p, c, m) == e + Cbc(p, e, m[16..]) && m == m[..16] + m[16..]
  {
    e := p.enc(XorBytes(c, m[..16]));
  }

  /** A block of what follows the first one. */
  lemma Behind(e: Bytes, rest: Bytes, y: Bytes, at: nat)
    requires |e| == 16 && y == e + rest && at + 16 <= |rest|
    ensures y[..16] == e && y[at + 16..at + 32] == rest[at..at + 16]
  {
  }

  /** Each block of the message is the decryption of the ciphertext xored with the block before. */
  lemma {:induction false} UncbcBlocks(p: Permutation, c: Bytes, y: Bytes, j: nat)
    requires WholeBlocks(p, c, y) && 16 * j + 16 <= |y|
    ensures |p.dec(y[16 * j..16 * j + 16])| == BLOCK_LEN
    ensures Uncbc(p, c, y)[16 * j..16 * j + 16]
      == XorBytes(p.dec(y[16 * j..16 * j + 16]), if j == 0 then c else y[16 * j - 16..16 * j])
    decreases j
  {
    hide XorBytes, Inverse, Whole, Uncbc;
    var first, n := FirstUnblock(p, c, y);
    var rest := Uncbc(p, y[..16], n);
    if j > 0 {
      UncbcBlocks(p, y[..16], n, j - 1);
      Behind(first, rest, Uncbc(p, c, y), 16 * j - 16);
      Behind(y[..16], n, y, 16 * j - 16);
      if j > 1 {
        Behind(y[..16], n, y, 16 * j - 32);
      }
    }
  }

  lemma FirstUnblock(p: Permutation, c: Bytes, y: Bytes) returns (first: Bytes, n: Bytes)
    requires WholeBlocks(p, c, y) && y != []
    ensures |y| >= 16 && n == y[16..] && |p.dec(y[..16])| == |first| == 16 && first == XorBytes(p.dec(y[..16]), c)
    ensures WholeBlocks(p, y[..16], n) && Uncbc(p, c, y) == first + Uncbc(p, y[..16], n) && y == y[..16] + n
  {
    n := y[16..];
    first := XorBytes(p.dec(y[..16]), c);
  }

  // ---------- encfile ----------

  /** Up to the last whole block the chain is CBC. */
  lemma {:induction false} ChainGoesOn(p: Permutation, c: Bytes, m: Bytes, k: nat)
    requires Inverse(p) && |c| == BLOCK_LEN && 16 * k + 16 <= |m|
    ensures Whole(m[..16 * k])
    ensures Chain(p, c, m) == Cbc(p, c, m[..16 * k]) + Chain(p, After(p, c, m[..16 * k]), m[16 * k..])
    decreases k
  {
    hide XorBytes;
    if k == 0 {
      assert m[..0] == [] && m[0..] == m;
    } else {
      hide Chain, Cbc, After, Inverse, Whole;
      var n, head := m[16..], m[..16 * k];
      HeadIsWhole(m, k);
      assert head[..16] == m[..16] && head[16..] == n[..16 * k - 16] && m[16 * k..] == n[16 * k - 16..];
      var e := p.enc(XorBytes(c, head[..16]));
      PeeledCbc(p, c, head, e);
      ChainGoesOn(p, e, n, k - 1);
      ChainStep(p, c, m, e);
      Appended(e, Cbc(p, e, head[16..]), Chain(p, After(p, c, head), m[16 * k..]), Chain(p, c, m));
    }
  }

  lemma HeadIsWhole(m: Bytes, k: nat)
    requires 16 * k <= |m|
    ensures Whole(m[..16 * k])
  {
    assert |m[..16 * k]| == 16 * k;
  }

  lemma PeeledCbc(p: Permutation, c: Bytes, a: Bytes, e: Bytes)
    requires WholeBlocks(p, c, a) && a != [] && e == p.enc(XorBytes(c, a[..16]))
    ensures |a| >= 16 && |e| == 16 && WholeBlocks(p, e, a[16..])
    ensures Cbc(p, c, a) == e + Cbc(p, e, a[16..]) && After(p, c, a) == After(p, e, a[16..])
  {
    hide XorBytes, Cbc, Whole, Inverse;
    var f := FirstBlock(p, c, a);
  }

  /**
    A message whose last whole block starts at `at` and is followed by a part:
    CBC up to that block, which is encrypted to `e`; the part is xored with the
    start of `e` and encrypted in its place, and that start comes last.
  */
  lemma StolenLayout(p: Permutation, c: Bytes, m: Bytes, at: nat)
    requires Inverse(p) && |c| == BLOCK_LEN && at + 16 < |m| < at + 32
    requires Whole(m[..at]) && (at == 0 || at >= 16)
    ensures var y, r := Chain(p, c, m), |m| - at - 16;
      var before := if at == 0 then c else y[at - 16..at];
      var e := p.enc(XorBytes(before, m[at..at + 16]));
      && |e| == 16 && y[..at] == Cbc(p, c, m[..at])
      && y[at..at + 16] == p.enc(XorBytes(m[at + 16..], e[..r]) + e[r..])
      && y[at + 16..] == e[..r]
  {
    hide XorBytes, Inverse, Chain, Cbc, After, Last;
    var head, tail := m[..at], m[at..];
    ChainGoesOn(p, c, m, at / 16);
    AfterIsLast(p, c, head);
    var before := After(p, c, head);
    LastBlock(p, c, m, at, before);
    assert tail[..16] == m[at..at + 16] && tail[16..] == m[at + 16..];
    var e := p.enc(XorBytes(before, tail[..16]));
    EncLength(p, XorBytes(before, tail[..16]));
    ChainStep(p, before, tail, e);
    StolenEnd(p, tail, Cbc(p, c, head), Chain(p, before, tail), Chain(p, c, m), e);
  }

  lemma LastBlock(p: Permutation, c: Bytes, m: Bytes, at: nat, before: Bytes)
    requires Inverse(p) && |c| == BLOCK_LEN && at % 16 == 0 && at + 16 <= |m|
    requires WholeBlocks(p, c, m[..at]) && before == Last(c, Cbc(p, c, m[..at])) && |before| == 16
    requires Chain(p, c, m) == Cbc(p, c, m[..at]) + Chain(p, before, m[at..])
    ensures before == if at == 0 then c else Chain(p, c, m)[at - 16..at]
  {
    hide Chain, Cbc, Inverse;
  }

  lemma StolenEnd(p: Permutation, tail: Bytes, done: Bytes, z: Bytes, y: Bytes, e: Bytes)
    requires Inverse(p) && 16 < |tail| < 32 && |e| == 16 && y == done + z
    requires z == p.enc(XorBytes(tail[16..], e[..|tail| - 16]) + e[|tail| - 16..]) + e[..|tail| - 16]
    ensures var r, at := |tail| - 16, |done|;
      y[..at] == done && y[at..at + 16] == p.enc(XorBytes(tail[16..], e[..r]) + e[r..]) && y[at + 16..] == e[..r]
  {
    hide XorBytes;
  }

  /** The file starts with the IV. */
  lemma EncryptedLayout(p: Permutation, iv: Bytes, m: Bytes)
    requires Inverse(p) && |iv| == BLOCK_LEN
    ensures |m| >= 16 ==> Encrypted(p, iv, m)[..16] == iv && Encrypted(p, iv, m)[16..] == Chain(p, iv, m)
    ensures |m| < 16 ==> Encrypted(p, iv, m)[..|m|] == iv[..|m|]
  {
    hide Chain;
  }

  /** A message of less than a block is xored with the start of the IV, and encrypted behind the rest of it. */
  lemma ShortLayout(p: Permutation, iv: Bytes, m: Bytes) returns (x: Bytes)
    requires Inverse(p) && |iv| == BLOCK_LEN && |m| < 16
    ensures |x| == 16 && Encrypted(p, iv, m)[|m|..] == p.enc(x)
    ensures x[..16 - |m|] == iv[|m|..] && x[16 - |m|..] == XorBytes(m, iv[..|m|])
  {
    hide XorBytes;
    x := iv[|m|..] + XorBytes(m, iv[..|m|]);
  }
}
