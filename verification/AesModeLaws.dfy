/**
  The modes block by block, as SP 800-38A states them (sections 6.2 to 6.5):
  what each block of output is, from the IV, the key and the message alone.
*/
module AesModeLaws {
  import opened AesBytes
  import opened AesModes
  import Bits

  // ---------- CFB and OFB ----------

  /** What stands in the chaining block in place of the bytes that were used. */
  function Fed(mode: Mode, x: Bytes, y: Bytes, key: Bytes): Bytes
  {
    match mode case CfbEncrypt => y case CfbDecrypt => x case Ofb => key
  }

  /** The state once the bytes `x` of a block whose key stream is `e` became `y`. */
  function Held(mode: Mode, iv: Bytes, e: Bytes, x: Bytes, y: Bytes): Chain
    requires |x| == |y| <= |e| == BLOCK_LEN
  {
    if x == [] then Chain(iv, 0) else Chain(Fed(mode, x, y, e[..|x|]) + e[|x|..], |x| % BLOCK_LEN)
  }

  /** Up to a block from position 0: the message is xored with the encrypted chaining block. */
  lemma {:induction false} WithinBlock(enc: Bytes -> Bytes, mode: Mode, iv: Bytes, x: Bytes)
    requires BlockCipher(enc) && |iv| == BLOCK_LEN && |x| <= BLOCK_LEN
    ensures var e, s := enc(iv), Chain(iv, 0); var y := XorBytes(e[..|x|], x);
      Out(enc, mode, s, x) == y && After(enc, mode, s, x) == Held(mode, iv, e, x, y)
    decreases |x|
  {
    if x == [] {
    } else {
      hide Out, After, Held, XorBytes, OutByte, NextChain;
      var k := |x| - 1;
      assert x == x[..k] + [x[k]];
      WithinBlock(enc, mode, iv, x[..k]);
      Snoc(enc, mode, Chain(iv, 0), x[..k], x[k]);
      NextByte(enc, mode, iv, x[..k], x[k]);
    }
  }

  lemma NextByte(enc: Bytes -> Bytes, mode: Mode, iv: Bytes, x: Bytes, z: bv8)
    requires BlockCipher(enc) && |iv| == BLOCK_LEN && |x| < BLOCK_LEN
    ensures var e := enc(iv); var y := XorBytes(e[..|x|], x); var t := Held(mode, iv, e, x, y);
      ChainOk(t) && XorBytes(e[..|x| + 1], x + [z]) == y + [OutByte(enc, t, z)]
      && NextChain(enc, mode, t, z) == Held(mode, iv, e, x + [z], XorBytes(e[..|x| + 1], x + [z]))
  {
    hide Mix, XorBytes, Fed, Kept, Held;
    var e, k := enc(iv), |x|;
    var y := XorBytes(e[..k], x);
    var o := Mix(e[k], z);
    HeldKey(enc, mode, iv, x, y);
    XorSnoc(e, x, z);
    FedSnoc(mode, x, y, e, z, o);
    HeldNext(mode, iv, e, x + [z], y + [o]);
    Updated(Fed(mode, x, y, e[..k]), e[k..], Kept(mode, z, o, e[k]));
  }

  /** The key stream of the bytes to come stands in the chaining block, once it is encrypted. */
  lemma HeldKey(enc: Bytes -> Bytes, mode: Mode, iv: Bytes, x: Bytes, y: Bytes)
    requires BlockCipher(enc) && |iv| == BLOCK_LEN && |x| == |y| < BLOCK_LEN
    ensures var e := enc(iv); var t := Held(mode, iv, e, x, y); var fed := Fed(mode, x, y, e[..|x|]);
      ChainOk(t) && t.pos == |x| == |fed| && Prepared(enc, t) == Chain(fed + e[|x|..], |x|)
  {
  }

  lemma HeldNext(mode: Mode, iv: Bytes, e: Bytes, x: Bytes, y: Bytes)
    requires |x| == |y| <= |e| == BLOCK_LEN && x != []
    ensures Held(mode, iv, e, x, y) == Chain(Fed(mode, x, y, e[..|x|]) + e[|x|..], |x| % BLOCK_LEN)
  {
  }

  lemma XorSnoc(e: Bytes, x: Bytes, z: bv8)
    requires |x| < |e|
    ensures XorBytes(e[..|x| + 1], x + [z]) == XorBytes(e[..|x|], x) + [Mix(e[|x|], z)]
  {
    hide Mix;
  }

  lemma FedSnoc(mode: Mode, x: Bytes, y: Bytes, e: Bytes, z: bv8, o: bv8)
    requires |x| == |y| < |e|
    ensures Fed(mode, x + [z], y + [o], e[..|x| + 1]) == Fed(mode, x, y, e[..|x|]) + [Kept(mode, z, o, e[|x|])]
    ensures |Fed(mode, x, y, e[..|x|])| == |x|
  {
  }

  lemma Updated(a: Bytes, b: Bytes, v: bv8)
    requires b != []
    ensures (a + b)[|a|] == b[0] && (a + b)[|a| := v] == (a + [v]) + b[1..]
  {
  }

  /** From a block boundary on, `n` bytes of output depend on the chaining block `b` there and on the message. */
  lemma OneBlock(enc: Bytes -> Bytes, mode: Mode, s: Chain, m: Bytes, at: nat, n: nat, b: Bytes)
    requires BlockCipher(enc) && ChainOk(s) && |b| == BLOCK_LEN && n <= BLOCK_LEN && at + n <= |m|
    requires After(enc, mode, s, m[..at]) == Chain(b, 0)
    ensures var y, e := Out(enc, mode, s, m), enc(b);
      && y[at..at + n] == XorBytes(e[..n], m[at..at + n])
      && After(enc, mode, s, m[..at + n]) == Held(mode, b, e, m[at..at + n], y[at..at + n])
  {
    hide Out, After, Held, XorBytes, BlockCipher;
    var x, e := m[at..at + n], enc(b);
    assert |e| == BLOCK_LEN by { NoneLeft(enc, b, x); }
    WithinBlock(enc, mode, b, x);
    assert m[..at + n] == m[..at] + x && m == m[..at + n] + m[at + n..];
    Chunks(enc, mode, s, m[..at], x);
    Chunks(enc, mode, s, m[..at + n], m[at + n..]);
    Middle(Out(enc, mode, s, m[..at]), XorBytes(e[..n], x),
      Out(enc, mode, After(enc, mode, s, m[..at + n]), m[at + n..]));
  }

  lemma Middle(a: Bytes, b: Bytes, c: Bytes)
    ensures (a + b + c)[|a|..|a| + |b|] == b
  {
  }

  lemma NothingYet(enc: Bytes -> Bytes, mode: Mode, s: Chain)
    requires BlockCipher(enc) && ChainOk(s)
    ensures After(enc, mode, s, []) == s
  {
  }

  /** After a whole block the ciphertext, written or read, is the chaining block. */
  lemma CfbStep(enc: Bytes -> Bytes, mode: Mode, iv: Bytes, m: Bytes, at: nat, b: Bytes)
    requires BlockCipher(enc) && mode != Ofb && |iv| == |b| == BLOCK_LEN && at + 16 <= |m|
    requires After(enc, mode, Chain(iv, 0), m[..at]) == Chain(b, 0)
    ensures After(enc, mode, Chain(iv, 0), m[..at + 16])
      == Chain(if mode == CfbEncrypt then Out(enc, mode, Chain(iv, 0), m)[at..at + 16] else m[at..at + 16], 0)
  {
    hide Out, After, XorBytes;
    OneBlock(enc, mode, Chain(iv, 0), m, at, 16, b);
    NoneLeft(enc, b, Out(enc, mode, Chain(iv, 0), m)[at..at + 16]);
    NoneLeft(enc, b, m[at..at + 16]);
  }

  /**
    CFB encryption (section 6.3): each block of ciphertext is the message xored
    with the encryption of the one before, the IV at first; the last one is
    what is left in the chaining block.
  */
  lemma {:induction false} CfbEncryptBlocks(enc: Bytes -> Bytes, iv: Bytes, m: Bytes, j: nat, n: nat)
    requires BlockCipher(enc) && |iv| == BLOCK_LEN && n <= 16 && 16 * j + n <= |m|
    ensures var y := Out(enc, CfbEncrypt, Chain(iv, 0), m);
      var before := if j == 0 then iv else y[16 * j - 16..16 * j];
      && y[16 * j..16 * j + n] == XorBytes(enc(before)[..n], m[16 * j..16 * j + n])
      && After(enc, CfbEncrypt, Chain(iv, 0), m[..16 * j]) == Chain(before, 0)
    decreases j
  {
    hide Out, After, Held, XorBytes, BlockCipher;
    var y := Out(enc, CfbEncrypt, Chain(iv, 0), m);
    var before := if j == 0 then iv else y[16 * j - 16..16 * j];
    if j == 0 {
      assert m[..0] == [];
      NothingYet(enc, CfbEncrypt, Chain(iv, 0));
    } else {
      CfbEncryptBlocks(enc, iv, m, j - 1, 16);
      CfbStep(enc, CfbEncrypt, iv, m, 16 * j - 16, if j == 1 then iv else y[16 * j - 32..16 * j - 16]);
    }
    NoneLeft(enc, before, []);
    OneBlock(enc, CfbEncrypt, Chain(iv, 0), m, 16 * j, n, before);
  }

  lemma NoneLeft(enc: Bytes -> Bytes, b: Bytes, x: Bytes)
    requires BlockCipher(enc) && |b| == BLOCK_LEN
    ensures |enc(b)| == BLOCK_LEN && x + enc(b)[16..] == x && enc(b)[..16] == enc(b)
  {
  }

  /** CFB decryption: each block of the message is the ciphertext xored with the encryption of the block before. */
  lemma {:induction false} CfbDecryptBlocks(enc: Bytes -> Bytes, iv: Bytes, c: Bytes, j: nat, n: nat)
    requires BlockCipher(enc) && |iv| == BLOCK_LEN && n <= 16 && 16 * j + n <= |c|
    ensures var before := if j == 0 then iv else c[16 * j - 16..16 * j];
      && Out(enc, CfbDecrypt, Chain(iv, 0), c)[16 * j..16 * j + n]
        == XorBytes(enc(before)[..n], c[16 * j..16 * j + n])
      && After(enc, CfbDecrypt, Chain(iv, 0), c[..16 * j]) == Chain(before, 0)
    decreases j
  {
    hide Out, After, Held, XorBytes, BlockCipher;
    var before := if j == 0 then iv else c[16 * j - 16..16 * j];
    if j == 0 {
      assert c[..0] == [];
      NothingYet(enc, CfbDecrypt, Chain(iv, 0));
    } else {
      CfbDecryptBlocks(enc, iv, c, j - 1, 16);
      CfbStep(enc, CfbDecrypt, iv, c, 16 * j - 16, if j == 1 then iv else c[16 * j - 32..16 * j - 16]);
    }
    NoneLeft(enc, before, []);
    OneBlock(enc, CfbDecrypt, Chain(iv, 0), c, 16 * j, n, before);
  }

  /** OFB (section 6.4): the key stream is the IV encrypted again and again, whatever the message. */
  lemma {:induction false} OfbBlocks(enc: Bytes -> Bytes, iv: Bytes, m: Bytes, o: seq<Bytes>, j: nat, n: nat)
    requires BlockCipher(enc) && |iv| == BLOCK_LEN && n <= 16 && 16 * j + n <= |m|
    requires |o| > j && o[0] == iv && forall i :: 0 < i <= j ==> o[i] == enc(o[i - 1])
    ensures |o[j]| == |enc(o[j])| == BLOCK_LEN
    ensures Out(enc, Ofb, Chain(iv, 0), m)[16 * j..16 * j + n] == XorBytes(enc(o[j])[..n], m[16 * j..16 * j + n])
    ensures After(enc, Ofb, Chain(iv, 0), m[..16 * j]) == Chain(o[j], 0)
    decreases j
  {
    hide Out, After, XorBytes, BlockCipher, Held;
    if j == 0 {
      assert m[..0] == [];
      NothingYet(enc, Ofb, Chain(iv, 0));
    } else {
      OfbBlocks(enc, iv, m, o, j - 1, 16);
      OfbStep(enc, iv, m, 16 * j - 16, o[j - 1]);
    }
    NoneLeft(enc, o[j], []);
    OneBlock(enc, Ofb, Chain(iv, 0), m, 16 * j, n, o[j]);
  }

  lemma OfbStep(enc: Bytes -> Bytes, iv: Bytes, m: Bytes, at: nat, b: Bytes)
    requires BlockCipher(enc) && |iv| == |b| == BLOCK_LEN && at + 16 <= |m|
    requires After(enc, Ofb, Chain(iv, 0), m[..at]) == Chain(b, 0)
    ensures After(enc, Ofb, Chain(iv, 0), m[..at + 16]) == Chain(enc(b), 0) && |enc(b)| == BLOCK_LEN
  {
    hide Out, After, XorBytes;
    OneBlock(enc, Ofb, Chain(iv, 0), m, at, 16, b);
    NoneLeft(enc, b, enc(b));
  }

  // ---------- CTR ----------

  /** The counters of section 6.5, one after the other. */
  lemma {:induction false} CountersAre(inc: Bytes -> Bytes, c: Bytes, ctr: seq<Bytes>, j: nat)
    requires Increment(inc) && |c| == BLOCK_LEN && j < |ctr|
    requires ctr[0] == c && forall i :: 0 < i <= j ==> ctr[i] == inc(ctr[i - 1])
    ensures CounterAt(inc, c, j) == ctr[j]
    decreases j
  {
    if j == 0 {
    } else {
      CountersAre(inc, c, ctr, j - 1);
    }
  }

  /** Each block is xored with the encryption of its counter, and the counter left is that of the next byte. */
  lemma CtrBlocks(enc: Bytes -> Bytes, inc: Bytes -> Bytes, c: Bytes, m: Bytes, ctr: seq<Bytes>, j: nat, n: nat)
    requires BlockCipher(enc) && Increment(inc) && |c| == BLOCK_LEN && n <= 16 && 16 * j + n <= |m| && j < |ctr|
    requires ctr[0] == c && forall i :: 0 < i <= j ==> ctr[i] == inc(ctr[i - 1])
    ensures |ctr[j]| == |enc(ctr[j])| == BLOCK_LEN
    ensures CtrOut(enc, inc, Counter(c, 0), m)[16 * j..16 * j + n]
      == XorBytes(enc(ctr[j])[..n], m[16 * j..16 * j + n])
    ensures n < 16 ==> CtrAfter(inc, Counter(c, 0), 16 * j + n) == Counter(ctr[j], n)
  {
    hide Mix, KeyByte, CounterAt, CtrAfter;
    CountersAre(inc, c, ctr, j);
    var y := CtrOut(enc, inc, Counter(c, 0), m)[16 * j..16 * j + n];
    var x := XorBytes(enc(ctr[j])[..n], m[16 * j..16 * j + n]);
    forall k | 0 <= k < n
      ensures y[k] == x[k]
    {
      KeyOfBlock(enc, inc, c, j, k);
      assert y[k] == Mix(KeyByte(enc, inc, c, 16 * j + k), m[16 * j + k]);
    }
    if n < 16 {
      LeftInBlock(inc, c, j, n);
    }
  }

  lemma KeyOfBlock(enc: Bytes -> Bytes, inc: Bytes -> Bytes, c: Bytes, j: nat, k: nat)
    requires BlockCipher(enc) && Increment(inc) && |c| == BLOCK_LEN && k < 16
    ensures KeyByte(enc, inc, c, 16 * j + k) == enc(CounterAt(inc, c, j))[k]
  {
    hide CounterAt;
    Bits.Split(j, 16, k);
  }

  lemma LeftInBlock(inc: Bytes -> Bytes, c: Bytes, j: nat, n: nat)
    requires Increment(inc) && |c| == BLOCK_LEN && n < 16
    ensures CtrAfter(inc, Counter(c, 0), 16 * j + n) == Counter(CounterAt(inc, c, j), n)
  {
    hide CounterAt, CtrAfter;
    FromZero(inc, c, 16 * j + n);
    Bits.Split(j, 16, n);
  }
}
