/**
  `encfile` and `decfile` (guests/trusted/src/aescbc.c): cipher block chaining
  with ciphertext stealing, through three block buffers that rotate, over any
  block permutation.
*/
module AesCbc {
  import opened AesBytes
  import AesCipher
  import AesRounds
  import AesKeys
  import AesDecKeys

  datatype Permutation = Permutation(enc: Bytes -> Bytes, dec: Bytes -> Bytes)

  /** `enc` and `dec` work on blocks, and `dec` undoes `enc`. */
  ghost predicate Inverse(p: Permutation)
  {
    forall b :: |b| == BLOCK_LEN ==> |p.enc(b)| == BLOCK_LEN && |p.dec(b)| == BLOCK_LEN && p.dec(p.enc(b)) == b
  }

  lemma XorTwice(a: Bytes, b: Bytes)
    requires |a| == |b|
    ensures XorBytes(XorBytes(a, b), b) == a && XorBytes(XorBytes(b, a), b) == a
    ensures XorBytes(a, b) == XorBytes(b, a)
  {
    assert forall i :: 0 <= i < |a| ==> XorBytes(a, b)[i] == XorBytes(b, a)[i];
    assert forall i :: 0 <= i < |a| ==> XorBytes(XorBytes(a, b), b)[i] == a[i];
    assert forall i :: 0 <= i < |a| ==> XorBytes(XorBytes(b, a), b)[i] == a[i];
  }

  // ---------- what is written ----------

  /** The ciphertext of `m`, of a block or more, after the ciphertext block `c`. */
  ghost function Chain(p: Permutation, c: Bytes, m: Bytes): (r: Bytes)
    requires Inverse(p) && |c| == BLOCK_LEN && |m| >= BLOCK_LEN
    ensures |r| == |m|
    decreases |m|
  {
    var e := p.enc(XorBytes(c, m[..16]));
    if |m| == 16 then e
    else if |m| < 32 then
      var len := |m| - 16;
      p.enc(XorBytes(m[16..], e[..len]) + e[len..]) + e[..len]
    else e + Chain(p, e, m[16..])
  }

  ghost function Encrypted(p: Permutation, iv: Bytes, m: Bytes): (r: Bytes)
    requires Inverse(p) && |iv| == BLOCK_LEN
    ensures |r| == |m| + BLOCK_LEN
  {
    if |m| < 16 then iv[..|m|] + p.enc(iv[|m|..] + XorBytes(m, iv[..|m|]))
    else iv + Chain(p, iv, m)
  }

  ghost function Unchain(p: Permutation, c: Bytes, y: Bytes): (r: Bytes)
    requires Inverse(p) && |c| == BLOCK_LEN && |y| >= BLOCK_LEN
    ensures |r| == |y|
    decreases |y|
  {
    var d := p.dec(y[..16]);
    if |y| == 16 then XorBytes(d, c)
    else if |y| < 32 then
      var len := |y| - 16;
      XorBytes(p.dec(y[16..] + d[len..]), c) + XorBytes(d[..len], y[16..])
    else XorBytes(d, c) + Unchain(p, y[..16], y[16..])
  }

  /** What is recovered from `y`, the encryption of a message of `|y| - 16` bytes. */
  ghost function Decrypted(p: Permutation, y: Bytes): (r: Bytes)
    requires Inverse(p) && |y| >= BLOCK_LEN
    ensures |r| == |y| - BLOCK_LEN
  {
    var n := |y| - 16;
    if n < 16 then XorBytes(y[..n], p.dec(y[n..])[16 - n..])
    else Unchain(p, y[..16], y[16..])
  }

  // ---------- decryption recovers the message ----------

  lemma {:induction false} UnchainChain(p: Permutation, c: Bytes, m: Bytes)
    requires Inverse(p) && |c| == BLOCK_LEN && |m| >= BLOCK_LEN
    ensures Unchain(p, c, Chain(p, c, m)) == m
    decreases |m|
  {
    var x := XorBytes(c, m[..16]);
    var e := p.enc(x);
    XorTwice(m[..16], c);
    if |m| == 16 {
      assert m[..16] == m;
      assert Chain(p, c, m)[..16] == e;
    } else if |m| < 32 {
      StolenUndone(p, c, m);
    } else {
      var rest := Chain(p, e, m[16..]);
      var y := e + rest;
      assert y[..16] == e && y[16..] == rest;
      UnchainChain(p, e, m[16..]);
      assert m == m[..16] + m[16..];
    }
  }

  /** The last two blocks, when the final one is partial. */
  lemma StolenUndone(p: Permutation, c: Bytes, m: Bytes)
    requires Inverse(p) && |c| == BLOCK_LEN && 16 < |m| < 32
    ensures Unchain(p, c, Chain(p, c, m)) == m
  {
    hide Chain, Unchain, XorBytes;
    var e := p.enc(XorBytes(c, m[..16]));
    var len := |m| - 16;
    var last := m[16..];
    var mixed := XorBytes(last, e[..len]) + e[len..];
    var first := p.enc(mixed);
    ChainStep(p, c, m, e);
    var y := first + e[..len];
    assert y[..16] == first && y[16..] == e[..len];
    UnchainStep(p, c, y, mixed);
    StealBack(last, e, len);
    XorTwice(m[..16], c);
    assert m == m[..16] + last;
  }

  lemma StealBack(last: Bytes, e: Bytes, len: nat)
    requires |e| == 16 && len <= 16 && |last| == len
    ensures var d := XorBytes(last, e[..len]) + e[len..];
      && |d| == 16 && e[..len] + d[len..] == e && XorBytes(d[..len], e[..len]) == last
  {
    hide XorBytes;
    XorTwice(last, e[..len]);
    var d := XorBytes(last, e[..len]) + e[len..];
    assert d[..len] == XorBytes(last, e[..len]) && d[len..] == e[len..];
  }

  /** Every message, of any length, every IV, every invertible block function. */
  lemma DecryptedEncrypted(p: Permutation, iv: Bytes, m: Bytes)
    requires Inverse(p) && |iv| == BLOCK_LEN
    ensures Decrypted(p, Encrypted(p, iv, m)) == m
  {
    var y := Encrypted(p, iv, m);
    if |m| < 16 {
      var n := |m|;
      var x := iv[n..] + XorBytes(m, iv[..n]);
      assert y[..n] == iv[..n] && y[n..] == p.enc(x);
      assert p.dec(y[n..])[16 - n..] == XorBytes(m, iv[..n]);
      XorTwice(m, iv[..n]);
      XorTwice(iv[..n], XorBytes(m, iv[..n]));
    } else {
      assert y[..16] == iv && y[16..] == Chain(p, iv, m);
      UnchainChain(p, iv, m);
    }
  }

  // ---------- the buffers ----------

  /** Sixteen bytes of the working buffer. */
  function Slot(buf: Bytes, at: nat): (r: Bytes)
    requires at + 16 <= |buf|
    ensures |r| == 16
  {
    buf[at..at + 16]
  }

  predicate Apart(at: int, b: int)
  {
    b + 16 <= at || at + 16 <= b
  }

  /** Only the slot at `at` changed. */
  ghost predicate OnlySlot(before: Bytes, after: Bytes, at: nat)
  {
    && |after| == |before|
    && forall b: nat :: b + 16 <= |before| && Apart(at, b) ==> Slot(after, b) == Slot(before, b)
  }

  /** aes_encrypt or aes_decrypt of a slot, in place. */
  method ApplyBlock(f: Bytes -> Bytes, buf: array<bv8>, at: nat)
    requires at + 16 <= buf.Length && |f(Slot(buf[..], at))| == BLOCK_LEN
    modifies buf
    ensures Slot(buf[..], at) == f(old(Slot(buf[..], at))) && OnlySlot(old(buf[..]), buf[..], at)
    ensures forall j :: 0 <= j < buf.Length && !(at <= j < at + 16) ==> buf[j] == old(buf[j])
  {
    var out := f(buf[at..at + 16]);
    forall i | 0 <= i < 16 { buf[at + i] := out[i]; }
  }

  /** The first `n` bytes of the block at `dst` are xored with those of the block at `src`. */
  method XorInto(buf: array<bv8>, dst: nat, src: nat, n: nat)
    requires dst + 16 <= buf.Length && src + 16 <= buf.Length && Apart(dst, src) && n <= 16
    modifies buf
    ensures var d, s := old(Slot(buf[..], dst)), old(Slot(buf[..], src));
      Slot(buf[..], dst) == XorBytes(d[..n], s[..n]) + d[n..]
    ensures OnlySlot(old(buf[..]), buf[..], dst)
    ensures forall j :: 0 <= j < buf.Length && !(dst <= j < dst + n) ==> buf[j] == old(buf[j])
  {
    for i := 0 to n
      invariant forall j :: 0 <= j < buf.Length ==>
        buf[j] == if dst <= j < dst + i then old(buf[j]) ^ old(buf[j - dst + src]) else old(buf[j])
    {
      buf[dst + i] := buf[dst + i] ^ buf[src + i];
    }
    ghost var d, s := old(Slot(buf[..], dst)), old(Slot(buf[..], src));
    forall i | 0 <= i < 16
      ensures Slot(buf[..], dst)[i] == (XorBytes(d[..n], s[..n]) + d[n..])[i]
    {
      if i < n {
        assert d[i] == old(buf[dst + i]) && s[i] == old(buf[dst + i - dst + src]);
      }
    }
  }

  /** The bytes of the block at `dst` from `n` on are taken over from `from`. */
  method CopyTail(buf: array<bv8>, dst: nat, from: Bytes, n: nat)
    requires dst + 16 <= buf.Length && |from| == 16 && n <= 16
    modifies buf
    ensures Slot(buf[..], dst) == old(Slot(buf[..], dst))[..n] + from[n..]
    ensures OnlySlot(old(buf[..]), buf[..], dst)
  {
    forall i | n <= i < 16 { buf[dst + i] := from[i]; }
  }

  /** memcpy into the working buffer: up to a block at `at`. */
  method Read(buf: array<bv8>, at: nat, data: Bytes)
    requires at + 16 <= buf.Length && |data| <= 16
    modifies buf
    ensures Slot(buf[..], at) == data + old(Slot(buf[..], at))[|data|..]
    ensures |data| == 16 ==> Slot(buf[..], at) == data
    ensures OnlySlot(old(buf[..]), buf[..], at)
  {
    forall i | 0 <= i < |data| { buf[at + i] := data[i]; }
    ghost var was := old(Slot(buf[..], at));
    assert forall i :: 0 <= i < 16 ==> Slot(buf[..], at)[i] == (data + was[|data|..])[i];
  }

  /** memcpy to the output: what was written before stays. */
  method Write(dst: array<bv8>, at: nat, data: Bytes)
    requires at + |data| <= dst.Length
    modifies dst
    ensures dst[..at + |data|] == old(dst[..at]) + data
    ensures dst[at + |data|..] == old(dst[at + |data|..])
  {
    forall i | 0 <= i < |data| { dst[at + i] := data[i]; }
  }

  // ---------- encfile ----------

  /** The block that starts `len` bytes into the first slot. */
  lemma Straddling(buf: Bytes, len: nat)
    requires |buf| == 48 && len < 16
    ensures Slot(buf, len) == Slot(buf, 0)[len..] + Slot(buf, 16)[..len]
    ensures buf[..len + 16] == buf[..len] + Slot(buf, len) && buf[..len] == Slot(buf, 0)[..len]
  {
  }

  /** The IV and the short message, xored with the IV, of which the last block is then encrypted. */
  method ShortBlock(ghost p: Permutation, enc: Bytes -> Bytes, iv: Bytes, message: Bytes) returns (dbuf: array<bv8>)
    requires Inverse(p) && enc == p.enc && |iv| == BLOCK_LEN && |message| < BLOCK_LEN
    ensures fresh(dbuf) && dbuf.Length == 48
    ensures dbuf[..|message|] == iv[..|message|]
    ensures Slot(dbuf[..], |message|) == p.enc(iv[|message|..] + XorBytes(message, iv[..|message|]))
  {
    hide XorBytes;
    var len := |message|;
    dbuf := new bv8[48];
    Read(dbuf, 0, iv);
    Read(dbuf, 16, message);
    assert Slot(dbuf[..], 0) == iv && Slot(dbuf[..], 16)[..len] == message;
    XorInto(dbuf, 16, 0, len);
    Straddling(dbuf[..], len);
    ghost var before := dbuf[..];
    assert Slot(before, len) == iv[len..] + XorBytes(message, iv[..len]);
    ApplyBlock(enc, dbuf, len);
    assert dbuf[..len] == before[..len];
  }

  method EncShort(ghost p: Permutation, enc: Bytes -> Bytes, iv: Bytes, message: Bytes, encrypted: array<bv8>)
    requires Inverse(p) && enc == p.enc && |iv| == BLOCK_LEN && |message| < BLOCK_LEN
    requires encrypted.Length >= |message| + BLOCK_LEN
    modifies encrypted
    ensures encrypted[..|message| + BLOCK_LEN] == Encrypted(p, iv, message)
  {
    hide XorBytes, Slot;
    var dbuf := ShortBlock(p, enc, iv, message);
    Straddling(dbuf[..], |message|);
    Write(encrypted, 0, dbuf[..|message| + 16]);
  }

  /** One pass of the loop: what the rest of the chain is once the current block is encrypted to `e`. */
  lemma ChainStep(p: Permutation, c: Bytes, m: Bytes, e: Bytes)
    requires Inverse(p) && |c| == BLOCK_LEN && |m| >= BLOCK_LEN && e == p.enc(XorBytes(c, m[..16]))
    ensures |m| == 16 ==> Chain(p, c, m) == e
    ensures 16 < |m| < 32 ==>
      Chain(p, c, m) == p.enc(XorBytes(m[16..], e[..|m| - 16]) + e[|m| - 16..]) + e[..|m| - 16]
    ensures |m| >= 32 ==> Chain(p, c, m) == e + Chain(p, e, m[16..])
  {
  }

  function GetSlot(buf: array<bv8>, at: nat): Bytes
    requires at + 16 <= buf.Length
    reads buf
  {
    Slot(buf[..], at)
  }

  /** The block at `b1` is xored with that at `b2` and encrypted. */
  method ChainBlock(ghost p: Permutation, enc: Bytes -> Bytes, dbuf: array<bv8>, b1: nat, b2: nat, ghost c: Bytes,
      ghost x: Bytes)
    requires Inverse(p) && enc == p.enc && dbuf.Length == 48
    requires b1 + 16 <= 48 && b2 + 16 <= 48 && Apart(b1, b2) && |c| == 16 && |x| == 16
    requires XorBytes(Slot(dbuf[..], b1), Slot(dbuf[..], b2)) == XorBytes(c, x)
    modifies dbuf
    ensures Slot(dbuf[..], b1) == p.enc(XorBytes(c, x)) && OnlySlot(old(dbuf[..]), dbuf[..], b1)
  {
    hide XorBytes, Slot;
    ghost var s1, s2 := Slot(dbuf[..], b1), Slot(dbuf[..], b2);
    XorInto(dbuf, b1, b2, 16);
    FullXor(s1, s2, Slot(dbuf[..], b1));
    ApplyBlock(enc, dbuf, b1);
  }

  /** The stolen tail of the ciphertext block in b1 completes the partial block in b3, which is then encrypted. */
  method Steal(ghost p: Permutation, enc: Bytes -> Bytes, dbuf: array<bv8>, b1: nat, b3: nat, len: nat,
      ghost last: Bytes)
    requires Inverse(p) && enc == p.enc && dbuf.Length == 48
    requires b1 + 16 <= 48 && b3 + 16 <= 48 && Apart(b3, b1) && 0 < len < 16 && |last| == len
    requires Slot(dbuf[..], b3)[..len] == last
    modifies dbuf
    ensures var e := old(Slot(dbuf[..], b1));
      Slot(dbuf[..], b3) == p.enc(XorBytes(last, e[..len]) + e[len..])
    ensures OnlySlot(old(dbuf[..]), dbuf[..], b3)
  {
    hide XorBytes, Slot;
    ghost var e := Slot(dbuf[..], b1);
    XorInto(dbuf, b3, b1, len);
    CopyTail(dbuf, b3, GetSlot(dbuf, b1), len);
    assert Slot(dbuf[..], b3) == XorBytes(last, e[..len]) + e[len..];
    ApplyBlock(enc, dbuf, b3);
  }

  lemma FullXor(c: Bytes, x: Bytes, r: Bytes)
    requires |c| == 16 && |x| == 16 && r == XorBytes(c[..16], x[..16]) + c[16..]
    ensures r == XorBytes(c, x)
  {
    assert c[..16] == c && x[..16] == x;
  }

  lemma Appended(a: Bytes, e: Bytes, rest: Bytes, all: Bytes)
    requires a + (e + rest) == all
    ensures (a + e) + rest == all
  {
    assert (a + e) + rest == a + (e + rest);
  }

  /** The last block is partial: the two ciphertext blocks left are written in the stolen order. */
  method EncSteal(ghost p: Permutation, enc: Bytes -> Bytes, dbuf: array<bv8>, b1: nat, b3: nat,
      ghost last: Bytes, len: nat, encrypted: array<bv8>, writePtr: nat, ghost goal: Bytes)
    requires Inverse(p) && enc == p.enc && dbuf.Length == 48 && dbuf != encrypted
    requires b1 + 16 <= 48 && b3 + 16 <= 48 && Apart(b3, b1) && 0 < len < 16 && |last| == len
    requires Slot(dbuf[..], b3)[..len] == last && writePtr + 16 + len <= encrypted.Length
    requires var e := Slot(dbuf[..], b1);
      encrypted[..writePtr] + (p.enc(XorBytes(last, e[..len]) + e[len..]) + e[..len]) == goal
    modifies dbuf, encrypted
    ensures encrypted[..writePtr + 16 + len] == goal
  {
    hide XorBytes, Slot;
    ghost var e := Slot(dbuf[..], b1);
    ghost var done := encrypted[..writePtr];
    Steal(p, enc, dbuf, b1, b3, len, last);
    Write(encrypted, writePtr, GetSlot(dbuf, b3));
    Write(encrypted, writePtr + 16, GetSlot(dbuf, b1)[..len]);
    Appended(done, Slot(dbuf[..], b3), e[..len], goal);
  }

  /** The next block is read into b3, and the current one encrypted in b1. */
  method ReadAndChain(ghost p: Permutation, enc: Bytes -> Bytes, dbuf: array<bv8>, b1: nat, b2: nat, b3: nat,
      ghost c: Bytes, ghost x: Bytes, data: Bytes)
    requires Inverse(p) && enc == p.enc && dbuf.Length == 48 && |data| <= 16 && |c| == 16 && |x| == 16
    requires b1 + 16 <= 48 && b2 + 16 <= 48 && b3 + 16 <= 48 && Apart(b1, b2) && Apart(b3, b1) && Apart(b3, b2)
    requires XorBytes(Slot(dbuf[..], b1), Slot(dbuf[..], b2)) == XorBytes(c, x)
    modifies dbuf
    ensures Slot(dbuf[..], b1) == p.enc(XorBytes(c, x))
    ensures Slot(dbuf[..], b3)[..|data|] == data
  {
    hide XorBytes, Slot, Inverse;
    Read(dbuf, b3, data);
    ChainBlock(p, enc, dbuf, b1, b2, c, x);
  }

  method EncLong(ghost p: Permutation, enc: Bytes -> Bytes, iv: Bytes, message: Bytes, encrypted: array<bv8>)
    requires Inverse(p) && enc == p.enc && |iv| == BLOCK_LEN && |message| >= BLOCK_LEN
    requires encrypted.Length >= |message| + BLOCK_LEN
    modifies encrypted
    ensures encrypted[..|message| + BLOCK_LEN] == Encrypted(p, iv, message)
  {
    hide XorBytes, Chain, Slot, Inverse;
    var nbytes := |message|;
    var dbuf := new bv8[48];
    Read(dbuf, 0, iv);
    Read(dbuf, 16, message[..16]);
    var b1, b2, b3 := 0, 16, 32;
    Write(encrypted, 0, iv);
    var readPtr, writePtr, len := 16, 16, 16;
    ghost var c, m := iv, message;
    ghost var goal := Encrypted(p, iv, message);
    assert encrypted[..16] == iv && Slot(dbuf[..], 0) == iv && Slot(dbuf[..], 16) == m[..16];
    // b1 and b2 hold, in either order, the previous ciphertext block and the current message block
    while true
      invariant b1 in {0, 16, 32} && b2 in {0, 16, 32} && b3 in {0, 16, 32} && b1 != b2 && b2 != b3 && b1 != b3
      invariant 16 <= readPtr <= nbytes && writePtr == readPtr && |c| == 16 && m == message[readPtr - 16..]
      invariant XorBytes(Slot(dbuf[..], b1), Slot(dbuf[..], b2)) == XorBytes(c, m[..16])
      invariant encrypted[..writePtr] + Chain(p, c, m) == goal
      decreases nbytes - readPtr
    {
      len := if BLOCK_LEN > nbytes - readPtr then nbytes - readPtr else BLOCK_LEN;
      assert message[readPtr..readPtr + len] == m[16..][..len];
      ReadAndChain(p, enc, dbuf, b1, b2, b3, c, m[..16], message[readPtr..readPtr + len]);
      ghost var e := Slot(dbuf[..], b1);
      ChainStep(p, c, m, e);
      if len != 0 && len != BLOCK_LEN {
        assert m[16..][..len] == m[16..];
        EncSteal(p, enc, dbuf, b1, b3, m[16..], len, encrypted, writePtr, goal);
        return;
      }
      ghost var done := encrypted[..writePtr];
      Write(encrypted, writePtr, GetSlot(dbuf, b1));
      writePtr := writePtr + 16;
      if len != BLOCK_LEN {
        return;
      }
      Appended(done, e, Chain(p, e, m[16..]), goal);
      c, m := e, m[16..];
      readPtr := readPtr + 16;
      assert Slot(dbuf[..], b3) == m[..16] && Slot(dbuf[..], b1) == c;
      XorTwice(c, m[..16]);
      b1, b2, b3 := b3, b1, b2;
    }
  }

  /** `encfile`: a message of any length, with the IV in front. */
  method EncFile(ghost p: Permutation, enc: Bytes -> Bytes, iv: Bytes, message: Bytes, encrypted: array<bv8>)
    requires Inverse(p) && enc == p.enc && |iv| == BLOCK_LEN
    requires encrypted.Length >= |message| + BLOCK_LEN
    modifies encrypted
    ensures encrypted[..|message| + BLOCK_LEN] == Encrypted(p, iv, message)
  {
    if |message| < BLOCK_LEN {
      EncShort(p, enc, iv, message, encrypted);
    } else {
      EncLong(p, enc, iv, message, encrypted);
    }
  }

  // ---------- decfile ----------

  // The first three slots of the working array are `dbuf`, the fourth is `buf`.
  const BUF: nat := 48

  lemma UnchainStep(p: Permutation, c: Bytes, y: Bytes, d: Bytes)
    requires Inverse(p) && |c| == BLOCK_LEN && |y| >= BLOCK_LEN && d == p.dec(y[..16])
    ensures |y| == 16 ==> Unchain(p, c, y) == XorBytes(d, c)
    ensures 16 < |y| < 32 ==>
      Unchain(p, c, y) == XorBytes(p.dec(y[16..] + d[|y| - 16..]), c) + XorBytes(d[..|y| - 16], y[16..])
    ensures |y| >= 32 ==> Unchain(p, c, y) == XorBytes(d, c) + Unchain(p, y[..16], y[16..])
  {
  }

  /** The short message and its last block, which is decrypted in place. */
  method ShortRead(ghost p: Permutation, dec: Bytes -> Bytes, encrypted: Bytes, len: nat) returns (dbuf: array<bv8>)
    requires Inverse(p) && dec == p.dec && |encrypted| == len + BLOCK_LEN && len < BLOCK_LEN
    ensures fresh(dbuf) && dbuf.Length == 48
    ensures Slot(dbuf[..], 0)[..len] == encrypted[..len]
    ensures Slot(dbuf[..], 16)[..len] == p.dec(encrypted[len..])[16 - len..]
  {
    dbuf := new bv8[48];
    Write(dbuf, 0, encrypted);
    assert dbuf[..len + 16] == encrypted;
    hide Slot;
    Straddling(dbuf[..], len);
    ghost var before := dbuf[..];
    assert before[..len] == encrypted[..len] && Slot(before, len) == encrypted[len..];
    ApplyBlock(dec, dbuf, len);
    assert dbuf[..len] == before[..len];
    Straddling(dbuf[..], len);
  }

  lemma ShortDecrypted(p: Permutation, y: Bytes)
    requires Inverse(p) && BLOCK_LEN <= |y| < 32
    ensures var n := |y| - 16;
      Decrypted(p, y) == XorBytes(y[..n], p.dec(y[n..])[16 - n..])
  {
  }

  method DecShort(ghost p: Permutation, dec: Bytes -> Bytes, encrypted: Bytes, nbytes: nat, decrypted: array<bv8>)
    requires Inverse(p) && dec == p.dec && |encrypted| == nbytes + BLOCK_LEN && nbytes < BLOCK_LEN
    requires decrypted.Length >= nbytes
    modifies decrypted
    ensures decrypted[..nbytes] == Decrypted(p, encrypted)
  {
    hide Slot, XorBytes, Inverse, OnlySlot;
    var len := nbytes;
    ShortDecrypted(p, encrypted);
    hide Decrypted;
    var dbuf := ShortRead(p, dec, encrypted, len);
    ghost var d, x := Slot(dbuf[..], 0), XorBytes(encrypted[..len], Slot(dbuf[..], 16)[..len]);
    XorInto(dbuf, 0, 16, len);
    Straddling(dbuf[..], len);
    assert Slot(dbuf[..], 0) == x + d[len..];
    assert dbuf[..len] == x;
    Write(decrypted, 0, dbuf[..len]);
  }

  /** The block at `b2` is decrypted into the fourth slot and itself kept. */
  method DecryptInto(ghost p: Permutation, dec: Bytes -> Bytes, dbuf: array<bv8>, b2: nat)
    requires Inverse(p) && dec == p.dec && dbuf.Length == 64 && b2 + 16 <= BUF
    modifies dbuf
    ensures Slot(dbuf[..], BUF) == p.dec(Slot(dbuf[..], b2)) && OnlySlot(old(dbuf[..]), dbuf[..], BUF)
  {
    hide Slot;
    Read(dbuf, BUF, dec(GetSlot(dbuf, b2)));
  }

  /** The last block is partial: the two plaintext blocks left come out of the stolen order. */
  method DecSteal(ghost p: Permutation, dec: Bytes -> Bytes, dbuf: array<bv8>, b1: nat, b3: nat,
      ghost last: Bytes, len: nat, decrypted: array<bv8>, writePtr: nat, ghost goal: Bytes)
    requires Inverse(p) && dec == p.dec && dbuf.Length == 64 && dbuf != decrypted
    requires b1 + 16 <= BUF && b3 + 16 <= BUF && Apart(b3, b1) && 0 < len < 16 && |last| == len
    requires Slot(dbuf[..], b3)[..len] == last && writePtr + 16 + len <= decrypted.Length
    requires var c, d := Slot(dbuf[..], b1), Slot(dbuf[..], BUF);
      decrypted[..writePtr] + (XorBytes(p.dec(last + d[len..]), c) + XorBytes(d[..len], last)) == goal
    modifies dbuf, decrypted
    ensures decrypted[..writePtr + 16 + len] == goal
  {
    hide XorBytes, Slot;
    ghost var c, d, done := Slot(dbuf[..], b1), Slot(dbuf[..], BUF), decrypted[..writePtr];
    XorInto(dbuf, BUF, b3, len);
    ghost var out := XorBytes(d[..len], last);
    assert Slot(dbuf[..], BUF) == out + d[len..] && Slot(dbuf[..], BUF)[len..] == d[len..];
    CopyTail(dbuf, b3, GetSlot(dbuf, BUF), len);
    assert Slot(dbuf[..], b3) == last + d[len..];
    ApplyBlock(dec, dbuf, b3);
    ghost var x := Slot(dbuf[..], b3);
    XorInto(dbuf, b3, b1, 16);
    FullXor(x, c, Slot(dbuf[..], b3));
    Write(decrypted, writePtr, GetSlot(dbuf, b3));
    assert GetSlot(dbuf, BUF)[..len] == out;
    Write(decrypted, writePtr + 16, GetSlot(dbuf, BUF)[..len]);
    Appended(done, XorBytes(x, c), out, goal);
  }

  /** The decrypted block is xored with the one at `b1` and written out; `rest` is still to come. */
  method Unmask(dbuf: array<bv8>, b1: nat, decrypted: array<bv8>, writePtr: nat, ghost rest: Bytes, ghost goal: Bytes)
    requires dbuf.Length == 64 && dbuf != decrypted && b1 + 16 <= BUF && writePtr + 16 <= decrypted.Length
    requires decrypted[..writePtr] + (XorBytes(Slot(dbuf[..], BUF), Slot(dbuf[..], b1)) + rest) == goal
    modifies dbuf, decrypted
    ensures decrypted[..writePtr + 16] + rest == goal
    ensures OnlySlot(old(dbuf[..]), dbuf[..], BUF)
  {
    hide XorBytes, Slot;
    ghost var d, c, done := Slot(dbuf[..], BUF), Slot(dbuf[..], b1), decrypted[..writePtr];
    XorInto(dbuf, BUF, b1, BLOCK_LEN);
    FullXor(d, c, Slot(dbuf[..], BUF));
    Write(decrypted, writePtr, GetSlot(dbuf, BUF));
    Appended(done, XorBytes(d, c), rest, goal);
  }

  lemma LongDecrypted(p: Permutation, y: Bytes)
    requires Inverse(p) && |y| >= 32
    ensures Decrypted(p, y) == Unchain(p, y[..16], y[16..])
  {
  }

  method DecLong(ghost p: Permutation, dec: Bytes -> Bytes, encrypted: Bytes, nbytes: nat, decrypted: array<bv8>)
    requires Inverse(p) && dec == p.dec && |encrypted| == nbytes + BLOCK_LEN && nbytes >= BLOCK_LEN
    requires decrypted.Length >= nbytes
    modifies decrypted
    ensures decrypted[..nbytes] == Decrypted(p, encrypted)
  {
    hide XorBytes, Unchain, Slot, Inverse;
    LongDecrypted(p, encrypted);
    hide Decrypted;
    var dbuf := new bv8[64];
    Read(dbuf, 0, encrypted[..16]);
    Read(dbuf, 16, encrypted[16..32]);
    var b1, b2, b3 := 0, 16, 32;
    var readPtr, writePtr, len := 32, 0, 16;
    ghost var c, y := encrypted[..16], encrypted[16..];
    ghost var goal := Decrypted(p, encrypted);
    assert Slot(dbuf[..], 0) == c && Slot(dbuf[..], 16) == y[..16];
    // b1 holds the previous ciphertext block and b2 the current one
    while true
      invariant b1 in {0, 16, 32} && b2 in {0, 16, 32} && b3 in {0, 16, 32} && b1 != b2 && b2 != b3 && b1 != b3
      invariant 32 <= readPtr <= nbytes + 16 && writePtr + 32 == readPtr && |c| == 16 && y == encrypted[readPtr - 16..]
      invariant Slot(dbuf[..], b1) == c && Slot(dbuf[..], b2) == y[..16]
      invariant decrypted[..writePtr] + Unchain(p, c, y) == goal
      decreases nbytes + 16 - readPtr
    {
      var nBytesLeft := nbytes - readPtr - BLOCK_LEN + BLOCK_LEN * 2;
      len := if nBytesLeft < BLOCK_LEN then nBytesLeft else BLOCK_LEN;
      assert encrypted[readPtr..readPtr + len] == y[16..][..len];
      Read(dbuf, b3, encrypted[readPtr..readPtr + len]);
      DecryptInto(p, dec, dbuf, b2);
      ghost var d := Slot(dbuf[..], BUF);
      UnchainStep(p, c, y, d);
      if len != 0 && len != BLOCK_LEN {
        assert y[16..][..len] == y[16..];
        DecSteal(p, dec, dbuf, b1, b3, y[16..], len, decrypted, writePtr, goal);
        return;
      }
      ghost var rest := if len == 0 then [] else Unchain(p, y[..16], y[16..]);
      Unmask(dbuf, b1, decrypted, writePtr, rest, goal);
      writePtr := writePtr + 16;
      if len != BLOCK_LEN {
        return;
      }
      c, y := y[..16], y[16..];
      readPtr := readPtr + 16;
      b1, b2, b3 := b2, b3, b1;
    }
  }

  /** `decfile`: `nbytes` is the length of the message to recover. */
  method DecFile(ghost p: Permutation, dec: Bytes -> Bytes, encrypted: Bytes, nbytes: nat, decrypted: array<bv8>)
    requires Inverse(p) && dec == p.dec && |encrypted| == nbytes + BLOCK_LEN
    requires decrypted.Length >= nbytes
    modifies decrypted
    ensures decrypted[..nbytes] == Decrypted(p, encrypted)
  {
    if nbytes < BLOCK_LEN {
      DecShort(p, dec, encrypted, nbytes, decrypted);
    } else {
      DecLong(p, dec, encrypted, nbytes, decrypted);
    }
  }

  // ---------- with AES ----------

  /** The cipher and its inverse as aescrypt.c computes them, under the two schedules that aeskey.c fills. */
  function Aes(sb: AesCipher.SBox, rounds: nat, eks: seq<bv32>, dks: seq<bv32>): Permutation
    requires rounds >= 1 && 4 * rounds + 4 <= |eks| && 4 * rounds + 4 <= |dks|
  {
    Permutation(
      b =>
        if |b| != 16 then b
        else AesRounds.ToBytes(
          AesCipher.Cipher(sb, AesRounds.RoundKeys(eks, rounds + 1), AesRounds.ToBlock(b))),
      b =>
        if |b| != 16 then b
        else AesRounds.ToBytes(
          AesCipher.EqInvCipher(sb, AesRounds.RoundKeys(dks, rounds + 1), AesRounds.ToBlock(b))))
  }

  /** The whole pipeline: key expansion, both ciphers, and a message of any length through encfile and decfile. */
  lemma AesMessageRecovered(sb: AesCipher.SBox, key: seq<bv32>, rounds: nat, eks: seq<bv32>, dks: seq<bv32>,
      iv: Bytes, m: Bytes)
    requires AesCipher.Bijective(sb) && |key| >= 4 && rounds >= 1 && |iv| == BLOCK_LEN
    requires AesKeys.Expanded(sb.fwd, key, eks, 4 * rounds + 4)
    requires AesKeys.Stored(sb.fwd, key, 4 * rounds, dks, 4 * rounds + 4)
    ensures var p := Aes(sb, rounds, eks, dks);
      Inverse(p) && Decrypted(p, Encrypted(p, iv, m)) == m
  {
    hide AesCipher.Cipher, AesCipher.EqInvCipher, AesRounds.ToBlock, AesRounds.ToBytes, AesRounds.RoundKeys;
    var p := Aes(sb, rounds, eks, dks);
    forall b: Bytes | |b| == BLOCK_LEN
      ensures |p.enc(b)| == BLOCK_LEN && |p.dec(b)| == BLOCK_LEN && p.dec(p.enc(b)) == b
    {
      AesDecKeys.AesDecryptsWhatItEncrypts(sb, key, rounds, eks, dks, b);
    }
    DecryptedEncrypted(p, iv, m);
  }
}
