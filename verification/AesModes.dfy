/**
  The stream modes of guests/trusted/src/aes/aes_modes.c (CFB, OFB and CTR of
  NIST SP 800-38A): each processes a message in partial and whole blocks and
  leaves off in the middle of a block, and each is here proved to compute what
  a machine that takes one byte at a time computes.
*/
module AesModes {
  import opened AesBytes

  const BFR_LENGTH: nat := 128

  ghost predicate BlockCipher(enc: Bytes -> Bytes)
  {
    forall b :: |b| == BLOCK_LEN ==> |enc(b)| == BLOCK_LEN
  }

  // ---------- CFB and OFB, a byte at a time ----------

  datatype Mode = CfbEncrypt | CfbDecrypt | Ofb

  /** The chaining block, and the place in it of the next byte; at place 0 the block is yet to be encrypted. */
  datatype Chain = Chain(iv: Bytes, pos: nat)

  ghost predicate ChainOk(s: Chain)
  {
    |s.iv| == BLOCK_LEN && s.pos < BLOCK_LEN
  }

  ghost function Prepared(enc: Bytes -> Bytes, s: Chain): Chain
  {
    if s.pos == 0 then Chain(enc(s.iv), 0) else s
  }

  /** The byte that takes the place of the one used: the ciphertext byte in CFB, the key stream itself in OFB. */
  function Kept(mode: Mode, input: bv8, output: bv8, key: bv8): bv8
  {
    match mode case CfbEncrypt => output case CfbDecrypt => input case Ofb => key
  }

  ghost function OutByte(enc: Bytes -> Bytes, s: Chain, x: bv8): bv8
    requires BlockCipher(enc) && ChainOk(s)
  {
    Mix(Prepared(enc, s).iv[s.pos], x)
  }

  ghost function NextChain(enc: Bytes -> Bytes, mode: Mode, s: Chain, x: bv8): (r: Chain)
    requires BlockCipher(enc) && ChainOk(s)
    ensures ChainOk(r)
  {
    var iv := Prepared(enc, s).iv;
    Chain(iv[s.pos := Kept(mode, x, Mix(iv[s.pos], x), iv[s.pos])], (s.pos + 1) % BLOCK_LEN)
  }

  ghost function After(enc: Bytes -> Bytes, mode: Mode, s: Chain, m: Bytes): (r: Chain)
    requires BlockCipher(enc) && ChainOk(s)
    ensures ChainOk(r)
  {
    if m == [] then s else NextChain(enc, mode, After(enc, mode, s, m[..|m| - 1]), m[|m| - 1])
  }

  ghost function Out(enc: Bytes -> Bytes, mode: Mode, s: Chain, m: Bytes): (r: Bytes)
    requires BlockCipher(enc) && ChainOk(s)
    ensures |r| == |m|
  {
    if m == [] then []
    else Out(enc, mode, s, m[..|m| - 1]) + [OutByte(enc, After(enc, mode, s, m[..|m| - 1]), m[|m| - 1])]
  }

  /** A message in two chunks gives what it gives in one: so it does in any number of chunks. */
  lemma {:induction false} Chunks(enc: Bytes -> Bytes, mode: Mode, s: Chain, a: Bytes, b: Bytes)
    requires BlockCipher(enc) && ChainOk(s)
    ensures After(enc, mode, s, a + b) == After(enc, mode, After(enc, mode, s, a), b)
    ensures Out(enc, mode, s, a + b) == Out(enc, mode, s, a) + Out(enc, mode, After(enc, mode, s, a), b)
    decreases |b|
  {
    if b == [] {
      assert a + b == a;
      hide NextChain, OutByte;
    } else {
      hide After, Out, BlockCipher, NextChain, OutByte;
      var c, x := b[..|b| - 1], b[|b| - 1];
      assert b == c + [x] && a + b == (a + c) + [x];
      Chunks(enc, mode, s, a, c);
      Snoc(enc, mode, s, a + c, x);
      Snoc(enc, mode, After(enc, mode, s, a), c, x);
    }
  }

  function Undoing(mode: Mode): Mode
  {
    match mode case CfbEncrypt => CfbDecrypt case CfbDecrypt => CfbEncrypt case Ofb => Ofb
  }

  /** From the same state, decryption undoes encryption and ends in the same state. */
  lemma {:induction false} Undone(enc: Bytes -> Bytes, mode: Mode, s: Chain, m: Bytes)
    requires BlockCipher(enc) && ChainOk(s)
    ensures var c := Out(enc, mode, s, m);
      && Out(enc, Undoing(mode), s, c) == m && After(enc, Undoing(mode), s, c) == After(enc, mode, s, m)
    decreases |m|
  {
    if m == [] {
    } else {
      hide After, Out, Mix, Prepared, BlockCipher;
      var n := |m| - 1;
      var x := m[n];
      assert m == m[..n] + [x];
      Undone(enc, mode, s, m[..n]);
      var t, c := After(enc, mode, s, m[..n]), Out(enc, mode, s, m[..n]);
      Snoc(enc, mode, s, m[..n], x);
      var o := OutByte(enc, t, x);
      Snoc(enc, Undoing(mode), s, c, o);
      StepUndone(enc, mode, t, x);
    }
  }

  lemma StepUndone(enc: Bytes -> Bytes, mode: Mode, t: Chain, x: bv8)
    requires BlockCipher(enc) && ChainOk(t)
    ensures var o := OutByte(enc, t, x);
      OutByte(enc, t, o) == x && NextChain(enc, Undoing(mode), t, o) == NextChain(enc, mode, t, x)
  {
    MixBack(Prepared(enc, t).iv[t.pos], x);
    hide Mix;
  }

  lemma Snoc(enc: Bytes -> Bytes, mode: Mode, s: Chain, m: Bytes, x: bv8)
    requires BlockCipher(enc) && ChainOk(s)
    ensures After(enc, mode, s, m + [x]) == NextChain(enc, mode, After(enc, mode, s, m), x)
    ensures Out(enc, mode, s, m + [x]) == Out(enc, mode, s, m) + [OutByte(enc, After(enc, mode, s, m), x)]
  {
    assert (m + [x])[..|m + [x]| - 1] == m;
    hide NextChain, OutByte;
  }

  lemma MixBack(k: bv8, x: bv8)
    ensures Mix(k, Mix(k, x)) == x
  {
  }

  // ---------- CFB and OFB, as written ----------

  /** `cnt` bytes of `m` are done and the block in `iv` has been encrypted, `b` bytes of it being used. */
  ghost predicate Inside(enc: Bytes -> Bytes, mode: Mode, s: Chain, m: Bytes, cnt: nat, out: Bytes, iv: Bytes, b: nat)
    requires BlockCipher(enc) && ChainOk(s)
  {
    && cnt <= |m| && b <= BLOCK_LEN && |iv| == BLOCK_LEN && out == Out(enc, mode, s, m[..cnt])
    && if b < BLOCK_LEN then Prepared(enc, After(enc, mode, s, m[..cnt])) == Chain(iv, b)
       else After(enc, mode, s, m[..cnt]) == Chain(iv, 0)
  }

  /** Between blocks, or where the last call left off. */
  ghost predicate Between(enc: Bytes -> Bytes, mode: Mode, s: Chain, m: Bytes, cnt: nat, out: Bytes, iv: Bytes, b: nat)
    requires BlockCipher(enc) && ChainOk(s)
  {
    cnt <= |m| && out == Out(enc, mode, s, m[..cnt]) && After(enc, mode, s, m[..cnt]) == Chain(iv, b)
  }

  lemma OneByte(enc: Bytes -> Bytes, mode: Mode, s: Chain, m: Bytes, cnt: nat, out: Bytes, iv: Bytes, b: nat)
    requires BlockCipher(enc) && ChainOk(s) && Inside(enc, mode, s, m, cnt, out, iv, b) && cnt < |m| && b < BLOCK_LEN
    ensures var o := Mix(iv[b], m[cnt]);
      Inside(enc, mode, s, m, cnt + 1, out + [o], iv[b := Kept(mode, m[cnt], o, iv[b])], b + 1)
  {
    assert m[..cnt + 1] == m[..cnt] + [m[cnt]];
    Snoc(enc, mode, s, m[..cnt], m[cnt]);
    StepInside(enc, mode, After(enc, mode, s, m[..cnt]), m[cnt], iv, b);
    hide After, Out, Mix, NextChain, OutByte, Prepared, BlockCipher;
  }

  lemma StepInside(enc: Bytes -> Bytes, mode: Mode, t: Chain, x: bv8, iv: Bytes, b: nat)
    requires BlockCipher(enc) && ChainOk(t) && b < BLOCK_LEN == |iv| && Prepared(enc, t) == Chain(iv, b)
    ensures OutByte(enc, t, x) == Mix(iv[b], x)
    ensures var n, after := NextChain(enc, mode, t, x), iv[b := Kept(mode, x, Mix(iv[b], x), iv[b])];
      if b + 1 < BLOCK_LEN then Prepared(enc, n) == Chain(after, b + 1) else n == Chain(after, 0)
  {
    hide Mix;
    assert t.pos == b;
  }

  /** A position at the end of the block is the start of the next. */
  function Wrapped(b: nat): nat
  {
    if b == BLOCK_LEN then 0 else b
  }

  /** One byte after the other, up to the end of the block or of the message. */
  method Bytewise(ghost enc: Bytes -> Bytes, mode: Mode, ghost s: Chain, m: Bytes, obuf: array<bv8>, iv: array<bv8>,
      cnt0: nat, b0: nat)
    returns (cnt: nat, b: nat)
    requires BlockCipher(enc) && ChainOk(s) && iv.Length == BLOCK_LEN && obuf.Length >= |m| && obuf != iv && cnt0 <= |m|
    requires Inside(enc, mode, s, m, cnt0, obuf[..cnt0], iv[..], b0)
    modifies obuf, iv
    ensures cnt <= |m| && b <= BLOCK_LEN && Inside(enc, mode, s, m, cnt, obuf[..cnt], iv[..], b)
    ensures cnt - cnt0 == b - b0 >= 0 && (b == BLOCK_LEN || cnt == |m|)
  {
    hide Inside;
    InsideBounds(enc, mode, s, m, cnt0, obuf[..cnt0], iv[..], b0);
    cnt, b := cnt0, b0;
    while b < BLOCK_LEN && cnt < |m|
      invariant cnt0 <= cnt <= |m| && b0 <= b <= BLOCK_LEN && cnt - cnt0 == b - b0
      invariant Inside(enc, mode, s, m, cnt, obuf[..cnt], iv[..], b)
      decreases |m| - cnt
    {
      OneByte(enc, mode, s, m, cnt, obuf[..cnt], iv[..], b);
      ghost var was, key := obuf[..cnt], iv[..];
      var o := Mix(iv[b], m[cnt]);
      iv[b] := Kept(mode, m[cnt], o, iv[b]);
      obuf[cnt] := o;
      assert obuf[..cnt + 1] == was + [o];
      assert iv[..] == key[b := Kept(mode, m[cnt], o, key[b])];
      b := b + 1;
      cnt := cnt + 1;
    }
  }

  lemma InsideBounds(enc: Bytes -> Bytes, mode: Mode, s: Chain, m: Bytes, cnt: nat, out: Bytes, iv: Bytes, b: nat)
    requires BlockCipher(enc) && ChainOk(s) && Inside(enc, mode, s, m, cnt, out, iv, b)
    ensures b <= BLOCK_LEN
  {
  }

  /** Once a byte of the block is used, a position at its end becomes the start of the next. */
  lemma LeaveBlock(enc: Bytes -> Bytes, mode: Mode, s: Chain, m: Bytes, cnt: nat, out: Bytes, iv: Bytes, b: nat)
    requires BlockCipher(enc) && ChainOk(s) && Inside(enc, mode, s, m, cnt, out, iv, b) && b > 0
    ensures Between(enc, mode, s, m, cnt, out, iv, Wrapped(b))
  {
  }

  lemma EnterBlock(enc: Bytes -> Bytes, mode: Mode, s: Chain, m: Bytes, cnt: nat, out: Bytes, iv: Bytes, b: nat)
    requires BlockCipher(enc) && ChainOk(s) && Between(enc, mode, s, m, cnt, out, iv, b)
    ensures b < BLOCK_LEN && |iv| == BLOCK_LEN && Inside(enc, mode, s, m, cnt, out, if b == 0 then enc(iv) else iv, b)
  {
  }

  /** The chaining block is encrypted in place. */
  method EncryptChain(ghost enc: Bytes -> Bytes, f: Bytes -> Bytes, iv: array<bv8>)
    requires BlockCipher(enc) && f == enc && iv.Length == BLOCK_LEN
    modifies iv
    ensures iv[..] == enc(old(iv[..]))
  {
    var e := f(iv[..]);
    forall i | 0 <= i < BLOCK_LEN { iv[i] := e[i]; }
  }

  /**
    The functions aes_cfb_encrypt, aes_cfb_decrypt and aes_ofb_crypt, which
    differ in the byte they keep.  `b0` is the saved position, which CTR on the
    same context can leave at 16, and `ready` whether a key was set (without
    one the encryption of a block fails).
  */
  method Crypt(enc: Bytes -> Bytes, mode: Mode, m: Bytes, obuf: array<bv8>, iv: array<bv8>, b0: nat, ready: bool)
    returns (ok: bool, b: nat)
    requires BlockCipher(enc) && iv.Length == BLOCK_LEN && b0 <= BLOCK_LEN && obuf.Length >= |m| && obuf != iv
    modifies obuf, iv
    ensures ok <==> ready || m == [] || (b0 > 0 && b0 + |m| <= BLOCK_LEN)
    ensures ok ==> var s := old(Chain(iv[..], Wrapped(b0)));
      obuf[..|m|] == Out(enc, mode, s, m) && Chain(iv[..], b) == After(enc, mode, s, m)
  {
    hide Inside, Between, BlockCipher;
    ghost var s := Chain(iv[..], Wrapped(b0));
    var len, cnt := |m|, 0;
    b := b0;
    NothingDone(enc, mode, s, m);
    if b != 0 {
      Resumed(enc, mode, iv[..], m, b);
      cnt, b := Bytewise(enc, mode, s, m, obuf, iv, cnt, b);
      LeaveBlock(enc, mode, s, m, cnt, obuf[..cnt], iv[..], b);
      b := Wrapped(b);
    }
    var nb := (len - cnt) / BLOCK_LEN;
    if nb != 0 {
      while cnt + BLOCK_LEN <= len
        invariant cnt <= len && b == 0 && (cnt + BLOCK_LEN > len ==> ready)
        invariant Between(enc, mode, s, m, cnt, obuf[..cnt], iv[..], b)
        decreases len - cnt
      {
        if !ready {
          return false, b;
        }
        EnterBlock(enc, mode, s, m, cnt, obuf[..cnt], iv[..], b);
        EncryptChain(enc, enc, iv);
        cnt, b := Bytewise(enc, mode, s, m, obuf, iv, cnt, b);
        LeaveBlock(enc, mode, s, m, cnt, obuf[..cnt], iv[..], b);
        b := 0;
      }
    }
    while cnt < len
      invariant cnt <= len && b < BLOCK_LEN && (cnt < len ==> b == 0)
      invariant Between(enc, mode, s, m, cnt, obuf[..cnt], iv[..], b)
      invariant ready || cnt == 0 || (b0 > 0 && cnt == (if b0 + len <= BLOCK_LEN then len else BLOCK_LEN - b0))
      decreases len - cnt
    {
      if b == 0 && !ready {
        return false, b;
      }
      EnterBlock(enc, mode, s, m, cnt, obuf[..cnt], iv[..], b);
      EncryptChain(enc, enc, iv);
      cnt, b := Bytewise(enc, mode, s, m, obuf, iv, cnt, b);
      LeaveBlock(enc, mode, s, m, cnt, obuf[..cnt], iv[..], b);
      b := Wrapped(b);
    }
    AllDone(enc, mode, s, m, obuf[..len], iv[..], b);
    return true, b;
  }

  /** The rest of a block, of which nothing may be left. */
  lemma Resumed(enc: Bytes -> Bytes, mode: Mode, iv: Bytes, m: Bytes, b: nat)
    requires BlockCipher(enc) && |iv| == BLOCK_LEN && 0 < b <= BLOCK_LEN
    ensures Inside(enc, mode, Chain(iv, Wrapped(b)), m, 0, [], iv, b)
  {
  }

  lemma NothingDone(enc: Bytes -> Bytes, mode: Mode, s: Chain, m: Bytes)
    requires BlockCipher(enc) && ChainOk(s)
    ensures Between(enc, mode, s, m, 0, [], s.iv, s.pos)
  {
  }

  lemma AllDone(enc: Bytes -> Bytes, mode: Mode, s: Chain, m: Bytes, out: Bytes, iv: Bytes, b: nat)
    requires BlockCipher(enc) && ChainOk(s) && Between(enc, mode, s, m, |m|, out, iv, b)
    ensures out == Out(enc, mode, s, m) && Chain(iv, b) == After(enc, mode, s, m)
  {
    assert m[..|m|] == m;
  }

  // ---------- CTR, a byte at a time ----------

  datatype Counter = Counter(block: Bytes, pos: nat)

  ghost predicate Increment(inc: Bytes -> Bytes)
  {
    forall b :: |b| == BLOCK_LEN ==> |inc(b)| == BLOCK_LEN
  }

  /** A saved position of 16 means what position 0 of the next counter means. */
  ghost function Normal(inc: Bytes -> Bytes, s: Counter): Counter
  {
    if s.pos == BLOCK_LEN then Counter(inc(s.block), 0) else s
  }

  /** The state `n` bytes on from the start of the block `c`. */
  ghost function CounterAt(inc: Bytes -> Bytes, c: Bytes, n: nat): (r: Bytes)
    requires Increment(inc) && |c| == BLOCK_LEN
    ensures |r| == BLOCK_LEN
  {
    if n == 0 then c else inc(CounterAt(inc, c, n - 1))
  }

  /** Byte `n` of the key stream that starts with the block `c`. */
  ghost function KeyByte(enc: Bytes -> Bytes, inc: Bytes -> Bytes, c: Bytes, n: nat): bv8
    requires BlockCipher(enc) && Increment(inc) && |c| == BLOCK_LEN
  {
    enc(CounterAt(inc, c, n / BLOCK_LEN))[n % BLOCK_LEN]
  }

  /** SP 800-38A section 6.5: the message xored with the key stream from the saved position on. */
  ghost function CtrOut(enc: Bytes -> Bytes, inc: Bytes -> Bytes, s: Counter, m: Bytes): (r: Bytes)
    requires BlockCipher(enc) && Increment(inc) && |s.block| == BLOCK_LEN
    ensures |r| == |m|
  {
    seq(|m|, i requires 0 <= i < |m| => Mix(KeyByte(enc, inc, s.block, s.pos + i), m[i]))
  }

  ghost function CtrAfter(inc: Bytes -> Bytes, s: Counter, n: nat): (r: Counter)
    requires Increment(inc) && |s.block| == BLOCK_LEN
    ensures |r.block| == BLOCK_LEN && r.pos < BLOCK_LEN
  {
    Counter(CounterAt(inc, s.block, (s.pos + n) / BLOCK_LEN), (s.pos + n) % BLOCK_LEN)
  }

  lemma {:induction false} CountersAdd(inc: Bytes -> Bytes, c: Bytes, i: nat, j: nat)
    requires Increment(inc) && |c| == BLOCK_LEN
    ensures CounterAt(inc, CounterAt(inc, c, i), j) == CounterAt(inc, c, i + j)
  {
    if j == 0 {
    } else {
      CountersAdd(inc, c, i, j - 1);
    }
  }

  lemma PlacesAdd(p: nat, n: nat)
    ensures (p % BLOCK_LEN + n) / BLOCK_LEN + p / BLOCK_LEN == (p + n) / BLOCK_LEN
      && (p % BLOCK_LEN + n) % BLOCK_LEN == (p + n) % BLOCK_LEN
  {
  }

  /** Position 16 of a counter block and position 0 of the next are the same state, for every message that follows. */
  lemma SixteenIsZero(enc: Bytes -> Bytes, inc: Bytes -> Bytes, s: Counter, m: Bytes)
    requires BlockCipher(enc) && Increment(inc) && |s.block| == BLOCK_LEN && s.pos <= BLOCK_LEN
    ensures CtrOut(enc, inc, Normal(inc, s), m) == CtrOut(enc, inc, s, m)
    ensures CtrAfter(inc, Normal(inc, s), |m|) == CtrAfter(inc, s, |m|)
  {
    if s.pos == BLOCK_LEN {
      assert CounterAt(inc, s.block, 1) == inc(CounterAt(inc, s.block, 0)) == inc(s.block);
      forall i: nat
        ensures CounterAt(inc, inc(s.block), i / BLOCK_LEN) == CounterAt(inc, s.block, (BLOCK_LEN + i) / BLOCK_LEN)
      {
        CountersAdd(inc, s.block, 1, i / BLOCK_LEN);
      }
    }
  }

  lemma CounterFrom(inc: Bytes -> Bytes, s: Counter, n: nat, i: nat)
    requires Increment(inc) && |s.block| == BLOCK_LEN
    ensures var t := CtrAfter(inc, s, n);
      && CounterAt(inc, t.block, (t.pos + i) / BLOCK_LEN) == CounterAt(inc, s.block, (s.pos + n + i) / BLOCK_LEN)
      && (t.pos + i) % BLOCK_LEN == (s.pos + n + i) % BLOCK_LEN
  {
    PlacesAdd(s.pos + n, i);
    CountersAdd(inc, s.block, (s.pos + n) / BLOCK_LEN, (CtrAfter(inc, s, n).pos + i) / BLOCK_LEN);
  }

  lemma KeyFrom(enc: Bytes -> Bytes, inc: Bytes -> Bytes, s: Counter, n: nat, i: nat)
    requires BlockCipher(enc) && Increment(inc) && |s.block| == BLOCK_LEN
    ensures var t := CtrAfter(inc, s, n);
      KeyByte(enc, inc, t.block, t.pos + i) == KeyByte(enc, inc, s.block, s.pos + n + i)
  {
    CounterFrom(inc, s, n, i);
    hide CounterAt, CtrAfter;
  }

  lemma CtrAfterTwice(inc: Bytes -> Bytes, s: Counter, i: nat, j: nat)
    requires Increment(inc) && |s.block| == BLOCK_LEN
    ensures CtrAfter(inc, s, i + j) == CtrAfter(inc, CtrAfter(inc, s, i), j)
  {
    CounterFrom(inc, s, i, j);
  }

  /** Two chunks are as good as one, from whatever state the first leaves. */
  lemma CtrChunks(enc: Bytes -> Bytes, inc: Bytes -> Bytes, s: Counter, a: Bytes, b: Bytes)
    requires BlockCipher(enc) && Increment(inc) && |s.block| == BLOCK_LEN
    ensures var t := CtrAfter(inc, s, |a|);
      && CtrOut(enc, inc, s, a + b) == CtrOut(enc, inc, s, a) + CtrOut(enc, inc, t, b)
      && CtrAfter(inc, s, |a + b|) == CtrAfter(inc, t, |b|)
  {
    var t := CtrAfter(inc, s, |a|);
    CtrAfterTwice(inc, s, |a|, |b|);
    hide KeyByte, CounterAt, CtrAfter, Mix, BlockCipher, Increment;
    var whole, parts := CtrOut(enc, inc, s, a + b), CtrOut(enc, inc, s, a) + CtrOut(enc, inc, t, b);
    forall i | 0 <= i < |a + b| ensures whole[i] == parts[i] {
      if i >= |a| {
        KeyFrom(enc, inc, s, |a|, i - |a|);
      }
    }
  }

  /** Decryption is encryption. */
  lemma CtrUndone(enc: Bytes -> Bytes, inc: Bytes -> Bytes, s: Counter, m: Bytes)
    requires BlockCipher(enc) && Increment(inc) && |s.block| == BLOCK_LEN
    ensures CtrOut(enc, inc, s, CtrOut(enc, inc, s, m)) == m
  {
    forall i | 0 <= i < |m| ensures CtrOut(enc, inc, s, CtrOut(enc, inc, s, m))[i] == m[i] {
      MixBack(KeyByte(enc, inc, s.block, s.pos + i), m[i]);
    }
  }

  // ---------- CTR, as written ----------

  /** The first `n` bytes of `buf` are the key stream that starts with the block `c`. */
  ghost predicate KeyStream(enc: Bytes -> Bytes, inc: Bytes -> Bytes, c: Bytes, buf: Bytes, n: nat)
    requires BlockCipher(enc) && Increment(inc) && |c| == BLOCK_LEN
  {
    n <= |buf| && forall j :: 0 <= j < n ==> buf[j] == KeyByte(enc, inc, c, j)
  }

  /** The first `n` blocks of `buf` are the counters from `c` on. */
  ghost predicate Counters(inc: Bytes -> Bytes, c: Bytes, buf: Bytes, n: nat)
    requires Increment(inc) && |c| == BLOCK_LEN
  {
    BLOCK_LEN * n <= |buf| && forall i :: 0 <= i < n ==>
      buf[BLOCK_LEN * i..BLOCK_LEN * i + BLOCK_LEN] == CounterAt(inc, c, i)
  }

  method PutBlock(buf: array<bv8>, i: nat, data: Bytes)
    requires BLOCK_LEN * i + BLOCK_LEN <= buf.Length && |data| == BLOCK_LEN
    modifies buf
    ensures buf[BLOCK_LEN * i..BLOCK_LEN * i + BLOCK_LEN] == data
    ensures forall k :: 0 <= k && k != i && BLOCK_LEN * k + BLOCK_LEN <= buf.Length ==>
      buf[BLOCK_LEN * k..BLOCK_LEN * k + BLOCK_LEN] == old(buf[BLOCK_LEN * k..BLOCK_LEN * k + BLOCK_LEN])
  {
    forall j | 0 <= j < BLOCK_LEN { buf[BLOCK_LEN * i + j] := data[j]; }
  }

  /** The counter block is increased in place. */
  method Increase(ghost inc: Bytes -> Bytes, f: Bytes -> Bytes, cbuf: array<bv8>)
    requires Increment(inc) && f == inc && cbuf.Length == BLOCK_LEN
    modifies cbuf
    ensures cbuf[..] == inc(old(cbuf[..]))
  {
    var next := f(cbuf[..]);
    forall j | 0 <= j < BLOCK_LEN { cbuf[j] := next[j]; }
  }

  /** The counters for `blen` bytes: the last, if it is only partly used, is not yet incremented. */
  method FillCounters(ghost inc: Bytes -> Bytes, f: Bytes -> Bytes, cbuf: array<bv8>, buf: array<bv8>, blen: nat)
    returns (i: nat)
    requires Increment(inc) && f == inc && cbuf.Length == BLOCK_LEN && buf.Length == BFR_LENGTH && cbuf != buf
      && blen <= BFR_LENGTH
    modifies cbuf, buf
    ensures cbuf[..] == CounterAt(inc, old(cbuf[..]), blen / BLOCK_LEN)
    ensures i == (blen + 15) / BLOCK_LEN && Counters(inc, old(cbuf[..]), buf[..], i)
  {
    i := 0;
    while i < blen / BLOCK_LEN
      invariant i <= blen / BLOCK_LEN && cbuf[..] == CounterAt(inc, old(cbuf[..]), i)
      invariant Counters(inc, old(cbuf[..]), buf[..], i)
    {
      PutBlock(buf, i, cbuf[..]);
      Increase(inc, f, cbuf);
      i := i + 1;
    }
    if blen % BLOCK_LEN != 0 {
      PutBlock(buf, i, cbuf[..]);
      i := i + 1;
    }
  }

  /** The first `n` blocks of the buffer are encrypted in place, each on its own. */
  method EncryptBlocks(ghost enc: Bytes -> Bytes, f: Bytes -> Bytes, ghost inc: Bytes -> Bytes, ghost c: Bytes,
      buf: array<bv8>, n: nat)
    requires BlockCipher(enc) && f == enc && Increment(inc) && |c| == BLOCK_LEN && Counters(inc, c, buf[..], n)
    modifies buf
    ensures KeyStream(enc, inc, c, buf[..], BLOCK_LEN * n)
  {
    var i := 0;
    while i < n
      invariant i <= n
      invariant forall k :: i <= k < n ==> buf[BLOCK_LEN * k..BLOCK_LEN * k + BLOCK_LEN] == CounterAt(inc, c, k)
      invariant forall k :: 0 <= k < i ==> buf[BLOCK_LEN * k..BLOCK_LEN * k + BLOCK_LEN] == enc(CounterAt(inc, c, k))
    {
      PutBlock(buf, i, f(buf[BLOCK_LEN * i..BLOCK_LEN * i + BLOCK_LEN]));
      i := i + 1;
    }
    forall j | 0 <= j < BLOCK_LEN * n ensures buf[j] == KeyByte(enc, inc, c, j) {
      var k := j / BLOCK_LEN;
      assert buf[BLOCK_LEN * k..BLOCK_LEN * k + BLOCK_LEN][j % BLOCK_LEN] == buf[j];
    }
  }

  /** `cnt` bytes of the message are done; the position may be 16. */
  ghost predicate CtrDone(enc: Bytes -> Bytes, inc: Bytes -> Bytes, s: Counter, m: Bytes, cnt: nat, out: Bytes,
      c: Bytes, b: nat)
    requires BlockCipher(enc) && Increment(inc) && |s.block| == BLOCK_LEN
  {
    cnt <= |m| && out == CtrOut(enc, inc, s, m[..cnt]) && Normal(inc, Counter(c, b)) == CtrAfter(inc, s, cnt)
  }

  /** The next bytes, once they are xored with the key stream of a counter block from place `b` on. */
  lemma CtrMore(enc: Bytes -> Bytes, inc: Bytes -> Bytes, s: Counter, m: Bytes, cnt: nat, out: Bytes, c: Bytes,
      b: nat, n: nat, more: Bytes)
    requires BlockCipher(enc) && Increment(inc) && |s.block| == BLOCK_LEN && |c| == BLOCK_LEN
    requires CtrDone(enc, inc, s, m, cnt, out, c, b) && b < BLOCK_LEN && cnt + n <= |m| && |more| == n
    requires forall j :: 0 <= j < n ==> more[j] == Mix(KeyByte(enc, inc, c, b + j), m[cnt + j])
    ensures out + more == CtrOut(enc, inc, s, m[..cnt + n])
    ensures CtrAfter(inc, s, cnt + n) == CtrAfter(inc, Counter(c, b), n)
  {
    var t := Counter(c, b);
    CtrAfterTwice(inc, s, cnt, n);
    hide KeyByte, CounterAt, CtrAfter, Mix, BlockCipher, Increment;
    assert m[..cnt + n] == m[..cnt] + m[cnt..cnt + n];
    CtrChunks(enc, inc, s, m[..cnt], m[cnt..cnt + n]);
    assert more == CtrOut(enc, inc, t, m[cnt..cnt + n]);
  }

  /** `n` bytes of key stream are xored with as many of the message. */
  method XorKey(m: Bytes, obuf: array<bv8>, buf: array<bv8>, cnt: nat, b: nat, n: nat)
    requires cnt + n <= |m| <= obuf.Length && b + n <= buf.Length && obuf != buf
    modifies obuf
    ensures obuf[..cnt] == old(obuf[..cnt])
    ensures obuf[cnt..cnt + n] == XorBytes(buf[b..b + n], m[cnt..cnt + n])
  {
    hide Mix;
    for j := 0 to n
      invariant obuf[..cnt] == old(obuf[..cnt])
      invariant forall i :: cnt <= i < cnt + j ==> obuf[i] == Mix(buf[b + i - cnt], m[i])
    {
      obuf[cnt + j] := Mix(buf[b + j], m[cnt + j]);
    }
    ghost var o, r := obuf[cnt..cnt + n], XorBytes(buf[b..b + n], m[cnt..cnt + n]);
    forall k | 0 <= k < n ensures o[k] == r[k] {
      assert buf[b..b + n][k] == buf[b + (cnt + k) - cnt];
    }
  }

  lemma CtrNothing(enc: Bytes -> Bytes, inc: Bytes -> Bytes, s: Counter, m: Bytes)
    requires BlockCipher(enc) && Increment(inc) && |s.block| == BLOCK_LEN && s.pos <= BLOCK_LEN
    ensures CtrDone(enc, inc, s, m, 0, [], s.block, s.pos)
  {
    assert CounterAt(inc, s.block, 1) == inc(CounterAt(inc, s.block, 0));
  }

  lemma FirstKeys(enc: Bytes -> Bytes, inc: Bytes -> Bytes, c: Bytes, buf: Bytes)
    requires BlockCipher(enc) && Increment(inc) && |c| == BLOCK_LEN <= |buf| && buf[0..16] == enc(c)
    ensures forall j :: 0 <= j < BLOCK_LEN ==> buf[j] == KeyByte(enc, inc, c, j)
  {
    forall j | 0 <= j < BLOCK_LEN ensures buf[j] == KeyByte(enc, inc, c, j) {
      assert buf[0..16][j] == buf[j];
    }
  }

  /** The rest of the block that the last call left off in; at its end, the counter may be increased at once. */
  lemma FirstPart(enc: Bytes -> Bytes, inc: Bytes -> Bytes, s: Counter, m: Bytes, out: Bytes)
    requires BlockCipher(enc) && Increment(inc) && |s.block| == BLOCK_LEN && s.pos + |out| <= BLOCK_LEN && |out| <= |m|
    requires forall j :: 0 <= j < |out| ==> out[j] == Mix(KeyByte(enc, inc, s.block, s.pos + j), m[j])
    ensures CtrDone(enc, inc, s, m, |out|, out, s.block, s.pos + |out|)
    ensures s.pos + |out| == BLOCK_LEN ==> CtrDone(enc, inc, s, m, |out|, out, inc(s.block), 0)
  {
    assert CounterAt(inc, s.block, 1) == inc(CounterAt(inc, s.block, 0));
    hide KeyByte, Mix;
  }

  lemma FromZero(inc: Bytes -> Bytes, c: Bytes, n: nat)
    requires Increment(inc) && |c| == BLOCK_LEN
    ensures CtrAfter(inc, Counter(c, 0), n) == Counter(CounterAt(inc, c, n / BLOCK_LEN), n % BLOCK_LEN)
  {
  }

  /** The rest of the block that the last call left off in. */
  method FinishBlock(enc: Bytes -> Bytes, inc: Bytes -> Bytes, m: Bytes, obuf: array<bv8>, cbuf: array<bv8>,
      buf: array<bv8>, b0: nat)
    returns (cnt: nat, b: nat)
    requires BlockCipher(enc) && Increment(inc) && cbuf.Length == BLOCK_LEN && 0 < b0 <= BLOCK_LEN && obuf.Length >= |m|
    requires buf.Length == BFR_LENGTH && obuf != cbuf && obuf != buf && buf != cbuf
    modifies obuf, cbuf, buf
    ensures cnt <= |m| && b <= BLOCK_LEN && (cnt < |m| ==> b == 0)
    ensures CtrDone(enc, inc, old(Counter(cbuf[..], b0)), m, cnt, obuf[..cnt], cbuf[..], b)
  {
    ghost var s := Counter(cbuf[..], b0);
    var key := enc(cbuf[..]);
    PutBlock(buf, 0, key);
    var n := if |m| <= BLOCK_LEN - b0 then |m| else BLOCK_LEN - b0;
    FirstKeys(enc, inc, cbuf[..], buf[..]);
    XorKey(m, obuf, buf, 0, b0, n);
    hide KeyByte, CounterAt, CtrAfter, CtrOut, Mix, CtrDone, BlockCipher, Increment;
    ghost var out := obuf[0..n];
    assert obuf[..n] == out;
    forall j | 0 <= j < n ensures out[j] == Mix(KeyByte(enc, inc, s.block, s.pos + j), m[j]) {
      assert buf[b0..b0 + n][j] == buf[b0 + j] && m[0..n][j] == m[j];
    }
    FirstPart(enc, inc, s, m, out);
    cnt, b := n, b0 + n;
    if cnt < |m| {
      Increase(inc, inc, cbuf);
      b := 0;
    }
  }

  /** One turn of the main loop: up to eight blocks through `buf`. */
  method CtrBuffer(enc: Bytes -> Bytes, inc: Bytes -> Bytes, ghost s: Counter, m: Bytes, obuf: array<bv8>,
      cbuf: array<bv8>, buf: array<bv8>, cnt: nat, blen: nat)
    requires BlockCipher(enc) && Increment(inc) && cbuf.Length == BLOCK_LEN && obuf.Length >= |m|
      && |s.block| == BLOCK_LEN
    requires buf.Length == BFR_LENGTH && obuf != cbuf && obuf != buf && buf != cbuf && blen <= BFR_LENGTH
      && cnt + blen <= |m|
    requires CtrDone(enc, inc, s, m, cnt, obuf[..cnt], cbuf[..], 0)
    modifies obuf, cbuf, buf
    ensures CtrDone(enc, inc, s, m, cnt + blen, obuf[..cnt + blen], cbuf[..], blen % BLOCK_LEN)
  {
    hide KeyByte, CounterAt, CtrAfter, CtrOut, Mix, BlockCipher, Increment;
    ghost var c, done := cbuf[..], obuf[..cnt];
    var i := FillCounters(inc, inc, cbuf, buf, blen);
    EncryptBlocks(enc, enc, inc, c, buf, i);
    XorKey(m, obuf, buf, cnt, 0, blen);
    ghost var more := obuf[cnt..cnt + blen];
    assert obuf[..cnt + blen] == done + more;
    assert blen <= BLOCK_LEN * i;
    CtrMore(enc, inc, s, m, cnt, done, c, 0, blen, more);
    FromZero(inc, c, blen);
  }

  /** The function aes_ctr_crypt; the saved position `b0` may be 16. */
  method CtrCrypt(enc: Bytes -> Bytes, inc: Bytes -> Bytes, m: Bytes, obuf: array<bv8>, cbuf: array<bv8>, b0: nat,
      ready: bool)
    returns (ok: bool, b: nat)
    requires BlockCipher(enc) && Increment(inc) && cbuf.Length == BLOCK_LEN && b0 <= BLOCK_LEN && obuf.Length >= |m|
      && obuf != cbuf
    modifies obuf, cbuf
    ensures ok <==> ready || (b0 == 0 && m == [])
    ensures ok ==> var s := old(Counter(cbuf[..], b0));
      b <= BLOCK_LEN && obuf[..|m|] == CtrOut(enc, inc, s, m)
        && Normal(inc, Counter(cbuf[..], b)) == CtrAfter(inc, s, |m|)
  {
    hide KeyByte, CounterAt, CtrAfter, CtrOut, Mix, BlockCipher, Increment, CtrDone;
    ghost var s := Counter(cbuf[..], b0);
    var buf := new bv8[BFR_LENGTH];
    var cnt := 0;
    b := b0;
    CtrNothing(enc, inc, s, m);
    if b != 0 {
      if !ready {
        return false, b;
      }
      cnt, b := FinishBlock(enc, inc, m, obuf, cbuf, buf, b);
    }
    while cnt < |m|
      invariant cnt <= |m| && b <= BLOCK_LEN && (cnt < |m| ==> b == 0) && (ready || (b0 == 0 && cnt == 0))
      invariant CtrDone(enc, inc, s, m, cnt, obuf[..cnt], cbuf[..], b)
    {
      if !ready {
        return false, b;
      }
      var blen := if |m| - cnt > BFR_LENGTH then BFR_LENGTH else |m| - cnt;
      CtrBuffer(enc, inc, s, m, obuf, cbuf, buf, cnt, blen);
      cnt := cnt + blen;
      b := blen % BLOCK_LEN;
    }
    CtrAllDone(enc, inc, s, m, obuf[..|m|], cbuf[..], b);
    return true, b;
  }

  lemma CtrAllDone(enc: Bytes -> Bytes, inc: Bytes -> Bytes, s: Counter, m: Bytes, out: Bytes, c: Bytes, b: nat)
    requires BlockCipher(enc) && Increment(inc) && |s.block| == BLOCK_LEN && CtrDone(enc, inc, s, m, |m|, out, c, b)
    ensures out == CtrOut(enc, inc, s, m) && Normal(inc, Counter(c, b)) == CtrAfter(inc, s, |m|)
  {
    assert m[..|m|] == m;
  }
}
