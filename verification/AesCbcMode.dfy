/** Whole-block cipher block chaining: aes_cbc_encrypt and aes_cbc_decrypt of guests/trusted/src/aes/aes_modes.c. */
module AesCbcMode {
  import opened AesBytes
  import opened AesCbc

  predicate Whole(m: Bytes)
  {
    |m| % 16 == 0
  }

  ghost predicate WholeBlocks(p: Permutation, c: Bytes, m: Bytes)
  {
    Inverse(p) && |c| == BLOCK_LEN && Whole(m)
  }

  lemma WholeSum(a: Bytes, b: Bytes)
    requires Whole(a) && Whole(b)
    ensures Whole(a + b)
    ensures a != [] ==> |a| >= 16 && Whole(a[16..]) && Whole(a[16..] + b)
  {
  }

  /** SP 800-38A section 6.2 */
  ghost function Cbc(p: Permutation, c: Bytes, m: Bytes): (r: Bytes)
    requires WholeBlocks(p, c, m)
    ensures |r| == |m|
    decreases |m|
  {
    if m == [] then [] else
    var e := p.enc(XorBytes(c, m[..16]));
    e + Cbc(p, e, m[16..])
  }

  ghost function Uncbc(p: Permutation, c: Bytes, y: Bytes): (r: Bytes)
    requires WholeBlocks(p, c, y)
    ensures |r| == |y|
    decreases |y|
  {
    if y == [] then [] else XorBytes(p.dec(y[..16]), c) + Uncbc(p, y[..16], y[16..])
  }

  /** The chaining block left behind. */
  function Last(c: Bytes, y: Bytes): Bytes
  {
    if |y| < 16 then c else y[|y| - 16..]
  }

  lemma {:induction false} UncbcCbc(p: Permutation, c: Bytes, m: Bytes)
    requires WholeBlocks(p, c, m)
    ensures Uncbc(p, c, Cbc(p, c, m)) == m
    decreases |m|
  {
    if m == [] {
    } else {
      var e := p.enc(XorBytes(c, m[..16]));
      var y := Cbc(p, c, m);
      assert y[..16] == e && y[16..] == Cbc(p, e, m[16..]);
      XorTwice(m[..16], c);
      UncbcCbc(p, e, m[16..]);
    }
  }

  /** On messages of whole blocks encfile's chain is CBC. */
  lemma {:induction false} ChainIsCbc(p: Permutation, c: Bytes, m: Bytes)
    requires WholeBlocks(p, c, m) && m != []
    ensures Chain(p, c, m) == Cbc(p, c, m)
    decreases |m|
  {
    if |m| == 16 {
      assert m[16..] == [];
    } else {
      ChainIsCbc(p, p.enc(XorBytes(c, m[..16])), m[16..]);
    }
  }

  /** The chaining block after `m`, block by block. */
  ghost function After(p: Permutation, c: Bytes, m: Bytes): (r: Bytes)
    requires WholeBlocks(p, c, m)
    ensures |r| == 16
    decreases |m|
  {
    if m == [] then c else After(p, p.enc(XorBytes(c, m[..16])), m[16..])
  }

  lemma {:induction false} AfterIsLast(p: Permutation, c: Bytes, m: Bytes)
    requires WholeBlocks(p, c, m)
    ensures After(p, c, m) == Last(c, Cbc(p, c, m))
    decreases |m|
  {
    if m == [] {
    } else {
      hide Last;
      var e := p.enc(XorBytes(c, m[..16]));
      AfterIsLast(p, e, m[16..]);
      LastOfMore(c, e, Cbc(p, e, m[16..]));
    }
  }

  lemma {:induction false} ChunksAfter(p: Permutation, c: Bytes, a: Bytes, b: Bytes, all: Bytes)
    requires WholeBlocks(p, c, a) && Whole(b) && Whole(all) && all == a + b
    ensures Cbc(p, c, all) == Cbc(p, c, a) + Cbc(p, After(p, c, a), b)
    decreases |a|
  {
    if a == [] {
      assert all == b;
    } else {
      WholeSum(a, b);
      hide Cbc, After, XorBytes, Inverse, Whole;
      var rest, more := a[16..], a[16..] + b;
      var e := FirstOfTwo(p, c, a, b, all, rest, more);
      ChunksAfter(p, e, rest, b, more);
      Appended(e, Cbc(p, e, rest), Cbc(p, After(p, e, rest), b), Cbc(p, c, all));
    }
  }

  lemma FirstOfTwo(p: Permutation, c: Bytes, a: Bytes, b: Bytes, all: Bytes, rest: Bytes, more: Bytes)
    returns (e: Bytes)
    requires WholeBlocks(p, c, a) && |a| >= 16 && Whole(b) && Whole(all) && Whole(rest) && Whole(more)
    requires all == a + b && rest == a[16..] && more == rest + b
    ensures WholeBlocks(p, e, rest) && After(p, c, a) == After(p, e, rest)
    ensures Cbc(p, c, a) == e + Cbc(p, e, rest) && Cbc(p, c, all) == e + Cbc(p, e, more)
  {
    hide XorBytes, Whole;
    e := p.enc(XorBytes(c, a[..16]));
    assert all[..16] == a[..16] && all[16..] == more;
  }

  lemma CbcChunks(p: Permutation, c: Bytes, a: Bytes, b: Bytes)
    requires WholeBlocks(p, c, a) && |b| % 16 == 0
    ensures Cbc(p, c, a + b) == Cbc(p, c, a) + Cbc(p, Last(c, Cbc(p, c, a)), b)
  {
    hide Cbc, Inverse, Last, After;
    AfterIsLast(p, c, a);
    ChunksAfter(p, c, a, b, a + b);
  }

  lemma LastOfMore(c: Bytes, e: Bytes, r: Bytes)
    requires |e| == 16 && |r| % 16 == 0
    ensures Last(c, e + r) == Last(e, r) && |Last(e, r)| == 16
  {
    if r == [] {
      assert e + r == e;
    } else {
      var k := |r| - 16;
      assert (e + r)[16 + k..] == r[k..];
    }
  }

  lemma LastOfNone(c: Bytes)
    ensures Last(c, []) == c
  {
  }

  lemma LastOfAppended(c: Bytes, done: Bytes, e: Bytes)
    requires |e| == 16
    ensures Last(c, done + e) == e
  {
  }

  lemma Advance(m: Bytes, cnt: nat)
    requires cnt + 16 <= |m|
    ensures m[cnt..][..16] == m[cnt..cnt + 16] && m[cnt..][16..] == m[cnt + 16..]
    ensures m[..cnt + 16] == m[..cnt] + m[cnt..cnt + 16]
  {
  }

  lemma CbcStep(p: Permutation, c: Bytes, m: Bytes, done: Bytes, e: Bytes, goal: Bytes)
    requires WholeBlocks(p, c, m) && m != [] && e == p.enc(XorBytes(c, m[..16])) && done + Cbc(p, c, m) == goal
    ensures done + e + Cbc(p, e, m[16..]) == goal
  {
    Appended(done, e, Cbc(p, e, m[16..]), goal);
  }

  method CbcEncrypt(ghost p: Permutation, enc: Bytes -> Bytes, m: Bytes, obuf: array<bv8>, iv: array<bv8>,
      ready: bool) returns (ok: bool)
    requires Inverse(p) && enc == p.enc && iv.Length == 16 && obuf.Length >= |m| && obuf != iv
    modifies obuf, iv
    ensures ok <==> |m| % 16 == 0 && (ready || m == [])
    ensures ok ==> obuf[..|m|] == Cbc(p, old(iv[..]), m) && iv[..] == Last(old(iv[..]), obuf[..|m|])
  {
    hide XorBytes, Cbc, Inverse, Last;
    if |m| % 16 != 0 {
      return false;
    }
    var cnt := 0;
    ghost var goal := Cbc(p, iv[..], m);
    assert m[0..] == m;
    LastOfNone(iv[..]);
    while cnt < |m|
      invariant cnt <= |m| && cnt % 16 == 0 && (ready || cnt == 0)
      invariant WholeBlocks(p, iv[..], m[cnt..]) && obuf[..cnt] + Cbc(p, iv[..], m[cnt..]) == goal
      invariant iv[..] == Last(old(iv[..]), obuf[..cnt])
    {
      if !ready {
        return false;
      }
      ghost var c, done := iv[..], obuf[..cnt];
      Advance(m, cnt);
      var e := enc(XorBytes(iv[..], m[cnt..cnt + 16]));
      EncLength(p, XorBytes(c, m[cnt..cnt + 16]));
      CbcStep(p, c, m[cnt..], done, e, goal);
      forall i | 0 <= i < 16 { iv[i] := e[i]; }
      assert iv[..] == e;
      Write(obuf, cnt, iv[..]);
      assert obuf[..cnt + 16] == done + e;
      LastOfAppended(old(iv[..]), done, e);
      cnt := cnt + 16;
    }
    CbcEmpty(p, iv[..], m[cnt..]);
    return true;
  }

  lemma EncLength(p: Permutation, b: Bytes)
    requires Inverse(p) && |b| == 16
    ensures |p.enc(b)| == 16 && |p.dec(b)| == 16
  {
  }

  lemma CbcEmpty(p: Permutation, c: Bytes, m: Bytes)
    requires WholeBlocks(p, c, m) && m == []
    ensures Cbc(p, c, m) == [] && Uncbc(p, c, m) == []
  {
  }

  lemma UncbcStep(p: Permutation, c: Bytes, y: Bytes, done: Bytes, goal: Bytes)
    requires WholeBlocks(p, c, y) && y != [] && done + Uncbc(p, c, y) == goal
    ensures done + XorBytes(p.dec(y[..16]), c) + Uncbc(p, y[..16], y[16..]) == goal
  {
    Appended(done, XorBytes(p.dec(y[..16]), c), Uncbc(p, y[..16], y[16..]), goal);
  }

  method CbcDecrypt(ghost p: Permutation, dec: Bytes -> Bytes, y: Bytes, obuf: array<bv8>, iv: array<bv8>,
      ready: bool) returns (ok: bool)
    requires Inverse(p) && dec == p.dec && iv.Length == 16 && obuf.Length >= |y| && obuf != iv
    modifies obuf, iv
    ensures ok <==> |y| % 16 == 0 && (ready || y == [])
    ensures ok ==> obuf[..|y|] == Uncbc(p, old(iv[..]), y) && iv[..] == Last(old(iv[..]), y)
  {
    hide XorBytes, Uncbc, Inverse, Last;
    if |y| % 16 != 0 {
      return false;
    }
    var cnt := 0;
    ghost var goal := Uncbc(p, iv[..], y);
    assert y[0..] == y;
    LastOfNone(iv[..]);
    while cnt < |y|
      invariant cnt <= |y| && cnt % 16 == 0 && (ready || cnt == 0)
      invariant WholeBlocks(p, iv[..], y[cnt..]) && obuf[..cnt] + Uncbc(p, iv[..], y[cnt..]) == goal
      invariant iv[..] == Last(old(iv[..]), y[..cnt])
    {
      if !ready {
        return false;
      }
      ghost var done := obuf[..cnt];
      var tmp := y[cnt..cnt + 16];
      Advance(y, cnt);
      LastOfAppended(old(iv[..]), y[..cnt], tmp);
      EncLength(p, tmp);
      UncbcStep(p, iv[..], y[cnt..], done, goal);
      Write(obuf, cnt, XorBytes(dec(tmp), iv[..]));
      forall i | 0 <= i < 16 { iv[i] := tmp[i]; }
      assert iv[..] == tmp;
      cnt := cnt + 16;
    }
    CbcEmpty(p, iv[..], y[cnt..]);
    assert y[..cnt] == y;
    return true;
  }
}
