/**
  Words of four bytes and the column operations of the cipher
  (guests/trusted/src/aes/aesopt.h and the table macros of aestab.c), in the
  byte order of a little-endian platform.
*/
module AesField {

  /** The bytes of a word, lowest first: `bval` and `bytes2word`. */
  function Byte0(x: bv32): bv8 { (x & 0xff) as bv8 }

  function Byte1(x: bv32): bv8 { ((x >> 8) & 0xff) as bv8 }

  function Byte2(x: bv32): bv8 { ((x >> 16) & 0xff) as bv8 }

  function Byte3(x: bv32): bv8 { ((x >> 24) & 0xff) as bv8 }

  function BytesToWord(b0: bv8, b1: bv8, b2: bv8, b3: bv8): bv32
  {
    ((b3 as bv32) << 24) | ((b2 as bv32) << 16) | ((b1 as bv32) << 8) | (b0 as bv32)
  }

  lemma WordOfBytes(x: bv32)
    ensures BytesToWord(Byte0(x), Byte1(x), Byte2(x), Byte3(x)) == x
  {
  }

  lemma BytesOfWord(b0: bv8, b1: bv8, b2: bv8, b3: bv8)
    ensures Byte0(BytesToWord(b0, b1, b2, b3)) == b0
    ensures Byte1(BytesToWord(b0, b1, b2, b3)) == b1
    ensures Byte2(BytesToWord(b0, b1, b2, b3)) == b2
    ensures Byte3(BytesToWord(b0, b1, b2, b3)) == b3
  {
  }

  /** Addition of columns; named so that proofs can treat it as the operation of a group. */
  function Xor(x: bv32, y: bv32): bv32 { x ^ y }

  /** Byte rotation, `upr(x, n)`. */
  function Upr1(x: bv32): bv32 { (x << 8) | (x >> 24) }

  function Upr2(x: bv32): bv32 { (x << 16) | (x >> 16) }

  function Upr3(x: bv32): bv32 { (x << 24) | (x >> 8) }

  /** Multiplication by {02} in GF(2^8), on four bytes at once. */
  function GfMulx(x: bv32): bv32
  {
    ((x & 0x7f7f7f7f) << 1) ^ (((x & 0x80808080) >> 7) * 0x1b)
  }

  function FwdMcol(x: bv32): bv32
  {
    var g2 := GfMulx(x);
    Xor(Xor(g2, Upr3(Xor(x, g2))), Xor(Upr2(x), Upr1(x)))
  }

  function InvMcol(x: bv32): bv32
  {
    var g2 := GfMulx(x);
    var g4 := GfMulx(g2);
    var g9 := Xor(x, GfMulx(g4));
    var gd := Xor(g4, g9);
    Xor(Xor(Xor(x, g2), Xor(gd, Upr3(Xor(g2, g9)))), Xor(Upr2(gd), Upr1(g9)))
  }

  // ---------- xor as a group ----------

  lemma Commutes(a: bv32, b: bv32)
    ensures Xor(a, b) == Xor(b, a)
  {
  }

  lemma Associates(a: bv32, b: bv32, c: bv32)
    ensures Xor(Xor(a, b), c) == Xor(a, Xor(b, c))
  {
  }

  lemma SelfInverse(a: bv32)
    ensures Xor(a, a) == 0 && Xor(a, 0) == a && Xor(0, a) == a
  {
  }

  lemma XorLaws(a: bv32, b: bv32, c: bv32)
    ensures Xor(a, b) == Xor(b, a)
    ensures Xor(Xor(a, b), c) == Xor(a, Xor(b, c))
    ensures Xor(a, a) == 0 && Xor(a, 0) == a && Xor(0, a) == a
  {
    hide Xor;
    Commutes(a, b);
    Associates(a, b, c);
    SelfInverse(a);
  }

  lemma Cancel(a: bv32, b: bv32)
    ensures Xor(Xor(a, b), b) == a && Xor(b, Xor(b, a)) == a
  {
  }

  lemma Interchange(a: bv32, b: bv32, c: bv32, d: bv32)
    ensures Xor(Xor(a, b), Xor(c, d)) == Xor(Xor(a, c), Xor(b, d))
  {
    hide Xor;
    XorLaws(a, b, Xor(c, d));
    XorLaws(b, c, d);
    XorLaws(c, b, d);
    XorLaws(a, c, Xor(b, d));
  }

  // ---------- linearity ----------

  lemma GfMulxXor(x: bv32, y: bv32)
    ensures GfMulx(Xor(x, y)) == Xor(GfMulx(x), GfMulx(y))
  {
    assert (((x ^ y) & 0x80808080) >> 7) * 0x1b
      == (((x & 0x80808080) >> 7) * 0x1b) ^ (((y & 0x80808080) >> 7) * 0x1b);
  }

  lemma Upr1Xor(x: bv32, y: bv32)
    ensures Upr1(Xor(x, y)) == Xor(Upr1(x), Upr1(y))
  {
  }

  lemma Upr2Xor(x: bv32, y: bv32)
    ensures Upr2(Xor(x, y)) == Xor(Upr2(x), Upr2(y))
  {
  }

  lemma Upr3Xor(x: bv32, y: bv32)
    ensures Upr3(Xor(x, y)) == Xor(Upr3(x), Upr3(y))
  {
  }

  lemma FwdMcolXor(x: bv32, y: bv32)
    ensures FwdMcol(Xor(x, y)) == Xor(FwdMcol(x), FwdMcol(y))
  {
    hide GfMulx, Upr1, Upr2, Upr3, Xor;
    var g, h := GfMulx(x), GfMulx(y);
    GfMulxXor(x, y);
    Upr1Xor(x, y);
    Upr2Xor(x, y);
    Interchange(x, y, g, h);
    Upr3Xor(Xor(x, g), Xor(y, h));
    Interchange(g, h, Upr3(Xor(x, g)), Upr3(Xor(y, h)));
    Interchange(Upr2(x), Upr2(y), Upr1(x), Upr1(y));
    Interchange(Xor(g, Upr3(Xor(x, g))), Xor(h, Upr3(Xor(y, h))), Xor(Upr2(x), Upr1(x)), Xor(Upr2(y), Upr1(y)));
  }

  lemma InvMcolXor(x: bv32, y: bv32)
    ensures InvMcol(Xor(x, y)) == Xor(InvMcol(x), InvMcol(y))
  {
    hide GfMulx, Upr1, Upr2, Upr3, Xor;
    var x2, y2 := GfMulx(x), GfMulx(y);
    var x4, y4 := GfMulx(x2), GfMulx(y2);
    var x8, y8 := GfMulx(x4), GfMulx(y4);
    var x9, y9 := Xor(x, x8), Xor(y, y8);
    var xd, yd := Xor(x4, x9), Xor(y4, y9);
    GfMulxXor(x, y);
    GfMulxXor(x2, y2);
    GfMulxXor(x4, y4);
    Interchange(x, y, x8, y8);
    Interchange(x4, y4, x9, y9);
    Interchange(x2, y2, x9, y9);
    var xu, yu := Upr3(Xor(x2, x9)), Upr3(Xor(y2, y9));
    Upr3Xor(Xor(x2, x9), Xor(y2, y9));
    Upr2Xor(xd, yd);
    Upr1Xor(x9, y9);
    Interchange(x, y, x2, y2);
    Interchange(xd, yd, xu, yu);
    Interchange(Xor(x, x2), Xor(y, y2), Xor(xd, xu), Xor(yd, yu));
    Interchange(Upr2(xd), Upr2(yd), Upr1(x9), Upr1(y9));
    Interchange(Xor(Xor(x, x2), Xor(xd, xu)), Xor(Xor(y, y2), Xor(yd, yu)),
                Xor(Upr2(xd), Upr1(x9)), Xor(Upr2(yd), Upr1(y9)));
  }

  // ---------- rotation ----------

  lemma GfMulxUpr(x: bv32)
    ensures GfMulx(Upr1(x)) == Upr1(GfMulx(x))
  {
  }

  lemma UprUpr(x: bv32)
    ensures Upr1(Upr1(x)) == Upr2(x) && Upr1(Upr2(x)) == Upr3(x) && Upr2(Upr1(x)) == Upr3(x)
    ensures Upr1(Upr3(x)) == x && Upr3(Upr1(x)) == x
  {
  }

  lemma FwdMcolUpr(x: bv32)
    ensures FwdMcol(Upr1(x)) == Upr1(FwdMcol(x))
  {
    hide GfMulx, Upr1, Upr2, Upr3, Xor;
    var g := GfMulx(x);
    GfMulxUpr(x);
    Upr1Xor(x, g);
    UprUpr(x);
    UprUpr(Xor(x, g));
    Upr1Xor(Xor(g, Upr3(Xor(x, g))), Xor(Upr2(x), Upr1(x)));
    Upr1Xor(g, Upr3(Xor(x, g)));
    Upr1Xor(Upr2(x), Upr1(x));
  }

  lemma InvMcolUpr(x: bv32)
    ensures InvMcol(Upr1(x)) == Upr1(InvMcol(x))
  {
    hide GfMulx, Upr1, Upr2, Upr3, Xor;
    var g2 := GfMulx(x);
    var g4 := GfMulx(g2);
    var g8 := GfMulx(g4);
    var g9 := Xor(x, g8);
    var gd := Xor(g4, g9);
    var u := Xor(g2, g9);
    GfMulxUpr(x);
    GfMulxUpr(g2);
    GfMulxUpr(g4);
    Upr1Xor(x, g8);
    Upr1Xor(g4, g9);
    Upr1Xor(g2, g9);
    UprUpr(u);
    UprUpr(gd);
    UprUpr(g9);
    Upr1Xor(Xor(Xor(x, g2), Xor(gd, Upr3(u))), Xor(Upr2(gd), Upr1(g9)));
    Upr1Xor(Xor(x, g2), Xor(gd, Upr3(u)));
    Upr1Xor(x, g2);
    Upr1Xor(gd, Upr3(u));
    Upr1Xor(Upr2(gd), Upr1(g9));
  }

  /** The multiplications of one byte: f2, f4, f8 of aestab.c, reduced to a byte. */
  function F2(b: bv8): bv8 { (b << 1) ^ ((b >> 7) * 0x1b) }

  function F4(b: bv8): bv8 { F2(F2(b)) }

  function F8(b: bv8): bv8 { F2(F4(b)) }

  function F3(b: bv8): bv8 { F2(b) ^ b }

  function F9(b: bv8): bv8 { F8(b) ^ b }

  function FB(b: bv8): bv8 { F8(b) ^ F2(b) ^ b }

  function FD(b: bv8): bv8 { F8(b) ^ F4(b) ^ b }

  function FE(b: bv8): bv8 { F8(b) ^ F4(b) ^ F2(b) }

  lemma GfMulxByte(b0: bv8, b1: bv8, b2: bv8, b3: bv8)
    ensures GfMulx(BytesToWord(b0, b1, b2, b3)) == BytesToWord(F2(b0), F2(b1), F2(b2), F2(b3))
  {
  }

  /** The first columns of the two tables: u0 and v0 of aestab.c. */
  lemma FwdMcolByte(b: bv8)
    ensures FwdMcol(b as bv32) == BytesToWord(F2(b), b, b, F3(b))
  {
  }

  lemma InvMcolByte(b: bv8)
    ensures InvMcol(b as bv32) == BytesToWord(FE(b), F9(b), FD(b), FB(b))
  {
  }

  lemma InvFwdByte(b: bv8)
    ensures InvMcol(FwdMcol(b as bv32)) == b as bv32
  {
  }

  lemma FwdInvByte(b: bv8)
    ensures FwdMcol(InvMcol(b as bv32)) == b as bv32
  {
  }

  /** A word is the sum of its bytes, each rotated into place. */
  lemma BytesSum(b0: bv8, b1: bv8, b2: bv8, b3: bv8)
    ensures BytesToWord(b0, b1, b2, b3)
      == Xor(Xor(b0 as bv32, Upr1(b1 as bv32)), Xor(Upr2(b2 as bv32), Upr3(b3 as bv32)))
  {
  }

  lemma FwdMcolUprs(x: bv32)
    ensures FwdMcol(Upr2(x)) == Upr2(FwdMcol(x)) && FwdMcol(Upr3(x)) == Upr3(FwdMcol(x))
  {
    hide FwdMcol, Upr1, Upr2, Upr3;
    UprUpr(x);
    UprUpr(FwdMcol(x));
    FwdMcolUpr(x);
    FwdMcolUpr(Upr1(x));
    FwdMcolUpr(Upr2(x));
  }

  lemma InvMcolUprs(x: bv32)
    ensures InvMcol(Upr2(x)) == Upr2(InvMcol(x)) && InvMcol(Upr3(x)) == Upr3(InvMcol(x))
  {
    hide InvMcol, Upr1, Upr2, Upr3;
    UprUpr(x);
    UprUpr(InvMcol(x));
    InvMcolUpr(x);
    InvMcolUpr(Upr1(x));
    InvMcolUpr(Upr2(x));
  }

  lemma InvOnSum(a: bv32, b: bv32, c: bv32, d: bv32)
    ensures InvMcol(Xor(Xor(a, Upr1(b)), Xor(Upr2(c), Upr3(d))))
      == Xor(Xor(InvMcol(a), Upr1(InvMcol(b))), Xor(Upr2(InvMcol(c)), Upr3(InvMcol(d))))
  {
    hide InvMcol, Upr1, Upr2, Upr3, Xor;
    InvMcolXor(Xor(a, Upr1(b)), Xor(Upr2(c), Upr3(d)));
    InvMcolXor(a, Upr1(b));
    InvMcolXor(Upr2(c), Upr3(d));
    InvMcolUpr(b);
    InvMcolUprs(c);
    InvMcolUprs(d);
  }

  lemma FwdOnSum(a: bv32, b: bv32, c: bv32, d: bv32)
    ensures FwdMcol(Xor(Xor(a, Upr1(b)), Xor(Upr2(c), Upr3(d))))
      == Xor(Xor(FwdMcol(a), Upr1(FwdMcol(b))), Xor(Upr2(FwdMcol(c)), Upr3(FwdMcol(d))))
  {
    hide FwdMcol, Upr1, Upr2, Upr3, Xor;
    FwdMcolXor(Xor(a, Upr1(b)), Xor(Upr2(c), Upr3(d)));
    FwdMcolXor(a, Upr1(b));
    FwdMcolXor(Upr2(c), Upr3(d));
    FwdMcolUpr(b);
    FwdMcolUprs(c);
    FwdMcolUprs(d);
  }

  /** `four_tables` with t_fn: the tables of a linear column operation hold its values on single bytes, rotated. */
  lemma FwdMcolTables(b0: bv8, b1: bv8, b2: bv8, b3: bv8)
    ensures FwdMcol(BytesToWord(b0, b1, b2, b3))
      == Xor(Xor(FwdMcol(b0 as bv32), Upr1(FwdMcol(b1 as bv32))),
             Xor(Upr2(FwdMcol(b2 as bv32)), Upr3(FwdMcol(b3 as bv32))))
  {
    hide FwdMcol, Upr1, Upr2, Upr3, Xor, BytesToWord;
    BytesSum(b0, b1, b2, b3);
    FwdOnSum(b0 as bv32, b1 as bv32, b2 as bv32, b3 as bv32);
  }

  /** `four_tables` with t_in or t_im. */
  lemma InvMcolTables(b0: bv8, b1: bv8, b2: bv8, b3: bv8)
    ensures InvMcol(BytesToWord(b0, b1, b2, b3))
      == Xor(Xor(InvMcol(b0 as bv32), Upr1(InvMcol(b1 as bv32))),
             Xor(Upr2(InvMcol(b2 as bv32)), Upr3(InvMcol(b3 as bv32))))
  {
    hide InvMcol, Upr1, Upr2, Upr3, Xor, BytesToWord;
    BytesSum(b0, b1, b2, b3);
    InvOnSum(b0 as bv32, b1 as bv32, b2 as bv32, b3 as bv32);
  }

  /** The two column operations undo each other on every word (FIPS 197, sections 5.1.3 and 5.3.3). */
  lemma McolInverse(x: bv32)
    ensures InvMcol(FwdMcol(x)) == x && FwdMcol(InvMcol(x)) == x
  {
    hide InvMcol, FwdMcol, Upr1, Upr2, Upr3, Xor, BytesToWord;
    var b0, b1, b2, b3 := Byte0(x), Byte1(x), Byte2(x), Byte3(x);
    WordOfBytes(x);
    McolInverseBytes(b0, b1, b2, b3);
  }

  lemma McolInverseBytes(b0: bv8, b1: bv8, b2: bv8, b3: bv8)
    ensures InvMcol(FwdMcol(BytesToWord(b0, b1, b2, b3))) == BytesToWord(b0, b1, b2, b3)
    ensures FwdMcol(InvMcol(BytesToWord(b0, b1, b2, b3))) == BytesToWord(b0, b1, b2, b3)
  {
    hide InvMcol, FwdMcol, Upr1, Upr2, Upr3, Xor, BytesToWord;
    var w0, w1, w2, w3 := b0 as bv32, b1 as bv32, b2 as bv32, b3 as bv32;
    BytesSum(b0, b1, b2, b3);
    FwdMcolTables(b0, b1, b2, b3);
    InvMcolTables(b0, b1, b2, b3);
    InvFwdByte(b0);
    FwdInvByte(b0);
    InvFwdByte(b1);
    FwdInvByte(b1);
    InvFwdByte(b2);
    FwdInvByte(b2);
    InvFwdByte(b3);
    FwdInvByte(b3);
    InvOnSum(FwdMcol(w0), FwdMcol(w1), FwdMcol(w2), FwdMcol(w3));
    FwdOnSum(InvMcol(w0), InvMcol(w1), InvMcol(w2), InvMcol(w3));
  }
}
