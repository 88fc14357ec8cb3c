/**
  The cipher byte by byte, in the terms of FIPS 197: byte 4c + r of a block is
  in row r and column c (section 3.4), a round takes row r of column c from
  column c + r (section 5.1.2) and mixes columns by the matrix of section
  5.1.3, and bytes multiply as polynomials modulo x^8 + x^4 + x^3 + x + 1
  (section 4.2).
*/
module AesStandard {
  import opened AesBytes
  import opened AesField
  import opened AesCipher
  import opened AesRounds
  import opened AesKeys
  import Bits

  // ---------- the field ----------

  /** The product in GF(2^8) of `b` and the polynomial whose coefficients are the bits of `k`. */
  function Times(k: nat, b: bv8): bv8
  {
    if k == 0 then 0
    else if k % 2 == 1 then Mix(b, F2(Times(k / 2, b)))
    else F2(Times(k / 2, b))
  }

  /** Doubling is multiplication by x, reduced by {01}{1b}. */
  lemma DoubleIs(b: bv8)
    ensures Times(1, b) == b && Times(2, b) == F2(b)
    ensures F2(b) as bv16 == ((b as bv16) << 1) ^ (if b & 0x80 == 0 then 0 else 0x11b)
  {
    assert F2(0) == 0;
    assert Times(1, b) == Mix(b, F2(Times(0, b)));
  }

  lemma DoubleXor(a: bv8, b: bv8)
    ensures F2(a ^ b) == F2(a) ^ F2(b)
  {
  }

  /** The factors of the two column matrices. */
  lemma TimesFactors(b: bv8)
    ensures Times(2, b) == F2(b) && Times(3, b) == F3(b)
    ensures Times(9, b) == F9(b) && Times(0xb, b) == FB(b) && Times(0xd, b) == FD(b) && Times(0xe, b) == FE(b)
  {
    DoubleIs(b);
    Halves(b);
    Factors(b);
    hide F2, F3, F9, FB, FD, FE, Times;
  }

  lemma Factors(b: bv8)
    ensures F3(b) == Mix(b, F2(b)) && F9(b) == Mix(b, F2(F2(F2(b)))) && FB(b) == Mix(b, F2(Mix(b, F2(F2(b)))))
    ensures FD(b) == Mix(b, F2(F2(Mix(b, F2(b))))) && FE(b) == F2(Mix(b, F2(Mix(b, F2(b)))))
  {
  }

  lemma Halves(b: bv8)
    ensures Times(3, b) == Mix(b, F2(b)) && Times(4, b) == F2(F2(b))
    ensures Times(9, b) == Mix(b, F2(F2(F2(b)))) && Times(0xb, b) == Mix(b, F2(Mix(b, F2(F2(b)))))
    ensures Times(0xd, b) == Mix(b, F2(F2(Mix(b, F2(b))))) && Times(0xe, b) == F2(Mix(b, F2(Mix(b, F2(b)))))
  {
    DoubleIs(b);
    hide F2, Mix;
    assert Times(3, b) == Mix(b, F2(b));
    assert Times(4, b) == F2(F2(b));
    assert Times(7, b) == Mix(b, F2(Times(3, b)));
  }

  // ---------- blocks ----------

  /** Row `r` of column `c`. */
  function At(s: seq<bv8>, r: nat, c: nat): bv8
    requires |s| == 16 && r < 4 && c < 4
  {
    s[4 * c + r]
  }

  function Col(s: Block, c: nat): bv32
  {
    if c == 0 then s.c0 else if c == 1 then s.c1 else if c == 2 then s.c2 else s.c3
  }

  function ByteOf(w: bv32, r: nat): bv8
  {
    if r == 0 then Byte0(w) else if r == 1 then Byte1(w) else if r == 2 then Byte2(w) else Byte3(w)
  }

  lemma FourFours(a: seq<bv8>, b: seq<bv8>, c: seq<bv8>, d: seq<bv8>, r: nat)
    requires |a| == |b| == |c| == |d| == 4 && r < 4
    ensures var s := a + b + c + d;
      |s| == 16 && s[r] == a[r] && s[4 + r] == b[r] && s[8 + r] == c[r] && s[12 + r] == d[r]
  {
  }

  lemma ColumnByte(w: bv32, r: nat)
    requires r < 4
    ensures |ColumnBytes(w)| == 4 && ColumnBytes(w)[r] == ByteOf(w, r)
  {
    hide Byte0, Byte1, Byte2, Byte3;
  }

  lemma BytesAre(s: Block, r: nat, c: nat)
    requires r < 4 && c < 4
    ensures At(ToBytes(s), r, c) == ByteOf(Col(s, c), r)
  {
    hide Byte0, Byte1, Byte2, Byte3, ByteOf, ColumnBytes;
    ColumnByte(s.c0, r);
    ColumnByte(s.c1, r);
    ColumnByte(s.c2, r);
    ColumnByte(s.c3, r);
    FourFours(ColumnBytes(s.c0), ColumnBytes(s.c1), ColumnBytes(s.c2), ColumnBytes(s.c3), r);
  }

  /** The columns of a block of bytes (section 3.4). */
  lemma BlockOfBytes(b: seq<bv8>, r: nat, c: nat)
    requires |b| == 16 && r < 4 && c < 4
    ensures ByteOf(Col(ToBlock(b), c), r) == b[4 * c + r]
  {
    hide ToBlock, ToBytes, ByteOf, Col;
    BytesAre(ToBlock(b), r, c);
    BytesRoundTrip(b);
  }

  lemma XorBytewise(x: bv32, y: bv32, z: bv32)
    requires z == x ^ y
    ensures Byte0(z) == Mix(Byte0(x), Byte0(y)) && Byte1(z) == Mix(Byte1(x), Byte1(y))
    ensures Byte2(z) == Mix(Byte2(x), Byte2(y)) && Byte3(z) == Mix(Byte3(x), Byte3(y))
  {
  }

  lemma ByteOfXor(x: bv32, y: bv32, r: nat)
    requires r < 4
    ensures ByteOf(Xor(x, y), r) == Mix(ByteOf(x, r), ByteOf(y, r))
  {
    hide Byte0, Byte1, Byte2, Byte3, Mix;
    XorBytewise(x, y, Xor(x, y));
  }

  lemma UprByte(x: bv32, r: nat)
    requires r < 4
    ensures ByteOf(Upr1(x), r) == ByteOf(x, (r + 3) % 4)
    ensures ByteOf(Upr2(x), r) == ByteOf(x, (r + 2) % 4)
    ensures ByteOf(Upr3(x), r) == ByteOf(x, (r + 1) % 4)
  {
    hide Byte0, Byte1, Byte2, Byte3, Upr1, Upr2, Upr3;
    UprBytes(x);
  }

  lemma UprBytes(x: bv32)
    ensures Byte0(Upr1(x)) == Byte3(x) && Byte1(Upr1(x)) == Byte0(x)
    ensures Byte2(Upr1(x)) == Byte1(x) && Byte3(Upr1(x)) == Byte2(x)
    ensures Byte0(Upr2(x)) == Byte2(x) && Byte1(Upr2(x)) == Byte3(x)
    ensures Byte2(Upr2(x)) == Byte0(x) && Byte3(Upr2(x)) == Byte1(x)
    ensures Byte0(Upr3(x)) == Byte1(x) && Byte1(Upr3(x)) == Byte2(x)
    ensures Byte2(Upr3(x)) == Byte3(x) && Byte3(Upr3(x)) == Byte0(x)
  {
  }

  lemma GfMulxByteOf(x: bv32, r: nat)
    requires r < 4
    ensures ByteOf(GfMulx(x), r) == F2(ByteOf(x, r))
  {
    hide Byte0, Byte1, Byte2, Byte3, GfMulx, F2, BytesToWord;
    WordOfBytes(x);
    GfMulxByte(Byte0(x), Byte1(x), Byte2(x), Byte3(x));
    BytesOfWord(F2(Byte0(x)), F2(Byte1(x)), F2(Byte2(x)), F2(Byte3(x)));
  }

  /** Section 5.1.3. */
  lemma FwdMcolBytes(w: bv32, r: nat)
    requires r < 4
    ensures ByteOf(FwdMcol(w), r) ==
      Mix(Mix(Times(2, ByteOf(w, r)), Times(3, ByteOf(w, (r + 1) % 4))),
          Mix(ByteOf(w, (r + 2) % 4), ByteOf(w, (r + 3) % 4)))
  {
    hide GfMulx, Upr1, Upr2, Upr3, Xor, F2, ByteOf, Mix, Times;
    var g, a, b := GfMulx(w), ByteOf(w, r), ByteOf(w, (r + 1) % 4);
    ByteOfXor(Xor(g, Upr3(Xor(w, g))), Xor(Upr2(w), Upr1(w)), r);
    ByteOfXor(g, Upr3(Xor(w, g)), r);
    ByteOfXor(Upr2(w), Upr1(w), r);
    UprByte(w, r);
    UprByte(Xor(w, g), r);
    ByteOfXor(w, g, (r + 1) % 4);
    GfMulxByteOf(w, r);
    GfMulxByteOf(w, (r + 1) % 4);
    TimesFactors(a);
    TimesFactors(b);
    ThreeIs(b);
  }

  lemma ThreeIs(b: bv8)
    ensures F3(b) == Mix(b, F2(b))
  {
  }

  /** Section 5.3.3. */
  lemma InvMcolBytes(w: bv32, r: nat)
    requires r < 4
    ensures ByteOf(InvMcol(w), r) ==
      Mix(Mix(Times(0xe, ByteOf(w, r)), Times(0xb, ByteOf(w, (r + 1) % 4))),
          Mix(Times(0xd, ByteOf(w, (r + 2) % 4)), Times(9, ByteOf(w, (r + 3) % 4))))
  {
    hide GfMulx, Upr1, Upr2, Upr3, Xor, F2, F3, F9, FB, FD, FE, ByteOf, Mix, Times;
    var g2 := GfMulx(w);
    var g4 := GfMulx(g2);
    var g8 := GfMulx(g4);
    var g9 := Xor(w, g8);
    var gd := Xor(g4, g9);
    ByteOfXor(Xor(Xor(w, g2), Xor(gd, Upr3(Xor(g2, g9)))), Xor(Upr2(gd), Upr1(g9)), r);
    ByteOfXor(Xor(w, g2), Xor(gd, Upr3(Xor(g2, g9))), r);
    ByteOfXor(w, g2, r);
    ByteOfXor(gd, Upr3(Xor(g2, g9)), r);
    ByteOfXor(Upr2(gd), Upr1(g9), r);
    UprByte(Xor(g2, g9), r);
    UprByte(gd, r);
    UprByte(g9, r);
    Multiples(w, r);
    Multiples(w, (r + 1) % 4);
    Multiples(w, (r + 2) % 4);
    Multiples(w, (r + 3) % 4);
    InvSum(ByteOf(w, r));
  }

  /** The bytes of the intermediate words of inv_mcol. */
  lemma Multiples(w: bv32, r: nat)
    requires r < 4
    ensures var g2 := GfMulx(w); var g4 := GfMulx(g2); var g9 := Xor(w, GfMulx(g4)); var b := ByteOf(w, r);
      && ByteOf(g2, r) == F2(b) && ByteOf(g9, r) == F9(b) && ByteOf(Xor(g4, g9), r) == FD(b)
      && ByteOf(Xor(g2, g9), r) == FB(b)
      && Times(9, b) == F9(b) && Times(0xb, b) == FB(b) && Times(0xd, b) == FD(b) && Times(0xe, b) == FE(b)
  {
    hide GfMulx, Xor, F2, F3, F9, FB, FD, FE, ByteOf, Mix, Times;
    var g2 := GfMulx(w);
    var g4 := GfMulx(g2);
    var g8 := GfMulx(g4);
    var b := ByteOf(w, r);
    GfMulxByteOf(w, r);
    GfMulxByteOf(g2, r);
    GfMulxByteOf(g4, r);
    ByteOfXor(w, g8, r);
    ByteOfXor(g4, Xor(w, g8), r);
    ByteOfXor(g2, Xor(w, g8), r);
    TimesFactors(b);
    MultipleSums(b);
  }

  lemma MultipleSums(b: bv8)
    ensures F9(b) == Mix(b, F2(F2(F2(b)))) && FD(b) == Mix(F2(F2(b)), F9(b)) && FB(b) == Mix(F2(b), F9(b))
  {
  }

  lemma InvSum(b: bv8)
    ensures forall x, y: bv8 ::
      Mix(Mix(Mix(b, F2(b)), Mix(FD(b), x)), y) == Mix(Mix(FE(b), x), y)
  {
    assert Mix(Mix(b, F2(b)), FD(b)) == FE(b);
    hide F2, FD, FE;
    forall x, y: bv8
      ensures Mix(Mix(Mix(b, F2(b)), Mix(FD(b), x)), y) == Mix(Mix(FE(b), x), y)
    {
      MixFour(b, F2(b), FD(b), x);
    }
  }

  lemma MixFour(a: bv8, b: bv8, c: bv8, d: bv8)
    ensures Mix(Mix(a, b), Mix(c, d)) == Mix(Mix(Mix(a, b), c), d)
  {
  }

  // ---------- the rounds ----------

  lemma ColumnsNumbered(s: Block)
    ensures Col(s, 0) == s.c0 && Col(s, 1) == s.c1 && Col(s, 2) == s.c2 && Col(s, 3) == s.c3
  {
  }

  /** The columns that a column of the shifted state is gathered from. */
  lemma ShiftedColumns(s: Block, c: nat)
    requires c < 4
    ensures Col(ShiftRows(s), c) == Gather(Col(s, c), Col(s, (c + 1) % 4), Col(s, (c + 2) % 4), Col(s, (c + 3) % 4))
    ensures Col(InvShiftRows(s), c) == Gather(Col(s, c), Col(s, (c + 3) % 4), Col(s, (c + 2) % 4), Col(s, (c + 1) % 4))
  {
    hide Gather, ShiftRows, InvShiftRows, Col;
    ColumnsShifted(s);
    ColumnsNumbered(s);
    ColumnsNumbered(ShiftRows(s));
    ColumnsNumbered(InvShiftRows(s));
    if c == 0 {
      assert (c + 1) % 4 == 1 && (c + 2) % 4 == 2 && (c + 3) % 4 == 3;
    } else if c == 1 {
      assert (c + 1) % 4 == 2 && (c + 2) % 4 == 3 && (c + 3) % 4 == 0;
    } else if c == 2 {
      assert (c + 1) % 4 == 3 && (c + 2) % 4 == 0 && (c + 3) % 4 == 1;
    } else {
      assert c == 3 && (c + 1) % 4 == 0 && (c + 2) % 4 == 1 && (c + 3) % 4 == 2;
    }
  }

  lemma ColumnsShifted(s: Block)
    ensures var u := ShiftRows(s);
      && u.c0 == Gather(s.c0, s.c1, s.c2, s.c3) && u.c1 == Gather(s.c1, s.c2, s.c3, s.c0)
      && u.c2 == Gather(s.c2, s.c3, s.c0, s.c1) && u.c3 == Gather(s.c3, s.c0, s.c1, s.c2)
    ensures var v := InvShiftRows(s);
      && v.c0 == Gather(s.c0, s.c3, s.c2, s.c1) && v.c1 == Gather(s.c1, s.c0, s.c3, s.c2)
      && v.c2 == Gather(s.c2, s.c1, s.c0, s.c3) && v.c3 == Gather(s.c3, s.c2, s.c1, s.c0)
  {
    hide Gather;
  }

  lemma GatherByte(a: bv32, b: bv32, c: bv32, d: bv32, r: nat)
    requires r < 4
    ensures ByteOf(Gather(a, b, c, d), r)
      == ByteOf(if r == 0 then a else if r == 1 then b else if r == 2 then c else d, r)
  {
    hide Byte0, Byte1, Byte2, Byte3, Gather;
    GatherBytes(a, b, c, d);
  }

  /** Section 5.1.2: row `r` moves left by `r`, and right in the inverse. */
  lemma ShiftRowsBytes(s: Block, r: nat, c: nat)
    requires r < 4 && c < 4
    ensures ToBytes(ShiftRows(s))[4 * c + r] == ToBytes(s)[4 * ((c + r) % 4) + r]
    ensures ToBytes(InvShiftRows(s))[4 * c + r] == ToBytes(s)[4 * ((c + 4 - r) % 4) + r]
  {
    hide ByteOf, Gather, ToBytes, Col;
    BytesAre(ShiftRows(s), r, c);
    BytesAre(InvShiftRows(s), r, c);
    BytesAre(s, r, (c + r) % 4);
    BytesAre(s, r, (c + 4 - r) % 4);
    ShiftedColumns(s, c);
    GatherByte(Col(s, c), Col(s, (c + 1) % 4), Col(s, (c + 2) % 4), Col(s, (c + 3) % 4), r);
    GatherByte(Col(s, c), Col(s, (c + 3) % 4), Col(s, (c + 2) % 4), Col(s, (c + 1) % 4), r);
  }

  lemma SubByte(f: bv8 -> bv8, w: bv32, r: nat)
    requires r < 4
    ensures ByteOf(SubColumn(f, w), r) == f(ByteOf(w, r))
  {
    hide Byte0, Byte1, Byte2, Byte3, SubColumn;
    SubColumnBytes(f, w);
  }

  lemma SubstitutedColumn(f: bv8 -> bv8, s: Block, c: nat)
    requires c < 4
    ensures Col(SubBytes(f, s), c) == SubColumn(f, Col(s, c))
  {
    hide SubColumn;
  }

  /** Sections 5.1.1 and 5.1.2 together. */
  lemma MovedByte(f: bv8 -> bv8, s: Block, r: nat, c: nat)
    requires r < 4 && c < 4
    ensures ByteOf(Col(ShiftRows(SubBytes(f, s)), c), r) == f(At(ToBytes(s), r, (c + r) % 4))
    ensures ByteOf(Col(InvShiftRows(SubBytes(f, s)), c), r) == f(At(ToBytes(s), r, (c + 4 - r) % 4))
  {
    hide ByteOf, ToBytes, Col, ShiftRows, InvShiftRows, SubBytes, SubColumn;
    var u := SubBytes(f, s);
    var left, right := (c + r) % 4, (c + 4 - r) % 4;
    ShiftRowsBytes(u, r, c);
    BytesAre(ShiftRows(u), r, c);
    BytesAre(InvShiftRows(u), r, c);
    BytesAre(u, r, left);
    BytesAre(u, r, right);
    SubstitutedColumn(f, s, left);
    SubstitutedColumn(f, s, right);
    SubByte(f, Col(s, left), r);
    SubByte(f, Col(s, right), r);
    BytesAre(s, r, left);
    BytesAre(s, r, right);
  }

  lemma KeyedColumn(s: Block, k: Block, c: nat)
    requires c < 4
    ensures Col(AddRoundKey(s, k), c) == Xor(Col(k, c), Col(s, c))
    ensures Col(MixColumns(s), c) == FwdMcol(Col(s, c)) && Col(InvMixColumns(s), c) == InvMcol(Col(s, c))
  {
    hide Xor, FwdMcol, InvMcol;
  }

  /** Section 5.1.4. */
  lemma KeyedByte(s: Block, k: Block, r: nat, c: nat)
    requires r < 4 && c < 4
    ensures At(ToBytes(AddRoundKey(s, k)), r, c) == Mix(At(ToBytes(k), r, c), At(ToBytes(s), r, c))
  {
    hide ByteOf, ToBytes, Col, AddRoundKey, Xor, Mix;
    KeyedColumn(s, k, c);
    BytesAre(AddRoundKey(s, k), r, c);
    BytesAre(s, r, c);
    BytesAre(k, r, c);
    ByteOfXor(Col(k, c), Col(s, c), r);
  }

  /** A round of the cipher, byte by byte. */
  lemma EncRoundBytes(sb: SBox, s: Block, k: Block, r: nat, c: nat)
    requires r < 4 && c < 4
    ensures var b, p, q, t := ToBytes(s), (r + 1) % 4, (r + 2) % 4, (r + 3) % 4;
      At(ToBytes(EncRound(sb, s, k)), r, c) == Mix(At(ToBytes(k), r, c),
        Mix(Mix(Times(2, sb.fwd(At(b, r, (c + r) % 4))), Times(3, sb.fwd(At(b, p, (c + p) % 4)))),
            Mix(sb.fwd(At(b, q, (c + q) % 4)), sb.fwd(At(b, t, (c + t) % 4)))))
  {
    hide ByteOf, ToBytes, Col, ShiftRows, SubBytes, MixColumns, AddRoundKey, Times, Mix, FwdMcol, At;
    var u := ShiftRows(SubBytes(sb.fwd, s));
    KeyedByte(MixColumns(u), k, r, c);
    KeyedColumn(u, k, c);
    BytesAre(MixColumns(u), r, c);
    FwdMcolBytes(Col(u, c), r);
    MovedByte(sb.fwd, s, r, c);
    MovedByte(sb.fwd, s, (r + 1) % 4, c);
    MovedByte(sb.fwd, s, (r + 2) % 4, c);
    MovedByte(sb.fwd, s, (r + 3) % 4, c);
  }

  /** A round of the equivalent inverse cipher. */
  lemma DecRoundBytes(sb: SBox, s: Block, k: Block, r: nat, c: nat)
    requires r < 4 && c < 4
    ensures var b, p, q, t := ToBytes(s), (r + 1) % 4, (r + 2) % 4, (r + 3) % 4;
      At(ToBytes(DecRound(sb, s, k)), r, c) == Mix(At(ToBytes(k), r, c),
        Mix(Mix(Times(0xe, sb.inv(At(b, r, (c + 4 - r) % 4))), Times(0xb, sb.inv(At(b, p, (c + 4 - p) % 4)))),
            Mix(Times(0xd, sb.inv(At(b, q, (c + 4 - q) % 4))), Times(9, sb.inv(At(b, t, (c + 4 - t) % 4))))))
  {
    hide ByteOf, ToBytes, Col, InvShiftRows, SubBytes, InvMixColumns, AddRoundKey, Times, Mix, InvMcol, At;
    var u := InvShiftRows(SubBytes(sb.inv, s));
    KeyedByte(InvMixColumns(u), k, r, c);
    KeyedColumn(u, k, c);
    BytesAre(InvMixColumns(u), r, c);
    InvMcolBytes(Col(u, c), r);
    MovedByte(sb.inv, s, r, c);
    MovedByte(sb.inv, s, (r + 1) % 4, c);
    MovedByte(sb.inv, s, (r + 2) % 4, c);
    MovedByte(sb.inv, s, (r + 3) % 4, c);
  }

  /** The last rounds, which do not mix columns. */
  lemma LastRoundBytes(f: bv8 -> bv8, s: Block, k: Block, r: nat, c: nat)
    requires r < 4 && c < 4
    ensures At(ToBytes(AddRoundKey(ShiftRows(SubBytes(f, s)), k)), r, c)
      == Mix(At(ToBytes(k), r, c), f(At(ToBytes(s), r, (c + r) % 4)))
    ensures At(ToBytes(AddRoundKey(InvShiftRows(SubBytes(f, s)), k)), r, c)
      == Mix(At(ToBytes(k), r, c), f(At(ToBytes(s), r, (c + 4 - r) % 4)))
  {
    hide ByteOf, ToBytes, Col, ShiftRows, InvShiftRows, SubBytes, AddRoundKey, Mix, At;
    var u, v := ShiftRows(SubBytes(f, s)), InvShiftRows(SubBytes(f, s));
    KeyedByte(u, k, r, c);
    KeyedByte(v, k, r, c);
    BytesAre(u, r, c);
    BytesAre(v, r, c);
    MovedByte(f, s, r, c);
  }

  // ---------- the whole cipher ----------

  /** One byte of a round of section 5.1 from state `b` to state `d` under the key `k`. */
  ghost predicate RoundByte(f: bv8 -> bv8, b: seq<bv8>, k: seq<bv8>, d: seq<bv8>, r: nat, c: nat)
    requires |b| == |k| == |d| == 16 && r < 4 && c < 4
  {
    var p, q, t := (r + 1) % 4, (r + 2) % 4, (r + 3) % 4;
    At(d, r, c) == Mix(At(k, r, c),
      Mix(Mix(Times(2, f(At(b, r, (c + r) % 4))), Times(3, f(At(b, p, (c + p) % 4)))),
          Mix(f(At(b, q, (c + q) % 4)), f(At(b, t, (c + t) % 4)))))
  }

  ghost predicate LastByte(f: bv8 -> bv8, b: seq<bv8>, k: seq<bv8>, d: seq<bv8>, r: nat, c: nat)
    requires |b| == |k| == |d| == 16 && r < 4 && c < 4
  {
    At(d, r, c) == Mix(At(k, r, c), f(At(b, r, (c + r) % 4)))
  }

  ghost predicate RoundStep(f: bv8 -> bv8, b: seq<bv8>, k: seq<bv8>, d: seq<bv8>)
    requires |b| == |k| == |d| == 16
  {
    forall r: nat, c: nat :: r < 4 && c < 4 ==> RoundByte(f, b, k, d, r, c)
  }

  ghost predicate LastStep(f: bv8 -> bv8, b: seq<bv8>, k: seq<bv8>, d: seq<bv8>)
    requires |b| == |k| == |d| == 16
  {
    forall r: nat, c: nat :: r < 4 && c < 4 ==> LastByte(f, b, k, d, r, c)
  }

  lemma SameBytes(a: seq<bv8>, b: seq<bv8>)
    requires |a| == |b| == 16
    requires forall r: nat, c: nat :: r < 4 && c < 4 ==> At(a, r, c) == At(b, r, c)
    ensures a == b
  {
    forall i | 0 <= i < 16
      ensures a[i] == b[i]
    {
      assert At(a, i % 4, i / 4) == At(b, i % 4, i / 4);
    }
  }

  /**
    Whatever states follow the standard's pseudo code of section 5.1 from the
    input, with the bytes of the round keys in turn, the last of them is what
    the cipher returns.
  */
  lemma CipherFollows(sb: SBox, rk: seq<Block>, inp: seq<bv8>, st: seq<seq<bv8>>)
    requires |st| == |rk| >= 2 && |inp| == 16 && forall i :: 0 <= i < |st| ==> |st[i]| == 16
    requires forall j :: 0 <= j < 16 ==> st[0][j] == Mix(ToBytes(rk[0])[j], inp[j])
    requires forall i :: 0 < i < |st| - 1 ==> RoundStep(sb.fwd, st[i - 1], ToBytes(rk[i]), st[i])
    requires LastStep(sb.fwd, st[|st| - 2], ToBytes(rk[|rk| - 1]), st[|st| - 1])
    ensures ToBytes(Cipher(sb, rk, ToBlock(inp))) == st[|st| - 1]
  {
    hide ToBytes, ToBlock, EncRound, AddRoundKey, ShiftRows, SubBytes, Mix, At, EncState;
    var n := |rk| - 1;
    StatesFollow(sb, rk, inp, st, n - 1);
    var s := EncState(sb, rk, ToBlock(inp), n - 1);
    var out := ToBytes(Cipher(sb, rk, ToBlock(inp)));
    forall r: nat, c: nat | r < 4 && c < 4
      ensures At(out, r, c) == At(st[n], r, c)
    {
      LastRoundBytes(sb.fwd, s, rk[n], r, c);
      assert LastByte(sb.fwd, st[n - 1], ToBytes(rk[n]), st[n], r, c);
    }
    SameBytes(out, st[n]);
  }

  lemma {:induction false} StatesFollow(sb: SBox, rk: seq<Block>, inp: seq<bv8>, st: seq<seq<bv8>>, m: nat)
    requires m < |st| - 1 && |st| == |rk| && |inp| == 16 && forall i :: 0 <= i < |st| ==> |st[i]| == 16
    requires forall j :: 0 <= j < 16 ==> st[0][j] == Mix(ToBytes(rk[0])[j], inp[j])
    requires forall i :: 0 < i < |st| - 1 ==> RoundStep(sb.fwd, st[i - 1], ToBytes(rk[i]), st[i])
    ensures ToBytes(EncState(sb, rk, ToBlock(inp), m)) == st[m]
  {
    hide ToBytes, ToBlock, EncRound, AddRoundKey, Mix, At, Times;
    var out := ToBytes(EncState(sb, rk, ToBlock(inp), m));
    if m == 0 {
      BytesRoundTrip(inp);
      forall r: nat, c: nat | r < 4 && c < 4
        ensures At(out, r, c) == At(st[0], r, c)
      {
        KeyedByte(ToBlock(inp), rk[0], r, c);
        FirstByte(ToBytes(rk[0]), inp, st[0], r, c);
      }
    } else {
      StatesFollow(sb, rk, inp, st, m - 1);
      forall r: nat, c: nat | r < 4 && c < 4
        ensures At(out, r, c) == At(st[m], r, c)
      {
        EncRoundBytes(sb, EncState(sb, rk, ToBlock(inp), m - 1), rk[m], r, c);
        assert RoundByte(sb.fwd, st[m - 1], ToBytes(rk[m]), st[m], r, c);
      }
    }
    SameBytes(out, st[m]);
  }

  lemma FirstByte(k: seq<bv8>, inp: seq<bv8>, d: seq<bv8>, r: nat, c: nat)
    requires |k| == |inp| == |d| == 16 && r < 4 && c < 4
    requires forall j :: 0 <= j < 16 ==> d[j] == Mix(k[j], inp[j])
    ensures At(d, r, c) == Mix(At(k, r, c), At(inp, r, c))
  {
  }

  // ---------- the key expansion ----------

  /** Round key `i` is words 4i to 4i + 3 of the schedule. */
  lemma RoundKeyBytes(ks: seq<bv32>, n: nat, i: nat, r: nat, c: nat)
    requires 4 * n <= |ks| && i < n && r < 4 && c < 4
    ensures At(ToBytes(RoundKeys(ks, n)[i]), r, c) == ByteOf(ks[4 * i + c], r)
  {
    hide ByteOf, ToBytes, At;
    BytesAre(RoundKeys(ks, n)[i], r, c);
  }

  /** The round constants of section 5.2. */
  lemma RoundConstants()
    ensures RconByte(0) == 0x01 && RconByte(1) == 0x02 && RconByte(2) == 0x04 && RconByte(3) == 0x08
    ensures RconByte(4) == 0x10 && RconByte(5) == 0x20 && RconByte(6) == 0x40 && RconByte(7) == 0x80
    ensures RconByte(8) == 0x1b && RconByte(9) == 0x36
    ensures forall i: nat :: i > 0 ==> RconByte(i) == Times(2, RconByte(i - 1))
  {
    assert RconByte(0) == 1;
    assert RconByte(1) == 2;
    assert RconByte(2) == 4;
    assert RconByte(3) == 8;
    assert RconByte(4) == 0x10;
    assert RconByte(5) == 0x20;
    assert RconByte(6) == 0x40;
    assert RconByte(7) == 0x80;
    assert RconByte(8) == 0x1b;
    forall i: nat | i > 0
      ensures RconByte(i) == Times(2, RconByte(i - 1))
    {
      DoubleIs(RconByte(i - 1));
    }
  }

  lemma RotatedByte(x: bv32, r: nat)
    requires r < 4
    ensures ByteOf(RotWord(x), r) == ByteOf(x, (r + 1) % 4)
  {
    hide Byte0, Byte1, Byte2, Byte3, BytesToWord;
    BytesOfWord(Byte1(x), Byte2(x), Byte3(x), Byte0(x));
  }

  lemma ConstantByte(i: nat, r: nat)
    requires r < 4
    ensures ByteOf(Rcon(i), r) == if r == 0 then RconByte(i) else 0
  {
    hide Byte0, Byte1, Byte2, Byte3, BytesToWord;
    BytesOfWord(RconByte(i), 0, 0, 0);
  }

  /** Byte `r` of word `i` of the expanded key, figure 11 of section 5.2. */
  lemma KeyWordBytes(f: bv8 -> bv8, key: seq<bv32>, i: nat, r: nat)
    requires |key| >= 4 && r < 4
    ensures i < |key| ==> KeyWord(f, key, i) == key[i]
    ensures i >= |key| ==>
      var back, prev := KeyWord(f, key, i - |key|), KeyWord(f, key, i - 1);
      ByteOf(KeyWord(f, key, i), r) == Mix(ByteOf(back, r),
        if i % |key| == 0 then Mix(f(ByteOf(prev, (r + 1) % 4)), if r == 0 then RconByte(i / |key| - 1) else 0)
        else if |key| > 6 && i % |key| == 4 then f(ByteOf(prev, r))
        else ByteOf(prev, r))
  {
    hide ByteOf, SubColumn, RotWord, Rcon, Xor, Mix, RconByte;
    if i >= |key| {
      var back, prev := KeyWord(f, key, i - |key|), KeyWord(f, key, i - 1);
      SubByte(f, RotWord(prev), r);
      SubByte(f, prev, r);
      RotatedByte(prev, r);
      if i % |key| == 0 {
        Bits.MulAtLeast(1, |key|);
        ConstantByte(i / |key| - 1, r);
        ByteOfXor(SubColumn(f, RotWord(prev)), Rcon(i / |key| - 1), r);
        ByteOfXor(back, Xor(SubColumn(f, RotWord(prev)), Rcon(i / |key| - 1)), r);
      } else if |key| > 6 && i % |key| == 4 {
        ByteOfXor(back, SubColumn(f, prev), r);
      } else {
        ByteOfXor(back, prev, r);
      }
    }
  }
}
