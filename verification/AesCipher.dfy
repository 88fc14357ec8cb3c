/**
  The cipher and the equivalent inverse cipher (FIPS 197, sections 5.1 and
  5.3.5) over an arbitrary S-box, the table-driven rounds of
  guests/trusted/src/aes/aescrypt.c, and the proof that decryption undoes
  encryption for any key schedule.
*/
module AesCipher {
  import opened AesField

  /** The state: four columns, each a word whose lowest byte is row 0. */
  datatype Block = Block(c0: bv32, c1: bv32, c2: bv32, c3: bv32)

  datatype SBox = SBox(fwd: bv8 -> bv8, inv: bv8 -> bv8)

  ghost predicate Bijective(sb: SBox)
  {
    forall b :: sb.inv(sb.fwd(b)) == b
  }

  // ---------- FIPS 197 ----------

  function SubColumn(f: bv8 -> bv8, x: bv32): bv32
  {
    BytesToWord(f(Byte0(x)), f(Byte1(x)), f(Byte2(x)), f(Byte3(x)))
  }

  function SubBytes(f: bv8 -> bv8, s: Block): Block
  {
    Block(SubColumn(f, s.c0), SubColumn(f, s.c1), SubColumn(f, s.c2), SubColumn(f, s.c3))
  }

  /** The column with its rows taken from four columns. */
  function Gather(r0: bv32, r1: bv32, r2: bv32, r3: bv32): bv32
  {
    BytesToWord(Byte0(r0), Byte1(r1), Byte2(r2), Byte3(r3))
  }

  function ShiftRows(s: Block): Block
  {
    Block(Gather(s.c0, s.c1, s.c2, s.c3), Gather(s.c1, s.c2, s.c3, s.c0),
          Gather(s.c2, s.c3, s.c0, s.c1), Gather(s.c3, s.c0, s.c1, s.c2))
  }

  function InvShiftRows(s: Block): Block
  {
    Block(Gather(s.c0, s.c3, s.c2, s.c1), Gather(s.c1, s.c0, s.c3, s.c2),
          Gather(s.c2, s.c1, s.c0, s.c3), Gather(s.c3, s.c2, s.c1, s.c0))
  }

  function MixColumns(s: Block): Block
  {
    Block(FwdMcol(s.c0), FwdMcol(s.c1), FwdMcol(s.c2), FwdMcol(s.c3))
  }

  function InvMixColumns(s: Block): Block
  {
    Block(InvMcol(s.c0), InvMcol(s.c1), InvMcol(s.c2), InvMcol(s.c3))
  }

  function AddRoundKey(s: Block, k: Block): Block
  {
    Block(Xor(k.c0, s.c0), Xor(k.c1, s.c1), Xor(k.c2, s.c2), Xor(k.c3, s.c3))
  }

  function EncRound(sb: SBox, s: Block, k: Block): Block
  {
    AddRoundKey(MixColumns(ShiftRows(SubBytes(sb.fwd, s))), k)
  }

  function DecRound(sb: SBox, s: Block, k: Block): Block
  {
    AddRoundKey(InvMixColumns(InvShiftRows(SubBytes(sb.inv, s))), k)
  }

  /** The state after the initial key addition and `i` full rounds. */
  function EncState(sb: SBox, rk: seq<Block>, x: Block, i: nat): Block
    requires i < |rk|
  {
    if i == 0 then AddRoundKey(x, rk[0]) else EncRound(sb, EncState(sb, rk, x, i - 1), rk[i])
  }

  function DecState(sb: SBox, dk: seq<Block>, y: Block, i: nat): Block
    requires i < |dk|
  {
    if i == 0 then AddRoundKey(y, dk[0]) else DecRound(sb, DecState(sb, dk, y, i - 1), dk[i])
  }

  /** Encryption with round keys `rk`: the last round has no column mixing. */
  function Cipher(sb: SBox, rk: seq<Block>, x: Block): Block
    requires |rk| >= 2
  {
    AddRoundKey(ShiftRows(SubBytes(sb.fwd, EncState(sb, rk, x, |rk| - 2))), rk[|rk| - 1])
  }

  function EqInvCipher(sb: SBox, dk: seq<Block>, y: Block): Block
    requires |dk| >= 2
  {
    AddRoundKey(InvShiftRows(SubBytes(sb.inv, DecState(sb, dk, y, |dk| - 2))), dk[|dk| - 1])
  }

  /** `dk` is the schedule `rk` reversed, with the inner round keys column-mixed. */
  ghost predicate Reversed(rk: seq<Block>, dk: seq<Block>)
  {
    && |dk| == |rk| >= 2
    && forall i :: 0 <= i < |dk| ==>
      dk[i] == if i == 0 || i == |dk| - 1 then rk[|dk| - 1 - i] else InvMixColumns(rk[|dk| - 1 - i])
  }

  // ---------- decryption undoes encryption ----------

  lemma GatherBytes(a: bv32, b: bv32, c: bv32, d: bv32)
    ensures Byte0(Gather(a, b, c, d)) == Byte0(a) && Byte1(Gather(a, b, c, d)) == Byte1(b)
    ensures Byte2(Gather(a, b, c, d)) == Byte2(c) && Byte3(Gather(a, b, c, d)) == Byte3(d)
  {
    BytesOfWord(Byte0(a), Byte1(b), Byte2(c), Byte3(d));
  }

  lemma RowsUndone(s: Block)
    ensures InvShiftRows(ShiftRows(s)) == s
  {
    hide Byte0, Byte1, Byte2, Byte3, BytesToWord;
    GatherBytes(s.c0, s.c1, s.c2, s.c3);
    GatherBytes(s.c1, s.c2, s.c3, s.c0);
    GatherBytes(s.c2, s.c3, s.c0, s.c1);
    GatherBytes(s.c3, s.c0, s.c1, s.c2);
    WordOfBytes(s.c0);
    WordOfBytes(s.c1);
    WordOfBytes(s.c2);
    WordOfBytes(s.c3);
  }

  lemma SubColumnBytes(f: bv8 -> bv8, x: bv32)
    ensures Byte0(SubColumn(f, x)) == f(Byte0(x)) && Byte1(SubColumn(f, x)) == f(Byte1(x))
    ensures Byte2(SubColumn(f, x)) == f(Byte2(x)) && Byte3(SubColumn(f, x)) == f(Byte3(x))
  {
    hide Byte0, Byte1, Byte2, Byte3, BytesToWord;
    BytesOfWord(f(Byte0(x)), f(Byte1(x)), f(Byte2(x)), f(Byte3(x)));
  }

  /** Substitution acts byte by byte, so it commutes with moving bytes. */
  lemma SubGather(f: bv8 -> bv8, a: bv32, b: bv32, c: bv32, d: bv32)
    ensures SubColumn(f, Gather(a, b, c, d))
      == Gather(SubColumn(f, a), SubColumn(f, b), SubColumn(f, c), SubColumn(f, d))
  {
    hide Byte0, Byte1, Byte2, Byte3, BytesToWord;
    GatherBytes(a, b, c, d);
    SubColumnBytes(f, a);
    SubColumnBytes(f, b);
    SubColumnBytes(f, c);
    SubColumnBytes(f, d);
  }

  lemma SubUndoneColumn(sb: SBox, x: bv32)
    requires Bijective(sb)
    ensures SubColumn(sb.inv, SubColumn(sb.fwd, x)) == x
  {
    hide Byte0, Byte1, Byte2, Byte3, BytesToWord;
    SubColumnBytes(sb.fwd, x);
    WordOfBytes(x);
  }

  lemma SubUndone(sb: SBox, s: Block)
    requires Bijective(sb)
    ensures SubBytes(sb.inv, SubBytes(sb.fwd, s)) == s
  {
    hide SubColumn;
    SubUndoneColumn(sb, s.c0);
    SubUndoneColumn(sb, s.c1);
    SubUndoneColumn(sb, s.c2);
    SubUndoneColumn(sb, s.c3);
  }

  lemma SubInvShiftRows(f: bv8 -> bv8, s: Block)
    ensures InvShiftRows(SubBytes(f, s)) == SubBytes(f, InvShiftRows(s))
  {
    hide SubColumn, Gather;
    SubGather(f, s.c0, s.c3, s.c2, s.c1);
    SubGather(f, s.c1, s.c0, s.c3, s.c2);
    SubGather(f, s.c2, s.c1, s.c0, s.c3);
    SubGather(f, s.c3, s.c2, s.c1, s.c0);
  }

  lemma RowsAndBytesUndone(sb: SBox, s: Block)
    requires Bijective(sb)
    ensures InvShiftRows(SubBytes(sb.inv, ShiftRows(SubBytes(sb.fwd, s)))) == s
  {
    hide SubBytes, ShiftRows, InvShiftRows;
    var u := SubBytes(sb.fwd, s);
    SubInvShiftRows(sb.inv, ShiftRows(u));
    RowsUndone(u);
    SubUndone(sb, s);
  }

  lemma KeyUndone(s: Block, k: Block)
    ensures AddRoundKey(AddRoundKey(s, k), k) == s
  {
    hide Xor;
    Cancel(s.c0, k.c0);
    Cancel(s.c1, k.c1);
    Cancel(s.c2, k.c2);
    Cancel(s.c3, k.c3);
  }

  /** Undoing the columns of a mixed state under a mixed key. */
  lemma ColumnsUndone(s: Block, k: Block)
    ensures AddRoundKey(InvMixColumns(AddRoundKey(MixColumns(s), k)), InvMixColumns(k)) == s
  {
    hide InvMcol, FwdMcol, Xor;
    ColumnUndone(s.c0, k.c0);
    ColumnUndone(s.c1, k.c1);
    ColumnUndone(s.c2, k.c2);
    ColumnUndone(s.c3, k.c3);
  }

  lemma ColumnUndone(c: bv32, k: bv32)
    ensures Xor(InvMcol(k), InvMcol(Xor(k, FwdMcol(c)))) == c
  {
    hide InvMcol, FwdMcol, Xor;
    InvMcolXor(k, FwdMcol(c));
    McolInverse(c);
    XorLaws(InvMcol(k), InvMcol(k), c);
    XorLaws(c, 0, 0);
  }

  /** After `i` rounds the inverse cipher holds the substituted and shifted state of `i + 1` rounds before the end. */
  lemma {:induction false} DecStateUndoes(sb: SBox, rk: seq<Block>, dk: seq<Block>, x: Block, i: nat)
    requires Bijective(sb) && Reversed(rk, dk) && i <= |rk| - 2
    ensures DecState(sb, dk, Cipher(sb, rk, x), i)
      == ShiftRows(SubBytes(sb.fwd, EncState(sb, rk, x, |rk| - 2 - i)))
  {
    hide SubBytes, ShiftRows, InvShiftRows, MixColumns, InvMixColumns, AddRoundKey;
    var n := |rk| - 1;
    if i == 0 {
      KeyUndone(ShiftRows(SubBytes(sb.fwd, EncState(sb, rk, x, n - 1))), rk[n]);
    } else {
      DecStateUndoes(sb, rk, dk, x, i - 1);
      var s := EncState(sb, rk, x, n - i);
      RowsAndBytesUndone(sb, s);
      var t := EncState(sb, rk, x, n - 1 - i);
      ColumnsUndone(ShiftRows(SubBytes(sb.fwd, t)), rk[n - i]);
    }
  }

  /** Decryption undoes encryption: every block, every schedule of any length, every invertible S-box. */
  lemma DecryptUndoesEncrypt(sb: SBox, rk: seq<Block>, dk: seq<Block>, x: Block)
    requires Bijective(sb) && Reversed(rk, dk)
    ensures EqInvCipher(sb, dk, Cipher(sb, rk, x)) == x
  {
    hide SubBytes, ShiftRows, InvShiftRows, AddRoundKey, Cipher, DecState;
    var n := |rk| - 1;
    DecStateUndoes(sb, rk, dk, x, n - 1);
    var s := EncState(sb, rk, x, 0);
    RowsAndBytesUndone(sb, s);
    KeyUndone(x, rk[0]);
  }

  // ---------- the tables of aestab.c ----------

  /** t_fn: the macros u0..u3 applied to the S-box. */
  function EncTable(f: bv8 -> bv8, row: int, x: bv8): bv32
  {
    var p := f(x);
    if row == 0 then BytesToWord(F2(p), p, p, F3(p))
    else if row == 1 then BytesToWord(F3(p), F2(p), p, p)
    else if row == 2 then BytesToWord(p, F3(p), F2(p), p)
    else BytesToWord(p, p, F3(p), F2(p))
  }

  /** t_in: v0..v3 applied to the inverse S-box; with the identity it is t_im. */
  function DecTable(f: bv8 -> bv8, row: int, x: bv8): bv32
  {
    var p := f(x);
    if row == 0 then BytesToWord(FE(p), F9(p), FD(p), FB(p))
    else if row == 1 then BytesToWord(FB(p), FE(p), F9(p), FD(p))
    else if row == 2 then BytesToWord(FD(p), FB(p), FE(p), F9(p))
    else BytesToWord(F9(p), FD(p), FB(p), FE(p))
  }

  /** t_fl and t_il: w0..w3. */
  function LastTable(f: bv8 -> bv8, row: int, x: bv8): bv32
  {
    var p := f(x);
    if row == 0 then BytesToWord(p, 0, 0, 0)
    else if row == 1 then BytesToWord(0, p, 0, 0)
    else if row == 2 then BytesToWord(0, 0, p, 0)
    else BytesToWord(0, 0, 0, p)
  }

  /** `four_tables`: row r is looked up with byte r of its source column. */
  function FourTables(tab: (int, bv8) -> bv32, r0: bv32, r1: bv32, r2: bv32, r3: bv32): bv32
  {
    Xor(Xor(tab(0, Byte0(r0)), tab(1, Byte1(r1))), Xor(tab(2, Byte2(r2)), tab(3, Byte3(r3))))
  }

  lemma TableRows(a: bv8, b: bv8, c: bv8, d: bv8)
    ensures Upr1(BytesToWord(a, b, c, d)) == BytesToWord(d, a, b, c)
    ensures Upr2(BytesToWord(a, b, c, d)) == BytesToWord(c, d, a, b)
    ensures Upr3(BytesToWord(a, b, c, d)) == BytesToWord(b, c, d, a)
  {
    hide Upr1, Upr2, Upr3, BytesToWord;
    TableRow(a, b, c, d);
    TableRow(d, a, b, c);
    TableRow(c, d, a, b);
    UprUpr(BytesToWord(a, b, c, d));
  }

  lemma TableRow(a: bv8, b: bv8, c: bv8, d: bv8)
    ensures Upr1(BytesToWord(a, b, c, d)) == BytesToWord(d, a, b, c)
  {
  }

  lemma EncTableIs(f: bv8 -> bv8, x: bv8)
    ensures var w := FwdMcol(f(x) as bv32);
      EncTable(f, 0, x) == w && EncTable(f, 1, x) == Upr1(w) && EncTable(f, 2, x) == Upr2(w)
        && EncTable(f, 3, x) == Upr3(w)
  {
    hide FwdMcol, Upr1, Upr2, Upr3, BytesToWord, F2, F3;
    var p := f(x);
    FwdMcolByte(p);
    TableRows(F2(p), p, p, F3(p));
  }

  lemma DecTableIs(f: bv8 -> bv8, x: bv8)
    ensures var w := InvMcol(f(x) as bv32);
      DecTable(f, 0, x) == w && DecTable(f, 1, x) == Upr1(w) && DecTable(f, 2, x) == Upr2(w)
        && DecTable(f, 3, x) == Upr3(w)
  {
    hide InvMcol, Upr1, Upr2, Upr3, BytesToWord, FE, F9, FD, FB;
    var p := f(x);
    InvMcolByte(p);
    TableRows(FE(p), F9(p), FD(p), FB(p));
  }

  /** A round by table lookup is substitution, row gathering and column mixing at once. */
  lemma EncTablesAre(f: bv8 -> bv8, r0: bv32, r1: bv32, r2: bv32, r3: bv32)
    ensures FourTables((r, b) => EncTable(f, r, b), r0, r1, r2, r3)
      == FwdMcol(Gather(SubColumn(f, r0), SubColumn(f, r1), SubColumn(f, r2), SubColumn(f, r3)))
  {
    hide FwdMcol, Upr1, Upr2, Upr3, BytesToWord, Byte0, Byte1, Byte2, Byte3, Xor, EncTable, SubColumn;
    var b0, b1, b2, b3 := Byte0(r0), Byte1(r1), Byte2(r2), Byte3(r3);
    EncTableIs(f, b0);
    EncTableIs(f, b1);
    EncTableIs(f, b2);
    EncTableIs(f, b3);
    SubColumnBytes(f, r0);
    SubColumnBytes(f, r1);
    SubColumnBytes(f, r2);
    SubColumnBytes(f, r3);
    FwdMcolTables(f(b0), f(b1), f(b2), f(b3));
  }

  lemma DecTablesAre(f: bv8 -> bv8, r0: bv32, r1: bv32, r2: bv32, r3: bv32)
    ensures FourTables((r, b) => DecTable(f, r, b), r0, r1, r2, r3)
      == InvMcol(Gather(SubColumn(f, r0), SubColumn(f, r1), SubColumn(f, r2), SubColumn(f, r3)))
  {
    hide InvMcol, Upr1, Upr2, Upr3, BytesToWord, Byte0, Byte1, Byte2, Byte3, Xor, DecTable, SubColumn;
    var b0, b1, b2, b3 := Byte0(r0), Byte1(r1), Byte2(r2), Byte3(r3);
    DecTableIs(f, b0);
    DecTableIs(f, b1);
    DecTableIs(f, b2);
    DecTableIs(f, b3);
    SubColumnBytes(f, r0);
    SubColumnBytes(f, r1);
    SubColumnBytes(f, r2);
    SubColumnBytes(f, r3);
    InvMcolTables(f(b0), f(b1), f(b2), f(b3));
  }

  lemma LastSum(a: bv8, b: bv8, c: bv8, d: bv8)
    ensures Xor(Xor(BytesToWord(a, 0, 0, 0), BytesToWord(0, b, 0, 0)),
                Xor(BytesToWord(0, 0, c, 0), BytesToWord(0, 0, 0, d))) == BytesToWord(a, b, c, d)
  {
  }

  lemma LastTablesAre(f: bv8 -> bv8, r0: bv32, r1: bv32, r2: bv32, r3: bv32)
    ensures FourTables((r, b) => LastTable(f, r, b), r0, r1, r2, r3)
      == Gather(SubColumn(f, r0), SubColumn(f, r1), SubColumn(f, r2), SubColumn(f, r3))
  {
    hide BytesToWord, Byte0, Byte1, Byte2, Byte3, Xor, SubColumn;
    SubColumnBytes(f, r0);
    SubColumnBytes(f, r1);
    SubColumnBytes(f, r2);
    SubColumnBytes(f, r3);
    LastSum(f(Byte0(r0)), f(Byte1(r1)), f(Byte2(r2)), f(Byte3(r3)));
  }
}
