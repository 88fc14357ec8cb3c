/** `aes_encrypt` and `aes_decrypt` (guests/trusted/src/aes/aescrypt.c), unrolled and looped, on arrays of columns. */
module AesRounds {
  import opened AesField
  import opened AesCipher

  // ---------- byte buffers ----------

  function ToBlock(b: seq<bv8>): Block
    requires |b| == 16
  {
    Block(BytesToWord(b[0], b[1], b[2], b[3]), BytesToWord(b[4], b[5], b[6], b[7]),
          BytesToWord(b[8], b[9], b[10], b[11]), BytesToWord(b[12], b[13], b[14], b[15]))
  }

  function ColumnBytes(w: bv32): seq<bv8>
  {
    [Byte0(w), Byte1(w), Byte2(w), Byte3(w)]
  }

  function ToBytes(s: Block): (b: seq<bv8>)
    ensures |b| == 16
  {
    ColumnBytes(s.c0) + ColumnBytes(s.c1) + ColumnBytes(s.c2) + ColumnBytes(s.c3)
  }

  lemma BytesRoundTrip(b: seq<bv8>)
    requires |b| == 16
    ensures ToBytes(ToBlock(b)) == b
  {
    hide Byte0, Byte1, Byte2, Byte3, BytesToWord;
    BytesOfWord(b[0], b[1], b[2], b[3]);
    BytesOfWord(b[4], b[5], b[6], b[7]);
    BytesOfWord(b[8], b[9], b[10], b[11]);
    BytesOfWord(b[12], b[13], b[14], b[15]);
  }

  lemma BlockRoundTrip(s: Block)
    ensures ToBlock(ToBytes(s)) == s
  {
    hide Byte0, Byte1, Byte2, Byte3, BytesToWord;
    WordOfBytes(s.c0);
    WordOfBytes(s.c1);
    WordOfBytes(s.c2);
    WordOfBytes(s.c3);
  }

  // ---------- schedules in memory ----------

  function KeyAt(ks: seq<bv32>, k: nat): Block
    requires k + 4 <= |ks|
  {
    Block(ks[k], ks[k + 1], ks[k + 2], ks[k + 3])
  }

  /** The first `n` round keys of a schedule. */
  function RoundKeys(ks: seq<bv32>, n: nat): (rk: seq<Block>)
    requires 4 * n <= |ks|
    ensures |rk| == n
  {
    seq(n, i requires 0 <= i < n => KeyAt(ks, 4 * i))
  }

  predicate KnownRounds(inf: int) { inf == 160 || inf == 192 || inf == 224 }

  // ---------- rounds ----------

  ghost function Columns(a: seq<bv32>): Block
    requires |a| == 4
  {
    Block(a[0], a[1], a[2], a[3])
  }

  function EncColumn(sb: SBox, k: bv32, r0: bv32, r1: bv32, r2: bv32, r3: bv32): bv32
  {
    Xor(k, FourTables((r: int, b) => EncTable(sb.fwd, r, b), r0, r1, r2, r3))
  }

  function DecColumn(sb: SBox, k: bv32, r0: bv32, r1: bv32, r2: bv32, r3: bv32): bv32
  {
    Xor(k, FourTables((r: int, b) => DecTable(sb.inv, r, b), r0, r1, r2, r3))
  }

  function LastColumn(f: bv8 -> bv8, k: bv32, r0: bv32, r1: bv32, r2: bv32, r3: bv32): bv32
  {
    Xor(k, FourTables((r: int, b) => LastTable(f, r, b), r0, r1, r2, r3))
  }

  /** `round(fwd_rnd, y, x, k)`: the columns of `y` from those of `x`. */
  method FwdRound(sb: SBox, y: array<bv32>, x: array<bv32>, ks: array<bv32>, k: nat)
    requires y.Length == 4 && x.Length == 4 && x != y && ks != y && k + 4 <= ks.Length
    modifies y
    ensures Columns(y[..]) == EncRound(sb, Columns(x[..]), KeyAt(ks[..], k))
  {
    hide EncTable, FwdMcol, SubColumn, Gather, Xor, FourTables;
    y[0] := EncColumn(sb, ks[k], x[0], x[1], x[2], x[3]);
    y[1] := EncColumn(sb, ks[k + 1], x[1], x[2], x[3], x[0]);
    y[2] := EncColumn(sb, ks[k + 2], x[2], x[3], x[0], x[1]);
    y[3] := EncColumn(sb, ks[k + 3], x[3], x[0], x[1], x[2]);
    EncTablesAre(sb.fwd, x[0], x[1], x[2], x[3]);
    EncTablesAre(sb.fwd, x[1], x[2], x[3], x[0]);
    EncTablesAre(sb.fwd, x[2], x[3], x[0], x[1]);
    EncTablesAre(sb.fwd, x[3], x[0], x[1], x[2]);
  }

  method FwdLastRound(sb: SBox, y: array<bv32>, x: array<bv32>, ks: array<bv32>, k: nat)
    requires y.Length == 4 && x.Length == 4 && x != y && ks != y && k + 4 <= ks.Length
    modifies y
    ensures Columns(y[..]) == AddRoundKey(ShiftRows(SubBytes(sb.fwd, Columns(x[..]))), KeyAt(ks[..], k))
  {
    hide LastTable, SubColumn, Gather, Xor, FourTables;
    y[0] := LastColumn(sb.fwd, ks[k], x[0], x[1], x[2], x[3]);
    y[1] := LastColumn(sb.fwd, ks[k + 1], x[1], x[2], x[3], x[0]);
    y[2] := LastColumn(sb.fwd, ks[k + 2], x[2], x[3], x[0], x[1]);
    y[3] := LastColumn(sb.fwd, ks[k + 3], x[3], x[0], x[1], x[2]);
    LastTablesAre(sb.fwd, x[0], x[1], x[2], x[3]);
    LastTablesAre(sb.fwd, x[1], x[2], x[3], x[0]);
    LastTablesAre(sb.fwd, x[2], x[3], x[0], x[1]);
    LastTablesAre(sb.fwd, x[3], x[0], x[1], x[2]);
  }

  method InvRound(sb: SBox, y: array<bv32>, x: array<bv32>, ks: array<bv32>, k: nat)
    requires y.Length == 4 && x.Length == 4 && x != y && ks != y && k + 4 <= ks.Length
    modifies y
    ensures Columns(y[..]) == DecRound(sb, Columns(x[..]), KeyAt(ks[..], k))
  {
    hide DecTable, InvMcol, SubColumn, Gather, Xor, FourTables;
    y[0] := DecColumn(sb, ks[k], x[0], x[3], x[2], x[1]);
    y[1] := DecColumn(sb, ks[k + 1], x[1], x[0], x[3], x[2]);
    y[2] := DecColumn(sb, ks[k + 2], x[2], x[1], x[0], x[3]);
    y[3] := DecColumn(sb, ks[k + 3], x[3], x[2], x[1], x[0]);
    DecTablesAre(sb.inv, x[0], x[3], x[2], x[1]);
    DecTablesAre(sb.inv, x[1], x[0], x[3], x[2]);
    DecTablesAre(sb.inv, x[2], x[1], x[0], x[3]);
    DecTablesAre(sb.inv, x[3], x[2], x[1], x[0]);
  }

  method InvLastRound(sb: SBox, y: array<bv32>, x: array<bv32>, ks: array<bv32>, k: nat)
    requires y.Length == 4 && x.Length == 4 && x != y && ks != y && k + 4 <= ks.Length
    modifies y
    ensures Columns(y[..]) == AddRoundKey(InvShiftRows(SubBytes(sb.inv, Columns(x[..]))), KeyAt(ks[..], k))
  {
    hide LastTable, SubColumn, Gather, Xor, FourTables;
    y[0] := LastColumn(sb.inv, ks[k], x[0], x[3], x[2], x[1]);
    y[1] := LastColumn(sb.inv, ks[k + 1], x[1], x[0], x[3], x[2]);
    y[2] := LastColumn(sb.inv, ks[k + 2], x[2], x[1], x[0], x[3]);
    y[3] := LastColumn(sb.inv, ks[k + 3], x[3], x[2], x[1], x[0]);
    LastTablesAre(sb.inv, x[0], x[3], x[2], x[1]);
    LastTablesAre(sb.inv, x[1], x[0], x[3], x[2]);
    LastTablesAre(sb.inv, x[2], x[1], x[0], x[3]);
    LastTablesAre(sb.inv, x[3], x[2], x[1], x[0]);
  }

  /** `state_in`. */
  method StateIn(y: array<bv32>, inp: seq<bv8>, ks: array<bv32>)
    requires y.Length == 4 && |inp| == 16 && ks != y && ks.Length >= 4
    modifies y
    ensures Columns(y[..]) == AddRoundKey(ToBlock(inp), KeyAt(ks[..], 0))
  {
    hide BytesToWord, Xor;
    y[0] := Xor(ks[0], BytesToWord(inp[0], inp[1], inp[2], inp[3]));
    y[1] := Xor(ks[1], BytesToWord(inp[4], inp[5], inp[6], inp[7]));
    y[2] := Xor(ks[2], BytesToWord(inp[8], inp[9], inp[10], inp[11]));
    y[3] := Xor(ks[3], BytesToWord(inp[12], inp[13], inp[14], inp[15]));
  }

  // ---------- the unrolled ciphers ----------

  /** Two lines of the unrolled code: `b1` from `b0`, then `b0` from `b1`. */
  method FwdPair(sb: SBox, b0: array<bv32>, b1: array<bv32>, ks: array<bv32>, ghost rk: seq<Block>, ghost x: Block,
      i: nat, k: nat)
    requires b0.Length == 4 && b1.Length == 4 && b0 != b1 && ks != b0 && ks != b1
    requires k == 4 * (i + 1) && k + 8 <= ks.Length && i + 2 < |rk|
    requires forall j :: 0 <= j < |rk| && 4 * j + 4 <= ks.Length ==> rk[j] == KeyAt(ks[..], 4 * j)
    requires Columns(b0[..]) == EncState(sb, rk, x, i)
    modifies b0, b1
    ensures Columns(b0[..]) == EncState(sb, rk, x, i + 2)
  {
    hide EncRound, Columns;
    FwdRound(sb, b1, b0, ks, k);
    assert rk[i + 1] == KeyAt(ks[..], 4 * (i + 1));
    FwdRound(sb, b0, b1, ks, k + 4);
    assert rk[i + 2] == KeyAt(ks[..], 4 * (i + 2));
  }

  method InvPair(sb: SBox, b0: array<bv32>, b1: array<bv32>, ks: array<bv32>, ghost dk: seq<Block>, ghost y: Block,
      i: nat, k: nat)
    requires b0.Length == 4 && b1.Length == 4 && b0 != b1 && ks != b0 && ks != b1
    requires k == 4 * (i + 1) && k + 8 <= ks.Length && i + 2 < |dk|
    requires forall j :: 0 <= j < |dk| && 4 * j + 4 <= ks.Length ==> dk[j] == KeyAt(ks[..], 4 * j)
    requires Columns(b0[..]) == DecState(sb, dk, y, i)
    modifies b0, b1
    ensures Columns(b0[..]) == DecState(sb, dk, y, i + 2)
  {
    hide DecRound, Columns;
    InvRound(sb, b1, b0, ks, k);
    assert dk[i + 1] == KeyAt(ks[..], 4 * (i + 1));
    InvRound(sb, b0, b1, ks, k + 4);
    assert dk[i + 2] == KeyAt(ks[..], 4 * (i + 2));
  }

  /** The lines after `case 10 * 16` of the encryption. */
  method FwdLastTen(sb: SBox, b0: array<bv32>, b1: array<bv32>, ks: array<bv32>, ghost rk: seq<Block>, ghost x: Block,
      i: nat, kp: nat)
    requires b0.Length == 4 && b1.Length == 4 && b0 != b1 && ks != b0 && ks != b1
    requires kp == 4 * i && kp + 44 <= ks.Length && |rk| == i + 11
    requires forall j :: 0 <= j < |rk| ==> rk[j] == KeyAt(ks[..], 4 * j)
    requires Columns(b0[..]) == EncState(sb, rk, x, i)
    modifies b0, b1
    ensures Columns(b0[..]) == Cipher(sb, rk, x)
  {
    hide EncState, EncRound, Columns, ShiftRows, SubBytes, AddRoundKey, KeyAt;
    FwdPair(sb, b0, b1, ks, rk, x, i, kp + 4);
    FwdPair(sb, b0, b1, ks, rk, x, i + 2, kp + 12);
    FwdPair(sb, b0, b1, ks, rk, x, i + 4, kp + 20);
    FwdPair(sb, b0, b1, ks, rk, x, i + 6, kp + 28);
    FwdRound(sb, b1, b0, ks, kp + 36);
    EncStateNext(sb, rk, x, i + 8);
    assert rk[i + 9] == KeyAt(ks[..], kp + 36);
    FwdLastRound(sb, b0, b1, ks, kp + 40);
    assert rk[i + 10] == KeyAt(ks[..], kp + 40);
  }

  /** The lines after `case 10 * 16` of the decryption, whose keys are addressed backwards from the last. */
  method InvLastTen(sb: SBox, b0: array<bv32>, b1: array<bv32>, ks: array<bv32>, ghost dk: seq<Block>, ghost y: Block,
      i: nat, kp: nat)
    requires b0.Length == 4 && b1.Length == 4 && b0 != b1 && ks != b0 && ks != b1
    requires kp == 4 * i + 40 && kp + 4 <= ks.Length && |dk| == i + 11
    requires forall j :: 0 <= j < |dk| ==> dk[j] == KeyAt(ks[..], 4 * j)
    requires Columns(b0[..]) == DecState(sb, dk, y, i)
    modifies b0, b1
    ensures Columns(b0[..]) == EqInvCipher(sb, dk, y)
  {
    hide DecState, DecRound, Columns, InvShiftRows, SubBytes, AddRoundKey, KeyAt;
    InvPair(sb, b0, b1, ks, dk, y, i, kp - 36);
    InvPair(sb, b0, b1, ks, dk, y, i + 2, kp - 28);
    InvPair(sb, b0, b1, ks, dk, y, i + 4, kp - 20);
    InvPair(sb, b0, b1, ks, dk, y, i + 6, kp - 12);
    InvRound(sb, b1, b0, ks, kp - 4);
    DecStateNext(sb, dk, y, i + 8);
    assert dk[i + 9] == KeyAt(ks[..], kp - 4);
    InvLastRound(sb, b0, b1, ks, kp);
    assert dk[i + 10] == KeyAt(ks[..], kp);
  }

  /** `inf` is sixteen times the number of rounds; any other value is refused. */
  method AesEncrypt(sb: SBox, inp: seq<bv8>, ks: array<bv32>, inf: int) returns (ok: bool, out: seq<bv8>)
    requires |inp| == 16 && ks.Length == 60
    ensures ok <==> inf == 160 || inf == 192 || inf == 224
    ensures ok ==> out == ToBytes(Cipher(sb, RoundKeys(ks[..], inf / 16 + 1), ToBlock(inp)))
  {
    hide EncState, EncRound, ToBlock, Columns, ToBytes, ShiftRows, SubBytes, AddRoundKey, KeyAt;
    if !KnownRounds(inf) {
      return false, [];
    }
    var b0, b1 := new bv32[4], new bv32[4];
    StateIn(b0, inp, ks);
    ghost var rk, x := RoundKeys(ks[..], inf / 16 + 1), ToBlock(inp);
    EncStateStart(sb, rk, x);
    var kp := 0;
    if inf == 224 {
      FwdPair(sb, b0, b1, ks, rk, x, 0, 4);
      kp := 8;
    }
    if inf >= 192 {
      FwdPair(sb, b0, b1, ks, rk, x, kp / 4, kp + 4);
      kp := kp + 8;
    }
    FwdLastTen(sb, b0, b1, ks, rk, x, kp / 4, kp);
    out := StateOut(b0);
    ok := true;
  }

  method AesDecrypt(sb: SBox, inp: seq<bv8>, ks: array<bv32>, inf: int) returns (ok: bool, out: seq<bv8>)
    requires |inp| == 16 && ks.Length == 60
    ensures ok <==> inf == 160 || inf == 192 || inf == 224
    ensures ok ==> out == ToBytes(EqInvCipher(sb, RoundKeys(ks[..], inf / 16 + 1), ToBlock(inp)))
  {
    hide DecState, DecRound, ToBlock, Columns, ToBytes, InvShiftRows, SubBytes, AddRoundKey, KeyAt;
    if !KnownRounds(inf) {
      return false, [];
    }
    var b0, b1 := new bv32[4], new bv32[4];
    StateIn(b0, inp, ks);
    ghost var dk, y := RoundKeys(ks[..], inf / 16 + 1), ToBlock(inp);
    DecStateStart(sb, dk, y);
    var kp := inf / 4; // the round keys are addressed backwards from the last
    if inf == 224 {
      InvPair(sb, b0, b1, ks, dk, y, 0, kp - 52);
    }
    if inf >= 192 {
      InvPair(sb, b0, b1, ks, dk, y, kp / 4 - 12, kp - 44);
    }
    InvLastTen(sb, b0, b1, ks, dk, y, kp / 4 - 10, kp);
    out := StateOut(b0);
    ok := true;
  }

  // ---------- the looped ciphers ----------

  /** The last two rounds of the looped encryptions, from `b0` by way of `b1`. */
  method FwdLastTwo(sb: SBox, b0: array<bv32>, b1: array<bv32>, ks: array<bv32>, ghost rk: seq<Block>, ghost x: Block,
      i: nat)
    requires b0.Length == 4 && b1.Length == 4 && b0 != b1 && ks != b0 && ks != b1
    requires 4 * i + 12 <= ks.Length && |rk| == i + 3
    requires forall j :: 0 <= j < |rk| ==> rk[j] == KeyAt(ks[..], 4 * j)
    requires Columns(b0[..]) == EncState(sb, rk, x, i)
    modifies b0, b1
    ensures Columns(b0[..]) == Cipher(sb, rk, x)
  {
    hide EncState, EncRound, Columns, ShiftRows, SubBytes, AddRoundKey, KeyAt;
    FwdRound(sb, b1, b0, ks, 4 * (i + 1));
    EncStateNext(sb, rk, x, i);
    assert rk[i + 1] == KeyAt(ks[..], 4 * (i + 1));
    FwdLastRound(sb, b0, b1, ks, 4 * (i + 2));
    assert rk[i + 2] == KeyAt(ks[..], 4 * (i + 2));
  }

  /** aes_encrypt with two rounds a turn. */
  method AesEncryptPairs(sb: SBox, inp: seq<bv8>, ks: array<bv32>, inf: int) returns (ok: bool, out: seq<bv8>)
    requires |inp| == 16 && ks.Length == 60
    ensures ok <==> inf == 160 || inf == 192 || inf == 224
    ensures ok ==> out == ToBytes(Cipher(sb, RoundKeys(ks[..], inf / 16 + 1), ToBlock(inp)))
  {
    hide EncState, EncRound, ToBlock, Columns, ToBytes, ShiftRows, SubBytes, AddRoundKey, KeyAt;
    if !KnownRounds(inf) {
      return false, [];
    }
    var b0, b1 := new bv32[4], new bv32[4];
    StateIn(b0, inp, ks);
    ghost var rk, x := RoundKeys(ks[..], inf / 16 + 1), ToBlock(inp);
    EncStateStart(sb, rk, x);
    var kp, rnd := 0, 0;
    while rnd < inf / 32 - 1
      invariant 0 <= rnd <= inf / 32 - 1 && kp == 8 * rnd
      invariant Columns(b0[..]) == EncState(sb, rk, x, 2 * rnd)
    {
      FwdPair(sb, b0, b1, ks, rk, x, 2 * rnd, kp + 4);
      kp, rnd := kp + 8, rnd + 1;
    }
    FwdLastTwo(sb, b0, b1, ks, rk, x, kp / 4);
    out := StateOut(b0);
    ok := true;
  }

  method Copy(b0: array<bv32>, b1: array<bv32>)
    requires b0.Length == 4 && b1.Length == 4
    modifies b0
    ensures b0[..] == old(b1[..])
  {
    b0[0], b0[1], b0[2], b0[3] := b1[0], b1[1], b1[2], b1[3];
  }

  /** aes_encrypt with one round a turn, copied back. */
  method AesEncryptSingles(sb: SBox, inp: seq<bv8>, ks: array<bv32>, inf: int) returns (ok: bool, out: seq<bv8>)
    requires |inp| == 16 && ks.Length == 60
    ensures ok <==> inf == 160 || inf == 192 || inf == 224
    ensures ok ==> out == ToBytes(Cipher(sb, RoundKeys(ks[..], inf / 16 + 1), ToBlock(inp)))
  {
    hide EncState, EncRound, ToBlock, Columns, ToBytes, ShiftRows, SubBytes, AddRoundKey, KeyAt;
    if !KnownRounds(inf) {
      return false, [];
    }
    var b0, b1 := new bv32[4], new bv32[4];
    StateIn(b0, inp, ks);
    ghost var rk, x := RoundKeys(ks[..], inf / 16 + 1), ToBlock(inp);
    EncStateStart(sb, rk, x);
    var kp, rnd := 0, 0;
    while rnd < inf / 16 - 1
      invariant 0 <= rnd <= inf / 16 - 1 && kp == 4 * rnd
      invariant Columns(b0[..]) == EncState(sb, rk, x, rnd)
      invariant rnd > 0 ==> b1[..] == b0[..]
    {
      kp := kp + 4;
      FwdRound(sb, b1, b0, ks, kp);
      EncStateNext(sb, rk, x, rnd);
      assert rk[rnd + 1] == KeyAt(ks[..], kp);
      Copy(b0, b1);
      rnd := rnd + 1;
    }
    kp := kp + 4;
    FwdLastRound(sb, b0, b1, ks, kp);
    assert rk[rnd + 1] == KeyAt(ks[..], kp);
    out := StateOut(b0);
    ok := true;
  }

  method InvLastTwo(sb: SBox, b0: array<bv32>, b1: array<bv32>, ks: array<bv32>, ghost dk: seq<Block>, ghost y: Block,
      i: nat)
    requires b0.Length == 4 && b1.Length == 4 && b0 != b1 && ks != b0 && ks != b1
    requires 4 * i + 12 <= ks.Length && |dk| == i + 3
    requires forall j :: 0 <= j < |dk| ==> dk[j] == KeyAt(ks[..], 4 * j)
    requires Columns(b0[..]) == DecState(sb, dk, y, i)
    modifies b0, b1
    ensures Columns(b0[..]) == EqInvCipher(sb, dk, y)
  {
    hide DecState, DecRound, Columns, InvShiftRows, SubBytes, AddRoundKey, KeyAt;
    InvRound(sb, b1, b0, ks, 4 * (i + 1));
    DecStateNext(sb, dk, y, i);
    assert dk[i + 1] == KeyAt(ks[..], 4 * (i + 1));
    InvLastRound(sb, b0, b1, ks, 4 * (i + 2));
    assert dk[i + 2] == KeyAt(ks[..], 4 * (i + 2));
  }

  /** aes_decrypt with two rounds a turn. */
  method AesDecryptPairs(sb: SBox, inp: seq<bv8>, ks: array<bv32>, inf: int) returns (ok: bool, out: seq<bv8>)
    requires |inp| == 16 && ks.Length == 60
    ensures ok <==> inf == 160 || inf == 192 || inf == 224
    ensures ok ==> out == ToBytes(EqInvCipher(sb, RoundKeys(ks[..], inf / 16 + 1), ToBlock(inp)))
  {
    hide DecState, DecRound, ToBlock, Columns, ToBytes, InvShiftRows, SubBytes, AddRoundKey, KeyAt;
    if !KnownRounds(inf) {
      return false, [];
    }
    var b0, b1 := new bv32[4], new bv32[4];
    StateIn(b0, inp, ks);
    ghost var dk, y := RoundKeys(ks[..], inf / 16 + 1), ToBlock(inp);
    DecStateStart(sb, dk, y);
    var kp, rnd := 0, 0;
    while rnd < inf / 32 - 1
      invariant 0 <= rnd <= inf / 32 - 1 && kp == 8 * rnd
      invariant Columns(b0[..]) == DecState(sb, dk, y, 2 * rnd)
    {
      InvPair(sb, b0, b1, ks, dk, y, 2 * rnd, kp + 4);
      kp, rnd := kp + 8, rnd + 1;
    }
    InvLastTwo(sb, b0, b1, ks, dk, y, kp / 4);
    out := StateOut(b0);
    ok := true;
  }

  /** aes_decrypt with one round a turn, copied back. */
  method AesDecryptSingles(sb: SBox, inp: seq<bv8>, ks: array<bv32>, inf: int) returns (ok: bool, out: seq<bv8>)
    requires |inp| == 16 && ks.Length == 60
    ensures ok <==> inf == 160 || inf == 192 || inf == 224
    ensures ok ==> out == ToBytes(EqInvCipher(sb, RoundKeys(ks[..], inf / 16 + 1), ToBlock(inp)))
  {
    hide DecState, DecRound, ToBlock, Columns, ToBytes, InvShiftRows, SubBytes, AddRoundKey, KeyAt;
    if !KnownRounds(inf) {
      return false, [];
    }
    var b0, b1 := new bv32[4], new bv32[4];
    StateIn(b0, inp, ks);
    ghost var dk, y := RoundKeys(ks[..], inf / 16 + 1), ToBlock(inp);
    DecStateStart(sb, dk, y);
    var kp, rnd := 0, 0;
    while rnd < inf / 16 - 1
      invariant 0 <= rnd <= inf / 16 - 1 && kp == 4 * rnd
      invariant Columns(b0[..]) == DecState(sb, dk, y, rnd)
      invariant rnd > 0 ==> b1[..] == b0[..]
    {
      kp := kp + 4;
      InvRound(sb, b1, b0, ks, kp);
      DecStateNext(sb, dk, y, rnd);
      assert dk[rnd + 1] == KeyAt(ks[..], kp);
      Copy(b0, b1);
      rnd := rnd + 1;
    }
    kp := kp + 4;
    InvLastRound(sb, b0, b1, ks, kp);
    assert dk[rnd + 1] == KeyAt(ks[..], kp);
    out := StateOut(b0);
    ok := true;
  }

  lemma EncStateStart(sb: SBox, rk: seq<Block>, x: Block)
    requires |rk| > 0
    ensures EncState(sb, rk, x, 0) == AddRoundKey(x, rk[0])
  {
  }

  lemma EncStateNext(sb: SBox, rk: seq<Block>, x: Block, i: nat)
    requires i + 1 < |rk|
    ensures EncState(sb, rk, x, i + 1) == EncRound(sb, EncState(sb, rk, x, i), rk[i + 1])
  {
  }

  lemma DecStateStart(sb: SBox, dk: seq<Block>, y: Block)
    requires |dk| > 0
    ensures DecState(sb, dk, y, 0) == AddRoundKey(y, dk[0])
  {
  }

  lemma DecStateNext(sb: SBox, dk: seq<Block>, y: Block, i: nat)
    requires i + 1 < |dk|
    ensures DecState(sb, dk, y, i + 1) == DecRound(sb, DecState(sb, dk, y, i), dk[i + 1])
  {
  }

  /** `state_out`. */
  method StateOut(x: array<bv32>) returns (out: seq<bv8>)
    requires x.Length == 4
    ensures out == ToBytes(Columns(x[..]))
  {
    hide ColumnBytes;
    out := ColumnBytes(x[0]) + ColumnBytes(x[1]) + ColumnBytes(x[2]) + ColumnBytes(x[3]);
  }
}
