/**
  Encryption key schedules (guests/trusted/src/aes/aeskey.c) against the key
  expansion of FIPS 197, section 5.2, and what they share with the decryption
  schedules of `AesDecKeys`: the working words that each macro line rolls on.
*/
module AesKeys {
  import opened AesField
  import opened AesCipher
  import opened AesRounds
  import Bits

  // ---------- FIPS 197, section 5.2 ----------

  function RotWord(x: bv32): bv32
  {
    BytesToWord(Byte1(x), Byte2(x), Byte3(x), Byte0(x))
  }

  function RconByte(i: nat): bv8
  {
    if i == 0 then 1 else F2(RconByte(i - 1))
  }

  /** t_rc[i]. */
  function Rcon(i: nat): bv32
  {
    BytesToWord(RconByte(i), 0, 0, 0)
  }

  /** Word `i` of the expanded key; `f` is the S-box, `key` has 4, 6 or 8 words. */
  function KeyWord(f: bv8 -> bv8, key: seq<bv32>, i: nat): bv32
    requires |key| >= 4
  {
    var nk := |key|;
    if i < nk then key[i]
    else
      var t := KeyWord(f, key, i - 1);
      var u :=
        if i % nk == 0 then Xor(SubColumn(f, RotWord(t)), Rcon(i / nk - 1))
        else if nk > 6 && i % nk == 4 then SubColumn(f, t)
        else t;
      Xor(KeyWord(f, key, i - nk), u)
  }

  /** `ls_box(x, c)`: the last-round tables read with the byte order `rf2` of column `c`. */
  function LsBox3(f: bv8 -> bv8, x: bv32): bv32
  {
    Xor(Xor(LastTable(f, 0, Byte1(x)), LastTable(f, 1, Byte2(x))),
      Xor(LastTable(f, 2, Byte3(x)), LastTable(f, 3, Byte0(x))))
  }

  function LsBox0(f: bv8 -> bv8, x: bv32): bv32
  {
    Xor(Xor(LastTable(f, 0, Byte0(x)), LastTable(f, 1, Byte1(x))),
      Xor(LastTable(f, 2, Byte2(x)), LastTable(f, 3, Byte3(x))))
  }

  lemma LsBoxIs(f: bv8 -> bv8, x: bv32)
    ensures LsBox3(f, x) == SubColumn(f, RotWord(x)) && LsBox0(f, x) == SubColumn(f, x)
  {
    hide BytesToWord, Byte0, Byte1, Byte2, Byte3, Xor;
    LastSum(f(Byte1(x)), f(Byte2(x)), f(Byte3(x)), f(Byte0(x)));
    LastSum(f(Byte0(x)), f(Byte1(x)), f(Byte2(x)), f(Byte3(x)));
    BytesOfWord(Byte1(x), Byte2(x), Byte3(x), Byte0(x));
  }

  /** The mask that starts group `i` of expanded words: words `nk * i + nk` on. */
  function Mask(f: bv8 -> bv8, key: seq<bv32>, i: nat): bv32
    requires |key| >= 4
  {
    Xor(LsBox3(f, KeyWord(f, key, |key| * i + |key| - 1)), Rcon(i))
  }

  lemma PlainWord(f: bv8 -> bv8, key: seq<bv32>, g: nat, c: nat)
    requires |key| >= 4 && 1 <= c < |key| && !(|key| > 6 && c == 4)
    ensures g * |key| + |key| > 0
    ensures KeyWord(f, key, g * |key| + |key| + c)
      == Xor(KeyWord(f, key, g * |key| + c), KeyWord(f, key, g * |key| + |key| - 1 + c))
  {
    Bits.Split(g + 1, |key|, c);
    assert (g + 1) * |key| + c == g * |key| + |key| + c;
  }

  lemma FirstWord(f: bv8 -> bv8, key: seq<bv32>, g: nat)
    requires |key| >= 4
    ensures g * |key| + |key| > 0 && |key| * g >= 0
    ensures KeyWord(f, key, g * |key| + |key|) == Xor(KeyWord(f, key, g * |key|), Mask(f, key, g))
  {
    hide LsBox3, SubColumn, RotWord, Rcon, Xor;
    Bits.Split(g + 1, |key|, 0);
    assert (g + 1) * |key| == g * |key| + |key|;
    LsBoxIs(f, KeyWord(f, key, g * |key| + |key| - 1));
  }

  lemma MiddleWord(f: bv8 -> bv8, key: seq<bv32>, g: nat)
    requires |key| == 8
    ensures KeyWord(f, key, 8 * g + 12) == Xor(KeyWord(f, key, 8 * g + 4), LsBox0(f, KeyWord(f, key, 8 * g + 11)))
  {
    hide LsBox0, SubColumn, RotWord, Rcon, Xor;
    Bits.Split(g + 1, 8, 4);
    LsBoxIs(f, KeyWord(f, key, 8 * g + 11));
  }

  // ---------- the macro lines, for every key size ----------

  ghost predicate Expanded(f: bv8 -> bv8, key: seq<bv32>, ks: seq<bv32>, m: nat)
    requires |key| >= 4
  {
    m <= |ks| && forall j :: 0 <= j < m ==> ks[j] == KeyWord(f, key, j)
  }

  /** `ss` holds the words from `base` on, the first `k` of them already replaced by those of the next group. */
  ghost predicate Rolled(f: bv8 -> bv8, key: seq<bv32>, ss: seq<bv32>, base: nat, k: nat)
    requires |key| >= 4
  {
    |ss| >= |key| && forall c :: 0 <= c < |key| ==>
      ss[c] == KeyWord(f, key, if c < k then base + |key| + c else base + c)
  }

  /**
    The first word of a group: the previous group's last word, rotated and
    substituted, and the round constant are xored in.
  */
  method MaskLine(f: bv8 -> bv8, ghost key: seq<bv32>, ss: array<bv32>, nk: nat, g: nat, ghost base: nat)
    requires |key| == nk >= 4 && base == g * |key| && ss.Length >= nk
    requires Rolled(f, key, ss[..], base, 0)
    modifies ss
    ensures Rolled(f, key, ss[..], base, 1)
    ensures forall c :: nk <= c < ss.Length ==> ss[c] == old(ss[c])
  {
    hide KeyWord, LsBox3, Rcon, Xor;
    ss[0] := Xor(ss[0], Xor(LsBox3(f, ss[nk - 1]), Rcon(g)));
    FirstWord(f, key, g);
  }

  /** A following word: the one before it is xored in. */
  method ChainLine(f: bv8 -> bv8, ghost key: seq<bv32>, ss: array<bv32>, nk: nat, ghost g: nat, ghost base: nat, c: nat)
    requires |key| == nk >= 4 && base == g * |key| && ss.Length >= nk
    requires 1 <= c < nk && !(nk > 6 && c == 4)
    requires Rolled(f, key, ss[..], base, c)
    modifies ss
    ensures Rolled(f, key, ss[..], base, c + 1)
    ensures forall d :: nk <= d < ss.Length ==> ss[d] == old(ss[d])
  {
    hide KeyWord, Xor;
    ss[c] := Xor(ss[c], ss[c - 1]);
    PlainWord(f, key, g, c);
  }

  /** The fifth word of a 256-bit group: the one before it is xored in substituted, without rotation. */
  method MiddleLine(f: bv8 -> bv8, ghost key: seq<bv32>, ss: array<bv32>, ghost g: nat, ghost base: nat)
    requires |key| == 8 && base == g * |key| && ss.Length >= 8
    requires Rolled(f, key, ss[..], base, 4)
    modifies ss
    ensures Rolled(f, key, ss[..], base, 5)
    ensures forall d :: 8 <= d < ss.Length ==> ss[d] == old(ss[d])
  {
    hide KeyWord, LsBox0, Xor;
    ss[4] := Xor(ss[4], LsBox0(f, ss[3]));
    MiddleWord(f, key, g);
  }

  lemma NextGroup(f: bv8 -> bv8, key: seq<bv32>, ss: seq<bv32>, base: nat)
    requires |key| >= 4 && Rolled(f, key, ss, base, |key|)
    ensures Rolled(f, key, ss, base + |key|, 0)
  {
  }

  // ---------- encryption schedules ----------

  /** An encryption macro line stores the working word in the next place of the schedule. */
  method PutEnc(f: bv8 -> bv8, ghost key: seq<bv32>, ks: array<bv32>, ss: array<bv32>, ghost base: nat, p: nat, c: nat)
    requires |key| >= 4 && p < ks.Length && ks != ss && c < |key| && p == base + |key| + c
    requires Expanded(f, key, ks[..], p) && Rolled(f, key, ss[..], base, c + 1)
    modifies ks
    ensures Expanded(f, key, ks[..], p + 1)
  {
    hide KeyWord;
    ks[p] := ss[c];
  }

  /** `ke4`, `kef6` and `kef8`: the first four words of group `g`. */
  method EncHead(f: bv8 -> bv8, ghost key: seq<bv32>, ks: array<bv32>, ss: array<bv32>, nk: nat, g: nat, base: nat)
    requires |key| == nk >= 4 && base == g * |key| && ks != ss && ss.Length == nk && base + nk + 4 <= ks.Length
    requires Expanded(f, key, ks[..], base + nk) && Rolled(f, key, ss[..], base, 0)
    modifies ks, ss
    ensures Expanded(f, key, ks[..], base + nk + 4) && Rolled(f, key, ss[..], base, 4)
  {
    MaskLine(f, key, ss, nk, g, base);
    PutEnc(f, key, ks, ss, base, base + nk, 0);
    ChainLine(f, key, ss, nk, g, base, 1);
    PutEnc(f, key, ks, ss, base, base + nk + 1, 1);
    ChainLine(f, key, ss, nk, g, base, 2);
    PutEnc(f, key, ks, ss, base, base + nk + 2, 2);
    ChainLine(f, key, ss, nk, g, base, 3);
    PutEnc(f, key, ks, ss, base, base + nk + 3, 3);
  }

  method LoadKey(f: bv8 -> bv8, key: seq<bv32>, ks: array<bv32>, ss: array<bv32>)
    requires |key| >= 4 && ks != ss && ss.Length >= |key| && ks.Length >= |key|
    modifies ks, ss
    ensures Expanded(f, key, ks[..], |key|) && Rolled(f, key, ss[..], 0, 0)
  {
    for c := 0 to |key|
      invariant forall j :: 0 <= j < c ==> ks[j] == ss[j] == key[j]
    {
      ss[c] := key[c];
      ks[c] := key[c];
    }
  }

  /** `aes_encrypt_key128`. */
  method EncryptKey128(f: bv8 -> bv8, key: seq<bv32>, ks: array<bv32>) returns (inf: int)
    requires |key| == 4 && ks.Length == 60
    modifies ks
    ensures inf == 10 * 16 && Expanded(f, key, ks[..], 44)
  {
    hide Rolled, KeyWord;
    var ss := new bv32[4];
    LoadKey(f, key, ks, ss);
    for i := 0 to 10
      invariant Expanded(f, key, ks[..], 4 * i + 4) && Rolled(f, key, ss[..], 4 * i, 0)
    {
      EncHead(f, key, ks, ss, 4, i, 4 * i);
      NextGroup(f, key, ss[..], 4 * i);
    }
    inf := 10 * 16;
  }

  /** `aes_encrypt_key192`. */
  method EncryptKey192(f: bv8 -> bv8, key: seq<bv32>, ks: array<bv32>) returns (inf: int)
    requires |key| == 6 && ks.Length == 60
    modifies ks
    ensures inf == 12 * 16 && Expanded(f, key, ks[..], 52)
  {
    hide Rolled, KeyWord;
    var ss := new bv32[6];
    LoadKey(f, key, ks, ss);
    for i := 0 to 7
      invariant Expanded(f, key, ks[..], 6 * i + 6) && Rolled(f, key, ss[..], 6 * i, 0)
    {
      EncHead(f, key, ks, ss, 6, i, 6 * i);
      ChainLine(f, key, ss, 6, i, 6 * i, 4);
      PutEnc(f, key, ks, ss, 6 * i, 6 * i + 10, 4);
      ChainLine(f, key, ss, 6, i, 6 * i, 5);
      PutEnc(f, key, ks, ss, 6 * i, 6 * i + 11, 5);
      NextGroup(f, key, ss[..], 6 * i);
    }
    EncHead(f, key, ks, ss, 6, 7, 42);
    inf := 12 * 16;
  }

  /** `aes_encrypt_key256`. */
  method EncryptKey256(f: bv8 -> bv8, key: seq<bv32>, ks: array<bv32>) returns (inf: int)
    requires |key| == 8 && ks.Length == 60
    modifies ks
    ensures inf == 14 * 16 && Expanded(f, key, ks[..], 60)
  {
    hide Rolled, KeyWord;
    var ss := new bv32[8];
    LoadKey(f, key, ks, ss);
    for i := 0 to 6
      invariant Expanded(f, key, ks[..], 8 * i + 8) && Rolled(f, key, ss[..], 8 * i, 0)
    {
      EncHead(f, key, ks, ss, 8, i, 8 * i);
      MiddleLine(f, key, ss, i, 8 * i);
      PutEnc(f, key, ks, ss, 8 * i, 8 * i + 12, 4);
      ChainLine(f, key, ss, 8, i, 8 * i, 5);
      PutEnc(f, key, ks, ss, 8 * i, 8 * i + 13, 5);
      ChainLine(f, key, ss, 8, i, 8 * i, 6);
      PutEnc(f, key, ks, ss, 8 * i, 8 * i + 14, 6);
      ChainLine(f, key, ss, 8, i, 8 * i, 7);
      PutEnc(f, key, ks, ss, 8 * i, 8 * i + 15, 7);
      NextGroup(f, key, ss[..], 8 * i);
    }
    EncHead(f, key, ks, ss, 8, 6, 48);
    inf := 14 * 16;
  }

  // ---------- decryption schedules ----------

  /** `v(n, i)`: where word `i` goes in the reversed schedule of `n + 4` words. */
  function Place(n: int, i: int): int
  {
    n - i + 2 * (i % 4)
  }

  lemma PlaceInverse(n: int, i: int)
    requires n % 4 == 0 && 0 <= i < n + 4
    ensures 0 <= Place(n, i) < n + 4 && Place(n, Place(n, i)) == i
  {
    Bits.Split(n / 4 - i / 4, 4, i % 4);
  }

  lemma PlaceApart(n: int, i: int, j: int)
    requires n % 4 == 0 && 0 <= i < n + 4 && 0 <= j < n + 4 && i != j
    ensures Place(n, i) != Place(n, j)
  {
    PlaceInverse(n, i);
    PlaceInverse(n, j);
  }

  /** The decryption key word `i`: column-mixed except in the first and the last round key. */
  function DecWord(f: bv8 -> bv8, key: seq<bv32>, n: int, i: nat): bv32
    requires |key| >= 4
  {
    if 4 <= i < n then InvMcol(KeyWord(f, key, i)) else KeyWord(f, key, i)
  }

  /** The first `m` words of the decryption schedule are in place. */
  ghost predicate Stored(f: bv8 -> bv8, key: seq<bv32>, n: int, ks: seq<bv32>, m: nat)
    requires |key| >= 4
  {
    && n % 4 == 0 && m <= n + 4 <= |ks|
    && forall j :: 0 <= j < m ==> 0 <= Place(n, j) < n + 4 && ks[Place(n, j)] == DecWord(f, key, n, j)
  }

  method PutDec(f: bv8 -> bv8, ghost key: seq<bv32>, ks: array<bv32>, n: nat, p: nat, w: bv32)
    requires |key| >= 4 && p < n + 4 && Stored(f, key, n, ks[..], p)
    requires w == DecWord(f, key, n, p)
    modifies ks
    ensures Stored(f, key, n, ks[..], p + 1)
  {
    hide DecWord, Place;
    PlaceInverse(n, p);
    ks[Place(n, p)] := w;
    forall j | 0 <= j < p
      ensures Place(n, j) != Place(n, p)
    {
      PlaceApart(n, j, p);
    }
  }

  lemma MixedSum(a: bv32, b: bv32)
    ensures Xor(InvMcol(a), InvMcol(b)) == InvMcol(Xor(b, a))
  {
    hide Xor, InvMcol;
    InvMcolXor(b, a);
    XorLaws(InvMcol(a), InvMcol(b), 0);
  }

  // Algebra of one group of four words a, b, c, d and its mask t:
  // the next group is a', b', c', d' with a' = a + t, b' = b + a', c' = c + b', d' = d + c'.

  lemma PairSums(a: bv32, b: bv32)
    ensures Xor(a, Xor(b, a)) == b
  {
    hide Xor;
    XorLaws(a, Xor(b, a), 0);
    Cancel(b, a);
  }

  /** The four running sums kept by the unrolled 128-bit schedule, one group later. */
  lemma RunningSums(a: bv32, b: bv32, c: bv32, d: bv32, t: bv32)
    ensures var a' := Xor(a, t); var b' := Xor(b, a'); var c' := Xor(c, b'); var d' := Xor(d, c');
      && d' == Xor(Xor(Xor(a, b), Xor(c, d)), t)
      && Xor(Xor(a', b'), Xor(c', d')) == Xor(b, d)
      && Xor(b', d') == Xor(c, d)
      && Xor(c', d') == d
  {
    hide Xor;
    var a' := Xor(a, t);
    var b' := Xor(b, a');
    var c' := Xor(c, b');
    var d' := Xor(d, c');
    PairSums(a', b);
    PairSums(c', d);
    // b' + d' = b' + (d + (c + b')) = (d + c) + (b' + b')
    XorLaws(d, c, b');
    XorLaws(b', d', 0);
    Cancel(Xor(d, c), b');
    XorLaws(c, d, 0);
    // d' = (d + c) + (b + (a + t))
    XorLaws(b, a, t);
    XorLaws(Xor(d, c), Xor(b, a), t);
    XorLaws(a, b, 0);
    XorLaws(Xor(d, c), Xor(b, a), 0);
  }

  /** The sums that start the unrolled schedule, in the order the code forms them. */
  lemma FirstSums(a: bv32, b: bv32, c: bv32, d: bv32)
    ensures Xor(Xor(Xor(a, c), b), d) == Xor(Xor(a, b), Xor(c, d))
  {
    hide Xor;
    XorLaws(a, c, b);
    XorLaws(c, b, 0);
    XorLaws(a, b, c);
    XorLaws(Xor(a, b), c, d);
  }

  /** How the unrolled schedule reads off the last four words from the sums before them. */
  lemma LastSums(a: bv32, b: bv32, c: bv32, d: bv32, t: bv32)
    ensures var a' := Xor(a, t); var b' := Xor(b, a'); var c' := Xor(c, b'); var d' := Xor(d, c');
      && Xor(d, d') == c'
      && Xor(Xor(c', Xor(b, d)), Xor(c, d)) == a'
      && Xor(d', Xor(c, d)) == b'
  {
    hide Xor;
    var a' := Xor(a, t);
    var b' := Xor(b, a');
    var c' := Xor(c, b');
    var d' := Xor(d, c');
    Cancel(c', d);
    XorLaws(d, c', 0);
    // d' + (c + d) = b'
    Cancel(b', Xor(c, d));
    XorLaws(d, c, b');
    XorLaws(d, c, 0);
    XorLaws(Xor(c, d), b', 0);
    // (c' + (b + d)) + (c + d) = c' + (b + c) = a'
    XorLaws(c', Xor(b, d), Xor(c, d));
    Interchange(b, d, c, d);
    XorLaws(d, d, 0);
    XorLaws(Xor(b, c), 0, 0);
    XorLaws(c', b, c);
    XorLaws(c, b', b);
    XorLaws(b, a', b);
    Interchange(c, b', c, b);
    XorLaws(c, c, 0);
    XorLaws(Xor(b', b), 0, 0);
    Cancel(a', b);
    XorLaws(b, c, 0);
    XorLaws(b, a', 0);
  }
}
