/**
  The decryption schedules of guests/trusted/src/aes/aeskey.c: the unrolled
  128-bit form over running sums, the loop form it replaces, and the unrolled
  192- and 256-bit forms.  All fill the same array.
*/
module AesDecKeys {
  import opened AesField
  import opened AesCipher
  import opened AesRounds
  import opened AesKeys

  // ---------- 128 bits, unrolled ----------

  /** The running sums before group `i`, in a window that rotates through ss[0..4]. */
  ghost predicate Sums(f: bv8 -> bv8, key: seq<bv32>, ss: seq<bv32>, i: nat)
    requires |key| >= 4
  {
    var a, b, c, d :=
      KeyWord(f, key, 4 * i), KeyWord(f, key, 4 * i + 1), KeyWord(f, key, 4 * i + 2), KeyWord(f, key, 4 * i + 3);
    && |ss| >= 4
    && ss[i % 4] == Xor(Xor(a, b), Xor(c, d)) && ss[(i + 1) % 4] == Xor(b, d)
    && ss[(i + 2) % 4] == Xor(c, d) && ss[(i + 3) % 4] == d
  }

  /** Words 4i + 4 to 4i + 7 from the four before them. */
  lemma NextFour(f: bv8 -> bv8, key: seq<bv32>, i: nat)
    requires |key| == 4
    ensures KeyWord(f, key, 4 * i + 4) == Xor(KeyWord(f, key, 4 * i), Mask(f, key, i))
    ensures KeyWord(f, key, 4 * i + 5) == Xor(KeyWord(f, key, 4 * i + 1), KeyWord(f, key, 4 * i + 4))
    ensures KeyWord(f, key, 4 * i + 6) == Xor(KeyWord(f, key, 4 * i + 2), KeyWord(f, key, 4 * i + 5))
    ensures KeyWord(f, key, 4 * i + 7) == Xor(KeyWord(f, key, 4 * i + 3), KeyWord(f, key, 4 * i + 6))
  {
    hide KeyWord, Mask, Xor;
    FirstWord(f, key, i);
    PlainWord(f, key, i, 1);
    PlainWord(f, key, i, 2);
    PlainWord(f, key, i, 3);
  }

  lemma NextWord(f: bv8 -> bv8, key: seq<bv32>, i: nat, c: nat)
    requires |key| == 4 && c < 4
    ensures KeyWord(f, key, 4 * i + 4 + c)
      == Xor(KeyWord(f, key, 4 * i + c), if c == 0 then Mask(f, key, i) else KeyWord(f, key, 4 * i + 3 + c))
  {
    hide KeyWord, Mask, Xor;
    if c == 0 {
      FirstWord(f, key, i);
    } else {
      PlainWord(f, key, i, c);
    }
  }

  lemma NextSums(f: bv8 -> bv8, key: seq<bv32>, i: nat, ss: seq<bv32>, ss': seq<bv32>)
    requires |key| == 4 && Sums(f, key, ss, i) && |ss'| >= 4
    requires ss'[i % 4] == Xor(ss[i % 4], Mask(f, key, i))
    requires ss'[(i + 1) % 4] == ss[(i + 1) % 4] && ss'[(i + 2) % 4] == ss[(i + 2) % 4]
      && ss'[(i + 3) % 4] == ss[(i + 3) % 4]
    ensures Sums(f, key, ss', i + 1)
  {
    hide KeyWord, Mask, Xor;
    NextFour(f, key, i);
    RunningSums(KeyWord(f, key, 4 * i), KeyWord(f, key, 4 * i + 1), KeyWord(f, key, 4 * i + 2),
      KeyWord(f, key, 4 * i + 3), Mask(f, key, i));
    assert (i + 4) % 4 == i % 4;
  }

  /** Word `c` of the first group: the running sum takes in one more word and is stored column-mixed. */
  method FirstAcc(f: bv8 -> bv8, ghost key: seq<bv32>, ks: array<bv32>, ss: array<bv32>, c: nat)
    requires |key| == 4 && ks != ss && ss.Length == 5 && c < 4
    requires Stored(f, key, 40, ks[..], 4 + c)
    requires ss[4] == if c == 0 then Mask(f, key, 0) else KeyWord(f, key, 3 + c)
    modifies ks, ss
    ensures Stored(f, key, 40, ks[..], 5 + c)
    ensures ss[4] == KeyWord(f, key, 4 + c) && ss[..4] == old(ss[..4])
  {
    hide KeyWord, Mask, Xor, InvMcol, Place;
    NextWord(f, key, 0, c);
    assert ks[Place(40, c)] == DecWord(f, key, 40, c);
    ghost var before := ss[4];
    ss[4] := Xor(ss[4], ks[Place(40, c)]);
    XorLaws(before, KeyWord(f, key, c), 0);
    PutDec(f, key, ks, 40, 4 + c, InvMcol(ss[4]));
  }

  /** The first five assignments of `kdf4`: from the key words to the running sums after one group. */
  method KdfSums(f: bv8 -> bv8, ghost key: seq<bv32>, ss: array<bv32>)
    requires |key| == 4 && ss.Length == 5 && Rolled(f, key, ss[..], 0, 0)
    modifies ss
    ensures Sums(f, key, ss[..], 1) && ss[4] == Mask(f, key, 0)
  {
    hide LsBox3, Rcon, Xor, KeyWord;
    FirstSums(ss[0], ss[1], ss[2], ss[3]);
    ss[0] := Xor(Xor(Xor(ss[0], ss[2]), ss[1]), ss[3]);
    ss[1] := Xor(ss[1], ss[3]);
    ss[2] := Xor(ss[2], ss[3]);
    ghost var sums := ss[..];
    assert Sums(f, key, sums, 0);
    ss[4] := Xor(LsBox3(f, ss[3]), Rcon(0));
    ss[0] := Xor(ss[0], ss[4]);
    NextSums(f, key, 0, sums, ss[..]);
  }

  /** `kdf4`. */
  method Kdf4(f: bv8 -> bv8, ghost key: seq<bv32>, ks: array<bv32>, ss: array<bv32>)
    requires |key| == 4 && ks != ss && ss.Length == 5
    requires Stored(f, key, 40, ks[..], 4) && Rolled(f, key, ss[..], 0, 0)
    modifies ks, ss
    ensures Stored(f, key, 40, ks[..], 8) && Sums(f, key, ss[..], 1)
  {
    hide LsBox3, Rcon, Xor, Stored, KeyWord, Mask;
    KdfSums(f, key, ss);
    ghost var final := ss[..4];
    FourOfSums(f, key, final, ss[..], 1);
    FirstAcc(f, key, ks, ss, 0);
    FirstAcc(f, key, ks, ss, 1);
    FirstAcc(f, key, ks, ss, 2);
    FirstAcc(f, key, ks, ss, 3);
    SumsOfFour(f, key, final, ss[..], 1);
  }

  lemma SumsOfFour(f: bv8 -> bv8, key: seq<bv32>, four: seq<bv32>, ss: seq<bv32>, i: nat)
    requires |key| >= 4 && |four| == 4 && |ss| == 5 && ss[..4] == four
    requires Sums(f, key, four, i)
    ensures Sums(f, key, ss, i)
  {
    hide KeyWord, Xor;
    assert forall c :: 0 <= c < 4 ==> ss[c] == ss[..4][c];
  }

  /** Word `c` of a group: the sum of words that are already mixed takes in the one stored four places back. */
  method MixedAcc(f: bv8 -> bv8, ghost key: seq<bv32>, ks: array<bv32>, ss: array<bv32>, i: nat, c: nat)
    requires |key| == 4 && ks != ss && ss.Length == 5 && c < 4 && 1 <= i < 9
    requires Stored(f, key, 40, ks[..], 4 * i + 4 + c)
    requires ss[4] == InvMcol(if c == 0 then Mask(f, key, i) else KeyWord(f, key, 4 * i + 3 + c))
    modifies ks, ss
    ensures Stored(f, key, 40, ks[..], 4 * i + 5 + c)
    ensures ss[4] == InvMcol(KeyWord(f, key, 4 * i + 4 + c)) && ss[..4] == old(ss[..4])
  {
    hide KeyWord, Mask, Xor, InvMcol, Place;
    NextWord(f, key, i, c);
    assert ks[Place(40, 4 * i + c)] == DecWord(f, key, 40, 4 * i + c);
    MixedSum(if c == 0 then Mask(f, key, i) else KeyWord(f, key, 4 * i + 3 + c), KeyWord(f, key, 4 * i + c));
    ss[4] := Xor(ss[4], ks[Place(40, 4 * i + c)]);
    PutDec(f, key, ks, 40, 4 * i + 4 + c, ss[4]);
  }

  /** `kd4`. */
  method Kd4(f: bv8 -> bv8, ghost key: seq<bv32>, ks: array<bv32>, ss: array<bv32>, i: nat)
    requires |key| == 4 && ks != ss && ss.Length == 5 && 1 <= i < 9
    requires Stored(f, key, 40, ks[..], 4 * i + 4) && Sums(f, key, ss[..], i)
    modifies ks, ss
    ensures Stored(f, key, 40, ks[..], 4 * i + 8) && Sums(f, key, ss[..], i + 1)
  {
    hide LsBox3, Rcon, Xor, Stored, KeyWord, InvMcol;
    ghost var sums := ss[..];
    ss[4] := Xor(LsBox3(f, ss[(i + 3) % 4]), Rcon(i));
    assert ss[4] == Mask(f, key, i);
    ss[i % 4] := Xor(ss[i % 4], ss[4]);
    ss[4] := InvMcol(ss[4]);
    NextSums(f, key, i, sums, ss[..]);
    ghost var final := ss[..4];
    FourOfSums(f, key, final, ss[..], i + 1);
    MixedAcc(f, key, ks, ss, i, 0);
    MixedAcc(f, key, ks, ss, i, 1);
    MixedAcc(f, key, ks, ss, i, 2);
    MixedAcc(f, key, ks, ss, i, 3);
    SumsOfFour(f, key, final, ss[..], i + 1);
  }

  lemma FourOfSums(f: bv8 -> bv8, key: seq<bv32>, four: seq<bv32>, ss: seq<bv32>, i: nat)
    requires |key| >= 4 && |ss| >= 4 && ss[..4] == four
    requires Sums(f, key, ss, i)
    ensures Sums(f, key, four, i)
  {
    hide KeyWord, Xor;
    assert forall c :: 0 <= c < 4 ==> ss[c] == four[c];
  }

  /** `kdl4(k, 9)`: the last four words, read off the sums. */
  method Kdl4(f: bv8 -> bv8, ghost key: seq<bv32>, ks: array<bv32>, ss: array<bv32>)
    requires |key| == 4 && ks != ss && ss.Length == 5
    requires Stored(f, key, 40, ks[..], 40) && Sums(f, key, ss[..], 9)
    modifies ks, ss
    ensures Stored(f, key, 40, ks[..], 44)
  {
    hide LsBox3, Rcon, Xor, Stored, KeyWord, InvMcol;
    NextFour(f, key, 9);
    ghost var a, b, c, d, t :=
      KeyWord(f, key, 36), KeyWord(f, key, 37), KeyWord(f, key, 38), KeyWord(f, key, 39), Mask(f, key, 9);
    RunningSums(a, b, c, d, t);
    LastSums(a, b, c, d, t);
    ss[4] := Xor(LsBox3(f, ss[0]), Rcon(9));
    ss[1] := Xor(ss[1], ss[4]);
    ss[0] := Xor(ss[0], ss[1]);
    PutDec(f, key, ks, 40, 40, Xor(Xor(ss[0], ss[2]), ss[3]));
    PutDec(f, key, ks, 40, 41, Xor(ss[1], ss[3]));
    PutDec(f, key, ks, 40, 42, ss[0]);
    PutDec(f, key, ks, 40, 43, ss[1]);
  }

  /** Words of the key itself: raw in the first round key, mixed after it. */
  method LoadDecKey(f: bv8 -> bv8, key: seq<bv32>, ks: array<bv32>, ss: array<bv32>, n: nat)
    requires 4 <= |key| <= 8 && ks != ss && ss.Length == |key| + 1 && n % 4 == 0 && 40 <= n && n + 4 <= ks.Length
    modifies ks, ss
    ensures Stored(f, key, n, ks[..], |key|) && Rolled(f, key, ss[..], 0, 0)
  {
    hide InvMcol, Place;
    for c := 0 to |key|
      invariant Stored(f, key, n, ks[..], c)
      invariant forall j :: 0 <= j < c ==> ss[j] == key[j]
    {
      ss[c] := key[c];
      PutDec(f, key, ks, n, c, if c < 4 then ss[c] else InvMcol(ss[c]));
    }
  }

  /** `aes_decrypt_key128` with DEC_KS_UNROLL. */
  method DecryptKey128(f: bv8 -> bv8, key: seq<bv32>, ks: array<bv32>) returns (inf: int)
    requires |key| == 4 && ks.Length == 60
    modifies ks
    ensures inf == 10 * 16 && Stored(f, key, 40, ks[..], 44)
  {
    var ss := new bv32[5];
    LoadDecKey(f, key, ks, ss, 40);
    Kdf4(f, key, ks, ss);
    for i := 1 to 9
      invariant Stored(f, key, 40, ks[..], 4 * i + 4) && Sums(f, key, ss[..], i)
    {
      Kd4(f, key, ks, ss, i);
    }
    Kdl4(f, key, ks, ss);
    inf := 10 * 16;
  }

  // ---------- 128 bits, as a loop ----------

  /** `ks` holds the expanded words in reverse round order; those at positions 4 to `p` are already mixed. */
  ghost predicate PartlyMixed(f: bv8 -> bv8, key: seq<bv32>, ks: seq<bv32>, m: nat, p: int)
    requires |key| >= 4
  {
    && |ks| >= 44 && m <= 44
    && forall j :: 0 <= j < m ==>
      && 0 <= Place(40, j) < 44
      && ks[Place(40, j)] == if 4 <= Place(40, j) < p then InvMcol(KeyWord(f, key, j)) else KeyWord(f, key, j)
  }

  method PutRaw(f: bv8 -> bv8, ghost key: seq<bv32>, ks: array<bv32>, j: nat, w: bv32)
    requires |key| >= 4 && j < 44 && PartlyMixed(f, key, ks[..], j, 4) && w == KeyWord(f, key, j)
    modifies ks
    ensures PartlyMixed(f, key, ks[..], j + 1, 4)
  {
    hide KeyWord, Place, InvMcol;
    PlaceInverse(40, j);
    ks[Place(40, j)] := w;
    forall i | 0 <= i < j
      ensures Place(40, i) != Place(40, j)
    {
      PlaceApart(40, i, j);
    }
  }

  lemma InnerPlaces(j: int)
    requires 0 <= j < 44
    ensures 4 <= Place(40, j) < 40 <==> 4 <= j < 40
  {
  }

  /** `aes_decrypt_key128` without DEC_KS_UNROLL: `k4e` ten times, then `inv_mcol` over positions 4 to 39. */
  method LoopDecryptKey128(f: bv8 -> bv8, key: seq<bv32>, ks: array<bv32>) returns (inf: int)
    requires |key| == 4 && ks.Length == 60
    modifies ks
    ensures inf == 10 * 16 && Stored(f, key, 40, ks[..], 44)
  {
    hide KeyWord, Place, InvMcol, Rolled;
    var ss := new bv32[4];
    LoadRaw(f, key, ks, ss);
    for i := 0 to 10
      invariant PartlyMixed(f, key, ks[..], 4 * i + 4, 4) && Rolled(f, key, ss[..], 4 * i, 0)
    {
      K4e(f, key, ks, ss, i);
    }
    for p := 4 to 40
      invariant PartlyMixed(f, key, ks[..], 44, p)
    {
      ks[p] := InvMcol(ks[p]);
      PlaceInverse(40, p);
    }
    forall j | 0 <= j < 44
      ensures 0 <= Place(40, j) < 44 && ks[Place(40, j)] == DecWord(f, key, 40, j)
    {
      InnerPlaces(j);
    }
    inf := 10 * 16;
  }

  method LoadRaw(f: bv8 -> bv8, key: seq<bv32>, ks: array<bv32>, ss: array<bv32>)
    requires |key| == 4 && ks != ss && ss.Length == 4 && ks.Length == 60
    modifies ks, ss
    ensures PartlyMixed(f, key, ks[..], 4, 4) && Rolled(f, key, ss[..], 0, 0)
  {
    hide Place, InvMcol;
    for c := 0 to 4
      invariant PartlyMixed(f, key, ks[..], c, 4)
      invariant forall j :: 0 <= j < c ==> ss[j] == key[j]
    {
      ss[c] := key[c];
      PutRaw(f, key, ks, c, ss[c]);
    }
  }

  /** `k4e`. */
  method K4e(f: bv8 -> bv8, ghost key: seq<bv32>, ks: array<bv32>, ss: array<bv32>, i: nat)
    requires |key| == 4 && ks != ss && ss.Length == 4 && ks.Length == 60 && i < 10
    requires PartlyMixed(f, key, ks[..], 4 * i + 4, 4) && Rolled(f, key, ss[..], 4 * i, 0)
    modifies ks, ss
    ensures PartlyMixed(f, key, ks[..], 4 * i + 8, 4) && Rolled(f, key, ss[..], 4 * i + 4, 0)
  {
    hide KeyWord, PartlyMixed, Xor;
    MaskLine(f, key, ss, 4, i, 4 * i);
    PutRaw(f, key, ks, 4 * i + 4, ss[0]);
    ChainLine(f, key, ss, 4, i, 4 * i, 1);
    PutRaw(f, key, ks, 4 * i + 5, ss[1]);
    ChainLine(f, key, ss, 4, i, 4 * i, 2);
    PutRaw(f, key, ks, 4 * i + 6, ss[2]);
    ChainLine(f, key, ss, 4, i, 4 * i, 3);
    PutRaw(f, key, ks, 4 * i + 7, ss[3]);
    NextGroup(f, key, ss[..], 4 * i);
  }

  // ---------- 192 and 256 bits, unrolled ----------

  /** The first line of `kd6` and `kd8`: the mask is kept, mixed, in the extra word of `ss`. */
  method AccMask(f: bv8 -> bv8, ghost key: seq<bv32>, ss: array<bv32>, nk: nat, g: nat, ghost base: nat)
    requires |key| == nk >= 4 && base == g * |key| && ss.Length == nk + 1
    requires Rolled(f, key, ss[..], base, 0)
    modifies ss
    ensures Rolled(f, key, ss[..], base, 1)
    ensures ss[nk] == InvMcol(Xor(KeyWord(f, key, base), KeyWord(f, key, base + nk)))
  {
    hide KeyWord, LsBox3, Rcon, Xor, InvMcol;
    ss[nk] := Xor(LsBox3(f, ss[nk - 1]), Rcon(g));
    FirstWord(f, key, g);
    PairSums(KeyWord(f, key, base), Mask(f, key, g));
    XorLaws(KeyWord(f, key, base), Mask(f, key, g), 0);
    ss[0] := Xor(ss[0], ss[nk]);
    ss[nk] := InvMcol(ss[nk]);
  }

  /** The mixed word `base + nk + c` from the mixed difference to the word one group before. */
  method AccStore(f: bv8 -> bv8, ghost key: seq<bv32>, ks: array<bv32>, ss: array<bv32>, n: nat, nk: nat, base: nat,
      c: nat)
    requires |key| == nk >= 4 && ks != ss && ss.Length == nk + 1 && c < nk
    requires 4 <= base + c && base + nk + c < n && Stored(f, key, n, ks[..], base + nk + c)
    requires ss[nk] == InvMcol(Xor(KeyWord(f, key, base + c), KeyWord(f, key, base + nk + c)))
    modifies ks, ss
    ensures Stored(f, key, n, ks[..], base + nk + c + 1)
    ensures ss[nk] == InvMcol(KeyWord(f, key, base + nk + c))
    ensures forall d :: 0 <= d < nk ==> ss[d] == old(ss[d])
  {
    hide KeyWord, Xor, InvMcol, Place;
    ghost var a, b := KeyWord(f, key, base + c), KeyWord(f, key, base + nk + c);
    assert ks[Place(n, base + c)] == DecWord(f, key, n, base + c);
    MixedSum(Xor(a, b), a);
    PairSums(a, b);
    XorLaws(a, b, 0);
    ss[nk] := Xor(ss[nk], ks[Place(n, base + c)]);
    PutDec(f, key, ks, n, base + nk + c, ss[nk]);
  }

  /** A following line of `kd6` or `kd8`. */
  method AccLine(f: bv8 -> bv8, ghost key: seq<bv32>, ks: array<bv32>, ss: array<bv32>, n: nat, nk: nat, ghost g: nat,
      base: nat, c: nat)
    requires |key| == nk >= 4 && base == g * |key| && ks != ss && ss.Length == nk + 1
    requires 1 <= c < nk && !(nk > 6 && c == 4)
    requires 4 <= base + c && base + nk + c < n && Stored(f, key, n, ks[..], base + nk + c)
    requires Rolled(f, key, ss[..], base, c) && ss[nk] == InvMcol(KeyWord(f, key, base + nk + c - 1))
    modifies ks, ss
    ensures Stored(f, key, n, ks[..], base + nk + c + 1)
    ensures Rolled(f, key, ss[..], base, c + 1) && ss[nk] == InvMcol(KeyWord(f, key, base + nk + c))
  {
    hide KeyWord, Xor, InvMcol, Stored;
    ChainLine(f, key, ss, nk, g, base, c);
    PlainWord(f, key, g, c);
    ghost var a, b := KeyWord(f, key, base + c), KeyWord(f, key, base + nk + c - 1);
    PairSums(a, b);
    XorLaws(a, b, 0);
    AccStore(f, key, ks, ss, n, nk, base, c);
  }

  /**
    `kdf6` and the head of `kdf8` store mixed words; `kdl6` and `kdl8` store
    raw ones: words `from` to `to` of a group.
  */
  method StoreWords(f: bv8 -> bv8, ghost key: seq<bv32>, ks: array<bv32>, ss: array<bv32>, n: nat, nk: nat,
      ghost g: nat, base: nat, from: nat, to: nat)
    requires |key| == nk >= 4 && base == g * |key| && ks != ss && ss.Length == nk + 1
    requires 1 <= from <= to <= nk && (nk > 6 ==> to <= 4 || from > 4) && base + nk + to <= n + 4
    requires Stored(f, key, n, ks[..], base + nk + from) && Rolled(f, key, ss[..], base, from)
    modifies ks, ss
    ensures Stored(f, key, n, ks[..], base + nk + to) && Rolled(f, key, ss[..], base, to)
  {
    hide KeyWord, Xor, InvMcol, Stored;
    for c := from to to
      invariant Stored(f, key, n, ks[..], base + nk + c) && Rolled(f, key, ss[..], base, c)
    {
      ChainLine(f, key, ss, nk, g, base, c);
      PutDec(f, key, ks, n, base + nk + c, if base + nk + c < n then InvMcol(ss[c]) else ss[c]);
    }
  }

  method StoreFirst(f: bv8 -> bv8, ghost key: seq<bv32>, ks: array<bv32>, ss: array<bv32>, n: nat, nk: nat, g: nat,
      base: nat)
    requires |key| == nk >= 4 && base == g * |key| && ks != ss && ss.Length == nk + 1 && base + nk < n + 4
    requires Stored(f, key, n, ks[..], base + nk) && Rolled(f, key, ss[..], base, 0)
    modifies ks, ss
    ensures Stored(f, key, n, ks[..], base + nk + 1) && Rolled(f, key, ss[..], base, 1)
  {
    hide KeyWord, Xor, InvMcol, Stored;
    MaskLine(f, key, ss, nk, g, base);
    PutDec(f, key, ks, n, base + nk, if base + nk < n then InvMcol(ss[0]) else ss[0]);
  }

  /** `aes_decrypt_key192` with DEC_KS_UNROLL. */
  method DecryptKey192(f: bv8 -> bv8, key: seq<bv32>, ks: array<bv32>) returns (inf: int)
    requires |key| == 6 && ks.Length == 60
    modifies ks
    ensures inf == 12 * 16 && Stored(f, key, 48, ks[..], 52)
  {
    hide KeyWord, Rolled;
    var ss := new bv32[7];
    LoadDecKey(f, key, ks, ss, 48);
    StoreFirst(f, key, ks, ss, 48, 6, 0, 0);
    StoreWords(f, key, ks, ss, 48, 6, 0, 0, 1, 6);
    NextGroup(f, key, ss[..], 0);
    for i := 1 to 7
      invariant Stored(f, key, 48, ks[..], 6 * i + 6) && Rolled(f, key, ss[..], 6 * i, 0)
    {
      Kd6(f, key, ks, ss, i);
    }
    StoreFirst(f, key, ks, ss, 48, 6, 7, 42);
    StoreWords(f, key, ks, ss, 48, 6, 7, 42, 1, 4);
    inf := 12 * 16;
  }

  /** `kd6`. */
  method Kd6(f: bv8 -> bv8, ghost key: seq<bv32>, ks: array<bv32>, ss: array<bv32>, i: nat)
    requires |key| == 6 && ks != ss && ss.Length == 7 && 1 <= i < 7
    requires Stored(f, key, 48, ks[..], 6 * i + 6) && Rolled(f, key, ss[..], 6 * i, 0)
    modifies ks, ss
    ensures Stored(f, key, 48, ks[..], 6 * i + 12) && Rolled(f, key, ss[..], 6 * i + 6, 0)
  {
    hide KeyWord, Xor, InvMcol, Stored;
    AccMask(f, key, ss, 6, i, 6 * i);
    AccStore(f, key, ks, ss, 48, 6, 6 * i, 0);
    assert Rolled(f, key, ss[..], 6 * i, 1);
    AccLine(f, key, ks, ss, 48, 6, i, 6 * i, 1);
    AccLine(f, key, ks, ss, 48, 6, i, 6 * i, 2);
    AccLine(f, key, ks, ss, 48, 6, i, 6 * i, 3);
    AccLine(f, key, ks, ss, 48, 6, i, 6 * i, 4);
    AccLine(f, key, ks, ss, 48, 6, i, 6 * i, 5);
    NextGroup(f, key, ss[..], 6 * i);
  }

  /** `aes_decrypt_key256` with DEC_KS_UNROLL. */
  method DecryptKey256(f: bv8 -> bv8, key: seq<bv32>, ks: array<bv32>) returns (inf: int)
    requires |key| == 8 && ks.Length == 60
    modifies ks
    ensures inf == 14 * 16 && Stored(f, key, 56, ks[..], 60)
  {
    hide KeyWord, Rolled;
    var ss := new bv32[9];
    LoadDecKey(f, key, ks, ss, 56);
    StoreFirst(f, key, ks, ss, 56, 8, 0, 0);
    StoreWords(f, key, ks, ss, 56, 8, 0, 0, 1, 4);
    StoreMiddle(f, key, ks, ss);
    StoreWords(f, key, ks, ss, 56, 8, 0, 0, 5, 8);
    NextGroup(f, key, ss[..], 0);
    for i := 1 to 6
      invariant Stored(f, key, 56, ks[..], 8 * i + 8) && Rolled(f, key, ss[..], 8 * i, 0)
    {
      Kd8(f, key, ks, ss, i);
    }
    StoreFirst(f, key, ks, ss, 56, 8, 6, 48);
    StoreWords(f, key, ks, ss, 56, 8, 6, 48, 1, 4);
    inf := 14 * 16;
  }

  method StoreMiddle(f: bv8 -> bv8, ghost key: seq<bv32>, ks: array<bv32>, ss: array<bv32>)
    requires |key| == 8 && ks != ss && ss.Length == 9
    requires Stored(f, key, 56, ks[..], 12) && Rolled(f, key, ss[..], 0, 4)
    modifies ks, ss
    ensures Stored(f, key, 56, ks[..], 13) && Rolled(f, key, ss[..], 0, 5)
  {
    hide KeyWord, Xor, InvMcol, Stored;
    MiddleLine(f, key, ss, 0, 0);
    PutDec(f, key, ks, 56, 12, InvMcol(ss[4]));
  }

  /** The fifth line of `kd8`. */
  method AccMiddle(f: bv8 -> bv8, ghost key: seq<bv32>, ss: array<bv32>, ghost g: nat, ghost base: nat)
    requires |key| == 8 && base == g * |key| && ss.Length == 9
    requires Rolled(f, key, ss[..], base, 4)
    modifies ss
    ensures Rolled(f, key, ss[..], base, 5)
    ensures ss[8] == InvMcol(Xor(KeyWord(f, key, base + 4), KeyWord(f, key, base + 12)))
  {
    hide KeyWord, LsBox0, Xor, InvMcol;
    ss[8] := LsBox0(f, ss[3]);
    MiddleWord(f, key, g);
    PairSums(KeyWord(f, key, base + 4), ss[8]);
    XorLaws(KeyWord(f, key, base + 4), ss[8], 0);
    ss[4] := Xor(ss[4], ss[8]);
    ss[8] := InvMcol(ss[8]);
  }

  /** `kd8`. */
  method Kd8(f: bv8 -> bv8, ghost key: seq<bv32>, ks: array<bv32>, ss: array<bv32>, i: nat)
    requires |key| == 8 && ks != ss && ss.Length == 9 && 1 <= i < 6
    requires Stored(f, key, 56, ks[..], 8 * i + 8) && Rolled(f, key, ss[..], 8 * i, 0)
    modifies ks, ss
    ensures Stored(f, key, 56, ks[..], 8 * i + 16) && Rolled(f, key, ss[..], 8 * i + 8, 0)
  {
    hide KeyWord, Xor, InvMcol, Stored;
    AccMask(f, key, ss, 8, i, 8 * i);
    AccStore(f, key, ks, ss, 56, 8, 8 * i, 0);
    assert Rolled(f, key, ss[..], 8 * i, 1);
    AccLine(f, key, ks, ss, 56, 8, i, 8 * i, 1);
    AccLine(f, key, ks, ss, 56, 8, i, 8 * i, 2);
    AccLine(f, key, ks, ss, 56, 8, i, 8 * i, 3);
    AccMiddle(f, key, ss, i, 8 * i);
    AccStore(f, key, ks, ss, 56, 8, 8 * i, 4);
    assert Rolled(f, key, ss[..], 8 * i, 5);
    AccLine(f, key, ks, ss, 56, 8, i, 8 * i, 5);
    AccLine(f, key, ks, ss, 56, 8, i, 8 * i, 6);
    AccLine(f, key, ks, ss, 56, 8, i, 8 * i, 7);
    NextGroup(f, key, ss[..], 8 * i);
  }

  // ---------- results ----------

  /** A complete schedule is determined by the key, so the unrolled and the loop form fill the same words. */
  lemma StoredUnique(f: bv8 -> bv8, key: seq<bv32>, n: int, ks: seq<bv32>, ks': seq<bv32>)
    requires |key| >= 4 && n >= 0
    requires Stored(f, key, n, ks, n + 4) && Stored(f, key, n, ks', n + 4)
    ensures ks[..n + 4] == ks'[..n + 4]
  {
    hide DecWord, Place;
    forall p | 0 <= p < n + 4
      ensures ks[p] == ks'[p]
    {
      PlaceInverse(n, p);
      assert ks[Place(n, Place(n, p))] == DecWord(f, key, n, Place(n, p));
    }
  }

  /** The decryption schedule is the encryption schedule in reverse order, mixed inside. */
  lemma SchedulesReverse(f: bv8 -> bv8, key: seq<bv32>, rounds: nat, eks: seq<bv32>, dks: seq<bv32>)
    requires |key| >= 4 && rounds >= 1
    requires Expanded(f, key, eks, 4 * rounds + 4) && Stored(f, key, 4 * rounds, dks, 4 * rounds + 4)
    ensures Reversed(RoundKeys(eks, rounds + 1), RoundKeys(dks, rounds + 1))
  {
    hide KeyWord, Place, InvMcol;
    var rk, dk := RoundKeys(eks, rounds + 1), RoundKeys(dks, rounds + 1);
    forall i | 0 <= i <= rounds
      ensures dk[i] == if i == 0 || i == rounds then rk[rounds - i] else InvMixColumns(rk[rounds - i])
    {
      ReversedKey(f, key, rounds, eks, dks, i);
    }
  }

  lemma ReversedKey(f: bv8 -> bv8, key: seq<bv32>, rounds: nat, eks: seq<bv32>, dks: seq<bv32>, i: nat)
    requires |key| >= 4 && rounds >= 1 && i <= rounds
    requires Expanded(f, key, eks, 4 * rounds + 4) && Stored(f, key, 4 * rounds, dks, 4 * rounds + 4)
    ensures KeyAt(dks, 4 * i) ==
      if i == 0 || i == rounds then KeyAt(eks, 4 * (rounds - i)) else InvMixColumns(KeyAt(eks, 4 * (rounds - i)))
  {
    hide KeyWord, InvMcol, Place;
    var r := rounds - i;
    PlaceOfRound(rounds, r);
    var n := 4 * rounds;
    assert dks[Place(n, 4 * r)] == DecWord(f, key, n, 4 * r);
    assert dks[Place(n, 4 * r + 1)] == DecWord(f, key, n, 4 * r + 1);
    assert dks[Place(n, 4 * r + 2)] == DecWord(f, key, n, 4 * r + 2);
    assert dks[Place(n, 4 * r + 3)] == DecWord(f, key, n, 4 * r + 3);
  }

  lemma PlaceOfRound(rounds: nat, r: nat)
    requires r <= rounds
    ensures Place(4 * rounds, 4 * r) == 4 * (rounds - r) && Place(4 * rounds, 4 * r + 1) == 4 * (rounds - r) + 1
    ensures Place(4 * rounds, 4 * r + 2) == 4 * (rounds - r) + 2 && Place(4 * rounds, 4 * r + 3) == 4 * (rounds - r) + 3
  {
  }

  /**
    For every key of 128, 192 or 256 bits (10, 12 or 14 rounds) and every
    16-byte block, decryption under the decryption schedule undoes encryption
    under the encryption schedule.
  */
  lemma AesDecryptsWhatItEncrypts(sb: SBox, key: seq<bv32>, rounds: nat, eks: seq<bv32>, dks: seq<bv32>, inp: seq<bv8>)
    requires Bijective(sb) && |key| >= 4 && rounds >= 1 && |inp| == 16
    requires Expanded(sb.fwd, key, eks, 4 * rounds + 4) && Stored(sb.fwd, key, 4 * rounds, dks, 4 * rounds + 4)
    ensures var c := ToBytes(Cipher(sb, RoundKeys(eks, rounds + 1), ToBlock(inp)));
      ToBytes(EqInvCipher(sb, RoundKeys(dks, rounds + 1), ToBlock(c))) == inp
  {
    hide Cipher, EqInvCipher, ToBlock, ToBytes, RoundKeys, Place, KeyWord;
    SchedulesReverse(sb.fwd, key, rounds, eks, dks);
    var x := ToBlock(inp);
    BlockRoundTrip(Cipher(sb, RoundKeys(eks, rounds + 1), x));
    DecryptUndoesEncrypt(sb, RoundKeys(eks, rounds + 1), RoundKeys(dks, rounds + 1), x);
    BytesRoundTrip(inp);
  }
}
