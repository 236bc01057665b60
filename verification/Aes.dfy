// AES-128 as security.c computes it: in place on the state and on the expanded key, with the row
// rotations done through temporaries, proved to compute the ciphers of FIPS 197. The unrolled
// function bodies are cut into one method a row or column, at the comments of the source.
module Aes {
  import opened AesField
  import AesBits
  import opened Fips197

  /** The sixteen bytes from `at` on, read as four columns. */
  function BlockAt(bytes: array<byte>, at: nat): Block
    requires at + 16 <= bytes.Length
    reads bytes
  {
    Block(WordAt(bytes, at), WordAt(bytes, at + 4), WordAt(bytes, at + 8), WordAt(bytes, at + 12))
  }

  function WordAt(bytes: array<byte>, at: nat): Word
    requires at + 4 <= bytes.Length
    reads bytes
  {
    Word(bytes[at], bytes[at + 1], bytes[at + 2], bytes[at + 3])
  }

  /** Nothing but the four bytes of row r has changed. */
  twostate predicate OnlyRow(state: array<byte>, r: nat)
    reads state
  {
    forall i | 0 <= i < state.Length && i % 4 != r :: state[i] == old(state[i])
  }

  /** Nothing but the four bytes from `at` on has changed. */
  twostate predicate OnlyWord(bytes: array<byte>, at: nat)
    reads bytes
  {
    forall i | 0 <= i < bytes.Length && !(at <= i < at + 4) :: bytes[i] == old(bytes[i])
  }

  // ---- Key expansion

  lemma AddZero(a: byte)
    ensures Add(a, Byte(0)) == a
  {}

  /** The order of the sums in the source, and in section 5.2. */
  lemma ReassociateFirstWord(w: Word, p: Word, rcon: byte)
    ensures Word(Add(Add(SBox(w.b1), p.b0), rcon), Add(SBox(w.b2), p.b1), Add(SBox(w.b3), p.b2), Add(SBox(w.b0), p.b3)) ==
            XorWord(p, XorWord(SubWord(Word(w.b1, w.b2, w.b3, w.b0)), Word(rcon, Byte(0), Byte(0), Byte(0))))
  {
    hide SBox, Add;
    AddCommutes(SBox(w.b1), p.b0);
    AddAssociates(p.b0, SBox(w.b1), rcon);
    AddCommutes(SBox(w.b2), p.b1);
    AddCommutes(SBox(w.b3), p.b2);
    AddCommutes(SBox(w.b0), p.b3);
    AddZero(SBox(w.b2));
    AddZero(SBox(w.b3));
    AddZero(SBox(w.b0));
  }

  method ExpandFirstWord(expandedKey: array<byte>, ii: nat)
    requires expandedKey.Length == 176 && 1 <= ii <= 10
    modifies expandedKey
    ensures OnlyWord(expandedKey, 16 * ii)
    ensures var w := old(WordAt(expandedKey, 16 * ii - 4));
            WordAt(expandedKey, 16 * ii) ==
            XorWord(old(WordAt(expandedKey, 16 * ii - 16)),
                    XorWord(SubWord(Word(w.b1, w.b2, w.b3, w.b0)), Word(Byte(AesBits.Rcon(ii)), Byte(0), Byte(0), Byte(0))))
  {
    hide SBox, Add, AesBits.Rcon;
    var at := 16 * ii;
    ReassociateFirstWord(WordAt(expandedKey, at - 4), WordAt(expandedKey, at - 16), Byte(AesBits.Rcon(ii)));
    var buf1 := expandedKey[at - 4];
    expandedKey[at] := Add(Add(SBox(expandedKey[at - 3]), expandedKey[at - 16]), Byte(AesBits.Rcon(ii)));
    expandedKey[at + 1] := Add(SBox(expandedKey[at - 2]), expandedKey[at - 15]);
    expandedKey[at + 2] := Add(SBox(expandedKey[at - 1]), expandedKey[at - 14]);
    expandedKey[at + 3] := Add(SBox(buf1), expandedKey[at - 13]);
  }

  method ExpandNextWord(expandedKey: array<byte>, at: nat)
    requires expandedKey.Length == 176 && 16 <= at <= 172
    modifies expandedKey
    ensures OnlyWord(expandedKey, at)
    ensures WordAt(expandedKey, at) == XorWord(old(WordAt(expandedKey, at - 16)), old(WordAt(expandedKey, at - 4)))
  {
    expandedKey[at] := Add(expandedKey[at - 16], expandedKey[at - 4]);
    expandedKey[at + 1] := Add(expandedKey[at - 15], expandedKey[at - 3]);
    expandedKey[at + 2] := Add(expandedKey[at - 14], expandedKey[at - 2]);
    expandedKey[at + 3] := Add(expandedKey[at - 13], expandedKey[at - 1]);
  }

  /** Section 5.2 for a word whose index is a multiple of Nk = 4, and for any other. */
  lemma FirstKeyWord(key: Block, ii: nat)
    requires 1 <= ii <= 10
    ensures var w := KeyWord(key, 4 * ii - 1);
            KeyWord(key, 4 * ii) == XorWord(KeyWord(key, 4 * ii - 4),
                                            XorWord(SubWord(Word(w.b1, w.b2, w.b3, w.b0)), Word(Byte(AesBits.Rcon(ii)), Byte(0), Byte(0), Byte(0))))
  {
    hide XorWord, SubWord, AesBits.Rcon;
    AesBits.RconIsPowerOfX(ii);
    assert (4 * ii) % 4 == 0 && (4 * ii) / 4 == ii;
  }

  lemma OtherKeyWord(key: Block, i: nat)
    requires 4 < i && i % 4 != 0
    ensures KeyWord(key, i) == XorWord(KeyWord(key, i - 4), KeyWord(key, i - 1))
  {}

  /** One round of the loop of expandKey. */
  method ExpandRound(expandedKey: array<byte>, ii: nat, ghost key: Block)
    requires expandedKey.Length == 176 && 1 <= ii <= 10
    requires BlockAt(expandedKey, 16 * (ii - 1)) == RoundKey(key, ii - 1)
    modifies expandedKey
    ensures BlockAt(expandedKey, 16 * ii) == RoundKey(key, ii)
    ensures forall i | 0 <= i < 16 * ii :: expandedKey[i] == old(expandedKey[i])
  {
    hide XorWord, SubWord, AesBits.Rcon, KeyWord;
    FirstKeyWord(key, ii);
    OtherKeyWord(key, 4 * ii + 1);
    OtherKeyWord(key, 4 * ii + 2);
    OtherKeyWord(key, 4 * ii + 3);
    var at := 16 * ii;
    ExpandFirstWord(expandedKey, ii);
    assert WordAt(expandedKey, at) == KeyWord(key, 4 * ii);
    ExpandNextWord(expandedKey, at + 4);
    assert WordAt(expandedKey, at + 4) == KeyWord(key, 4 * ii + 1);
    ExpandNextWord(expandedKey, at + 8);
    assert WordAt(expandedKey, at + 8) == KeyWord(key, 4 * ii + 2);
    ExpandNextWord(expandedKey, at + 12);
    assert WordAt(expandedKey, at + 12) == KeyWord(key, 4 * ii + 3);
  }

  /** The expanded key holds the eleven round keys of `key`, one after the other. */
  ghost predicate IsSchedule(expandedKey: array<byte>, key: Block)
    reads expandedKey
  {
    expandedKey.Length == 176 && forall r: nat | r <= 10 :: BlockAt(expandedKey, 16 * r) == RoundKey(key, r)
  }

  method ExpandKey(expandedKey: array<byte>, key: array<byte>)
    requires expandedKey != key && expandedKey.Length == 176 && key.Length == 16
    modifies expandedKey
    ensures IsSchedule(expandedKey, BlockAt(key, 0))
  {
    hide RoundKey;
    for ii := 0 to 16
      invariant forall i | 0 <= i < ii :: expandedKey[i] == key[i]
    {
      expandedKey[ii] := key[ii];
    }
    FirstRoundKey(BlockAt(key, 0));
    for ii := 1 to 11
      invariant forall r: nat | r < ii :: BlockAt(expandedKey, 16 * r) == RoundKey(BlockAt(key, 0), r)
    {
      assert BlockAt(expandedKey, 16 * (ii - 1)) == RoundKey(BlockAt(key, 0), ii - 1);
      label Before:
      ExpandRound(expandedKey, ii, BlockAt(key, 0));
      forall r: nat | r < ii
        ensures BlockAt(expandedKey, 16 * r) == old@Before(BlockAt(expandedKey, 16 * r))
      {}
    }
  }

  lemma FirstRoundKey(key: Block)
    ensures RoundKey(key, 0) == key
  {}

  // ---- AddRoundKey, SubBytes and ShiftRows, row by row

  method SubRow0(state: array<byte>, expandedKey: array<byte>, at: nat)
    requires state != expandedKey && state.Length == 16 && at + 16 <= expandedKey.Length
    modifies state
    ensures OnlyRow(state, 0)
    ensures state[0] == SBox(Add(old(state[0]), expandedKey[at]))
    ensures state[4] == SBox(Add(old(state[4]), expandedKey[at + 4]))
    ensures state[8] == SBox(Add(old(state[8]), expandedKey[at + 8]))
    ensures state[12] == SBox(Add(old(state[12]), expandedKey[at + 12]))
  {
    hide SBox, Add;
    state[0] := SBox(Add(state[0], expandedKey[at]));
    state[4] := SBox(Add(state[4], expandedKey[at + 4]));
    state[8] := SBox(Add(state[8], expandedKey[at + 8]));
    state[12] := SBox(Add(state[12], expandedKey[at + 12]));
  }

  method SubRow1(state: array<byte>, expandedKey: array<byte>, at: nat)
    requires state != expandedKey && state.Length == 16 && at + 16 <= expandedKey.Length
    modifies state
    ensures OnlyRow(state, 1)
    ensures state[1] == SBox(Add(old(state[5]), expandedKey[at + 5]))
    ensures state[5] == SBox(Add(old(state[9]), expandedKey[at + 9]))
    ensures state[9] == SBox(Add(old(state[13]), expandedKey[at + 13]))
    ensures state[13] == SBox(Add(old(state[1]), expandedKey[at + 1]))
  {
    hide SBox, Add;
    var buf1 := Add(state[1], expandedKey[at + 1]);
    state[1] := SBox(Add(state[5], expandedKey[at + 5]));
    state[5] := SBox(Add(state[9], expandedKey[at + 9]));
    state[9] := SBox(Add(state[13], expandedKey[at + 13]));
    state[13] := SBox(buf1);
  }

  method SubRow2(state: array<byte>, expandedKey: array<byte>, at: nat)
    requires state != expandedKey && state.Length == 16 && at + 16 <= expandedKey.Length
    modifies state
    ensures OnlyRow(state, 2)
    ensures state[2] == SBox(Add(old(state[10]), expandedKey[at + 10]))
    ensures state[6] == SBox(Add(old(state[14]), expandedKey[at + 14]))
    ensures state[10] == SBox(Add(old(state[2]), expandedKey[at + 2]))
    ensures state[14] == SBox(Add(old(state[6]), expandedKey[at + 6]))
  {
    hide SBox, Add;
    var buf1 := Add(state[2], expandedKey[at + 2]);
    var buf2 := Add(state[6], expandedKey[at + 6]);
    state[2] := SBox(Add(state[10], expandedKey[at + 10]));
    state[6] := SBox(Add(state[14], expandedKey[at + 14]));
    state[10] := SBox(buf1);
    state[14] := SBox(buf2);
  }

  method SubRow3(state: array<byte>, expandedKey: array<byte>, at: nat)
    requires state != expandedKey && state.Length == 16 && at + 16 <= expandedKey.Length
    modifies state
    ensures OnlyRow(state, 3)
    ensures state[3] == SBox(Add(old(state[15]), expandedKey[at + 15]))
    ensures state[7] == SBox(Add(old(state[3]), expandedKey[at + 3]))
    ensures state[11] == SBox(Add(old(state[7]), expandedKey[at + 7]))
    ensures state[15] == SBox(Add(old(state[11]), expandedKey[at + 11]))
  {
    hide SBox, Add;
    var buf1 := Add(state[15], expandedKey[at + 15]);
    state[15] := SBox(Add(state[11], expandedKey[at + 11]));
    state[11] := SBox(Add(state[7], expandedKey[at + 7]));
    state[7] := SBox(Add(state[3], expandedKey[at + 3]));
    state[3] := SBox(buf1);
  }

  method AddSubShift(state: array<byte>, expandedKey: array<byte>, round: nat)
    requires state != expandedKey && state.Length == 16 && expandedKey.Length == 176 && round <= 9
    modifies state
    ensures BlockAt(state, 0) ==
            ShiftRows(SubBytes(AddRoundKey(old(BlockAt(state, 0)), BlockAt(expandedKey, 16 * round))))
  {
    hide SBox, Add;
    SubRow0(state, expandedKey, 16 * round);
    SubRow1(state, expandedKey, 16 * round);
    SubRow2(state, expandedKey, 16 * round);
    SubRow3(state, expandedKey, 16 * round);
  }

  // ---- The inverse of the above, row by row

  method InvSubRow0(state: array<byte>, expandedKey: array<byte>, at: nat)
    requires state != expandedKey && state.Length == 16 && at + 16 <= expandedKey.Length
    modifies state
    ensures OnlyRow(state, 0)
    ensures state[0] == Add(RsBox(old(state[0])), expandedKey[at])
    ensures state[4] == Add(RsBox(old(state[4])), expandedKey[at + 4])
    ensures state[8] == Add(RsBox(old(state[8])), expandedKey[at + 8])
    ensures state[12] == Add(RsBox(old(state[12])), expandedKey[at + 12])
  {
    hide RsBox, Add;
    state[0] := Add(RsBox(state[0]), expandedKey[at]);
    state[4] := Add(RsBox(state[4]), expandedKey[at + 4]);
    state[8] := Add(RsBox(state[8]), expandedKey[at + 8]);
    state[12] := Add(RsBox(state[12]), expandedKey[at + 12]);
  }

  method InvSubRow1(state: array<byte>, expandedKey: array<byte>, at: nat)
    requires state != expandedKey && state.Length == 16 && at + 16 <= expandedKey.Length
    modifies state
    ensures OnlyRow(state, 1)
    ensures state[1] == Add(RsBox(old(state[13])), expandedKey[at + 1])
    ensures state[5] == Add(RsBox(old(state[1])), expandedKey[at + 5])
    ensures state[9] == Add(RsBox(old(state[5])), expandedKey[at + 9])
    ensures state[13] == Add(RsBox(old(state[9])), expandedKey[at + 13])
  {
    hide RsBox, Add;
    var buf1 := Add(RsBox(state[13]), expandedKey[at + 1]);
    state[13] := Add(RsBox(state[9]), expandedKey[at + 13]);
    state[9] := Add(RsBox(state[5]), expandedKey[at + 9]);
    state[5] := Add(RsBox(state[1]), expandedKey[at + 5]);
    state[1] := buf1;
  }

  method InvSubRow2(state: array<byte>, expandedKey: array<byte>, at: nat)
    requires state != expandedKey && state.Length == 16 && at + 16 <= expandedKey.Length
    modifies state
    ensures OnlyRow(state, 2)
    ensures state[2] == Add(RsBox(old(state[10])), expandedKey[at + 2])
    ensures state[6] == Add(RsBox(old(state[14])), expandedKey[at + 6])
    ensures state[10] == Add(RsBox(old(state[2])), expandedKey[at + 10])
    ensures state[14] == Add(RsBox(old(state[6])), expandedKey[at + 14])
  {
    hide RsBox, Add;
    var buf1 := Add(RsBox(state[2]), expandedKey[at + 10]);
    var buf2 := Add(RsBox(state[6]), expandedKey[at + 14]);
    state[2] := Add(RsBox(state[10]), expandedKey[at + 2]);
    state[6] := Add(RsBox(state[14]), expandedKey[at + 6]);
    state[10] := buf1;
    state[14] := buf2;
  }

  method InvSubRow3(state: array<byte>, expandedKey: array<byte>, at: nat)
    requires state != expandedKey && state.Length == 16 && at + 16 <= expandedKey.Length
    modifies state
    ensures OnlyRow(state, 3)
    ensures state[3] == Add(RsBox(old(state[7])), expandedKey[at + 3])
    ensures state[7] == Add(RsBox(old(state[11])), expandedKey[at + 7])
    ensures state[11] == Add(RsBox(old(state[15])), expandedKey[at + 11])
    ensures state[15] == Add(RsBox(old(state[3])), expandedKey[at + 15])
  {
    hide RsBox, Add;
    var buf1 := Add(RsBox(state[3]), expandedKey[at + 15]);
    state[3] := Add(RsBox(state[7]), expandedKey[at + 3]);
    state[7] := Add(RsBox(state[11]), expandedKey[at + 7]);
    state[11] := Add(RsBox(state[15]), expandedKey[at + 11]);
    state[15] := buf1;
  }

  method InvShiftSubAdd(state: array<byte>, expandedKey: array<byte>, round: nat)
    requires state != expandedKey && state.Length == 16 && expandedKey.Length == 176 && round <= 9
    modifies state
    ensures BlockAt(state, 0) ==
            AddRoundKey(InvSubBytes(InvShiftRows(old(BlockAt(state, 0)))), BlockAt(expandedKey, 16 * round))
  {
    hide RsBox, Add;
    InvSubRow0(state, expandedKey, 16 * round);
    InvSubRow1(state, expandedKey, 16 * round);
    InvSubRow2(state, expandedKey, 16 * round);
    InvSubRow3(state, expandedKey, 16 * round);
  }

  // ---- Columns

  method MixColumnAt(state: array<byte>, c: nat)
    requires c + 4 <= state.Length
    modifies state
    ensures OnlyWord(state, c)
    ensures WordAt(state, c) == FoldedMix(old(WordAt(state, c)))
  {
    hide Mul2, Add;
    var buf1 := Sum(state[c], state[c + 1], state[c + 2], state[c + 3]);
    var buf2 := state[c];
    var buf3 := Mul2(Add(state[c], state[c + 1]));
    state[c] := Add(Add(state[c], buf3), buf1);
    buf3 := Mul2(Add(state[c + 1], state[c + 2]));
    state[c + 1] := Add(Add(state[c + 1], buf3), buf1);
    buf3 := Mul2(Add(state[c + 2], state[c + 3]));
    state[c + 2] := Add(Add(state[c + 2], buf3), buf1);
    buf3 := Mul2(Add(state[c + 3], buf2));
    state[c + 3] := Add(Add(state[c + 3], buf3), buf1);
  }

  method BarretoAt(state: array<byte>, c: nat)
    requires c + 4 <= state.Length
    modifies state
    ensures OnlyWord(state, c)
    ensures WordAt(state, c) == Barreto(old(WordAt(state, c)))
  {
    hide Mul2, Add;
    var buf1 := Mul2(Mul2(Add(state[c], state[c + 2])));
    var buf2 := Mul2(Mul2(Add(state[c + 1], state[c + 3])));
    state[c] := Add(state[c], buf1);
    state[c + 1] := Add(state[c + 1], buf2);
    state[c + 2] := Add(state[c + 2], buf1);
    state[c + 3] := Add(state[c + 3], buf2);
  }

  method MixColumnsInPlace(state: array<byte>)
    requires state.Length == 16
    modifies state
    ensures BlockAt(state, 0) == MixColumns(old(BlockAt(state, 0)))
  {
    hide FoldedMix, MixColumn;
    ghost var s := BlockAt(state, 0);
    FoldedMixIsMixColumn(s.c0);
    FoldedMixIsMixColumn(s.c1);
    FoldedMixIsMixColumn(s.c2);
    FoldedMixIsMixColumn(s.c3);
    MixColumnAt(state, 0);
    MixColumnAt(state, 4);
    MixColumnAt(state, 8);
    MixColumnAt(state, 12);
  }

  method BarretoInPlace(state: array<byte>)
    requires state.Length == 16
    modifies state
    ensures var s := old(BlockAt(state, 0));
            BlockAt(state, 0) == Block(Barreto(s.c0), Barreto(s.c1), Barreto(s.c2), Barreto(s.c3))
  {
    hide Barreto;
    BarretoAt(state, 0);
    BarretoAt(state, 4);
    BarretoAt(state, 8);
    BarretoAt(state, 12);
  }

  lemma BarretoThenMixColumns(s: Block)
    ensures MixColumns(Block(Barreto(s.c0), Barreto(s.c1), Barreto(s.c2), Barreto(s.c3))) == InvMixColumns(s)
  {
    hide MixColumn, InvMixColumn, FoldedMix, Barreto;
    forall w: Word
      ensures MixColumn(Barreto(w)) == InvMixColumn(w)
    {
      FoldedMixIsMixColumn(Barreto(w));
      BarretoThenFoldedIsInvMixColumn(w);
    }
  }

  method AddKeyWord(state: array<byte>, expandedKey: array<byte>, c: nat)
    requires state != expandedKey && c + 4 <= state.Length && 160 + c + 4 <= expandedKey.Length
    modifies state
    ensures OnlyWord(state, c)
    ensures WordAt(state, c) == XorWord(old(WordAt(state, c)), WordAt(expandedKey, 160 + c))
  {
    hide Add;
    state[c] := Add(state[c], expandedKey[160 + c]);
    state[c + 1] := Add(state[c + 1], expandedKey[161 + c]);
    state[c + 2] := Add(state[c + 2], expandedKey[162 + c]);
    state[c + 3] := Add(state[c + 3], expandedKey[163 + c]);
  }

  /** The last AddRoundKey of the encryption and the first of the decryption. */
  method AddLastRoundKey(state: array<byte>, expandedKey: array<byte>)
    requires state != expandedKey && state.Length == 16 && expandedKey.Length == 176
    modifies state
    ensures BlockAt(state, 0) == AddRoundKey(old(BlockAt(state, 0)), BlockAt(expandedKey, 160))
  {
    hide XorWord;
    AddKeyWord(state, expandedKey, 0);
    AddKeyWord(state, expandedKey, 4);
    AddKeyWord(state, expandedKey, 8);
    AddKeyWord(state, expandedKey, 12);
  }

  // ---- The two ciphers

  method AesEncr(state: array<byte>, expandedKey: array<byte>, ghost key: Block)
    requires state != expandedKey && state.Length == 16 && IsSchedule(expandedKey, key)
    modifies state
    ensures BlockAt(state, 0) == Cipher(old(BlockAt(state, 0)), key)
  {
    hide RoundKey, AddRoundKey, SubBytes, ShiftRows, MixColumns;
    ghost var input := BlockAt(state, 0);
    for round := 0 to 9
      invariant AddRoundKey(BlockAt(state, 0), RoundKey(key, round)) == Rounds(input, key, round)
    {
      assert BlockAt(expandedKey, 16 * round) == RoundKey(key, round);
      AddSubShift(state, expandedKey, round);
      MixColumnsInPlace(state);
    }
    assert BlockAt(expandedKey, 16 * 9) == RoundKey(key, 9);
    AddSubShift(state, expandedKey, 9);
    assert BlockAt(expandedKey, 16 * 10) == RoundKey(key, 10);
    AddLastRoundKey(state, expandedKey);
  }

  method AesDecr(state: array<byte>, expandedKey: array<byte>, ghost key: Block)
    requires state != expandedKey && state.Length == 16 && IsSchedule(expandedKey, key)
    modifies state
    ensures BlockAt(state, 0) == InvCipher(old(BlockAt(state, 0)), key)
  {
    hide RoundKey, AddRoundKey, InvSubBytes, InvShiftRows, MixColumns, InvMixColumns, Barreto;
    ghost var input := BlockAt(state, 0);
    assert BlockAt(expandedKey, 16 * 10) == RoundKey(key, 10);
    AddLastRoundKey(state, expandedKey);
    assert BlockAt(expandedKey, 16 * 9) == RoundKey(key, 9);
    InvShiftSubAdd(state, expandedKey, 9);
    var round := 8;
    while round >= 0
      invariant -1 <= round <= 8
      invariant BlockAt(state, 0) ==
                AddRoundKey(InvSubBytes(InvShiftRows(InvRounds(input, key, round + 1))), RoundKey(key, round + 1))
    {
      BarretoThenMixColumns(BlockAt(state, 0));
      BarretoInPlace(state);
      MixColumnsInPlace(state);
      assert BlockAt(state, 0) == InvRounds(input, key, round);
      assert BlockAt(expandedKey, 16 * round) == RoundKey(key, round);
      InvShiftSubAdd(state, expandedKey, round);
      round := round - 1;
    }
  }

  /** The file-scope expanded key and the two entry points that fill it before each block. */
  class Ecb {
    const expandedKey: array<byte>

    constructor ()
      ensures fresh(expandedKey) && expandedKey.Length == 176
    {
      expandedKey := new byte[176](_ => Byte(0));
    }

    method AesEncrypt(state: array<byte>, key: array<byte>)
      requires expandedKey.Length == 176 && state.Length == 16 && key.Length == 16
      modifies state, expandedKey
      ensures BlockAt(state, 0) == Cipher(old(BlockAt(state, 0)), old(BlockAt(key, 0)))
      ensures InvCipher(BlockAt(state, 0), old(BlockAt(key, 0))) == old(BlockAt(state, 0))
    {
      hide Cipher, InvCipher;
      ghost var k := BlockAt(key, 0);
      ExpandKey(expandedKey, key);
      AesEncr(state, expandedKey, k);
      CiphersInverse(old(BlockAt(state, 0)), k);
    }

    method AesDecrypt(state: array<byte>, key: array<byte>)
      requires expandedKey.Length == 176 && state.Length == 16 && key.Length == 16
      modifies state, expandedKey
      ensures BlockAt(state, 0) == InvCipher(old(BlockAt(state, 0)), old(BlockAt(key, 0)))
      ensures Cipher(BlockAt(state, 0), old(BlockAt(key, 0))) == old(BlockAt(state, 0))
    {
      hide Cipher, InvCipher;
      ghost var k := BlockAt(key, 0);
      ExpandKey(expandedKey, key);
      AesDecr(state, expandedKey, k);
      CiphersInverse(old(BlockAt(state, 0)), k);
    }
  }
}
