// KeyExpansion, Cipher and InvCipher as sections 5.1 to 5.3 of FIPS 197 define them, for
// 128-bit keys, and the proof that InvCipher and Cipher undo each other.
module Fips197 {
  import opened AesField
  import AesBits

  /** Four columns: the state, and a round key. */
  datatype Block = Block(c0: Word, c1: Word, c2: Word, c3: Word)

  function XorWord(a: Word, b: Word): Word {
    Word(Add(a.b0, b.b0), Add(a.b1, b.b1), Add(a.b2, b.b2), Add(a.b3, b.b3))
  }

  function SubWord(w: Word): Word {
    Word(SBox(w.b0), SBox(w.b1), SBox(w.b2), SBox(w.b3))
  }

  function InvSubWord(w: Word): Word {
    Word(RsBox(w.b0), RsBox(w.b1), RsBox(w.b2), RsBox(w.b3))
  }

  // ---- Round transformations (sections 5.1.1 to 5.1.4 and 5.3.1 to 5.3.3)

  function AddRoundKey(s: Block, k: Block): Block {
    Block(XorWord(s.c0, k.c0), XorWord(s.c1, k.c1), XorWord(s.c2, k.c2), XorWord(s.c3, k.c3))
  }

  function SubBytes(s: Block): Block {
    Block(SubWord(s.c0), SubWord(s.c1), SubWord(s.c2), SubWord(s.c3))
  }

  function InvSubBytes(s: Block): Block {
    Block(InvSubWord(s.c0), InvSubWord(s.c1), InvSubWord(s.c2), InvSubWord(s.c3))
  }

  /** Row r moves r places to the left: byte r of a column comes from r columns further on. */
  function ShiftRows(s: Block): Block {
    Block(Word(s.c0.b0, s.c1.b1, s.c2.b2, s.c3.b3),
          Word(s.c1.b0, s.c2.b1, s.c3.b2, s.c0.b3),
          Word(s.c2.b0, s.c3.b1, s.c0.b2, s.c1.b3),
          Word(s.c3.b0, s.c0.b1, s.c1.b2, s.c2.b3))
  }

  function InvShiftRows(s: Block): Block {
    Block(Word(s.c0.b0, s.c3.b1, s.c2.b2, s.c1.b3),
          Word(s.c1.b0, s.c0.b1, s.c3.b2, s.c2.b3),
          Word(s.c2.b0, s.c1.b1, s.c0.b2, s.c3.b3),
          Word(s.c3.b0, s.c2.b1, s.c1.b2, s.c0.b3))
  }

  function Column(s: Block, c: nat): Word
    requires c < 4
  {
    if c == 0 then s.c0 else if c == 1 then s.c1 else if c == 2 then s.c2 else s.c3
  }

  function Row(w: Word, r: nat): byte
    requires r < 4
  {
    if r == 0 then w.b0 else if r == 1 then w.b1 else if r == 2 then w.b2 else w.b3
  }

  /** Formula (5.3): byte r of column c comes from column (c + r) mod 4. */
  lemma ShiftRowsAt(s: Block, r: nat, c: nat)
    requires r < 4 && c < 4
    ensures Row(Column(ShiftRows(s), c), r) == Row(Column(s, (c + r) % 4), r)
    ensures Row(Column(InvShiftRows(s), (c + r) % 4), r) == Row(Column(s, c), r)
  {}

  function MixColumns(s: Block): Block {
    Block(MixColumn(s.c0), MixColumn(s.c1), MixColumn(s.c2), MixColumn(s.c3))
  }

  function InvMixColumns(s: Block): Block {
    Block(InvMixColumn(s.c0), InvMixColumn(s.c1), InvMixColumn(s.c2), InvMixColumn(s.c3))
  }

  // ---- Key expansion (section 5.2, Nk = 4)

  function KeyWord(key: Block, i: nat): Word {
    if i < 4 then
      (if i == 0 then key.c0 else if i == 1 then key.c1 else if i == 2 then key.c2 else key.c3)
    else
      var previous := KeyWord(key, i - 1);
      var temp := if i % 4 == 0 then
                    XorWord(SubWord(Word(previous.b1, previous.b2, previous.b3, previous.b0)),
                            Word(Byte(AesBits.RoundConstant(i / 4)), Byte(0), Byte(0), Byte(0)))
                  else previous;
      XorWord(KeyWord(key, i - 4), temp)
  }

  function RoundKey(key: Block, round: nat): Block {
    Block(KeyWord(key, 4 * round), KeyWord(key, 4 * round + 1), KeyWord(key, 4 * round + 2), KeyWord(key, 4 * round + 3))
  }

  function Bytes(b0: bv8, b1: bv8, b2: bv8, b3: bv8): Word {
    Word(Byte(b0), Byte(b1), Byte(b2), Byte(b3))
  }

  lemma SubWordExample()
    ensures SubWord(Bytes(0xcf, 0x4f, 0x3c, 0x09)) == Bytes(0x8a, 0x84, 0xeb, 0x01)
  {}

  lemma XorWordExample()
    ensures XorWord(Bytes(0x8a, 0x84, 0xeb, 0x01), Bytes(0x01, 0, 0, 0)) == Bytes(0x8b, 0x84, 0xeb, 0x01)
    ensures XorWord(Bytes(0x2b, 0x7e, 0x15, 0x16), Bytes(0x8b, 0x84, 0xeb, 0x01)) == Bytes(0xa0, 0xfa, 0xfe, 0x17)
    ensures XorWord(Bytes(0x28, 0xae, 0xd2, 0xa6), Bytes(0xa0, 0xfa, 0xfe, 0x17)) == Bytes(0x88, 0x54, 0x2c, 0xb1)
    ensures XorWord(Bytes(0xab, 0xf7, 0x15, 0x88), Bytes(0x88, 0x54, 0x2c, 0xb1)) == Bytes(0x23, 0xa3, 0x39, 0x39)
    ensures XorWord(Bytes(0x09, 0xcf, 0x4f, 0x3c), Bytes(0x23, 0xa3, 0x39, 0x39)) == Bytes(0x2a, 0x6c, 0x76, 0x05)
  {}

  /** The first round key of the example in Appendix A.1. */
  lemma KeyExpansionExample(key: Block)
    requires key == Block(Bytes(0x2b, 0x7e, 0x15, 0x16), Bytes(0x28, 0xae, 0xd2, 0xa6),
                          Bytes(0xab, 0xf7, 0x15, 0x88), Bytes(0x09, 0xcf, 0x4f, 0x3c))
    ensures RoundKey(key, 0) == key
    ensures RoundKey(key, 1) == Block(Bytes(0xa0, 0xfa, 0xfe, 0x17), Bytes(0x88, 0x54, 0x2c, 0xb1),
                                      Bytes(0x23, 0xa3, 0x39, 0x39), Bytes(0x2a, 0x6c, 0x76, 0x05))
  {
    SubWordExample();
    XorWordExample();
    hide SubWord, XorWord;
    assert KeyWord(key, 4) == Bytes(0xa0, 0xfa, 0xfe, 0x17);
    assert KeyWord(key, 5) == Bytes(0x88, 0x54, 0x2c, 0xb1);
    assert KeyWord(key, 6) == Bytes(0x23, 0xa3, 0x39, 0x39);
  }

  // ---- The ciphers (sections 5.1 and 5.3, Nr = 10)

  /** The state of Cipher after AddRoundKey of the given round, at most 9. */
  function Rounds(input: Block, key: Block, round: nat): Block {
    if round == 0 then AddRoundKey(input, RoundKey(key, 0))
    else AddRoundKey(MixColumns(ShiftRows(SubBytes(Rounds(input, key, round - 1)))), RoundKey(key, round))
  }

  function Cipher(input: Block, key: Block): Block {
    AddRoundKey(ShiftRows(SubBytes(Rounds(input, key, 9))), RoundKey(key, 10))
  }

  /** The state of InvCipher at the start of its step for `round`, which counts down from 9. */
  function InvRounds(input: Block, key: Block, round: nat): Block
    requires round <= 9
    decreases 9 - round
  {
    if round == 9 then AddRoundKey(input, RoundKey(key, 10))
    else InvMixColumns(AddRoundKey(InvSubBytes(InvShiftRows(InvRounds(input, key, round + 1))), RoundKey(key, round + 1)))
  }

  function InvCipher(input: Block, key: Block): Block {
    AddRoundKey(InvSubBytes(InvShiftRows(InvRounds(input, key, 0))), RoundKey(key, 0))
  }

  // ---- InvCipher and Cipher undo each other

  lemma AddRoundKeyTwice(s: Block, k: Block)
    ensures AddRoundKey(AddRoundKey(s, k), k) == s
  {
    hide Add;
    forall a, b {
      AddCancels(a, b);
    }
  }

  lemma SubBytesInverse(s: Block)
    ensures InvSubBytes(SubBytes(s)) == s
    ensures SubBytes(InvSubBytes(s)) == s
  {
    hide SBox, RsBox;
    forall x: byte
      ensures RsBox(SBox(x)) == x
      ensures SBox(RsBox(x)) == x
    {
      SBoxInverse(x);
    }
  }

  lemma SubThenShiftInverse(s: Block)
    ensures InvSubBytes(InvShiftRows(ShiftRows(SubBytes(s)))) == s
    ensures ShiftRows(SubBytes(InvSubBytes(InvShiftRows(s)))) == s
  {
    hide SubBytes, InvSubBytes;
    SubBytesInverse(s);
    SubBytesInverse(InvShiftRows(s));
  }

  lemma MixColumnsInverse(s: Block)
    ensures InvMixColumns(MixColumns(s)) == s
    ensures MixColumns(InvMixColumns(s)) == s
  {
    hide MixColumn, InvMixColumn;
    MixColumnInverse(s.c0);
    MixColumnInverse(s.c1);
    MixColumnInverse(s.c2);
    MixColumnInverse(s.c3);
  }

  /** Decrypting a cipher text passes, backwards, through the states the encryption went through. */
  lemma {:induction false} InvRoundsOfCipher(input: Block, key: Block, round: nat)
    requires round <= 9
    ensures InvRounds(Cipher(input, key), key, round) == ShiftRows(SubBytes(Rounds(input, key, round)))
    decreases 9 - round
  {
    hide RoundKey, AddRoundKey, SubBytes, InvSubBytes, ShiftRows, InvShiftRows, MixColumns, InvMixColumns;
    if round == 9 {
      AddRoundKeyTwice(ShiftRows(SubBytes(Rounds(input, key, 9))), RoundKey(key, 10));
    } else {
      InvRoundsOfCipher(input, key, round + 1);
      var state := ShiftRows(SubBytes(Rounds(input, key, round)));
      SubThenShiftInverse(Rounds(input, key, round + 1));
      AddRoundKeyTwice(MixColumns(state), RoundKey(key, round + 1));
      MixColumnsInverse(state);
    }
  }

  /** Encrypting a decrypted block passes through the states the decryption went through. */
  lemma {:induction false} RoundsOfInvCipher(input: Block, key: Block, round: nat)
    requires round <= 9
    ensures Rounds(InvCipher(input, key), key, round) == InvSubBytes(InvShiftRows(InvRounds(input, key, round)))
  {
    hide RoundKey, AddRoundKey, SubBytes, InvSubBytes, ShiftRows, InvShiftRows, MixColumns, InvMixColumns;
    if round == 0 {
      AddRoundKeyTwice(InvSubBytes(InvShiftRows(InvRounds(input, key, 0))), RoundKey(key, 0));
    } else {
      RoundsOfInvCipher(input, key, round - 1);
      var state := InvSubBytes(InvShiftRows(InvRounds(input, key, round)));
      SubThenShiftInverse(InvRounds(input, key, round - 1));
      MixColumnsInverse(AddRoundKey(state, RoundKey(key, round)));
      AddRoundKeyTwice(state, RoundKey(key, round));
    }
  }

  /** For every key and block, each cipher undoes the other. */
  lemma CiphersInverse(input: Block, key: Block)
    ensures InvCipher(Cipher(input, key), key) == input
    ensures Cipher(InvCipher(input, key), key) == input
  {
    InvCipherOfCipher(input, key);
    CipherOfInvCipher(input, key);
  }

  lemma InvCipherOfCipher(input: Block, key: Block)
    ensures InvCipher(Cipher(input, key), key) == input
  {
    hide Cipher, InvRounds, RoundKey, AddRoundKey, SubBytes, InvSubBytes, ShiftRows, InvShiftRows;
    InvRoundsOfCipher(input, key, 0);
    SubThenShiftInverse(Rounds(input, key, 0));
    AddRoundKeyTwice(input, RoundKey(key, 0));
  }

  lemma CipherOfInvCipher(input: Block, key: Block)
    ensures Cipher(InvCipher(input, key), key) == input
  {
    hide InvCipher, Rounds, RoundKey, AddRoundKey, SubBytes, InvSubBytes, ShiftRows, InvShiftRows;
    RoundsOfInvCipher(input, key, 9);
    SubThenShiftInverse(InvRounds(input, key, 9));
    AddRoundKeyTwice(input, RoundKey(key, 10));
  }
}
