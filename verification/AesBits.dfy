// The field GF(2^8) of FIPS 197 section 4 and the constant tables of security.c, on bit vectors.
// Every fact here is settled by looking at the bits; everything above works with the laws alone.
module AesBits {

  // ---- The field (FIPS 197 sections 4.1, 4.2 and 4.2.1). Addition is exclusive or.

  /** Multiplication by the polynomial x, modulo x^8 + x^4 + x^3 + x + 1. */
  function XTime(b: bv8): bv8 {
    (b << 1) ^ (if b & 0x80 == 0x80 then 0x1b else 0)
  }

  /** a if the coefficient of b selected by the mask m is 1, and 0 otherwise. */
  function Term(a: bv8, b: bv8, m: bv8): bv8 {
    if b & m == m then a else 0
  }

  /** The product of section 4.2: the sum of x^i * a over the coefficients of b. */
  function Product(a0: bv8, b: bv8): bv8 {
    var a1 := XTime(a0);
    var a2 := XTime(a1);
    var a3 := XTime(a2);
    var a4 := XTime(a3);
    var a5 := XTime(a4);
    var a6 := XTime(a5);
    var a7 := XTime(a6);
    Term(a0, b, 0x01) ^ Term(a1, b, 0x02) ^ Term(a2, b, 0x04) ^ Term(a3, b, 0x08) ^
    Term(a4, b, 0x10) ^ Term(a5, b, 0x20) ^ Term(a6, b, 0x40) ^ Term(a7, b, 0x80)
  }

  /** galois_mul2 of security.c. */
  function GaloisMul2(value: bv8): bv8 {
    if value >> 7 != 0 then (value << 1) ^ 0x1b else value << 1
  }

  // ---- The tables, sixteen rows of sixteen entries

  function Pick(i: bv8, b0: bv8, b1: bv8, b2: bv8, b3: bv8, b4: bv8, b5: bv8, b6: bv8, b7: bv8,
                b8: bv8, b9: bv8, ba: bv8, bb: bv8, bc: bv8, bd: bv8, be: bv8, bf: bv8): bv8 {
    if i & 8 == 0
    then if i & 4 == 0
         then if i & 2 == 0 then (if i & 1 == 0 then b0 else b1) else (if i & 1 == 0 then b2 else b3)
         else if i & 2 == 0 then (if i & 1 == 0 then b4 else b5) else (if i & 1 == 0 then b6 else b7)
    else if i & 4 == 0
         then if i & 2 == 0 then (if i & 1 == 0 then b8 else b9) else (if i & 1 == 0 then ba else bb)
         else if i & 2 == 0 then (if i & 1 == 0 then bc else bd) else (if i & 1 == 0 then be else bf)
  }

  function SBox(x: bv8): bv8 {
    var lo := x & 0xf;
    Pick(x >> 4,
         Pick(lo, 0x63, 0x7c, 0x77, 0x7b, 0xf2, 0x6b, 0x6f, 0xc5, 0x30, 0x01, 0x67, 0x2b, 0xfe, 0xd7, 0xab, 0x76),
         Pick(lo, 0xca, 0x82, 0xc9, 0x7d, 0xfa, 0x59, 0x47, 0xf0, 0xad, 0xd4, 0xa2, 0xaf, 0x9c, 0xa4, 0x72, 0xc0),
         Pick(lo, 0xb7, 0xfd, 0x93, 0x26, 0x36, 0x3f, 0xf7, 0xcc, 0x34, 0xa5, 0xe5, 0xf1, 0x71, 0xd8, 0x31, 0x15),
         Pick(lo, 0x04, 0xc7, 0x23, 0xc3, 0x18, 0x96, 0x05, 0x9a, 0x07, 0x12, 0x80, 0xe2, 0xeb, 0x27, 0xb2, 0x75),
         Pick(lo, 0x09, 0x83, 0x2c, 0x1a, 0x1b, 0x6e, 0x5a, 0xa0, 0x52, 0x3b, 0xd6, 0xb3, 0x29, 0xe3, 0x2f, 0x84),
         Pick(lo, 0x53, 0xd1, 0x00, 0xed, 0x20, 0xfc, 0xb1, 0x5b, 0x6a, 0xcb, 0xbe, 0x39, 0x4a, 0x4c, 0x58, 0xcf),
         Pick(lo, 0xd0, 0xef, 0xaa, 0xfb, 0x43, 0x4d, 0x33, 0x85, 0x45, 0xf9, 0x02, 0x7f, 0x50, 0x3c, 0x9f, 0xa8),
         Pick(lo, 0x51, 0xa3, 0x40, 0x8f, 0x92, 0x9d, 0x38, 0xf5, 0xbc, 0xb6, 0xda, 0x21, 0x10, 0xff, 0xf3, 0xd2),
         Pick(lo, 0xcd, 0x0c, 0x13, 0xec, 0x5f, 0x97, 0x44, 0x17, 0xc4, 0xa7, 0x7e, 0x3d, 0x64, 0x5d, 0x19, 0x73),
         Pick(lo, 0x60, 0x81, 0x4f, 0xdc, 0x22, 0x2a, 0x90, 0x88, 0x46, 0xee, 0xb8, 0x14, 0xde, 0x5e, 0x0b, 0xdb),
         Pick(lo, 0xe0, 0x32, 0x3a, 0x0a, 0x49, 0x06, 0x24, 0x5c, 0xc2, 0xd3, 0xac, 0x62, 0x91, 0x95, 0xe4, 0x79),
         Pick(lo, 0xe7, 0xc8, 0x37, 0x6d, 0x8d, 0xd5, 0x4e, 0xa9, 0x6c, 0x56, 0xf4, 0xea, 0x65, 0x7a, 0xae, 0x08),
         Pick(lo, 0xba, 0x78, 0x25, 0x2e, 0x1c, 0xa6, 0xb4, 0xc6, 0xe8, 0xdd, 0x74, 0x1f, 0x4b, 0xbd, 0x8b, 0x8a),
         Pick(lo, 0x70, 0x3e, 0xb5, 0x66, 0x48, 0x03, 0xf6, 0x0e, 0x61, 0x35, 0x57, 0xb9, 0x86, 0xc1, 0x1d, 0x9e),
         Pick(lo, 0xe1, 0xf8, 0x98, 0x11, 0x69, 0xd9, 0x8e, 0x94, 0x9b, 0x1e, 0x87, 0xe9, 0xce, 0x55, 0x28, 0xdf),
         Pick(lo, 0x8c, 0xa1, 0x89, 0x0d, 0xbf, 0xe6, 0x42, 0x68, 0x41, 0x99, 0x2d, 0x0f, 0xb0, 0x54, 0xbb, 0x16))
  }

  function RsBox(x: bv8): bv8 {
    var lo := x & 0xf;
    Pick(x >> 4,
         Pick(lo, 0x52, 0x09, 0x6a, 0xd5, 0x30, 0x36, 0xa5, 0x38, 0xbf, 0x40, 0xa3, 0x9e, 0x81, 0xf3, 0xd7, 0xfb),
         Pick(lo, 0x7c, 0xe3, 0x39, 0x82, 0x9b, 0x2f, 0xff, 0x87, 0x34, 0x8e, 0x43, 0x44, 0xc4, 0xde, 0xe9, 0xcb),
         Pick(lo, 0x54, 0x7b, 0x94, 0x32, 0xa6, 0xc2, 0x23, 0x3d, 0xee, 0x4c, 0x95, 0x0b, 0x42, 0xfa, 0xc3, 0x4e),
         Pick(lo, 0x08, 0x2e, 0xa1, 0x66, 0x28, 0xd9, 0x24, 0xb2, 0x76, 0x5b, 0xa2, 0x49, 0x6d, 0x8b, 0xd1, 0x25),
         Pick(lo, 0x72, 0xf8, 0xf6, 0x64, 0x86, 0x68, 0x98, 0x16, 0xd4, 0xa4, 0x5c, 0xcc, 0x5d, 0x65, 0xb6, 0x92),
         Pick(lo, 0x6c, 0x70, 0x48, 0x50, 0xfd, 0xed, 0xb9, 0xda, 0x5e, 0x15, 0x46, 0x57, 0xa7, 0x8d, 0x9d, 0x84),
         Pick(lo, 0x90, 0xd8, 0xab, 0x00, 0x8c, 0xbc, 0xd3, 0x0a, 0xf7, 0xe4, 0x58, 0x05, 0xb8, 0xb3, 0x45, 0x06),
         Pick(lo, 0xd0, 0x2c, 0x1e, 0x8f, 0xca, 0x3f, 0x0f, 0x02, 0xc1, 0xaf, 0xbd, 0x03, 0x01, 0x13, 0x8a, 0x6b),
         Pick(lo, 0x3a, 0x91, 0x11, 0x41, 0x4f, 0x67, 0xdc, 0xea, 0x97, 0xf2, 0xcf, 0xce, 0xf0, 0xb4, 0xe6, 0x73),
         Pick(lo, 0x96, 0xac, 0x74, 0x22, 0xe7, 0xad, 0x35, 0x85, 0xe2, 0xf9, 0x37, 0xe8, 0x1c, 0x75, 0xdf, 0x6e),
         Pick(lo, 0x47, 0xf1, 0x1a, 0x71, 0x1d, 0x29, 0xc5, 0x89, 0x6f, 0xb7, 0x62, 0x0e, 0xaa, 0x18, 0xbe, 0x1b),
         Pick(lo, 0xfc, 0x56, 0x3e, 0x4b, 0xc6, 0xd2, 0x79, 0x20, 0x9a, 0xdb, 0xc0, 0xfe, 0x78, 0xcd, 0x5a, 0xf4),
         Pick(lo, 0x1f, 0xdd, 0xa8, 0x33, 0x88, 0x07, 0xc7, 0x31, 0xb1, 0x12, 0x10, 0x59, 0x27, 0x80, 0xec, 0x5f),
         Pick(lo, 0x60, 0x51, 0x7f, 0xa9, 0x19, 0xb5, 0x4a, 0x0d, 0x2d, 0xe5, 0x7a, 0x9f, 0x93, 0xc9, 0x9c, 0xef),
         Pick(lo, 0xa0, 0xe0, 0x3b, 0x4d, 0xae, 0x2a, 0xf5, 0xb0, 0xc8, 0xeb, 0xbb, 0x3c, 0x83, 0x53, 0x99, 0x61),
         Pick(lo, 0x17, 0x2b, 0x04, 0x7e, 0xba, 0x77, 0xd6, 0x26, 0xe1, 0x69, 0x14, 0x63, 0x55, 0x21, 0x0c, 0x7d))
  }

  /** Entry i of the round constants; entry 0 is never used. */
  function Rcon(i: nat): bv8
    requires i <= 10
  {
    [0x8d, 0x01, 0x02, 0x04, 0x08, 0x10, 0x20, 0x40, 0x80, 0x1b, 0x36][i]
  }

  /** x^(i-1), the first byte of the round constant word of section 5.2. */
  function RoundConstant(i: nat): bv8
    requires 1 <= i
  {
    if i == 1 then 1 else XTime(RoundConstant(i - 1))
  }

  // ---- What the tables hold

  lemma SBoxInverseBelow80(x: bv8)
    requires x < 0x80
    ensures RsBox(SBox(x)) == x
  {}

  lemma SBoxInverseFrom80(x: bv8)
    requires 0x80 <= x
    ensures RsBox(SBox(x)) == x
  {}

  lemma RsBoxInverseBelow80(x: bv8)
    requires x < 0x80
    ensures SBox(RsBox(x)) == x
  {}

  lemma RsBoxInverseFrom80(x: bv8)
    requires 0x80 <= x
    ensures SBox(RsBox(x)) == x
  {}

  /** Each substitution table undoes the other, on all 256 values. */
  lemma TablesInverse(x: bv8)
    ensures RsBox(SBox(x)) == x
    ensures SBox(RsBox(x)) == x
  {
    hide SBox, RsBox;
    if x < 0x80 {
      SBoxInverseBelow80(x);
      RsBoxInverseBelow80(x);
    } else {
      SBoxInverseFrom80(x);
      RsBoxInverseFrom80(x);
    }
  }

  lemma RconIsPowerOfX(i: nat)
    requires 1 <= i <= 10
    ensures Rcon(i) == RoundConstant(i)
  {
    if i > 1 {
      RconIsPowerOfX(i - 1);
    }
  }

  /** The affine transformation (5.1) of section 5.1.1. */
  function Affine(b: bv8): bv8 {
    b ^ ((b << 1) | (b >> 7)) ^ ((b << 2) | (b >> 6)) ^ ((b << 3) | (b >> 5)) ^ ((b << 4) | (b >> 4)) ^ 0x63
  }

  /** The multiplicative inverse, read off the table by undoing the affine transformation. */
  function FieldInverse(x: bv8): bv8 {
    var z := SBox(x) ^ 0x63;
    ((z << 1) | (z >> 7)) ^ ((z << 3) | (z >> 5)) ^ ((z << 6) | (z >> 2))
  }

  lemma InverseFrom00(x: bv8)
    requires 0 < x < 0x20
    ensures Product(x, FieldInverse(x)) == 1
  {}

  lemma InverseFrom20(x: bv8)
    requires 0x20 <= x < 0x40
    ensures Product(x, FieldInverse(x)) == 1
  {}

  lemma InverseFrom40(x: bv8)
    requires 0x40 <= x < 0x60
    ensures Product(x, FieldInverse(x)) == 1
  {}

  lemma InverseFrom60(x: bv8)
    requires 0x60 <= x < 0x80
    ensures Product(x, FieldInverse(x)) == 1
  {}

  lemma InverseFrom80(x: bv8)
    requires 0x80 <= x < 0xa0
    ensures Product(x, FieldInverse(x)) == 1
  {}

  lemma InverseFromA0(x: bv8)
    requires 0xa0 <= x < 0xc0
    ensures Product(x, FieldInverse(x)) == 1
  {}

  lemma InverseFromC0(x: bv8)
    requires 0xc0 <= x < 0xe0
    ensures Product(x, FieldInverse(x)) == 1
  {}

  lemma InverseFromE0(x: bv8)
    requires 0xe0 <= x
    ensures Product(x, FieldInverse(x)) == 1
  {}

  lemma EntryIsAffine(x: bv8)
    ensures SBox(x) == Affine(FieldInverse(x))
    ensures x == 0 ==> FieldInverse(x) == 0
  {
    hide Product;
  }

  /** Section 5.1.1: every entry is the affine image of the multiplicative inverse (0 for 0). */
  lemma SBoxIsAffineOfInverse(x: bv8)
    ensures SBox(x) == Affine(FieldInverse(x))
    ensures if x == 0 then FieldInverse(x) == 0 else Product(x, FieldInverse(x)) == 1
  {
    hide Product, FieldInverse, SBox, Affine;
    EntryIsAffine(x);
    if 0 < x < 0x20 {
      InverseFrom00(x);
    } else if 0x20 <= x < 0x40 {
      InverseFrom20(x);
    } else if 0x40 <= x < 0x60 {
      InverseFrom40(x);
    } else if 0x60 <= x < 0x80 {
      InverseFrom60(x);
    } else if 0x80 <= x < 0xa0 {
      InverseFrom80(x);
    } else if 0xa0 <= x < 0xc0 {
      InverseFromA0(x);
    } else if 0xc0 <= x < 0xe0 {
      InverseFromC0(x);
    } else if 0xe0 <= x {
      InverseFromE0(x);
    }
  }

  // ---- The folded arithmetic

  lemma ShiftXor(a: bv8, b: bv8)
    ensures (a ^ b) << 1 == (a << 1) ^ (b << 1)
    ensures (a ^ b) >> 7 == (a >> 7) ^ (b >> 7)
    ensures a >> 7 == 0 || a >> 7 == 1
  {}

  lemma Carry(a: bv8, b: bv8)
    ensures (a ^ 0x1b) ^ (b ^ 0x1b) == a ^ b
    ensures (a ^ 0x1b) ^ b == (a ^ b) ^ 0x1b
  {}

  /** Doubling is linear. */
  lemma GaloisMul2Linear(a: bv8, b: bv8)
    ensures GaloisMul2(a ^ b) == GaloisMul2(a) ^ GaloisMul2(b)
  {
    ShiftXor(a, b);
    ShiftXor(b, a);
    Carry(a << 1, b << 1);
    Carry(b << 1, a << 1);
  }

  lemma Times1(a: bv8)
    ensures Product(a, 0x01) == a
  {}

  lemma Times2(a: bv8)
    ensures Product(a, 0x02) == GaloisMul2(a)
  {}

  lemma Times3(a: bv8)
    ensures Product(a, 0x03) == GaloisMul2(a) ^ a
  {}

  lemma Times9(a: bv8)
    ensures Product(a, 0x09) == GaloisMul2(GaloisMul2(GaloisMul2(a))) ^ a
  {}

  lemma TimesB(a: bv8)
    ensures Product(a, 0x0b) == (GaloisMul2(GaloisMul2(GaloisMul2(a))) ^ GaloisMul2(a)) ^ a
  {}

  lemma TimesD(a: bv8)
    ensures Product(a, 0x0d) == (GaloisMul2(GaloisMul2(GaloisMul2(a))) ^ GaloisMul2(GaloisMul2(a))) ^ a
  {}

  lemma TimesE(a: bv8)
    ensures Product(a, 0x0e) == (GaloisMul2(GaloisMul2(GaloisMul2(a))) ^ GaloisMul2(GaloisMul2(a))) ^ GaloisMul2(a)
  {}
}
