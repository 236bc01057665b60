// Bytes as elements of the field of FIPS 197 section 4, the two column transformations over it,
// and the folded forms of them that security.c uses.
module AesField {
  import B = AesBits

  /** An 8-bit byte: an element of the field, bit i being the coefficient of x^i. */
  datatype byte = Byte(bits: bv8)

  function Add(a: byte, b: byte): byte {
    Byte(a.bits ^ b.bits)
  }

  function Sum(a: byte, b: byte, c: byte, d: byte): byte {
    Add(Add(Add(a, b), c), d)
  }

  function GMul(a: byte, coefficient: bv8): byte {
    Byte(B.Product(a.bits, coefficient))
  }

  function Mul2(value: byte): byte {
    Byte(B.GaloisMul2(value.bits))
  }

  function SBox(x: byte): byte {
    Byte(B.SBox(x.bits))
  }

  function RsBox(x: byte): byte {
    Byte(B.RsBox(x.bits))
  }

  lemma SBoxInverse(x: byte)
    ensures RsBox(SBox(x)) == x
    ensures SBox(RsBox(x)) == x
  {
    hide B.SBox, B.RsBox;
    B.TablesInverse(x.bits);
  }

  function Mul4(value: byte): byte {
    Mul2(Mul2(value))
  }

  // ---- Columns (sections 5.1.3 and 5.3.3)

  /** A column of the state, which is also a word of the key schedule. */
  datatype Word = Word(b0: byte, b1: byte, b2: byte, b3: byte)

  /** One row of a matrix product over the field. */
  function Dot(w: Word, k0: bv8, k1: bv8, k2: bv8, k3: bv8): byte {
    Sum(GMul(w.b0, k0), GMul(w.b1, k1), GMul(w.b2, k2), GMul(w.b3, k3))
  }

  function MixColumn(w: Word): Word {
    Word(Dot(w, 2, 3, 1, 1), Dot(w, 1, 2, 3, 1), Dot(w, 1, 1, 2, 3), Dot(w, 3, 1, 1, 2))
  }

  function InvMixColumn(w: Word): Word {
    Word(Dot(w, 0x0e, 0x0b, 0x0d, 0x09), Dot(w, 0x09, 0x0e, 0x0b, 0x0d),
         Dot(w, 0x0d, 0x09, 0x0e, 0x0b), Dot(w, 0x0b, 0x0d, 0x09, 0x0e))
  }

  // ---- The folded column transformations of security.c

  /** One byte of the folded MixColumns: a single doubling, of the sum with the next byte. */
  function FoldedByte(a: byte, next: byte, sum: byte): byte {
    Add(Add(a, Mul2(Add(a, next))), sum)
  }

  function FoldedMix(w: Word): Word {
    var sum := Sum(w.b0, w.b1, w.b2, w.b3);
    Word(FoldedByte(w.b0, w.b1, sum), FoldedByte(w.b1, w.b2, sum),
         FoldedByte(w.b2, w.b3, sum), FoldedByte(w.b3, w.b0, sum))
  }

  /** The step that turns MixColumns into InvMixColumns. */
  function Barreto(w: Word): Word {
    var u := Mul4(Add(w.b0, w.b2));
    var v := Mul4(Add(w.b1, w.b3));
    Word(Add(w.b0, u), Add(w.b1, v), Add(w.b2, u), Add(w.b3, v))
  }

  // ---- Addition is a group operation of order two. Below these lemmas it is uninterpreted.

  lemma AddCommutes(a: byte, b: byte)
    ensures Add(a, b) == Add(b, a)
  {}

  lemma AddAssociates(a: byte, b: byte, c: byte)
    ensures Add(Add(a, b), c) == Add(a, Add(b, c))
  {}

  lemma AddCancels(a: byte, b: byte)
    ensures Add(Add(a, b), b) == a
  {}

  lemma AddExchange(a: byte, b: byte, c: byte, d: byte)
    ensures Add(Add(a, b), Add(c, d)) == Add(Add(a, c), Add(b, d))
  {
    hide Add;
    AddAssociates(a, b, Add(c, d));
    AddAssociates(b, c, d);
    AddCommutes(b, c);
    AddAssociates(c, b, d);
    AddAssociates(a, c, Add(b, d));
  }

  lemma AddTwice(a: byte, b: byte, c: byte)
    ensures Add(Add(a, c), Add(b, c)) == Add(a, b)
    ensures Add(Add(a, c), Add(c, b)) == Add(a, b)
  {
    hide Add;
    AddCommutes(b, c);
    AddAssociates(Add(a, c), c, b);
    AddCancels(a, c);
  }

  lemma SumAsPairs(a: byte, b: byte, c: byte, d: byte)
    ensures Sum(a, b, c, d) == Add(Add(a, b), Add(c, d)) == Add(Add(a, c), Add(b, d))
  {
    hide Add;
    AddAssociates(Add(a, b), c, d);
    AddExchange(a, b, c, d);
  }

  lemma SumRotates(a: byte, b: byte, c: byte, d: byte)
    ensures Sum(a, b, c, d) == Sum(b, c, d, a) == Sum(c, d, a, b) == Sum(d, a, b, c)
  {
    hide Add, Sum;
    SumAsPairs(a, b, c, d);
    SumAsPairs(b, c, d, a);
    SumAsPairs(c, d, a, b);
    SumAsPairs(d, a, b, c);
    AddCommutes(a, c);
    AddCommutes(b, d);
    AddCommutes(Add(a, c), Add(b, d));
  }

  lemma Mul2Linear(a: byte, b: byte)
    ensures Mul2(Add(a, b)) == Add(Mul2(a), Mul2(b))
  {
    hide B.GaloisMul2;
    B.GaloisMul2Linear(a.bits, b.bits);
    assert Add(a, b).bits == a.bits ^ b.bits;
  }

  // ---- Small multiples, written with doublings

  lemma Times1(a: byte)
    ensures GMul(a, 1) == a
  {
    hide B.Product, B.GaloisMul2;
    B.Times1(a.bits);
  }

  lemma Times2(a: byte)
    ensures GMul(a, 2) == Mul2(a)
  {
    hide B.Product, B.GaloisMul2;
    B.Times2(a.bits);
  }

  lemma Times3(a: byte)
    ensures GMul(a, 3) == Add(Mul2(a), a)
  {
    hide B.Product, B.GaloisMul2;
    B.Times3(a.bits);
  }

  lemma Times9(a: byte)
    ensures GMul(a, 0x09) == Add(Mul2(Mul4(a)), a)
  {
    hide B.Product, B.GaloisMul2;
    B.Times9(a.bits);
  }

  lemma TimesB(a: byte)
    ensures GMul(a, 0x0b) == Add(Add(Mul2(Mul4(a)), Mul2(a)), a)
  {
    hide B.Product, B.GaloisMul2;
    B.TimesB(a.bits);
  }

  lemma TimesD(a: byte)
    ensures GMul(a, 0x0d) == Add(Add(Mul2(Mul4(a)), Mul4(a)), a)
  {
    hide B.Product, B.GaloisMul2;
    B.TimesD(a.bits);
  }

  lemma TimesE(a: byte)
    ensures GMul(a, 0x0e) == Add(Add(Mul2(Mul4(a)), Mul4(a)), Mul2(a))
  {
    hide B.Product, B.GaloisMul2;
    B.TimesE(a.bits);
  }

  // ---- The folded form is the matrix product of section 5.1.3

  lemma FoldedSum(a: byte, b: byte, c: byte, d: byte, xa: byte, xb: byte)
    ensures Add(Add(a, Add(xa, xb)), Sum(a, b, c, d)) == Sum(xa, Add(xb, b), c, d)
  {
    hide Add;
    var l := Add(a, Add(xa, xb));
    AddAssociates(l, Add(Add(a, b), c), d);
    AddAssociates(l, Add(a, b), c);
    AddCommutes(a, Add(xa, xb));
    AddTwice(Add(xa, xb), b, a);
    AddAssociates(xa, xb, b);
  }

  lemma FoldedByteIsDot(a: byte, b: byte, c: byte, d: byte)
    ensures FoldedByte(a, b, Sum(a, b, c, d)) == Sum(GMul(a, 2), GMul(b, 3), GMul(c, 1), GMul(d, 1))
  {
    hide GMul, Mul2, Add, Sum;
    Times2(a);
    Times3(b);
    Times1(c);
    Times1(d);
    Mul2Linear(a, b);
    FoldedSum(a, b, c, d, Mul2(a), Mul2(b));
  }

  lemma FoldedMixIsMixColumn(w: Word)
    ensures FoldedMix(w) == MixColumn(w)
  {
    hide GMul, Sum, FoldedByte;
    var Word(a, b, c, d) := w;
    SumRotates(a, b, c, d);
    FoldedByteIsDot(a, b, c, d);
    FoldedByteIsDot(b, c, d, a);
    FoldedByteIsDot(c, d, a, b);
    FoldedByteIsDot(d, a, b, c);
    SumRotates(GMul(b, 2), GMul(c, 3), GMul(d, 1), GMul(a, 1));
    SumRotates(GMul(c, 2), GMul(d, 3), GMul(a, 1), GMul(b, 1));
    SumRotates(GMul(d, 2), GMul(a, 3), GMul(b, 1), GMul(c, 1));
  }

  // ---- Barreto's step followed by the folded form is the product of section 5.3.3

  lemma Mul4Linear(a: byte, b: byte)
    ensures Mul4(Add(a, b)) == Add(Mul4(a), Mul4(b))
  {
    hide Mul2, Add;
    Mul2Linear(a, b);
    Mul2Linear(Mul2(a), Mul2(b));
  }

  lemma BarretoSum(a: byte, b: byte, c: byte, d: byte, xa: byte, xb: byte, u: byte, v: byte,
                   x2a: byte, x2c: byte, x3a: byte, x3b: byte, x3c: byte, x3d: byte)
    requires u == Add(x2a, x2c)
    ensures Add(Add(Add(a, u), Add(Add(xa, Add(x3a, x3c)), Add(xb, Add(x3b, x3d)))),
                Sum(Add(a, u), Add(b, v), Add(c, u), Add(d, v))) ==
            Sum(Add(Add(x3a, x2a), xa), Add(Add(x3b, xb), b), Add(Add(x3c, x2c), c), Add(x3d, d))
  {
    hide Add, Sum;
    var m := Add(xa, Add(x3a, x3c));
    var n := Add(xb, Add(x3b, x3d));
    // The sum of the column loses u and v, and then a.
    SumAsPairs(Add(a, u), Add(b, v), Add(c, u), Add(d, v));
    AddTwice(a, c, u);
    AddTwice(b, d, v);
    AddCommutes(Add(a, u), Add(m, n));
    AddAssociates(Add(m, n), Add(a, u), Add(Add(a, c), Add(b, d)));
    AddAssociates(Add(a, u), Add(a, c), Add(b, d));
    AddCommutes(a, u);
    AddTwice(u, c, a);
    AddExchange(m, n, Add(u, c), Add(b, d));
    // m + u + c and n + b + d are the two pairs on the right.
    BarretoPair(xa, x3a, x3c, x2a, x2c, c);
    BarretoOtherPair(xb, x3b, x3d, b, d);
    SumAsPairs(Add(Add(x3a, x2a), xa), Add(Add(x3b, xb), b), Add(Add(x3c, x2c), c), Add(x3d, d));
  }

  lemma BarretoPair(xa: byte, x3a: byte, x3c: byte, x2a: byte, x2c: byte, c: byte)
    ensures Add(Add(xa, Add(x3a, x3c)), Add(Add(x2a, x2c), c)) == Add(Add(Add(x3a, x2a), xa), Add(Add(x3c, x2c), c))
  {
    hide Add;
    AddCommutes(xa, Add(x3a, x3c));
    AddExchange(Add(x3a, x3c), xa, Add(x2a, x2c), c);
    AddExchange(x3a, x3c, x2a, x2c);
    AddExchange(Add(x3a, x2a), Add(x3c, x2c), xa, c);
  }

  lemma BarretoOtherPair(xb: byte, x3b: byte, x3d: byte, b: byte, d: byte)
    ensures Add(Add(xb, Add(x3b, x3d)), Add(b, d)) == Add(Add(Add(x3b, xb), b), Add(x3d, d))
  {
    hide Add;
    AddAssociates(xb, x3b, x3d);
    AddCommutes(xb, x3b);
    AddExchange(Add(x3b, xb), x3d, b, d);
  }

  lemma BarretoByteIsDot(a: byte, b: byte, c: byte, d: byte)
    ensures var u := Mul4(Add(a, c));
            var v := Mul4(Add(b, d));
            FoldedByte(Add(a, u), Add(b, v), Sum(Add(a, u), Add(b, v), Add(c, u), Add(d, v))) ==
            Sum(GMul(a, 0x0e), GMul(b, 0x0b), GMul(c, 0x0d), GMul(d, 0x09))
  {
    hide GMul, Mul2, Mul4, Add, Sum;
    TimesE(a);
    TimesB(b);
    TimesD(c);
    Times9(d);
    var u := Mul4(Add(a, c));
    var v := Mul4(Add(b, d));
    Mul4Linear(a, c);
    Mul4Linear(b, d);
    Mul2Linear(Mul4(a), Mul4(c));
    Mul2Linear(Mul4(b), Mul4(d));
    Mul2Linear(Add(a, u), Add(b, v));
    Mul2Linear(a, u);
    Mul2Linear(b, v);
    BarretoSum(a, b, c, d, Mul2(a), Mul2(b), u, v, Mul4(a), Mul4(c),
               Mul2(Mul4(a)), Mul2(Mul4(b)), Mul2(Mul4(c)), Mul2(Mul4(d)));
  }

  lemma BarretoThenFoldedIsInvMixColumn(w: Word)
    ensures FoldedMix(Barreto(w)) == InvMixColumn(w)
  {
    hide GMul, FoldedByte, Mul4, Add, Sum;
    var Word(a, b, c, d) := w;
    AddCommutes(a, c);
    AddCommutes(b, d);
    BarretoByteIsDot(a, b, c, d);
    BarretoByteIsDot(b, c, d, a);
    BarretoByteIsDot(c, d, a, b);
    BarretoByteIsDot(d, a, b, c);
    var Word(a', b', c', d') := Barreto(w);
    SumRotates(a', b', c', d');
    SumRotates(GMul(b, 0x0e), GMul(c, 0x0b), GMul(d, 0x0d), GMul(a, 0x09));
    SumRotates(GMul(c, 0x0e), GMul(d, 0x0b), GMul(a, 0x0d), GMul(b, 0x09));
    SumRotates(GMul(d, 0x0e), GMul(a, 0x0b), GMul(b, 0x0d), GMul(c, 0x09));
  }

  // ---- The two products undo each other: folding twice is the barreto step, which is an involution

  lemma FoldedDifference(a: byte, b: byte, xa: byte, xb: byte, xc: byte, s: byte)
    ensures Add(Add(Add(a, Add(xa, xb)), s), Add(Add(b, Add(xb, xc)), s)) == Add(Add(a, b), Add(xa, xc))
  {
    hide Add;
    AddTwice(Add(a, Add(xa, xb)), Add(b, Add(xb, xc)), s);
    AddExchange(a, Add(xa, xb), b, Add(xb, xc));
    AddTwice(xa, xc, xb);
  }

  lemma FoldedTwiceSum(a: byte, b: byte, c: byte, d: byte, xa: byte, xb: byte, xc: byte, xd: byte, z: byte, s: byte)
    requires s == Sum(a, b, c, d)
    ensures var a' := Add(Add(a, Add(xa, xb)), s);
            var b' := Add(Add(b, Add(xb, xc)), s);
            var c' := Add(Add(c, Add(xc, xd)), s);
            var d' := Add(Add(d, Add(xd, xa)), s);
            && Add(a', b') == Add(Add(a, b), Add(xa, xc))
            && Add(Add(a', Add(Add(xa, xb), z)), Sum(a', b', c', d')) == Add(a, z)
  {
    hide Add, Sum;
    var a' := Add(Add(a, Add(xa, xb)), s);
    FoldedDifference(a, b, xa, xb, xc, s);
    FoldedDifference(c, d, xc, xd, xa, s);
    // The sum is unchanged by folding.
    SumAsPairs(a', Add(Add(b, Add(xb, xc)), s), Add(Add(c, Add(xc, xd)), s), Add(Add(d, Add(xd, xa)), s));
    SumAsPairs(a, b, c, d);
    AddCommutes(xc, xa);
    AddTwice(Add(a, b), Add(c, d), Add(xa, xc));
    // s and xa + xb occur twice.
    AddCommutes(a', Add(Add(xa, xb), z));
    AddAssociates(Add(Add(xa, xb), z), a', s);
    AddCancels(Add(a, Add(xa, xb)), s);
    AddCommutes(Add(Add(xa, xb), z), Add(a, Add(xa, xb)));
    AddTwice(a, z, Add(xa, xb));
  }

  lemma FoldedByteTwice(a: byte, b: byte, c: byte, d: byte)
    ensures var s := Sum(a, b, c, d);
            var a' := FoldedByte(a, b, s);
            var b' := FoldedByte(b, c, s);
            FoldedByte(a', b', Sum(a', b', FoldedByte(c, d, s), FoldedByte(d, a, s))) == Add(a, Mul4(Add(a, c)))
  {
    hide Mul2, Add, Sum;
    Mul2Linear(a, b);
    Mul2Linear(b, c);
    Mul2Linear(c, d);
    Mul2Linear(d, a);
    Mul2Linear(a, c);
    Mul2Linear(Add(a, b), Mul2(Add(a, c)));
    FoldedTwiceSum(a, b, c, d, Mul2(a), Mul2(b), Mul2(c), Mul2(d), Mul4(Add(a, c)), Sum(a, b, c, d));
  }

  lemma FoldedMixTwice(w: Word)
    ensures FoldedMix(FoldedMix(w)) == Barreto(w)
  {
    hide FoldedByte, Mul4, Add, Sum;
    var Word(a, b, c, d) := w;
    SumRotates(a, b, c, d);
    AddCommutes(a, c);
    AddCommutes(b, d);
    FoldedByteTwice(a, b, c, d);
    FoldedByteTwice(b, c, d, a);
    FoldedByteTwice(c, d, a, b);
    FoldedByteTwice(d, a, b, c);
    var Word(a', b', c', d') := FoldedMix(w);
    SumRotates(a', b', c', d');
  }

  lemma BarretoTwice(w: Word)
    ensures Barreto(Barreto(w)) == w
  {
    hide Mul4, Add;
    var u := Mul4(Add(w.b0, w.b2));
    var v := Mul4(Add(w.b1, w.b3));
    AddTwice(w.b0, w.b2, u);
    AddTwice(w.b1, w.b3, v);
    AddCancels(w.b0, u);
    AddCancels(w.b1, v);
    AddCancels(w.b2, u);
    AddCancels(w.b3, v);
  }

  /** InvMixColumns and MixColumns undo each other on every column. */
  lemma MixColumnInverse(w: Word)
    ensures InvMixColumn(MixColumn(w)) == w
    ensures MixColumn(InvMixColumn(w)) == w
  {
    hide FoldedMix, Barreto, MixColumn, InvMixColumn;
    var f := FoldedMix(w);
    FoldedMixIsMixColumn(w);
    BarretoThenFoldedIsInvMixColumn(f);
    FoldedMixTwice(f);
    FoldedMixTwice(w);
    FoldedMixTwice(FoldedMix(f));
    BarretoTwice(w);
    BarretoThenFoldedIsInvMixColumn(w);
    FoldedMixIsMixColumn(InvMixColumn(w));
    FoldedMixTwice(Barreto(w));
  }
}
