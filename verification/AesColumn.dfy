/**
 GF(2^8) and the columns of the AES state. The reference is FIPS 197: multiplication by shift
 and add (section 4.2), and the matrices of sections 5.1.3 and 5.3.3.
 */
module AesColumns {
  /** Addition in GF(2^8). */
  function Add(a: bv8, b: bv8): bv8 {
    a ^ b
  }

  /** Multiplication by x, modulo x^8 + x^4 + x^3 + x + 1. */
  function Xtime(a: bv8): bv8 {
    if a & 0x80 != 0 then (a << 1) ^ 0x1b else a << 1
  }

  /** Multiplication by the polynomial whose coefficients are the bits of `k`. */
  function Times(k: bv8, a: bv8): bv8 {
    if k == 0 then 0 else Add(if k & 1 == 1 then a else 0, Times(k >> 1, Xtime(a)))
  }

  lemma XtimeAdd(a: bv8, b: bv8)
    ensures Xtime(Add(a, b)) == Add(Xtime(a), Xtime(b))
  {
    TopBit(a);
    TopBit(b);
    Reduced(a << 1, b << 1);
  }

  lemma TopBit(a: bv8)
    ensures a & 0x80 == 0 || a & 0x80 == 0x80
  {
  }

  lemma Reduced(c: bv8, d: bv8)
    ensures (c ^ 0x1b) ^ (d ^ 0x1b) == c ^ d
    ensures (c ^ d) ^ 0x1b == (c ^ 0x1b) ^ d
    ensures (c ^ d) ^ 0x1b == c ^ (d ^ 0x1b)
  {
  }

  lemma AddZero(a: bv8)
    ensures Add(0, a) == a && Add(a, 0) == a && Add(a, a) == 0
  {
  }

  lemma AddCommutes(a: bv8, b: bv8)
    ensures Add(a, b) == Add(b, a)
  {
  }

  lemma AddAssociates(a: bv8, b: bv8, c: bv8)
    ensures Add(Add(a, b), c) == Add(a, Add(b, c))
  {
  }

  lemma AddExchange(a: bv8, b: bv8, c: bv8, d: bv8)
    ensures Add(Add(a, b), Add(c, d)) == Add(Add(a, c), Add(b, d))
  {
    hide Add;
    AddAssociates(a, b, Add(c, d));
    AddAssociates(b, c, d);
    AddCommutes(b, c);
    AddAssociates(c, b, d);
    AddAssociates(a, c, Add(b, d));
  }

  /** Multiplication distributes over addition. */
  lemma {:induction false} TimesAdd(k: bv8, a: bv8, b: bv8)
    ensures Times(k, Add(a, b)) == Add(Times(k, a), Times(k, b))
  {
    hide Add, Xtime;
    if k == 0 {
      AddZero(0);
    } else {
      XtimeAdd(a, b);
      TimesAdd(k >> 1, Xtime(a), Xtime(b));
      AddZero(0);
      AddExchange(if k & 1 == 1 then a else 0, if k & 1 == 1 then b else 0, Times(k >> 1, Xtime(a)), Times(k >> 1,
                  Xtime(b)));
    }
  }

  lemma TimesUnfold(k: bv8, a: bv8)
    ensures Times(k, a) == Add(if k & 1 == 1 then a else 0, Times(k >> 1, Xtime(a)))
  {
    hide Add, Xtime;
    if k == 0 {
      AddZero(0);
    }
  }

  /** Factors add up as polynomials. */
  lemma {:induction false} TimesPlus(j: bv8, k: bv8, a: bv8)
    ensures Times(j ^ k, a) == Add(Times(j, a), Times(k, a))
    decreases j
  {
    hide Add, Xtime, Times;
    if j == 0 {
      NoMultiple(a);
      AddZero(Times(k, a));
    } else {
      TimesPlus(j >> 1, k >> 1, Xtime(a));
      TimesUnfold(j, a);
      TimesUnfold(k, a);
      TimesUnfold(j ^ k, a);
      var x, y := if j & 1 == 1 then a else 0, if k & 1 == 1 then a else 0;
      AddExchange(x, Times(j >> 1, Xtime(a)), y, Times(k >> 1, Xtime(a)));
      AddZero(a);
      AddZero(0);
    }
  }

  lemma NoMultiple(a: bv8)
    ensures Times(0, a) == 0
  {
  }

  /** Multiplying by 1, 2 and 3 first. */
  lemma TimesTwice(k: bv8, a: bv8)
    requires k < 0x80
    ensures Times(k, Times(1, a)) == Times(k, a)
    ensures Times(k, Times(2, a)) == Times(k << 1, a)
    ensures Times(k, Times(3, a)) == Times(k ^ (k << 1), a)
  {
    hide Add, Xtime, Times;
    SmallMultiples(a);
    TimesUnfold(k << 1, a);
    AddZero(Times(k, Xtime(a)));
    TimesAdd(k, a, Xtime(a));
    TimesPlus(k, k << 1, a);
  }

  lemma SmallMultiples(a: bv8)
    ensures Times(0, a) == 0 && Times(1, a) == a
    ensures Times(2, a) == Xtime(a) && Times(3, a) == Add(a, Xtime(a))
  {
    hide Add, Xtime, Times;
    NoMultiple(a);
    NoMultiple(Xtime(a));
    NoMultiple(Xtime(Xtime(a)));
    TimesUnfold(1, a);
    TimesUnfold(1, Xtime(a));
    TimesUnfold(2, a);
    TimesUnfold(3, a);
    AddZero(a);
    AddZero(Xtime(a));
  }

  datatype Column = Column(a0: bv8, a1: bv8, a2: bv8, a3: bv8)

  function AddColumns(c: Column, d: Column): Column {
    Column(Add(c.a0, d.a0), Add(c.a1, d.a1), Add(c.a2, d.a2), Add(c.a3, d.a3))
  }

  /** A column with its bytes moved up by one place, the first to the end. */
  function Turn(c: Column): Column {
    Column(c.a1, c.a2, c.a3, c.a0)
  }

  function Sum(a: bv8, b: bv8, c: bv8, d: bv8): bv8 {
    (a ^ b) ^ (c ^ d)
  }

  lemma SumIsAdd(a: bv8, b: bv8, c: bv8, d: bv8)
    ensures Sum(a, b, c, d) == Add(Add(a, b), Add(c, d))
  {
  }

  /** A row of coefficients times a column. */
  function Row(m0: bv8, m1: bv8, m2: bv8, m3: bv8, c: Column): bv8 {
    Sum(Times(m0, c.a0), Times(m1, c.a1), Times(m2, c.a2), Times(m3, c.a3))
  }

  /** The circulant matrix whose first row is m0 m1 m2 m3, times a column. */
  function Circulant(m0: bv8, m1: bv8, m2: bv8, m3: bv8, c: Column): Column {
    Column(Row(m0, m1, m2, m3, c),
           Row(m0, m1, m2, m3, Turn(c)),
           Row(m0, m1, m2, m3, Turn(Turn(c))),
           Row(m0, m1, m2, m3, Turn(Turn(Turn(c)))))
  }

  /** MixColumns (section 5.1.3) and InvMixColumns (section 5.3.3) of one column. */
  function MixColumn(c: Column): Column {
    Circulant(2, 3, 1, 1, c)
  }

  function InvMixColumn(c: Column): Column {
    Circulant(14, 11, 13, 9, c)
  }

  /** Concretely: a column whose bytes all differ, mixed and unmixed. */
  lemma KnownColumn()
    ensures MixColumn(Column(0xdb, 0x13, 0x53, 0x45)) == Column(0x8e, 0x4d, 0xa1, 0xbc)
    ensures InvMixColumn(Column(0x8e, 0x4d, 0xa1, 0xbc)) == Column(0xdb, 0x13, 0x53, 0x45)
  {
    hide InvMixColumn;
    InvMixMix(Column(0xdb, 0x13, 0x53, 0x45));
  }

  lemma MixColumnTurn(c: Column)
    ensures MixColumn(Turn(c)) == Turn(MixColumn(c))
  {
    assert Turn(Turn(Turn(Turn(c)))) == c;
  }

  lemma TimesSum(k: bv8, a: bv8, b: bv8, c: bv8, d: bv8)
    ensures Times(k, Sum(a, b, c, d)) == Sum(Times(k, a), Times(k, b), Times(k, c), Times(k, d))
  {
    hide Add, Times, Sum;
    SumIsAdd(a, b, c, d);
    SumIsAdd(Times(k, a), Times(k, b), Times(k, c), Times(k, d));
    TimesAdd(k, Add(a, b), Add(c, d));
    TimesAdd(k, a, b);
    TimesAdd(k, c, d);
  }

  lemma SumExchange(p: Column, q: Column, r: Column, s: Column)
    ensures Sum(Sum(p.a0, p.a1, p.a2, p.a3), Sum(q.a0, q.a1, q.a2, q.a3), Sum(r.a0, r.a1, r.a2, r.a3),
                Sum(s.a0, s.a1, s.a2, s.a3))
         == Sum(Sum(p.a0, q.a0, r.a0, s.a0), Sum(p.a1, q.a1, r.a1, s.a1), Sum(p.a2, q.a2, r.a2, s.a2),
                Sum(p.a3, q.a3, r.a3, s.a3))
  {
    hide Add, Sum;
    SumIsAdd(Sum(p.a0, p.a1, p.a2, p.a3), Sum(q.a0, q.a1, q.a2, q.a3), Sum(r.a0, r.a1, r.a2, r.a3),
             Sum(s.a0, s.a1, s.a2, s.a3));
    SumIsAdd(p.a0, q.a0, r.a0, s.a0);
    SumIsAdd(p.a1, q.a1, r.a1, s.a1);
    SumIsAdd(p.a2, q.a2, r.a2, s.a2);
    SumIsAdd(p.a3, q.a3, r.a3, s.a3);
    SumAdd(p.a0, p.a1, p.a2, p.a3, q.a0, q.a1, q.a2, q.a3);
    SumAdd(r.a0, r.a1, r.a2, r.a3, s.a0, s.a1, s.a2, s.a3);
    SumAdd(Add(p.a0, q.a0), Add(p.a1, q.a1), Add(p.a2, q.a2), Add(p.a3, q.a3),
           Add(r.a0, s.a0), Add(r.a1, s.a1), Add(r.a2, s.a2), Add(r.a3, s.a3));
  }

  lemma SumAdd(a: bv8, b: bv8, c: bv8, d: bv8, e: bv8, f: bv8, g: bv8, h: bv8)
    ensures Add(Sum(a, b, c, d), Sum(e, f, g, h)) == Sum(Add(a, e), Add(b, f), Add(c, g), Add(d, h))
  {
    hide Add, Sum;
    SumIsAdd(a, b, c, d);
    SumIsAdd(e, f, g, h);
    SumIsAdd(Add(a, e), Add(b, f), Add(c, g), Add(d, h));
    AddExchange(Add(a, b), Add(c, d), Add(e, f), Add(g, h));
    AddExchange(a, b, e, f);
    AddExchange(c, d, g, h);
  }

  /** Four multiples of one byte. */
  lemma SumOfMultiples(j: bv8, k: bv8, l: bv8, m: bv8, a: bv8)
    ensures Sum(Times(j, a), Times(k, a), Times(l, a), Times(m, a)) == Times((j ^ k) ^ (l ^ m), a)
  {
    hide Add, Times, Sum;
    SumIsAdd(Times(j, a), Times(k, a), Times(l, a), Times(m, a));
    TimesPlus(j, k, a);
    TimesPlus(l, m, a);
    TimesPlus(j ^ k, l ^ m, a);
  }

  /** A multiple of one byte of a mixed column. */
  lemma MultipleOfMixed(k: bv8, c: Column)
    requires k < 0x80
    ensures Times(k, Row(2, 3, 1, 1, c))
         == Sum(Times(k << 1, c.a0), Times(k ^ (k << 1), c.a1), Times(k, c.a2), Times(k, c.a3))
  {
    hide Add, Times, Sum;
    TimesSum(k, Times(2, c.a0), Times(3, c.a1), Times(1, c.a2), Times(1, c.a3));
    TimesTwice(k, c.a0);
    TimesTwice(k, c.a1);
    TimesTwice(k, c.a2);
    TimesTwice(k, c.a3);
  }

  lemma SumTurn(a: bv8, b: bv8, c: bv8, d: bv8)
    ensures Sum(a, b, c, d) == Sum(d, a, b, c)
  {
    hide Add, Sum;
    SumIsAdd(a, b, c, d);
    SumIsAdd(d, a, b, c);
    AddCommutes(Add(a, b), Add(c, d));
    AddCommutes(c, d);
    AddExchange(d, c, a, b);
    AddCommutes(c, b);
  }

  lemma RowTurn(m0: bv8, m1: bv8, m2: bv8, m3: bv8, c: Column)
    ensures Row(m0, m1, m2, m3, Turn(c)) == Row(m3, m0, m1, m2, c)
  {
    hide Add, Times, Sum;
    SumTurn(Times(m0, c.a1), Times(m1, c.a2), Times(m2, c.a3), Times(m3, c.a0));
  }

  /** The first byte comes back: the product of the two matrices has first row 1 0 0 0. */
  lemma FirstByteBack(c: Column)
    ensures Row(14, 11, 13, 9, MixColumn(c)) == c.a0
  {
    hide Add, Times, Row;
    var c1, c2, c3 := Turn(c), Turn(Turn(c)), Turn(Turn(Turn(c)));
    MultipleOfRow(14, c);
    MultipleOfRow(11, c1);
    MultipleOfRow(13, c2);
    MultipleOfRow(9, c3);
    RowTurn(22, 29, 11, 11, c);
    RowTurn(26, 23, 13, 13, c1);
    RowTurn(13, 26, 23, 13, c);
    RowTurn(18, 27, 9, 9, c2);
    RowTurn(9, 18, 27, 9, c1);
    RowTurn(9, 9, 18, 27, c);
    InverseRowIs(c);
    FourRows(c);
  }

  lemma InverseRowIs(c: Column)
    ensures Row(14, 11, 13, 9, MixColumn(c))
         == Sum(Times(14, Row(2, 3, 1, 1, c)), Times(11, Row(2, 3, 1, 1, Turn(c))),
                Times(13, Row(2, 3, 1, 1, Turn(Turn(c)))), Times(9, Row(2, 3, 1, 1, Turn(Turn(Turn(c))))))
  {
    hide Add, Times, Sum;
  }

  lemma MultipleOfRow(k: bv8, c: Column)
    requires k < 0x80
    ensures Times(k, Row(2, 3, 1, 1, c)) == Row(k << 1, k ^ (k << 1), k, k, c)
  {
    hide Add, Times;
    MultipleOfMixed(k, c);
  }

  lemma FourRows(c: Column)
    ensures Sum(Row(28, 18, 14, 14, c), Row(11, 22, 29, 11, c), Row(13, 13, 26, 23, c), Row(27, 9, 9, 18, c)) == c.a0
  {
    hide Add, Times, Sum;
    SumExchange(Column(Times(28, c.a0), Times(18, c.a1), Times(14, c.a2), Times(14, c.a3)),
                Column(Times(11, c.a0), Times(22, c.a1), Times(29, c.a2), Times(11, c.a3)),
                Column(Times(13, c.a0), Times(13, c.a1), Times(26, c.a2), Times(23, c.a3)),
                Column(Times(27, c.a0), Times(9, c.a1), Times(9, c.a2), Times(18, c.a3)));
    SumOfMultiples(28, 11, 13, 27, c.a0);
    SumOfMultiples(18, 22, 13, 9, c.a1);
    SumOfMultiples(14, 29, 26, 9, c.a2);
    SumOfMultiples(14, 11, 23, 18, c.a3);
    SmallMultiples(c.a0);
    SmallMultiples(c.a1);
    SmallMultiples(c.a2);
    SmallMultiples(c.a3);
    SumIsAdd(c.a0, 0, 0, 0);
    AddZero(c.a0);
    AddZero(0);
  }

  /** InvMixColumns undoes MixColumns. */
  lemma InvMixMix(c: Column)
    ensures InvMixColumn(MixColumn(c)) == c
  {
    hide Row, Add, Times;
    var c1, c2, c3 := Turn(c), Turn(Turn(c)), Turn(Turn(Turn(c)));
    FirstByteBack(c);
    FirstByteBack(c1);
    FirstByteBack(c2);
    FirstByteBack(c3);
    MixColumnTurn(c);
    MixColumnTurn(c1);
    MixColumnTurn(c2);
  }

  lemma RowAdd(m0: bv8, m1: bv8, m2: bv8, m3: bv8, c: Column, d: Column)
    ensures Row(m0, m1, m2, m3, AddColumns(c, d)) == Add(Row(m0, m1, m2, m3, c), Row(m0, m1, m2, m3, d))
  {
    hide Add, Times, Sum;
    TimesAdd(m0, c.a0, d.a0);
    TimesAdd(m1, c.a1, d.a1);
    TimesAdd(m2, c.a2, d.a2);
    TimesAdd(m3, c.a3, d.a3);
    SumAdd(Times(m0, c.a0), Times(m1, c.a1), Times(m2, c.a2), Times(m3, c.a3),
           Times(m0, d.a0), Times(m1, d.a1), Times(m2, d.a2), Times(m3, d.a3));
  }

  /** InvMixColumns distributes over the addition of columns. */
  lemma InvMixAdd(c: Column, d: Column)
    ensures InvMixColumn(AddColumns(c, d)) == AddColumns(InvMixColumn(c), InvMixColumn(d))
  {
    hide Row, Add, Times;
    RowAdd(14, 11, 13, 9, c, d);
    RowAdd(14, 11, 13, 9, Turn(c), Turn(d));
    RowAdd(14, 11, 13, 9, Turn(Turn(c)), Turn(Turn(d)));
    RowAdd(14, 11, 13, 9, Turn(Turn(Turn(c))), Turn(Turn(Turn(d))));
  }
}
