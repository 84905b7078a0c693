/**
 The column arithmetic in the forms the code gives it: bytes held in 32-bit words for
 encryption and decryption, and four bytes at once for the conversion of the key.
 */
module AesWords {
  import opened AesColumns

  /** A byte held in a word. */
  function Wide(b: bv8): bv32 {
    b as bv32
  }

  /** ((b0 << 24) | (b1 << 16) | (b2 << 8) | b3) */
  function Pack(b0: bv32, b1: bv32, b2: bv32, b3: bv32): bv32 {
    (b0 << 24) | (b1 << 16) | (b2 << 8) | b3
  }

  /** A column as a machine word, first byte most significant. */
  function Word(c: Column): bv32 {
    Pack(Wide(c.a0), Wide(c.a1), Wide(c.a2), Wide(c.a3))
  }

  function Bytes(w: bv32): Column {
    Column(((w >> 24) & 0xff) as bv8, ((w >> 16) & 0xff) as bv8, ((w >> 8) & 0xff) as bv8, (w & 0xff) as bv8)
  }

  lemma WordBytes(w: bv32)
    ensures Word(Bytes(w)) == w
  {
  }

  lemma BytesWord(c: Column)
    ensures Bytes(Word(c)) == c
  {
  }

  // ---- The two mixings, on words

  /** AES_xtime(x ^ y): the result is an unsigned char. */
  function XtimeOfXor(x: bv32, y: bv32): bv32 {
    (if (x ^ y) & 0x80 != 0 then ((x ^ y) << 1) ^ 0x1b else (x ^ y) << 1) & 0xff
  }

  /** a ^= tmp1 ^ x, where tmp1 is a0 ^ a1 ^ a2 ^ a3 */
  function MixByte(a: bv32, a0: bv32, a1: bv32, a2: bv32, a3: bv32, x: bv32): bv32 {
    a ^ ((a0 ^ a1 ^ a2 ^ a3) ^ x)
  }

  /** The mixing in AES_encrypt. */
  function MixBytes(a0: bv32, a1: bv32, a2: bv32, a3: bv32): bv32 {
    Pack(MixByte(a0, a0, a1, a2, a3, XtimeOfXor(a0, a1)),
         MixByte(a1, a0, a1, a2, a3, XtimeOfXor(a1, a2)),
         MixByte(a2, a0, a1, a2, a3, XtimeOfXor(a2, a3)),
         MixByte(a3, a0, a1, a2, a3, XtimeOfXor(a3, a0)))
  }

  /** x ^= a ^ b ^ c ^ y ^ z */
  function UnmixByte(x: bv32, a: bv32, b: bv32, c: bv32, y: bv32, z: bv32): bv32 {
    x ^ (a ^ b ^ c ^ y ^ z)
  }

  /** The mixing in AES_decrypt. */
  function UnmixBytes(a0: bv32, a1: bv32, a2: bv32, a3: bv32): bv32 {
    var xt0, xt1, xt2, xt3 := XtimeOfXor(a0, a1), XtimeOfXor(a1, a2), XtimeOfXor(a2, a3), XtimeOfXor(a3, a0);
    var xt4, xt5 := XtimeOfXor(xt0, xt1), XtimeOfXor(xt1, xt2);
    var xt6 := XtimeOfXor(xt4, xt5);
    Pack(UnmixByte(xt0, a1, a2, a3, xt4, xt6),
         UnmixByte(xt1, a0, a2, a3, xt5, xt6),
         UnmixByte(xt2, a0, a1, a3, xt4, xt6),
         UnmixByte(xt3, a0, a1, a2, xt5, xt6))
  }

  // ---- The same on bytes

  function MixedByte(a: bv8, a0: bv8, a1: bv8, a2: bv8, a3: bv8, x: bv8): bv8 {
    a ^ ((a0 ^ a1 ^ a2 ^ a3) ^ x)
  }

  function UnmixedByte(x: bv8, a: bv8, b: bv8, c: bv8, y: bv8, z: bv8): bv8 {
    x ^ (a ^ b ^ c ^ y ^ z)
  }

  lemma XtimeIsWide(a: bv8, b: bv8)
    ensures XtimeOfXor(Wide(a), Wide(b)) == Wide(Xtime(Add(a, b)))
  {
  }

  lemma MixByteIsWide(a: bv8, a0: bv8, a1: bv8, a2: bv8, a3: bv8, x: bv8)
    ensures MixByte(Wide(a), Wide(a0), Wide(a1), Wide(a2), Wide(a3), Wide(x)) == Wide(MixedByte(a, a0, a1, a2, a3, x))
  {
  }

  lemma UnmixByteIsWide(x: bv8, a: bv8, b: bv8, c: bv8, y: bv8, z: bv8)
    ensures UnmixByte(Wide(x), Wide(a), Wide(b), Wide(c), Wide(y), Wide(z)) == Wide(UnmixedByte(x, a, b, c, y, z))
  {
  }

  // Sums of bytes are rearranged in the solver's own exclusive-or, on variables only, and
  // then carried over to `Add` and `Sum` name by name.

  lemma AddIs(a: bv8, b: bv8)
    ensures Add(a, b) == a ^ b
  {
  }

  lemma AddAddIs(a: bv8, b: bv8, c: bv8)
    ensures Add(a, Add(b, c)) == a ^ (b ^ c)
  {
  }

  lemma MixedByteIs(a: bv8, b: bv8, c: bv8, d: bv8, p: bv8, q: bv8)
    ensures var sum := Sum(p, Add(b, q), c, d);
            && MixedByte(a, a, b, c, d, Add(p, q)) == sum
            && MixedByte(a, d, a, b, c, Add(p, q)) == sum
            && MixedByte(a, c, d, a, b, Add(p, q)) == sum
            && MixedByte(a, b, c, d, a, Add(p, q)) == sum
  {
    hide Add;
    AddIs(p, q);
    AddIs(b, q);
    assert MixedByte(a, a, b, c, d, p ^ q) == Sum(p, b ^ q, c, d);
    assert MixedByte(a, d, a, b, c, p ^ q) == Sum(p, b ^ q, c, d);
    assert MixedByte(a, c, d, a, b, p ^ q) == Sum(p, b ^ q, c, d);
    assert MixedByte(a, b, c, d, a, p ^ q) == Sum(p, b ^ q, c, d);
  }

  lemma MixRowIs(c: Column)
    ensures Row(2, 3, 1, 1, c) == Sum(Xtime(c.a0), Add(c.a1, Xtime(c.a1)), c.a2, c.a3)
  {
    hide Add, Xtime, Times, Sum;
    SmallMultiples(c.a0);
    SmallMultiples(c.a1);
    SmallMultiples(c.a2);
    SmallMultiples(c.a3);
  }

  /** The mixing in AES_encrypt is MixColumns. */
  lemma MixBytesIs(c: Column)
    ensures MixBytes(Wide(c.a0), Wide(c.a1), Wide(c.a2), Wide(c.a3)) == Word(MixColumn(c))
  {
    hide Add, Xtime, Wide, XtimeOfXor, MixByte, MixedByte, Row, Sum, Pack;
    MixWide(c.a0, c.a0, c.a1, c.a2, c.a3, c.a1);
    MixWide(c.a1, c.a0, c.a1, c.a2, c.a3, c.a2);
    MixWide(c.a2, c.a0, c.a1, c.a2, c.a3, c.a3);
    MixWide(c.a3, c.a0, c.a1, c.a2, c.a3, c.a0);
    MixedByteIs(c.a0, c.a1, c.a2, c.a3, Xtime(c.a0), Xtime(c.a1));
    MixedByteIs(c.a1, c.a2, c.a3, c.a0, Xtime(c.a1), Xtime(c.a2));
    MixedByteIs(c.a2, c.a3, c.a0, c.a1, Xtime(c.a2), Xtime(c.a3));
    MixedByteIs(c.a3, c.a0, c.a1, c.a2, Xtime(c.a3), Xtime(c.a0));
    MixRowIs(c);
    MixRowIs(Turn(c));
    MixRowIs(Turn(Turn(c)));
    MixRowIs(Turn(Turn(Turn(c))));
  }

  lemma MixWide(a: bv8, a0: bv8, a1: bv8, a2: bv8, a3: bv8, b: bv8)
    ensures MixByte(Wide(a), Wide(a0), Wide(a1), Wide(a2), Wide(a3), XtimeOfXor(Wide(a), Wide(b)))
         == Wide(MixedByte(a, a0, a1, a2, a3, Add(Xtime(a), Xtime(b))))
  {
    hide Add, Xtime, Wide, XtimeOfXor, MixByte, MixedByte;
    XtimeIsWide(a, b);
    XtimeAdd(a, b);
    MixByteIsWide(a, a0, a1, a2, a3, Add(Xtime(a), Xtime(b)));
  }

  lemma Multiples(a: bv8)
    ensures var p := Xtime(a); var q := Xtime(p); var r := Xtime(q);
            && Times(9, a) == Add(a, r) && Times(11, a) == Add(a, Add(p, r))
            && Times(13, a) == Add(a, Add(q, r)) && Times(14, a) == Add(p, Add(q, r))
  {
    hide Add, Xtime, Times;
    var p := Xtime(a);
    var q := Xtime(p);
    var r := Xtime(q);
    SmallMultiples(q);
    TimesUnfold(4, p);
    TimesUnfold(5, p);
    TimesUnfold(6, p);
    TimesUnfold(7, p);
    TimesUnfold(9, a);
    TimesUnfold(11, a);
    TimesUnfold(13, a);
    TimesUnfold(14, a);
    AddZero(r);
    AddZero(Add(q, r));
    AddZero(Add(p, Add(q, r)));
  }

  function Doubles(c: Column): Column {
    Column(Xtime(c.a0), Xtime(c.a1), Xtime(c.a2), Xtime(c.a3))
  }

  /** A row of InvMixColumns in the bytes a, their doubles p, their quadruples q, and r. */
  function InverseRow(a: Column, p: Column, q: Column, r: Column): bv8 {
    Sum(Add(p.a0, Add(q.a0, r.a0)), Add(a.a1, Add(p.a1, r.a1)), Add(a.a2, Add(q.a2, r.a2)), Add(a.a3, r.a3))
  }

  lemma InverseRowIs(c: Column)
    ensures Row(14, 11, 13, 9, c) == InverseRow(c, Doubles(c), Doubles(Doubles(c)), Doubles(Doubles(Doubles(c))))
  {
    hide Add, Xtime, Times, Sum;
    Multiples(c.a0);
    Multiples(c.a1);
    Multiples(c.a2);
    Multiples(c.a3);
  }

  lemma InverseSum(a1: bv8, a2: bv8, a3: bv8, p0: bv8, p1: bv8, q0: bv8, q2: bv8, r0: bv8, r1: bv8, r2: bv8, r3: bv8)
    ensures Sum(Add(p0, Add(q0, r0)), Add(a1, Add(p1, r1)), Add(a2, Add(q2, r2)), Add(a3, r3))
         == ((p0 ^ (q0 ^ r0)) ^ (a1 ^ (p1 ^ r1))) ^ ((a2 ^ (q2 ^ r2)) ^ (a3 ^ r3))
  {
    hide Add, Sum;
    AddAddIs(p0, q0, r0);
    AddAddIs(a1, p1, r1);
    AddAddIs(a2, q2, r2);
    AddIs(a3, r3);
    SumOfXors(a1, a2, a3, p0, p1, q0, q2, r0, r1, r2, r3);
  }

  lemma SumOfXors(a1: bv8, a2: bv8, a3: bv8, p0: bv8, p1: bv8, q0: bv8, q2: bv8, r0: bv8, r1: bv8, r2: bv8, r3: bv8)
    ensures Sum(p0 ^ (q0 ^ r0), a1 ^ (p1 ^ r1), a2 ^ (q2 ^ r2), a3 ^ r3)
         == ((p0 ^ (q0 ^ r0)) ^ (a1 ^ (p1 ^ r1))) ^ ((a2 ^ (q2 ^ r2)) ^ (a3 ^ r3))
  {
  }

  /** The last step of the mixing in AES_decrypt, for its first byte; the bytes a1 a2 a3 come in
      different orders for the four bytes. */
  lemma UnmixedByteIs(a1: bv8, a2: bv8, a3: bv8, p0: bv8, p1: bv8, q0: bv8, q2: bv8, r0: bv8, r1: bv8, r2: bv8, r3: bv8)
    ensures var sum := Sum(Add(p0, Add(q0, r0)), Add(a1, Add(p1, r1)), Add(a2, Add(q2, r2)), Add(a3, r3));
            var x, y, z := Add(p0, p1), Add(q0, q2), Sum(r0, r2, r1, r3);
            && UnmixedByte(x, a1, a2, a3, y, z) == sum
            && UnmixedByte(x, a3, a1, a2, y, z) == sum
            && UnmixedByte(x, a2, a3, a1, y, z) == sum
  {
    hide Add, Sum, UnmixedByte;
    AddIs(p0, p1);
    AddIs(q0, q2);
    FourXors(r0, r2, r1, r3);
    InverseSum(a1, a2, a3, p0, p1, q0, q2, r0, r1, r2, r3);
    UnmixedXors(a1, a2, a3, p0, p1, q0, q2, r0, r1, r2, r3);
    UnmixedOrder(Add(p0, p1), a1, a2, a3, Add(q0, q2), Sum(r0, r2, r1, r3));
    UnmixedOrder(Add(p0, p1), a3, a1, a2, Add(q0, q2), Sum(r0, r2, r1, r3));
  }

  lemma FourXors(a: bv8, b: bv8, c: bv8, d: bv8)
    ensures Sum(a, b, c, d) == (a ^ b) ^ (c ^ d)
  {
  }

  lemma UnmixedXors(a1: bv8, a2: bv8, a3: bv8, p0: bv8, p1: bv8, q0: bv8, q2: bv8, r0: bv8, r1: bv8, r2: bv8, r3: bv8)
    ensures UnmixedByte(p0 ^ p1, a1, a2, a3, q0 ^ q2, (r0 ^ r2) ^ (r1 ^ r3))
         == ((p0 ^ (q0 ^ r0)) ^ (a1 ^ (p1 ^ r1))) ^ ((a2 ^ (q2 ^ r2)) ^ (a3 ^ r3))
  {
  }

  lemma UnmixedOrder(x: bv8, a: bv8, b: bv8, c: bv8, y: bv8, z: bv8)
    ensures UnmixedByte(x, c, a, b, y, z) == UnmixedByte(x, a, b, c, y, z)
  {
  }

  /** The doublings in AES_decrypt: of neighbours, of every other byte, of all four. */
  lemma Doublings(c: Column)
    ensures var p := Doubles(c); var q := Doubles(p); var r := Doubles(q);
            var xt0, xt1 := XtimeOfXor(Wide(c.a0), Wide(c.a1)), XtimeOfXor(Wide(c.a1), Wide(c.a2));
            var xt2 := XtimeOfXor(Wide(c.a2), Wide(c.a3));
            var xt4, xt5 := XtimeOfXor(xt0, xt1), XtimeOfXor(xt1, xt2);
            && xt0 == Wide(Add(p.a0, p.a1))
            && xt4 == Wide(Add(q.a0, q.a2))
            && XtimeOfXor(xt4, xt5) == Wide(Sum(r.a0, r.a2, r.a1, r.a3))
  {
    hide Add, Xtime, Wide, XtimeOfXor, Sum;
    var p := Doubles(c);
    var q := Doubles(p);
    var r := Doubles(q);
    Doubling(c.a0, c.a1);
    Doubling(c.a1, c.a2);
    Doubling(c.a2, c.a3);
    Doubling(Add(p.a0, p.a1), Add(p.a1, p.a2));
    Doubling(Add(p.a1, p.a2), Add(p.a2, p.a3));
    XtimeAdd(p.a0, p.a1);
    XtimeAdd(p.a1, p.a2);
    XtimeAdd(p.a2, p.a3);
    AddSkips(q.a0, q.a1, q.a2);
    AddSkips(q.a1, q.a2, q.a3);
    Doubling(Add(q.a0, q.a2), Add(q.a1, q.a3));
    XtimeAdd(q.a0, q.a2);
    XtimeAdd(q.a1, q.a3);
    SumIsAdd(r.a0, r.a2, r.a1, r.a3);
  }

  lemma Doubling(a: bv8, b: bv8)
    ensures XtimeOfXor(Wide(a), Wide(b)) == Wide(Add(Xtime(a), Xtime(b)))
  {
    hide Add, Xtime, Wide, XtimeOfXor;
    XtimeIsWide(a, b);
    XtimeAdd(a, b);
  }

  lemma AddSkips(a: bv8, b: bv8, c: bv8)
    ensures Add(Add(a, b), Add(b, c)) == Add(a, c)
  {
    hide Add;
    AddCommutes(a, b);
    AddExchange(b, a, b, c);
    AddZero(b);
    AddZero(Add(a, c));
  }

  lemma UnmixWide(a1: bv8, a2: bv8, a3: bv8, p0: bv8, p1: bv8, q0: bv8, q2: bv8, r0: bv8, r1: bv8, r2: bv8, r3: bv8,
                  x: bv32, y: bv32, z: bv32)
    requires x == Wide(Add(p0, p1)) && y == Wide(Add(q0, q2)) && z == Wide(Sum(r0, r2, r1, r3))
    ensures var sum := Wide(Sum(Add(p0, Add(q0, r0)), Add(a1, Add(p1, r1)), Add(a2, Add(q2, r2)), Add(a3, r3)));
            && UnmixByte(x, Wide(a1), Wide(a2), Wide(a3), y, z) == sum
            && UnmixByte(x, Wide(a3), Wide(a1), Wide(a2), y, z) == sum
            && UnmixByte(x, Wide(a2), Wide(a3), Wide(a1), y, z) == sum
  {
    hide Add, Wide, UnmixByte, UnmixedByte, Sum;
    UnmixedByteIs(a1, a2, a3, p0, p1, q0, q2, r0, r1, r2, r3);
    UnmixByteIsWide(Add(p0, p1), a1, a2, a3, Add(q0, q2), Sum(r0, r2, r1, r3));
    UnmixByteIsWide(Add(p0, p1), a3, a1, a2, Add(q0, q2), Sum(r0, r2, r1, r3));
    UnmixByteIsWide(Add(p0, p1), a2, a3, a1, Add(q0, q2), Sum(r0, r2, r1, r3));
  }

  lemma SumOfEvensAndOdds(r: Column)
    ensures Sum(r.a0, r.a2, r.a1, r.a3) == Sum(r.a1, r.a3, r.a2, r.a0)
    ensures Sum(r.a0, r.a2, r.a1, r.a3) == Sum(r.a2, r.a0, r.a3, r.a1)
    ensures Sum(r.a0, r.a2, r.a1, r.a3) == Sum(r.a3, r.a1, r.a0, r.a2)
  {
    hide Add, Sum;
    SumIsAdd(r.a0, r.a2, r.a1, r.a3);
    SumIsAdd(r.a1, r.a3, r.a2, r.a0);
    SumIsAdd(r.a2, r.a0, r.a3, r.a1);
    SumIsAdd(r.a3, r.a1, r.a0, r.a2);
    AddCommutes(r.a0, r.a2);
    AddCommutes(r.a1, r.a3);
    AddCommutes(Add(r.a0, r.a2), Add(r.a1, r.a3));
  }

  /** The mixing in AES_decrypt is InvMixColumns. */
  lemma UnmixBytesIs(c: Column)
    ensures UnmixBytes(Wide(c.a0), Wide(c.a1), Wide(c.a2), Wide(c.a3)) == Word(InvMixColumn(c))
  {
    hide Add, Xtime, Wide, XtimeOfXor, UnmixByte, Row, Sum, Pack;
    var p := Doubles(c);
    var q := Doubles(p);
    var r := Doubles(q);
    Doublings(c);
    Doublings(Turn(c));
    Doublings(Turn(Turn(c)));
    Doublings(Turn(Turn(Turn(c))));
    SumOfEvensAndOdds(r);
    AddCommutes(q.a0, q.a2);
    AddCommutes(q.a1, q.a3);
    var y, y', z := Wide(Add(q.a0, q.a2)), Wide(Add(q.a1, q.a3)), Wide(Sum(r.a0, r.a2, r.a1, r.a3));
    UnmixWide(c.a1, c.a2, c.a3, p.a0, p.a1, q.a0, q.a2, r.a0, r.a1, r.a2, r.a3, Wide(Add(p.a0, p.a1)), y, z);
    UnmixWide(c.a2, c.a3, c.a0, p.a1, p.a2, q.a1, q.a3, r.a1, r.a2, r.a3, r.a0, Wide(Add(p.a1, p.a2)), y', z);
    UnmixWide(c.a3, c.a0, c.a1, p.a2, p.a3, q.a2, q.a0, r.a2, r.a3, r.a0, r.a1, Wide(Add(p.a2, p.a3)), y, z);
    UnmixWide(c.a0, c.a1, c.a2, p.a3, p.a0, q.a3, q.a1, r.a3, r.a0, r.a1, r.a2, Wide(Add(p.a3, p.a0)), y', z);
    InverseRowIs(c);
    InverseRowIs(Turn(c));
    InverseRowIs(Turn(Turn(c)));
    InverseRowIs(Turn(Turn(Turn(c))));
  }

  // ---- Four bytes at once

  /** mul2 */
  function Mul2(x: bv32): bv32 {
    var t := x & 0x80808080;
    ((x + x) & 0xfefefefe) ^ ((t - (t >> 7)) & 0x1b1b1b1b)
  }

  function Rot1(x: bv32): bv32 { (x << 24) | (x >> 8) }

  function Rot2(x: bv32): bv32 { (x << 16) | (x >> 16) }

  function Rot3(x: bv32): bv32 { (x << 8) | (x >> 24) }

  /** The packed doubling doubles each byte. */
  lemma Mul2Bytes(x: bv32)
    ensures Bytes(Mul2(x)) == Doubles(Bytes(x))
  {
    hide Mul2, Xtime;
    Mul2Byte0(x);
    Mul2Byte1(x);
    Mul2Byte2(x);
    Mul2Byte3(x);
  }

  lemma Mul2Byte0(x: bv32)
    ensures ((Mul2(x) >> 24) & 0xff) as bv8 == Xtime(((x >> 24) & 0xff) as bv8)
  {
  }

  lemma Mul2Byte1(x: bv32)
    ensures ((Mul2(x) >> 16) & 0xff) as bv8 == Xtime(((x >> 16) & 0xff) as bv8)
  {
  }

  lemma Mul2Byte2(x: bv32)
    ensures ((Mul2(x) >> 8) & 0xff) as bv8 == Xtime(((x >> 8) & 0xff) as bv8)
  {
  }

  lemma Mul2Byte3(x: bv32)
    ensures (Mul2(x) & 0xff) as bv8 == Xtime((x & 0xff) as bv8)
  {
  }

  lemma RotBytes(x: bv32)
    ensures Bytes(Rot3(x)) == Turn(Bytes(x))
    ensures Bytes(Rot2(x)) == Turn(Turn(Bytes(x)))
    ensures Bytes(Rot1(x)) == Turn(Turn(Turn(Bytes(x))))
  {
  }

  /** Exclusive or of words, by name. */
  function XorWords(x: bv32, y: bv32): bv32 {
    x ^ y
  }

  lemma XorWordsBytes(x: bv32, y: bv32)
    ensures Bytes(XorWords(x, y)) == AddColumns(Bytes(x), Bytes(y))
  {
  }

  /** inv_mix_col */
  function PackedInvMix(x: bv32): bv32 {
    var f2 := Mul2(x);
    var f4 := Mul2(f2);
    var f8 := Mul2(f4);
    var f9 := XorWords(x, f8);
    var g8 := XorWords(XorWords(f2, f4), f8);
    var g2 := XorWords(f2, f9);
    var g4 := XorWords(f4, f9);
    XorWords(XorWords(XorWords(g8, Rot3(g2)), Rot2(g4)), Rot1(f9))
  }

  lemma AddSwap(a: bv8, b: bv8, c: bv8)
    ensures Add(b, Add(a, c)) == Add(a, Add(b, c))
  {
    hide Add;
    AddAssociates(b, a, c);
    AddAssociates(a, b, c);
    AddCommutes(a, b);
  }

  lemma PackedByteIs(a: Column, p: Column, q: Column, r: Column)
    ensures Add(Add(Add(Add(Add(p.a0, q.a0), r.a0), Add(p.a1, Add(a.a1, r.a1))), Add(q.a2, Add(a.a2, r.a2))),
            Add(a.a3, r.a3))
         == InverseRow(a, p, q, r)
  {
    hide Add, Sum;
    var x, y := Add(p.a0, Add(q.a0, r.a0)), Add(a.a1, Add(p.a1, r.a1));
    var z, w := Add(a.a2, Add(q.a2, r.a2)), Add(a.a3, r.a3);
    AddAssociates(p.a0, q.a0, r.a0);
    AddSwap(a.a1, p.a1, r.a1);
    AddSwap(a.a2, q.a2, r.a2);
    AddAssociates(Add(x, y), z, w);
    SumIsAdd(x, y, z, w);
  }

  /** The packed inv_mix_col is InvMixColumns. */
  lemma PackedInvMixIs(x: bv32)
    ensures Bytes(PackedInvMix(x)) == InvMixColumn(Bytes(x))
  {
    hide Add, Xtime, Bytes, Mul2, Rot1, Rot2, Rot3, XorWords, Row, InverseRow;
    var c := Bytes(x);
    var p := Doubles(c);
    var q := Doubles(p);
    var r := Doubles(q);
    var f2 := Mul2(x);
    var f4 := Mul2(f2);
    var f8 := Mul2(f4);
    Mul2Bytes(x);
    Mul2Bytes(f2);
    Mul2Bytes(f4);
    var f9 := XorWords(x, f8);
    var f24 := XorWords(f2, f4);
    var g8 := XorWords(f24, f8);
    var g2 := XorWords(f2, f9);
    var g4 := XorWords(f4, f9);
    XorWordsBytes(x, f8);
    XorWordsBytes(f2, f4);
    XorWordsBytes(f24, f8);
    XorWordsBytes(f2, f9);
    XorWordsBytes(f4, f9);
    RotBytes(g2);
    RotBytes(g4);
    RotBytes(f9);
    var h := XorWords(g8, Rot3(g2));
    var i := XorWords(h, Rot2(g4));
    XorWordsBytes(g8, Rot3(g2));
    XorWordsBytes(h, Rot2(g4));
    XorWordsBytes(i, Rot1(f9));
    PackedByteIs(c, p, q, r);
    PackedByteIs(Turn(c), Turn(p), Turn(q), Turn(r));
    PackedByteIs(Turn(Turn(c)), Turn(Turn(p)), Turn(Turn(q)), Turn(Turn(r)));
    PackedByteIs(Turn(Turn(Turn(c))), Turn(Turn(Turn(p))), Turn(Turn(Turn(q))), Turn(Turn(Turn(r))));
    InverseRowIs(c);
    InverseRowIs(Turn(c));
    InverseRowIs(Turn(Turn(c)));
    InverseRowIs(Turn(Turn(Turn(c))));
  }

  /** and so distributes over exclusive or. */
  lemma PackedInvMixLinear(x: bv32, y: bv32)
    ensures PackedInvMix(XorWords(x, y)) == XorWords(PackedInvMix(x), PackedInvMix(y))
  {
    hide PackedInvMix, Bytes, Word, AddColumns, InvMixColumn, XorWords;
    PackedInvMixIs(x);
    PackedInvMixIs(y);
    PackedInvMixIs(XorWords(x, y));
    XorWordsBytes(x, y);
    XorWordsBytes(PackedInvMix(x), PackedInvMix(y));
    InvMixAdd(Bytes(x), Bytes(y));
    WordBytes(PackedInvMix(XorWords(x, y)));
    WordBytes(XorWords(PackedInvMix(x), PackedInvMix(y)));
  }
}
