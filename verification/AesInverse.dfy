/** What the S-box is: the affine transformation of section 5.1.1 of FIPS 197 after inversion in GF(2^8). */
module AesInverses {
  import opened AesColumns
  import opened AesSboxes

  /** Bit `i`, the least significant being bit 0. */
  function Bit(b: bv8, i: nat): bv8
    requires i < 8
  {
    (b >> i) & 1
  }

  /** The affine transformation, which adds to each bit four others and a constant's. */
  ghost predicate IsAffine(c: bv8, s: bv8) {
    forall i: nat :: i < 8 ==>
      Bit(s, i)
      == Bit(c, i) ^ Bit(c, (i + 4) % 8) ^ Bit(c, (i + 5) % 8) ^ Bit(c, (i + 6) % 8) ^ Bit(c, (i + 7) % 8)
         ^ Bit(0x63, i)
  }

  /** Inverses in GF(2^8), with zero for the inverse of zero. */
  predicate IsInverse(c: bv8, b: bv8) {
    if b == 0 then c == 0 else Times(c, b) == 1
  }

  /** Every entry of the S-box is the affine transform of its index's inverse. */
  lemma SubIsAffineInverse(b: bv8) returns (c: bv8)
    ensures IsInverse(c, b) && IsAffine(c, Sub(b))
  {
    hide Sub, Product;
    c := Before(Sub(b));
    BeforeIs(Sub(b));
    ProductIs(c, b);
    if b == 0 {
      ZeroIs();
    } else if b < 0x40 {
      InverseInFirstQuarter(b);
    } else if b < 0x80 {
      InverseInSecondQuarter(b);
    } else if b < 0xc0 {
      InverseInThirdQuarter(b);
    } else {
      InverseInLastQuarter(b);
    }
  }

  /** The byte whose affine transform is `s`. */
  function Before(s: bv8): bv8 {
    s.RotateLeft(1) ^ s.RotateLeft(3) ^ s.RotateLeft(6) ^ 0x05
  }

  lemma BeforeIs(s: bv8)
    ensures IsAffine(Before(s), s)
  {
    forall i: nat | i < 8
      ensures Bit(s, i) == Bit(Before(s), i) ^ Bit(Before(s), (i + 4) % 8) ^ Bit(Before(s), (i + 5) % 8)
                           ^ Bit(Before(s), (i + 6) % 8) ^ Bit(Before(s), (i + 7) % 8) ^ Bit(0x63, i)
    {
      match i
      case 0 => case 1 => case 2 => case 3 => case 4 => case 5 => case 6 => case 7 =>
    }
  }

  /** Multiplication, its eight steps written out. */
  function Product(k: bv8, a: bv8): bv8 {
    var a1 := Xtime(a);
    var a2 := Xtime(a1);
    var a3 := Xtime(a2);
    var a4 := Xtime(a3);
    var a5 := Xtime(a4);
    var a6 := Xtime(a5);
    var a7 := Xtime(a6);
    Add(Part(k, a),
        Add(Part(k >> 1, a1),
            Add(Part(k >> 2, a2),
                Add(Part(k >> 3, a3), Add(Part(k >> 4, a4),
                    Add(Part(k >> 5, a5), Add(Part(k >> 6, a6), Part(k >> 7, a7))))))))
  }

  function Part(k: bv8, a: bv8): bv8 {
    if k & 1 == 1 then a else 0
  }

  lemma ProductIs(k: bv8, a: bv8)
    ensures Times(k, a) == Product(k, a)
  {
    hide Xtime, Add, Part, Times;
    var a1 := Xtime(a);
    var a2 := Xtime(a1);
    var a3 := Xtime(a2);
    var a4 := Xtime(a3);
    var a5 := Xtime(a4);
    var a6 := Xtime(a5);
    var a7 := Xtime(a6);
    Shifts(k);
    TimesStep(k, a);
    TimesStep(k >> 1, a1);
    TimesStep(k >> 2, a2);
    TimesStep(k >> 3, a3);
    TimesStep(k >> 4, a4);
    TimesStep(k >> 5, a5);
    TimesStep(k >> 6, a6);
    TimesStep(k >> 7, a7);
    TimesZero(Xtime(a7));
    AddZero(Part(k >> 7, a7));
  }

  lemma Shifts(k: bv8)
    ensures (k >> 1) >> 1 == k >> 2 && (k >> 2) >> 1 == k >> 3 && (k >> 3) >> 1 == k >> 4 && (k >> 4) >> 1 == k >> 5
    ensures (k >> 5) >> 1 == k >> 6 && (k >> 6) >> 1 == k >> 7 && (k >> 7) >> 1 == 0
  {
  }

  lemma TimesStep(k: bv8, a: bv8)
    ensures Times(k, a) == Add(Part(k, a), Times(k >> 1, Xtime(a)))
  {
    hide Xtime;
    if k == 0 {
      AddZero(0);
    }
  }

  lemma TimesZero(a: bv8)
    ensures Times(0, a) == 0
  {
  }

  lemma ZeroIs()
    ensures Before(Sub(0)) == 0
  {
  }

  lemma InverseInFirstQuarter(b: bv8)
    requires 0 < b < 0x40
    ensures Product(Before(Sub(b)), b) == 1
  {
  }

  lemma InverseInSecondQuarter(b: bv8)
    requires 0x40 <= b < 0x80
    ensures Product(Before(Sub(b)), b) == 1
  {
  }

  lemma InverseInThirdQuarter(b: bv8)
    requires 0x80 <= b < 0xc0
    ensures Product(Before(Sub(b)), b) == 1
  {
  }

  lemma InverseInLastQuarter(b: bv8)
    requires 0xc0 <= b
    ensures Product(Before(Sub(b)), b) == 1
  {
  }
}
