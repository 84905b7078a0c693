/** The step mappings bit by bit, as FIPS 202 section 3.2 states them. */
module KeccakBits {
  import opened KeccakSteps

  /** Bit `z` of a lane; `z` is modulo 64. */
  function At(a: bv64, z: bv64): bool {
    Bit(a, z & 63)
  }

  function Bit(a: bv64, z: bv64): bool
    requires z < 64
  {
    (a >> z) & 1 == 1
  }

  lemma XorAt(a: bv64, b: bv64, z: bv64)
    ensures At(Xor(a, b), z) <==> (At(a, z) != At(b, z))
  {
    hide Bit, Xor;
    XorBit(a, b, z & 63);
  }

  lemma XorBit(a: bv64, b: bv64, z: bv64)
    requires z < 64
    ensures Bit(Xor(a, b), z) <==> (Bit(a, z) != Bit(b, z))
  {
    hide Bit;
    ExclusiveBit(a, b, z);
  }

  lemma ExclusiveBit(a: bv64, b: bv64, z: bv64)
    requires z < 64
    ensures Bit(a ^ b, z) <==> (Bit(a, z) != Bit(b, z))
  {
    ExclusiveLow(a, b, z);
  }

  lemma ExclusiveLow(a: bv64, b: bv64, z: bv64)
    requires z < 64
    ensures ((a ^ b) >> z) & 1 == ((a >> z) & 1) ^ ((b >> z) & 1)
  {
  }

  lemma ComplementAndAt(a: bv64, b: bv64, z: bv64)
    ensures At(ComplementAnd(a, b), z) <==> !At(a, z) && At(b, z)
  {
    hide Bit, ComplementAnd;
    ComplementAndBit(a, b, z & 63);
  }

  lemma {:induction false} ComplementAndBit(a: bv64, b: bv64, z: bv64)
    requires z < 64
    ensures Bit(ComplementAnd(a, b), z) <==> !Bit(a, z) && Bit(b, z)
    decreases z
  {
    hide Bit, ComplementAnd;
    if z == 0 {
      ComplementAndLow(a, b);
    } else {
      ComplementAndBit(a >> 1, b >> 1, z - 1);
      ComplementAndHalves(a, b);
      NextBit(a, z);
      NextBit(b, z);
      NextBit(ComplementAnd(a, b), z);
    }
  }

  lemma ComplementAndLow(a: bv64, b: bv64)
    ensures Bit(ComplementAnd(a, b), 0) <==> !Bit(a, 0) && Bit(b, 0)
  {
  }

  lemma ComplementAndHalves(a: bv64, b: bv64)
    ensures ComplementAnd(a, b) >> 1 == ComplementAnd(a >> 1, b >> 1)
  {
  }

  lemma NextLow(a: bv64, z: bv64)
    requires 0 < z < 64
    ensures (a >> z) & 1 == ((a >> 1) >> (z - 1)) & 1
  {
  }

  lemma NextBit(a: bv64, z: bv64)
    requires 0 < z < 64
    ensures Bit(a, z) == Bit(a >> 1, z - 1)
  {
    NextLow(a, z);
  }

  // ---------------------------------------------------------------------------------------
  // Turning.

  lemma OnceUp(a: bv64, z: bv64)
    requires 0 < z < 64
    ensures Bit(Rotated(a, 1), z) == Bit(a, z - 1)
  {
  }

  lemma OnceRound(a: bv64)
    ensures Bit(Rotated(a, 1), 0) == Bit(a, 63)
  {
  }

  lemma OnceAt(a: bv64, z: bv64)
    ensures At(Rotated(a, 1), z) == At(a, z - 1)
  {
    hide Bit, Rotated;
    Before(z);
    if z & 63 == 0 {
      OnceRound(a);
    } else {
      OnceUp(a, z & 63);
    }
  }

  lemma Before(z: bv64)
    ensures (z - 1) & 63 == if z & 63 == 0 then 63 else (z & 63) - 1
  {
  }

  /** Every distance that lanes are turned by, on one word. */
  lemma TurnedWords()
    ensures var a: bv64 := 0x0123_4567_89ab_cdef;
            Rotated(a, 1) == 0x0246_8acf_1357_9bde && Rotated(a, 2) == 0x048d_159e_26af_37bc &&
            Rotated(a, 3) == 0x091a_2b3c_4d5e_6f78 && Rotated(a, 6) == 0x48d1_59e2_6af3_7bc0 &&
            Rotated(a, 8) == 0x2345_6789_abcd_ef01 && Rotated(a, 10) == 0x8d15_9e26_af37_bc04 &&
            Rotated(a, 14) == 0xd159_e26a_f37b_c048 && Rotated(a, 15) == 0xa2b3_c4d5_e6f7_8091 &&
            Rotated(a, 18) == 0x159e_26af_37bc_048d && Rotated(a, 20) == 0x5678_9abc_def0_1234 &&
            Rotated(a, 21) == 0xacf1_3579_bde0_2468 && Rotated(a, 25) == 0xcf13_579b_de02_468a &&
            Rotated(a, 27) == 0x3c4d_5e6f_7809_1a2b && Rotated(a, 28) == 0x789a_bcde_f012_3456 &&
            Rotated(a, 36) == 0x9abc_def0_1234_5678 && Rotated(a, 39) == 0xd5e6_f780_91a2_b3c4 &&
            Rotated(a, 41) == 0x579b_de02_468a_cf13 && Rotated(a, 43) == 0x5e6f_7809_1a2b_3c4d &&
            Rotated(a, 44) == 0xbcde_f012_3456_789a && Rotated(a, 45) == 0x79bd_e024_68ac_f135 &&
            Rotated(a, 55) == 0xf780_91a2_b3c4_d5e6 && Rotated(a, 56) == 0xef01_2345_6789_abcd &&
            Rotated(a, 61) == 0xe024_68ac_f135_79bd && Rotated(a, 62) == 0xc048_d159_e26a_f37b
  {
  }

  // ---------------------------------------------------------------------------------------
  // The mappings.

  /** The exclusive or of bits `z` of column `x`. */
  function ColumnAt(s: State, x: nat, z: bv64): bool
    requires x < 5
  {
    (((At(s[x], z) != At(s[x + 5], z)) != At(s[x + 10], z)) != At(s[x + 15], z)) != At(s[x + 20], z)
  }

  lemma ParityAt(s: State, x: nat, z: bv64)
    requires x < 5
    ensures At(Parity(s, x), z) <==> ColumnAt(s, x, z)
  {
    hide At, Xor;
    XorAt(s[x], s[x + 5], z);
    XorAt(Xor(s[x], s[x + 5]), s[x + 10], z);
    XorAt(Xor(Xor(s[x], s[x + 5]), s[x + 10]), s[x + 15], z);
    XorAt(Xor(Xor(Xor(s[x], s[x + 5]), s[x + 10]), s[x + 15]), s[x + 20], z);
  }

  /** The column before `x` at `z`, and the one after it a bit below. */
  function BesideAt(s: State, x: nat, z: bv64): bool
    requires x < 5
  {
    ColumnAt(s, Five(x + 4), z) != ColumnAt(s, Five(x + 1), z - 1)
  }

  /** Section 3.2.1, bit by bit: what theta adds to the bits of column `x`. */
  lemma SpreadAt(s: State, x: nat, z: bv64)
    requires x < 5
    ensures At(Spread(s, x), z) <==> BesideAt(s, x, z)
  {
    hide At, Spread, ColumnAt, Parity, Xor, Rotated, Five;
    var before, after := Five(x + 4), Five(x + 1);
    SpreadIs(s, x);
    ParityAt(s, before, z);
    ParityAt(s, after, z - 1);
    OnceAt(Parity(s, after), z);
    XorAt(Parity(s, before), Rotated(Parity(s, after), 1), z);
  }

  lemma SpreadIs(s: State, x: nat)
    requires x < 5
    ensures Spread(s, x) == Xor(Parity(s, Five(x + 4)), Rotated(Parity(s, Five(x + 1)), 1))
  {
    hide Xor, Rotated, Parity, Five;
  }

  /** And it adds that to every lane. */
  lemma ThetaIs(s: State, p: nat)
    requires p < 25
    ensures Theta(s)[p] == Xor(s[p], Spread(s, Column(p)))
  {
    hide Xor, Spread, Column;
  }

  lemma ChiIs(s: State, p: nat)
    requires p < 25
    ensures Chi(s)[p] ==
            Xor(s[p], ComplementAnd(Lane(s, Five(Column(p) + 1), Row(p)), Lane(s, Five(Column(p) + 2), Row(p))))
  {
    hide Xor, ComplementAnd, Lane, Five, Column, Row;
  }

  /** Section 3.2.4: chi adds to each bit the product of the next one in its row, complemented,
      and the one after. */
  lemma ChiAt(s: State, p: nat, z: bv64)
    requires p < 25
    ensures var x, y := Column(p), Row(p);
            At(Chi(s)[p], z) <==>
            (At(s[p], z) != (!At(Lane(s, Five(x + 1), y), z) && At(Lane(s, Five(x + 2), y), z)))
  {
    hide *;
    var x, y := Column(p), Row(p);
    ChiIs(s, p);
    var a, b := Lane(s, Five(x + 1), y), Lane(s, Five(x + 2), y);
    ComplementAndAt(a, b, z);
    XorAt(s[p], ComplementAnd(a, b), z);
  }
}
