/** The Keccak permutation computed in place, in keccak.c. */
module Keccaks {
  import opened KeccakSteps

  newtype int32 = x: int | -0x8000_0000 <= x < 0x8000_0000

  const ROUND_CONSTANTS: seq<bv64> := [
    0x0000000000000001, 0x0000000000008082, 0x800000000000808a,
    0x8000000080008000, 0x000000000000808b, 0x0000000080000001,
    0x8000000080008081, 0x8000000000008009, 0x000000000000008a,
    0x0000000000000088, 0x0000000080008009, 0x000000008000000a,
    0x000000008000808b, 0x800000000000008b, 0x8000000000008089,
    0x8000000000008003, 0x8000000000008002, 0x8000000000000080,
    0x000000000000800a, 0x800000008000000a, 0x8000000080008081,
    0x8000000000008080, 0x0000000080000001, 0x8000000080008008
  ]

  const ROTATIONS: seq<nat> := [
    1, 3, 6, 10, 15, 21, 28, 36, 45, 55, 2, 14, 27, 41, 56, 8, 25, 43, 62, 18, 39, 61, 20, 44
  ]

  const PI_LANES: seq<nat> := [
    10, 7, 11, 17, 18, 3, 5, 16, 8, 21, 24, 4, 15, 23, 19, 13, 12, 2, 20, 14, 22, 9, 6, 1
  ]

  lemma DigitTaken(s: nat, a: nat)
    ensures (s + a % 8 + a / 8 * 3) % 5 == (s + a) % 5
    ensures a % 8 + a / 8 * 3 <= a
    ensures a >= 8 ==> a % 8 + a / 8 * 3 < a
  {
    assert s + a == s + a % 8 + a / 8 * 3 + 5 * (a / 8);
  }

  /** The remainder by five, by adding up octal digits: 8 is 3 modulo 5, so each digit taken off
      leaves three times the rest. No step overflows. A negative number comes back as it is. */
  method Mod5(number: int32) returns (a: int32)
    ensures number >= 0 ==> a == number % 5
    ensures number < 0 ==> a == number
  {
    a := number;
    while a > 9
      invariant number >= 0 ==> 0 <= a <= number && (a as int) % 5 == (number as int) % 5
      invariant number < 0 ==> a == number
      decreases a as int
    {
      ghost var was := a as int;
      var s: int32 := 0;
      while a != 0
        invariant 0 <= a && 0 <= s && s as int + a as int <= was
        invariant (s as int + a as int) % 5 == was % 5
        invariant a as int == was || s as int + a as int < was
        decreases a as int
      {
        DigitTaken(s as int, a as int);
        s := s + a % 8;
        a := a / 8 * 3;
      }
      a := s;
    }
    if a > 4 {
      a := a - 5;
    }
  }

  /** Which step of the walk enters each lane but lane 0. */
  const STEPS: seq<nat> := [
    0, 23, 17, 5, 11, 6, 22, 1, 8, 21, 0, 2, 16, 15, 19, 12, 7, 3, 4, 14, 18, 9, 20, 13, 10
  ]

  lemma StepsAreUnique(i: nat)
    requires i < 24
    ensures |STEPS| == 25 && 0 < PI_LANES[i] < 25 && STEPS[PI_LANES[i]] == i
  {
  }

  lemma StepsCover(p: nat)
    requires 0 < p < 25
    ensures STEPS[p] < 24 && PI_LANES[STEPS[p]] == p
  {
  }

  lemma TablesStart()
    ensures PI_LANES[0] == Onward(1) && ROTATIONS[0] == OFFSETS[1]
  {
  }

  lemma LanesFollow(i: nat)
    requires 0 < i < 24
    ensures PI_LANES[i - 1] < 25 && PI_LANES[i] == Onward(PI_LANES[i - 1])
  {
    hide ROTATIONS, OFFSETS;
    OnwardFrom(PI_LANES[i - 1], PI_LANES[i]);
  }

  lemma OnwardFrom(p: nat, q: nat)
    requires p < 25 && q < 25 && q % 5 == p / 5 && q / 5 == (2 * (p % 5) + 3 * (p / 5)) % 5
    ensures q == Onward(p)
  {
  }

  lemma OffsetsFollow(i: nat)
    requires 0 < i < 24
    ensures PI_LANES[i - 1] < 25 && ROTATIONS[i] == OFFSETS[PI_LANES[i - 1]]
  {
  }

  lemma RotationsAre(i: nat)
    requires i < 24
    ensures ROTATIONS[i] == (i + 1) * (i + 2) / 2 % 64
  {
  }

  /** The tables follow the walk of FIPS 202 section 3.2.2: on step i the lane that the walk has
      reached is turned by the distance due to it, and goes where the walk goes next. */
  lemma {:induction false} TablesFollowWalk(i: nat)
    requires i < 24
    ensures Walk(i + 1) == PI_LANES[i]
    ensures Walk(i) == if i == 0 then 1 else PI_LANES[i - 1]
    ensures OFFSETS[Walk(i)] == ROTATIONS[i] == (i + 1) * (i + 2) / 2 % 64
  {
    hide ROTATIONS, OFFSETS, PI_LANES;
    RotationsAre(i);
    if i == 0 {
      TablesStart();
    } else {
      TablesFollowWalk(i - 1);
      LanesFollow(i);
      OffsetsFollow(i);
    }
  }

  /** Pi takes each lane where the walk goes from it. */
  lemma PiMoves(s: State, p: nat)
    requires p < 25
    ensures Pi(s)[Onward(p)] == s[p]
  {
    hide *;
    var x, y := Column(p), Row(p);
    PositionIs(p);
    OnwardIs(x, y);
    OnwardBack(x, y);
    PiAt(s, Onward(p));
    LaneIs(s, x, y);
  }

  lemma PositionIs(p: nat)
    requires p < 25
    ensures p == Column(p) + 5 * Row(p)
  {
  }

  lemma PiAt(s: State, p: nat)
    requires p < 25
    ensures Pi(s)[p] == Lane(s, Five(Column(p) + 3 * Row(p)), Column(p))
  {
    hide Lane, Five, Column, Row;
  }

  lemma LaneIs(s: State, x: nat, y: nat)
    requires x < 5 && y < 5
    ensures Lane(s, x, y) == s[x + 5 * y]
  {
  }

  lemma OnwardIs(x: nat, y: nat)
    requires x < 5 && y < 5
    ensures Column(Onward(x + 5 * y)) == y && Row(Onward(x + 5 * y)) == Five(2 * x + 3 * y)
  {
    hide Five, Column, Row;
    OnwardAt(x, y);
    OnwardAt(y, Five(2 * x + 3 * y));
  }

  lemma OnwardAt(y: nat, z: nat)
    requires y < 5 && z < 5
    ensures Column(y + 5 * z) == y && Row(y + 5 * z) == z
  {
  }

  lemma OnwardBack(x: nat, y: nat)
    requires x < 5 && y < 5
    ensures Five(y + 3 * Five(2 * x + 3 * y)) == x
  {
  }

  /** Rho and then pi, seen from the lane that step `i` of the walk enters. */
  lemma RhoPiAt(s: State, i: nat)
    requires i < 24
    ensures |ROTATIONS| == 24 && ROTATIONS[i] < 64 && PI_LANES[i] == Walk(i + 1)
    ensures Pi(Rho(s))[Walk(i + 1)] == Rotated(s[Walk(i)], ROTATIONS[i])
  {
    TablesFollowWalk(i);
    hide ROTATIONS, PI_LANES, OFFSETS, Onward, Pi, Rho, Rotated;
    PiMoves(Rho(s), Walk(i));
  }

  /** The state halfway through theta's second loop: the first `i` columns are done, and of the
      next one the lanes below `j`. */
  ghost predicate ThetaSoFar(was: State, s: State, i: nat, j: nat) {
    forall p :: 0 <= p < 25 ==>
      s[p] == if p % 5 < i || (p % 5 == i && p < j) then Xor(was[p], Spread(was, p % 5)) else was[p]
  }

  lemma ThetaStep(was: State, s: State, after: State, i: nat, j: nat)
    requires ThetaSoFar(was, s, i, j) && i < 5 && j % 5 == 0 && j < 25
    requires after == s[j + i := Xor(s[j + i], Spread(was, i))]
    ensures ThetaSoFar(was, after, i, j + 5)
  {
    hide Xor, Spread;
    assert (j + i) % 5 == i;
    forall p | 0 <= p < 25
      ensures after[p] == if p % 5 < i || (p % 5 == i && p < j + 5) then Xor(was[p], Spread(was, p % 5)) else was[p]
    {
      assert p % 5 == i && j <= p < j + 5 ==> p == j + i;
    }
  }

  lemma ThetaColumn(was: State, s: State, i: nat)
    requires ThetaSoFar(was, s, i, 25)
    ensures ThetaSoFar(was, s, i + 1, 0)
  {
    hide Xor, Spread;
  }

  lemma ThetaDone(was: State, s: State)
    requires ThetaSoFar(was, s, 5, 0)
    ensures s == Theta(was)
  {
    hide Xor, Spread;
  }

  lemma ParityIs(s: State, x: nat)
    requires x < 5
    ensures Parity(s, x) == Xor(Xor(Xor(Xor(s[x], s[x + 5]), s[x + 10]), s[x + 15]), s[x + 20])
  {
  }

  lemma SpreadIs(s: State, x: nat)
    requires x < 5
    ensures Spread(s, x) == Xor(Parity(s, (x + 4) % 5), Rotated(Parity(s, (x + 1) % 5), 1))
  {
  }

  method ThetaInPlace(st: array<bv64>, bc: array<bv64>)
    requires st.Length == 25 && bc.Length == 5 && st != bc
    modifies st, bc
    ensures st[..] == Theta(old(st[..]))
  {
    hide *;
    ghost var was: State := st[..];
    var i: int32 := 0;
    while i < 5
      invariant 0 <= i <= 5 && st[..] == was
      invariant forall x :: 0 <= x < i as int ==> bc[x] == Parity(was, x)
    {
      ParityIs(was, i as int);
      bc[i] := Xor(Xor(Xor(Xor(st[i], st[i + 5]), st[i + 10]), st[i + 15]), st[i + 20]);
      i := i + 1;
    }
    ghost var parities := bc[..];
    ThetaStart(was);
    i := 0;
    while i < 5
      invariant 0 <= i <= 5 && bc[..] == parities
      invariant ThetaSoFar(was, st[..], i as int, 0)
    {
      var left := Mod5(i + 4);
      var right := Mod5(i + 1);
      var t := Xor(bc[left], Rotated(bc[right], 1));
      assert bc[left] == parities[left] && bc[right] == parities[right];
      SpreadIs(was, i as int);
      assert t == Spread(was, i as int);
      var j: int32 := 0;
      while j < 25
        invariant 0 <= j <= 25 && j % 5 == 0 && bc[..] == parities
        invariant ThetaSoFar(was, st[..], i as int, j as int)
      {
        ghost var s := st[..];
        st[j + i] := Xor(st[j + i], t);
        assert st[..] == s[j as int + i as int := Xor(s[j as int + i as int], t)];
        ThetaStep(was, s, st[..], i as int, j as int);
        j := j + 5;
      }
      ThetaColumn(was, st[..], i as int);
      i := i + 1;
    }
    ThetaDone(was, st[..]);
  }

  lemma ThetaStart(was: State)
    ensures ThetaSoFar(was, was, 0, 0)
  {
  }

  /** The state after `i` steps of the rho and pi loop: the lanes that those steps enter are
      filled, the others are as before. */
  ghost predicate RhoPiSoFar(was: State, s: State, i: nat) {
    forall p :: 0 <= p < 25 ==> s[p] == if p > 0 && STEPS[p] < i then Pi(Rho(was))[p] else was[p]
  }

  lemma RhoPiStep(was: State, s: State, after: State, i: nat)
    requires i < 24 && RhoPiSoFar(was, s, i)
    requires after == s[Walk(i + 1) := Rotated(was[Walk(i)], ROTATIONS[i] % 64)]
    ensures RhoPiSoFar(was, after, i + 1)
    ensures s[Walk(i + 1)] == was[Walk(i + 1)]
  {
    hide Rotated, Pi, Rho, Walk, ROTATIONS, STEPS, PI_LANES;
    RhoPiAt(was, i);
    StepsAreUnique(i);
    forall p | 0 <= p < 25
      ensures after[p] == if p > 0 && STEPS[p] < i + 1 then Pi(Rho(was))[p] else was[p]
    {
      if p > 0 {
        StepsCover(p);
      }
    }
  }

  lemma RhoPiDone(was: State, s: State)
    requires RhoPiSoFar(was, s, 24)
    ensures s == Pi(Rho(was))
  {
    hide Rotated, Pi, Rho, STEPS, PI_LANES;
    LaneZeroStays(was);
    forall p | 0 <= p < 25
      ensures s[p] == Pi(Rho(was))[p]
    {
      if p > 0 {
        StepsCover(p);
      }
    }
  }

  lemma LaneZeroStays(s: State)
    ensures Pi(Rho(s))[0] == s[0]
  {
    hide Rotated;
    NotTurned(s[0]);
  }

  lemma NotTurned(a: bv64)
    ensures Rotated(a, 0) == a
  {
  }

  method RhoPiInPlace(st: array<bv64>, bc: array<bv64>)
    requires st.Length == 25 && bc.Length == 5 && st != bc
    modifies st, bc
    ensures st[..] == Pi(Rho(old(st[..])))
  {
    hide *;
    ghost var was: State := st[..];
    var t := st[1];
    RhoPiStart(was);
    var i := 0;
    while i < 24
      invariant 0 <= i <= 24 && t == was[Walk(i)]
      invariant RhoPiSoFar(was, st[..], i)
    {
      RhoPiAt(was, i);
      ghost var s := st[..];
      var j := PI_LANES[i];
      bc[0] := st[j];
      st[j] := Rotated(t, ROTATIONS[i]);
      t := bc[0];
      RhoPiStep(was, s, st[..], i);
      i := i + 1;
    }
    RhoPiDone(was, st[..]);
  }

  lemma RhoPiStart(was: State)
    ensures Walk(0) == 1 && RhoPiSoFar(was, was, 0)
    ensures |PI_LANES| == |ROTATIONS| == 24
  {
  }

  /** The state halfway through chi: the first `j` lanes are done. */
  ghost predicate ChiSoFar(was: State, s: State, j: nat) {
    forall p :: 0 <= p < 25 ==> s[p] == if p < j then Chi(was)[p] else was[p]
  }

  lemma ChiStart(was: State)
    ensures ChiSoFar(was, was, 0)
  {
  }

  /** Lane `i` of the row at `j`, from a copy of the row as it was. */
  lemma ChiStep(was: State, row: seq<bv64>, s: State, after: State, j: nat, i: nat)
    requires i < 5 && j % 5 == 0 && j < 25 && row == was[j..j + 5]
    requires ChiSoFar(was, s, j + i)
    requires after == s[j + i := Xor(s[j + i], ComplementAnd(row[(i + 1) % 5], row[(i + 2) % 5]))]
    ensures ChiSoFar(was, after, j + i + 1)
  {
    hide Xor, ComplementAnd, Chi;
    ChiIs(was, j / 5, i);
    forall p | 0 <= p < 25
      ensures after[p] == if p < j + i + 1 then Chi(was)[p] else was[p]
    {
    }
  }

  lemma ChiIs(s: State, y: nat, x: nat)
    requires x < 5 && y < 5
    ensures Chi(s)[5 * y + x] ==
            Xor(s[5 * y + x], ComplementAnd(s[5 * y + Five(x + 1)], s[5 * y + Five(x + 2)]))
  {
    hide *;
    OnwardAt(x, y);
    ChiAt(s, x + 5 * y);
    LaneIs(s, Five(x + 1), y);
    LaneIs(s, Five(x + 2), y);
  }

  lemma ChiAt(s: State, p: nat)
    requires p < 25
    ensures Chi(s)[p] ==
            Xor(s[p], ComplementAnd(Lane(s, Five(Column(p) + 1), Row(p)), Lane(s, Five(Column(p) + 2), Row(p))))
  {
    hide Xor, ComplementAnd, Lane, Five, Column, Row;
  }

  lemma ChiDone(was: State, s: State)
    requires ChiSoFar(was, s, 25)
    ensures s == Chi(was)
  {
    hide Chi;
  }

  lemma RowIs(was: State, s: State, j: nat)
    requires ChiSoFar(was, s, j) && j + 5 <= 25
    ensures s[j..j + 5] == was[j..j + 5]
  {
    hide Chi;
  }

  method CopyRow(st: array<bv64>, bc: array<bv64>, j: int32)
    requires st.Length == 25 && bc.Length == 5 && st != bc && 0 <= j <= 20
    modifies bc
    ensures bc[..] == st[j..j + 5]
  {
    var i: int32 := 0;
    while i < 5
      invariant 0 <= i <= 5
      invariant forall x :: 0 <= x < i as int ==> bc[x] == st[j as int + x]
    {
      bc[i] := st[j + i];
      i := i + 1;
    }
  }

  method ChiInPlace(st: array<bv64>, bc: array<bv64>)
    requires st.Length == 25 && bc.Length == 5 && st != bc
    modifies st, bc
    ensures st[..] == Chi(old(st[..]))
  {
    hide *;
    ghost var was: State := st[..];
    ChiStart(was);
    var j: int32 := 0;
    while j < 25
      invariant 0 <= j <= 25 && j % 5 == 0
      invariant ChiSoFar(was, st[..], j as int)
    {
      ghost var s := st[..];
      CopyRow(st, bc, j);
      ghost var row := bc[..];
      RowIs(was, s, j as int);
      var i: int32 := 0;
      while i < 5
        invariant 0 <= i <= 5 && bc[..] == row
        invariant ChiSoFar(was, st[..], j as int + i as int)
      {
        var next := Mod5(i + 1);
        var second := Mod5(i + 2);
        s := st[..];
        st[j + i] := Xor(st[j + i], ComplementAnd(bc[next], bc[second]));
        assert bc[next] == row[next] && bc[second] == row[second];
        ChiStep(was, row, s, st[..], j as int, i as int);
        i := i + 1;
      }
      j := j + 5;
    }
    ChiDone(was, st[..]);
  }

  /** The shift register at the start of each round. */
  const REGISTERS: seq<bv8> := [
    0x01, 0x80, 0xd8, 0x1a, 0xdf, 0x09, 0x35, 0x4f, 0xca, 0x70, 0x41, 0xec,
    0xd5, 0xcd, 0x63, 0xab, 0xaa, 0x2a, 0xf2, 0xe8, 0x37, 0x3e, 0x0b, 0x44
  ]

  function SevenOn(r: bv8): bv8 {
    Shifted(Shifted(Shifted(Shifted(Shifted(Shifted(Shifted(r)))))))
  }

  lemma RegistersStart()
    ensures |REGISTERS| == 24 && REGISTERS[0] == 1
  {
  }

  lemma RegistersFollow(round: nat)
    requires 0 < round < 24
    ensures |REGISTERS| == 24 && REGISTERS[round] == SevenOn(REGISTERS[round - 1])
  {
  }

  lemma SevenSteps(t: nat)
    ensures Register(t + 7) == SevenOn(Register(t))
  {
    hide Shifted;
    assert Register(t + 2) == Shifted(Shifted(Register(t)));
    assert Register(t + 4) == Shifted(Shifted(Register(t + 2)));
    assert Register(t + 6) == Shifted(Shifted(Register(t + 4)));
  }

  lemma {:induction false} RegistersAre(round: nat)
    requires round < 24
    ensures Register(7 * round) == REGISTERS[round]
  {
    hide Shifted, REGISTERS, SevenOn;
    if round == 0 {
      RegistersStart();
    } else {
      RegistersAre(round - 1);
      RegistersFollow(round);
      SevenSteps(7 * round - 7);
    }
  }

  lemma ConstantsGathered(round: nat)
    requires round < 24
    ensures |ROUND_CONSTANTS| == |REGISTERS| == 24
    ensures ROUND_CONSTANTS[round] == Gathered(REGISTERS[round])
  {
    hide Gathered;
    GatheredAre();
  }

  lemma GatheredAre()
    ensures Gathered(0x01) == 0x0000000000000001
    ensures Gathered(0x80) == 0x0000000000008082
    ensures Gathered(0xd8) == 0x800000000000808a
    ensures Gathered(0x1a) == 0x8000000080008000
    ensures Gathered(0xdf) == 0x000000000000808b
    ensures Gathered(0x09) == 0x0000000080000001
    ensures Gathered(0x35) == 0x8000000080008081
    ensures Gathered(0x4f) == 0x8000000000008009
    ensures Gathered(0xca) == 0x000000000000008a
    ensures Gathered(0x70) == 0x0000000000000088
    ensures Gathered(0x41) == 0x0000000080008009
    ensures Gathered(0xec) == 0x000000008000000a
    ensures Gathered(0xd5) == 0x000000008000808b
    ensures Gathered(0xcd) == 0x800000000000008b
    ensures Gathered(0x63) == 0x8000000000008089
    ensures Gathered(0xab) == 0x8000000000008003
    ensures Gathered(0xaa) == 0x8000000000008002
    ensures Gathered(0x2a) == 0x8000000000000080
    ensures Gathered(0xf2) == 0x000000000000800a
    ensures Gathered(0xe8) == 0x800000008000000a
    ensures Gathered(0x37) == 0x8000000080008081
    ensures Gathered(0x3e) == 0x8000000000008080
    ensures Gathered(0x0b) == 0x0000000080000001
    ensures Gathered(0x44) == 0x8000000080008008
  {
  }

  /** The table holds the constants that FIPS 202 computes. */
  lemma RoundConstantsAre(round: nat)
    requires round < 24
    ensures |ROUND_CONSTANTS| == 24 && ROUND_CONSTANTS[round] == RoundConstant(round)
  {
    hide Gathered, REGISTERS, ROUND_CONSTANTS;
    ConstantsGathered(round);
    RegistersAre(round);
  }

  /** keccakf: the rounds, each overwriting the state in place, compute the permutation of
      FIPS 202 section 3.3. The table of constants bounds the number of rounds. */
  method KeccakF(st: array<bv64>, rounds: int)
    requires st.Length == 25 && rounds <= 24
    modifies st
    ensures st[..] == Permuted(old(st[..]), if rounds < 0 then 0 else rounds)
  {
    hide *;
    ghost var was: State := st[..];
    var bc := new bv64[5];
    NoRounds(was);
    var round := 0;
    while round < rounds
      invariant 0 <= round <= if rounds < 0 then 0 else rounds
      invariant st[..] == Permuted(was, round)
    {
      ThetaInPlace(st, bc);
      RhoPiInPlace(st, bc);
      ChiInPlace(st, bc);
      ghost var s: State := st[..];
      RoundConstantsAre(round);
      st[0] := Xor(st[0], ROUND_CONSTANTS[round]);
      IotaIs(s, st[..], round);
      RoundIs(was, round);
      round := round + 1;
    }
  }

  lemma NoRounds(s: State)
    ensures Permuted(s, 0) == s
  {
  }

  lemma IotaIs(s: State, after: State, round: nat)
    requires after[0] == Xor(s[0], RoundConstant(round))
    requires forall p :: 0 < p < 25 ==> after[p] == s[p]
    ensures after == Iota(s, round)
  {
    hide Xor, RoundConstant;
  }

  lemma RoundIs(s: State, round: nat)
    ensures Permuted(s, round + 1) == Iota(Chi(Pi(Rho(Theta(Permuted(s, round))))), round)
  {
    hide Iota, Chi, Pi, Rho, Theta;
  }
}
