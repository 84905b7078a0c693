/** The step mappings of the Keccak permutation, as FIPS 202 section 3.2 defines them: each maps
    a whole state to a whole state at once. */
module KeccakSteps {
  /** Lane (x, y) of the state is number x + 5y. */
  type State = s: seq<bv64> | |s| == 25 witness seq(25, i => 0)

  function Xor(a: bv64, b: bv64): bv64 {
    a ^ b
  }

  function ComplementAnd(a: bv64, b: bv64): bv64 {
    !a & b
  }

  /** The lane turned by `n` bits: what leaves at the top comes back at the bottom. */
  function Rotated(a: bv64, n: nat): bv64
    requires n < 64
  {
    (a << n) | (a >> (64 - n))
  }

  /** Coordinates are modulo five. */
  function Five(n: nat): (x: nat)
    ensures x < 5
  {
    n % 5
  }

  function Column(p: nat): (x: nat)
    requires p < 25
    ensures x < 5
  {
    p % 5
  }

  function Row(p: nat): (y: nat)
    requires p < 25
    ensures y < 5
  {
    p / 5
  }

  function Lane(s: State, x: nat, y: nat): bv64
    requires x < 5 && y < 5
  {
    s[x + 5 * y]
  }

  /** Section 3.2.1, step 1: the exclusive or of column `x`. */
  function Parity(s: State, x: nat): bv64
    requires x < 5
  {
    Xor(Xor(Xor(Xor(s[x], s[x + 5]), s[x + 10]), s[x + 15]), s[x + 20])
  }

  /** Section 3.2.1, step 2. */
  function Spread(s: State, x: nat): bv64
    requires x < 5
  {
    Xor(Parity(s, Five(x + 4)), Rotated(Parity(s, Five(x + 1)), 1))
  }

  function Theta(s: State): State {
    seq(25, p requires 0 <= p < 25 => Xor(s[p], Spread(s, Column(p))))
  }

  /** How far section 3.2.2 turns each lane, modulo the lane length. */
  const OFFSETS: seq<nat> := [
    0, 1, 62, 28, 27, 36, 44, 6, 55, 20, 3, 10, 43, 25, 39, 41, 45, 15, 21, 8, 18, 2, 61, 56, 14
  ]

  /** From lane (x, y) to lane (y, 2x + 3y). */
  function Onward(p: nat): (q: nat)
    requires p < 25
    ensures q < 25 && (p > 0 ==> q > 0)
  {
    Row(p) + 5 * Five(2 * Column(p) + 3 * Row(p))
  }

  /** Where the walk of section 3.2.2, step 3 is after `t` steps. */
  function Walk(t: nat): (p: nat)
    ensures 0 < p < 25
  {
    if t == 0 then 1 else Onward(Walk(t - 1))
  }

  function Rho(s: State): State {
    seq(25, p requires 0 <= p < 25 => Rotated(s[p], OFFSETS[p] % 64))
  }

  /** Section 3.2.3. */
  function Pi(s: State): State {
    seq(25, p requires 0 <= p < 25 => Lane(s, Five(Column(p) + 3 * Row(p)), Column(p)))
  }

  /** Section 3.2.4. */
  function Chi(s: State): State {
    seq(25, p requires 0 <= p < 25 =>
      Xor(s[p], ComplementAnd(Lane(s, Five(Column(p) + 1), Row(p)), Lane(s, Five(Column(p) + 2), Row(p)))))
  }

  /** The shift register of section 3.2.5, algorithm 5: bit i of the result is its R[i]. */
  function Shifted(r: bv8): bv8 {
    if r & 0x80 == 0 then r << 1 else (r << 1) ^ 0x71
  }

  function Register(t: nat): bv8 {
    if t == 0 then 1 else Shifted(Register(t - 1))
  }

  /** The register's low bit at seven times in a row, put at positions 2^j - 1. */
  function Gathered(r: bv8): bv64 {
    var r1 := Shifted(r);
    var r2 := Shifted(r1);
    var r3 := Shifted(r2);
    var r4 := Shifted(r3);
    var r5 := Shifted(r4);
    var r6 := Shifted(r5);
    (if r & 1 == 1 then 1 else 0)
    | (if r1 & 1 == 1 then 2 else 0)
    | (if r2 & 1 == 1 then 8 else 0)
    | (if r3 & 1 == 1 then 0x80 else 0)
    | (if r4 & 1 == 1 then 0x8000 else 0)
    | (if r5 & 1 == 1 then 0x8000_0000 else 0)
    | (if r6 & 1 == 1 then 0x8000_0000_0000_0000 else 0)
  }

  /** Section 3.2.5, algorithm 6, steps 2 and 3. */
  function RoundConstant(round: nat): bv64 {
    Gathered(Register(7 * round))
  }

  function Iota(s: State, round: nat): State {
    s[0 := Xor(s[0], RoundConstant(round))]
  }

  function Round(s: State, round: nat): State {
    Iota(Chi(Pi(Rho(Theta(s)))), round)
  }

  /** The first `rounds` rounds. */
  function Permuted(s: State, rounds: nat): State {
    if rounds == 0 then s else Round(Permuted(s, rounds - 1), rounds - 1)
  }
}
