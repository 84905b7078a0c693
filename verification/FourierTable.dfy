/** The program has one table of twiddle factors, for 256 elements, and starts every length at its
    first step. For which lengths is that the transform? */
module FourierTables {
  import opened BitReversals
  import opened FftStages
  import opened ComplexNumbers
  import opened FourierTransforms

  /** Every run of fft on 2^k elements gives the transform for the root `v`. */
  ghost predicate AlwaysTransforms(k: nat, meet: (Complex, Complex, nat) -> (Complex, Complex),
                                   last: (Complex, Complex, nat) -> (Complex, Complex), v: Complex)
  {
    forall x, steps, result :: Run(k, meet, last, x, steps, result) ==> IsTransform(k, v, x, result)
  }

  ghost predicate IsTransform(k: nat, v: Complex, x: seq<Complex>, result: seq<Complex>) {
    |result| == Pow2(k) && forall f :: 0 <= f < Pow2(k) ==> result[f] == Dft(x, v, f)
  }

  /** With the table for 256 elements, of the lengths up to 256 that use it, it is the transform
      for a root of unity of that length exactly when there are 256 elements and the root is that
      of the table. */
  lemma TableFitsOneLength(k: nat, meet: (Complex, Complex, nat) -> (Complex, Complex),
                           last: (Complex, Complex, nat) -> (Complex, Complex), table: nat -> Complex, w: Complex,
                           v: Complex)
    requires 2 <= k <= 8 && Meets(meet, table) && MeetsLast(last)
    requires Tabulates(table, w, 8) && Power(v, Pow2(k - 1)) == MINUS_ONE
    ensures AlwaysTransforms(k, meet, last, v) <==> k == 8 && v == w
  {
    hide Run, Meets, MeetsLast, Tabulates, Pow2, Power, IsTransform, Dft;
    if k == 8 && v == w {
      WholeTableTransforms(meet, last, table, w);
    }
    if AlwaysTransforms(k, meet, last, v) {
      var x := Impulse(k);
      var steps, result := SomeRun(k, meet, last, x);
      ImpulseTells(k, meet, last, table, w, v, x, steps, result);
      AtOne(k, meet, last, v, x, steps, result);
    }
  }

  lemma WholeTableTransforms(meet: (Complex, Complex, nat) -> (Complex, Complex),
                             last: (Complex, Complex, nat) -> (Complex, Complex), table: nat -> Complex, w: Complex)
    requires Meets(meet, table) && MeetsLast(last) && Tabulates(table, w, 8)
    ensures AlwaysTransforms(8, meet, last, w)
  {
    hide Dft, Pow2, Meets, Tabulates, MeetsLast, Stages, IsReordered;
    forall x, steps, result | Run(8, meet, last, x, steps, result)
      ensures IsTransform(8, w, x, result)
    {
      assert |result| == Pow2(8) by {
        FftIsDft(x, w, 8, steps, result, 0, meet, last, table);
      }
      forall f | 0 <= f < Pow2(8)
        ensures result[f] == Dft(x, w, f)
      {
        FftIsDft(x, w, 8, steps, result, f, meet, last, table);
      }
    }
  }

  lemma AtOne(k: nat, meet: (Complex, Complex, nat) -> (Complex, Complex),
              last: (Complex, Complex, nat) -> (Complex, Complex), 
              v: Complex, x: seq<Complex>, steps: seq<seq<Complex>>, result: seq<Complex>)
    requires AlwaysTransforms(k, meet, last, v) && Run(k, meet, last, x, steps, result) && k >= 1
    ensures |result| > 1 && result[1] == Dft(x, v, 1)
  {
    hide Run, Dft;
    assert IsTransform(k, v, x, result);
    assert 1 < Pow2(k);
  }

  /** One at position 1, and zero elsewhere. */
  function Impulse(k: nat): (x: seq<Complex>)
    ensures IsImpulse(k, x)
  {
    seq(Pow2(k), i => if i == 1 then ONE else ZERO)
  }

  predicate IsImpulse(k: nat, x: seq<Complex>) {
    |x| == Pow2(k) && forall i :: 0 <= i < |x| ==> x[i] == if i == 1 then ONE else ZERO
  }

  /** On the impulse, fft gives the transform at frequency 1 just when it does so everywhere on
      everything. */
  lemma ImpulseTells(k: nat, meet: (Complex, Complex, nat) -> (Complex, Complex),
                     last: (Complex, Complex, nat) -> (Complex, Complex), table: nat -> Complex, w: Complex, v: Complex,
                     x: seq<Complex>, steps: seq<seq<Complex>>, result: seq<Complex>)
    requires 2 <= k <= 8 && Meets(meet, table) && MeetsLast(last)
    requires Tabulates(table, w, 8) && Power(v, Pow2(k - 1)) == MINUS_ONE
    requires IsImpulse(k, x) && Run(k, meet, last, x, steps, result)
    ensures |result| > 1 && result[1] == table(1) == w && Dft(x, v, 1) == v
    ensures result[1] == Dft(x, v, 1) <==> k == 8 && v == w
  {
    hide Run, Meets, MeetsLast, Dft, IsImpulse, Mul, Reversed;
    ImpulseGoesThrough(k, meet, last, table, x, steps, result);
    ImpulseTransformed(k, v, x);
    MorePowers(1, 7);
    assert Pow2(1) == 2;
    MulOne(w);
    assert Power(w, 1) == Mul(Power(w, 0), w);
    if v == w && k < 8 {
      CycleDivides(v, k);
    }
  }

  /** fft run on four points, one at position 1 and zero elsewhere: element 1 becomes the table's
      256th root of unity, and the transform has a fourth root there. */
  method FourPoints(meet: (Complex, Complex, nat) -> (Complex, Complex),
                    last: (Complex, Complex, nat) -> (Complex, Complex), 
                    ghost table: nat -> Complex, ghost w: Complex, ghost v: Complex) returns (data: array<real>)
    requires Meets(meet, table) && MeetsLast(last)
    requires Tabulates(table, w, 8) && Power(v, 2) == MINUS_ONE
    ensures fresh(data) && data.Length == 8
    ensures (data[2], data[3]) == w != v == Dft([ZERO, ONE, ZERO, ZERO], v, 1)
  {
    data := new real[8];
    for i := 0 to 8
      invariant forall j :: 0 <= j < i ==> data[j] == if j == 2 then 1.0 else 0.0
    {
      data[i] := if i == 2 then 1.0 else 0.0;
    }
    assert Pow2(2) == 4 && Pow2(1) == 2;
    ghost var x := Elements(data[..]);
    assert x == [ZERO, ONE, ZERO, ZERO];
    hide *;
    ghost var steps := Fft(data, meet, last, 2);
    ImpulseTells(2, meet, last, table, w, v, x, steps, Elements(data[..]));
  }

  lemma CycleDivides(w: Complex, k: nat)
    requires 1 <= k < 8 && Power(w, Pow2(k - 1)) == MINUS_ONE
    ensures Power(w, Pow2(7)) == ONE
  {
    var n := Pow2(k);
    assert n == Pow2(k - 1) + Pow2(k - 1);
    PowerAdds(w, Pow2(k - 1), Pow2(k - 1));
    assert Mul(MINUS_ONE, MINUS_ONE) == ONE;
    hide Power, Mul;
    PowersMultiply(7 - k, k);
    PowerCycles(w, n, Pow2(7 - k));
  }

  // ---------------------------------------------------------------------------------------
  // There is a run on every input.

  lemma SomeRun(k: nat, meet: (Complex, Complex, nat) -> (Complex, Complex),
                last: (Complex, Complex, nat) -> (Complex, Complex), 
                x: seq<Complex>) returns (steps: seq<seq<Complex>>, result: seq<Complex>)
    requires |x| == Pow2(k)
    ensures Run(k, meet, last, x, steps, result)
  {
    steps := SomeStages(k, meet, last, x, k);
    AllReversed(k);
    var reached := steps[k];
    result := seq(Pow2(k), f requires 0 <= f < Pow2(k) => reached[Reversed(k, f)]);
  }

  lemma {:induction false} SomeStages(k: nat, meet: (Complex, Complex, nat) -> (Complex, Complex),
                                      last: (Complex, Complex, nat) -> (Complex, Complex), x: seq<Complex>, n: nat)
    returns (steps: seq<seq<Complex>>)
    requires |x| == Pow2(k) && n <= k
    ensures Stages(k, steps, meet, last, n) && steps[0] == x && |steps[n]| == Pow2(k)
  {
    if n == 0 {
      steps := [x];
    } else {
      var before := SomeStages(k, meet, last, x, n - 1);
      StageSizes(k, n - 1);
      var h, blocks := Pow2(k - 1 - (n - 1)), Pow2(n - 1);
      var m := if n - 1 == k - 1 then last else meet;
      StageStart(before[n - 1], h, blocks, blocks, m);
      var after := RestOfStage(before[n - 1], before[n - 1], h, blocks, blocks, m, 0, 0);
      steps := before + [after];
      hide StagePart;
    }
  }

  lemma {:induction false} RestOfStage(before: seq<Complex>, now: seq<Complex>, h: nat, blocks: nat, wstep: nat,
                                       meet: (Complex, Complex, nat) -> (Complex, Complex), r: nat, b: nat)
    returns (after: seq<Complex>)
    requires StagePart(before, now, h, blocks, wstep, meet, r, b) && r <= h && b <= blocks && (r == h ==> b == 0)
    ensures Stage(before, after, h, blocks, wstep, meet) && |after| == |before|
    decreases h - r, blocks - b
  {
    if r == h {
      after := now;
    } else if b == blocks {
      StageRow(before, now, h, blocks, wstep, meet, r);
      after := RestOfStage(before, now, h, blocks, wstep, meet, r + 1, 0);
    } else {
      FirstInRange(b, r, h, blocks);
      var p := First(b, r, h);
      var (top, bottom) := meet(now[p], now[p + h], r * wstep);
      StageStep(before, now, now[p := top][p + h := bottom], h, blocks, wstep, meet, r, b);
      after := RestOfStage(before, now[p := top][p + h := bottom], h, blocks, wstep, meet, r, b + 1);
    }
  }

  // ---------------------------------------------------------------------------------------
  // The transform of the impulse.

  lemma ImpulseTransformed(k: nat, v: Complex, x: seq<Complex>)
    requires k >= 1 && IsImpulse(k, x)
    ensures Dft(x, v, 1) == v
  {
    hide IsImpulse, Term, Add;
    ImpulseLength(k, x);
    var n := 0;
    while n < |x|
      invariant 0 <= n <= |x| && Sum(x, v, 1, 0, 1, n) == if n >= 2 then v else ZERO
    {
      ImpulseTerm(k, v, x, n);
      assert Sum(x, v, 1, 0, 1, n + 1) == Add(Sum(x, v, 1, 0, 1, n), Term(x, v, 1, 0 + n * 1));
      AddNothing(v);
      AddNothing(ZERO);
      n := n + 1;
    }
  }

  lemma AddNothing(v: Complex)
    ensures Add(ZERO, v) == v == Add(v, ZERO) && Sub(v, ZERO) == v
  {
  }

  lemma ImpulseTerm(k: nat, v: Complex, x: seq<Complex>, t: nat)
    requires IsImpulse(k, x) && t < |x|
    ensures Term(x, v, 1, t) == if t == 1 then v else ZERO
  {
    if t == 1 {
      assert Power(v, 1) == Mul(Power(v, 0), v);
      hide Mul;
      MulOne(v);
    } else {
      ZeroTimes(Power(v, 1 * t));
    }
  }

  // ---------------------------------------------------------------------------------------
  // The impulse followed through the stages.

  /** After stage s - 1 the impulse, times t, is element 1 of its block, and the rest of the block
      is zero. */
  ghost predicate Followed(k: nat, s: nat, now: seq<Complex>, t: Complex)
    requires 1 <= s <= k
  {
    && |now| == Pow2(k)
    && forall r :: 0 <= r < Pow2(k - s) ==> BlockHolds(k, s, now, r, t)
  }

  ghost predicate BlockHolds(k: nat, s: nat, now: seq<Complex>, r: nat, t: Complex)
    requires 1 <= s <= k
  {
    Place(Pow2(s - 1), r, Pow2(k - s)) < |now| && now[Place(Pow2(s - 1), r, Pow2(k - s))] == if r == 1 then t else ZERO
  }

  lemma ImpulseGoesThrough(k: nat, meet: (Complex, Complex, nat) -> (Complex, Complex),
                           last: (Complex, Complex, nat) -> (Complex, Complex), table: nat -> Complex,
                           x: seq<Complex>, steps: seq<seq<Complex>>, result: seq<Complex>)
    requires k >= 2 && Meets(meet, table) && MeetsLast(last)
    requires IsImpulse(k, x) && Run(k, meet, last, x, steps, result)
    ensures |result| > 1 && result[1] == table(1)
  {
    StillFollowed(k, k - 1, meet, last, table, x, steps, result);
    LastFollowed(k, steps[k - 1], steps[k], last, table(1));
    ReversedZero(k - 1);
    assert Reversed(k, 1) == Pow2(k - 1) && 1 < Pow2(k);
    assert result[1] == steps[k][Reversed(k, 1)];
  }

  lemma {:induction false} StillFollowed(k: nat, s: nat, meet: (Complex, Complex, nat) -> (Complex, Complex),
                                         last: (Complex, Complex, nat) -> (Complex, Complex), table: nat -> Complex,
                                         x: seq<Complex>, steps: seq<seq<Complex>>, result: seq<Complex>)
    requires 1 <= s < k && Meets(meet, table)
    requires IsImpulse(k, x) && Run(k, meet, last, x, steps, result)
    ensures |steps| == k + 1 && Followed(k, s, steps[s], table(1))
  {
    assert Stage(steps[s - 1], steps[s - 1 + 1], Pow2(k - 1 - (s - 1)), Pow2(s - 1), Pow2(s - 1), meet);
    if s == 1 {
      hide Run;
      HalvesOf(k);
      SameLength(x, steps[1], Pow2(k - 1), 1, 1, meet);
      IsFollowed(k, x, steps[1], meet, table);
    } else {
      StillFollowed(k, s - 1, meet, last, table, x, steps, result);
      hide Run;
      NextFollowed(k, s - 1, steps[s - 1], steps[s], meet, table, table(1));
    }
  }

  lemma HalvesOf(k: nat)
    requires k >= 2
    ensures Pow2(0) == 1 && Pow2(k - 1) >= 2 && Pow2(k) == 2 * Pow2(k - 1)
  {
  }

  lemma IsFollowed(k: nat, x: seq<Complex>, after: seq<Complex>, meet: (Complex, Complex, nat) -> (Complex, Complex),
                   table: nat -> Complex)
    requires k >= 2 && Meets(meet, table) && IsImpulse(k, x) && |after| == |x|
    requires Stage(x, after, Pow2(k - 1), 1, 1, meet)
    ensures Followed(k, 1, after, table(1))
  {
    hide Stage, Meets, IsImpulse, BlockHolds, Pow2;
    forall r | 0 <= r < Pow2(k - 1)
      ensures BlockHolds(k, 1, after, r, table(1))
    {
      FirstHolds(k, x, after, meet, table, r);
    }
    ImpulseLength(k, x);
  }

  lemma ImpulseLength(k: nat, x: seq<Complex>)
    requires IsImpulse(k, x)
    ensures |x| == Pow2(k) && (k >= 1 ==> |x| >= 2)
  {
  }

  lemma FirstHolds(k: nat, x: seq<Complex>, after: seq<Complex>, meet: (Complex, Complex, nat) -> (Complex, Complex),
                   table: nat -> Complex, r: nat)
    requires k >= 2 && Meets(meet, table) && IsImpulse(k, x) && r < Pow2(k - 1)
    requires Stage(x, after, Pow2(k - 1), 1, 1, meet)
    ensures BlockHolds(k, 1, after, r, table(1))
  {
    hide *;
    HalvesOf(k);
    var h := Pow2(k - 1);
    ImpulseAt(k, x, r, h);
    PairOf(x, after, h, 1, 1, meet, 0, r);
    FftStages.FirstStep(0, r, h);
    MeetTurned(meet, table, x[r], x[r + h], r);
    AddNothing(x[r]);
    MulOne(table(r));
    ZeroTimes(table(r));
    Placed(0, r, h);
    HoldsFirst(k, after, r, table(1));
  }

  lemma ImpulseAt(k: nat, x: seq<Complex>, r: nat, h: nat)
    requires IsImpulse(k, x) && r < h && h >= 2 && Pow2(k) == 2 * h
    ensures |x| == 2 * h && x[r] == (if r == 1 then ONE else ZERO) && x[r + h] == ZERO
  {
  }

  lemma HoldsFirst(k: nat, now: seq<Complex>, r: nat, t: Complex)
    requires k >= 1 && Place(1, r, Pow2(k - 1)) < |now|
    requires now[Place(1, r, Pow2(k - 1))] == if r == 1 then t else ZERO
    ensures BlockHolds(k, 1, now, r, t)
  {
    assert Pow2(0) == 1;
    hide Place;
  }

  lemma SameLength(before: seq<Complex>, after: seq<Complex>, h: nat, blocks: nat, wstep: nat,
                   meet: (Complex, Complex, nat) -> (Complex, Complex))
    requires Stage(before, after, h, blocks, wstep, meet)
    ensures |after| == |before|
  {
  }

  lemma MeetTurned(meet: (Complex, Complex, nat) -> (Complex, Complex), table: nat -> Complex, a: Complex, b: Complex,
                   t: nat)
    requires Meets(meet, table)
    ensures meet(a, b, t) == (Add(a, b), Mul(Sub(a, b), table(t)))
  {
  }

  lemma NextFollowed(k: nat, s: nat, now: seq<Complex>, after: seq<Complex>,
                     meet: (Complex, Complex, nat) -> (Complex, Complex), 
                     table: nat -> Complex, t: Complex)
    requires 1 <= s < k - 1 && Meets(meet, table) && Followed(k, s, now, t)
    requires Stage(now, after, Pow2(k - 1 - s), Pow2(s), Pow2(s), meet)
    ensures Followed(k, s + 1, after, t)
  {
    var h, b := Pow2(k - 1 - s), Pow2(s - 1);
    StageSizes(k, s);
    assert h >= 2 && Pow2(k - s) == 2 * h && Pow2(s) == 2 * b;
    var s1 := s + 1;
    hide Stage, Meets, Pow2;
    SameLength(now, after, h, Pow2(s), Pow2(s), meet);
    forall r | 0 <= r < Pow2(k - s1)
      ensures BlockHolds(k, s1, after, r, t)
    {
      assert BlockHolds(k, s, now, r, t) && BlockHolds(k, s, now, r + h, t);
      hide First, Place;
      NextPair(now, after, h, b, meet, table, r, t);
    }
  }

  lemma NextPair(now: seq<Complex>, after: seq<Complex>, h: nat, b: nat,
                 meet: (Complex, Complex, nat) -> (Complex, Complex), 
                 table: nat -> Complex, r: nat, t: Complex)
    requires Stage(now, after, h, 2 * b, 2 * b, meet) && Meets(meet, table) && r < h && h >= 2 && b > 0
    requires Place(b, r, 2 * h) < |now| && now[Place(b, r, 2 * h)] == if r == 1 then t else ZERO
    requires Place(b, r + h, 2 * h) < |now| && now[Place(b, r + h, 2 * h)] == ZERO
    ensures Place(2 * b, r, h) < |after| && after[Place(2 * b, r, h)] == if r == 1 then t else ZERO
  {
    hide *;
    PairOf(now, after, h, 2 * b, 2 * b, meet, b, r);
    Placed(b, r, h);
    MeetTurned(meet, table, now[First(b, r, h)], now[First(b, r, h) + h], r * (2 * b));
    AddNothing(t);
    AddNothing(ZERO);
  }

  lemma LastFollowed(k: nat, now: seq<Complex>, after: seq<Complex>,
                     last: (Complex, Complex, nat) -> (Complex, Complex), t: Complex)
    requires k >= 2 && MeetsLast(last) && Followed(k, k - 1, now, t)
    requires Stage(now, after, 1, Pow2(k - 1), Pow2(k - 1), last)
    ensures |after| == Pow2(k) && Pow2(k - 1) < Pow2(k) && after[Pow2(k - 1)] == t
  {
    var b := Pow2(k - 2);
    assert Pow2(1) == 2 && Pow2(k - 1) == 2 * b;
    PairOf(now, after, 1, Pow2(k - 1), Pow2(k - 1), last, b, 0);
    Placed(b, 0, 1);
    assert BlockHolds(k, k - 1, now, 0, t) && BlockHolds(k, k - 1, now, 1, t);
  }
}
