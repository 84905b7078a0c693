/** With exact arithmetic and a table of the powers of a root of unity, fft computes the discrete
    Fourier transform. */
module FourierTransforms {
  import opened BitReversals
  import opened FftStages
  import opened ComplexNumbers

  function ValueAt(x: seq<Complex>, t: nat): Complex {
    if t < |x| then x[t] else ZERO
  }

  /** x[t] w^(e t) */
  function Term(x: seq<Complex>, w: Complex, e: nat, t: nat): Complex {
    Mul(ValueAt(x, t), Power(w, e * t))
  }

  /** The terms for t = r, r + m, and so on, n of them. */
  function Sum(x: seq<Complex>, w: Complex, e: nat, r: nat, m: nat, n: nat): Complex {
    if n == 0 then ZERO else Add(Sum(x, w, e, r, m, n - 1), Term(x, w, e, r + (n - 1) * m))
  }

  /** Element f of the discrete Fourier transform. */
  function Dft(x: seq<Complex>, w: Complex, f: nat): Complex {
    Sum(x, w, f, 0, 1, |x|)
  }

  // ---------------------------------------------------------------------------------------
  // The butterfly on sums.

  /** Every second term from r on, and those in between. */
  lemma {:induction false} SumsMerge(x: seq<Complex>, w: Complex, e: nat, r: nat, h: nat, n: nat)
    ensures Add(Sum(x, w, e, r, 2 * h, n), Sum(x, w, e, r + h, 2 * h, n)) == Sum(x, w, e, r, h, 2 * n)
  {
    hide Term, Add;
    if n == 0 {
      NothingAdded();
    } else {
      SumsMerge(x, w, e, r, h, n - 1);
      Strides(r, h, n);
      AddExchanges(Sum(x, w, e, r, 2 * h, n - 1), Term(x, w, e, r + (n - 1) * (2 * h)),
                   Sum(x, w, e, r + h, 2 * h, n - 1), Term(x, w, e, r + h + (n - 1) * (2 * h)));
      LastTwo(x, w, e, r, h, n);
    }
  }

  lemma NothingAdded()
    ensures Add(ZERO, ZERO) == ZERO && Sub(ZERO, ZERO) == ZERO
  {
  }

  lemma Strides(r: nat, h: nat, n: nat)
    requires n > 0
    ensures r + (n - 1) * (2 * h) == r + (2 * n - 2) * h
    ensures r + h + (n - 1) * (2 * h) == r + (2 * n - 1) * h
  {
    assert (2 * n - 2) * h == (n - 1) * (2 * h);
    assert (2 * n - 1) * h == (2 * n - 2) * h + h;
  }

  lemma LastTwo(x: seq<Complex>, w: Complex, e: nat, r: nat, h: nat, n: nat)
    requires n > 0
    ensures Sum(x, w, e, r, h, 2 * n) ==
            Add(Add(Sum(x, w, e, r, h, 2 * (n - 1)), Term(x, w, e, r + (2 * n - 2) * h)),
                Term(x, w, e, r + (2 * n - 1) * h))
  {
    hide Term, Add;
    assert Sum(x, w, e, r, h, 2 * n) == Add(Sum(x, w, e, r, h, 2 * n - 1), Term(x, w, e, r + (2 * n - 1) * h));
  }

  /** The root: w^(2 q h) is one and w^(q h) minus one. */
  ghost predicate Root(w: Complex, q: nat, h: nat) {
    Power(w, q * h) == MINUS_ONE
  }

  /** Multiplying by w^(q r) turns terms of e into terms of e + q, every second one with its sign
      changed. */
  lemma TermTwists(x: seq<Complex>, w: Complex, e: nat, q: nat, r: nat, h: nat, u: nat)
    requires Root(w, q, h)
    ensures Mul(Term(x, w, e, r + u * (2 * h)), Power(w, q * r)) == Term(x, w, e + q, r + u * (2 * h))
    ensures Mul(Term(x, w, e, r + h + u * (2 * h)), Power(w, q * r))
            == Sub(ZERO, Term(x, w, e + q, r + h + u * (2 * h)))
  {
    hide *;
    EvenPower(w, q, r, h, u);
    OddPower(w, q, r, h, u);
    EvenTerm(x, w, e, q, r, r + u * (2 * h));
    OddTerm(x, w, e, q, r, r + h + u * (2 * h));
  }

  lemma EvenTerm(x: seq<Complex>, w: Complex, e: nat, q: nat, r: nat, t: nat)
    requires Power(w, q * t) == Power(w, q * r)
    ensures Mul(Term(x, w, e, t), Power(w, q * r)) == Term(x, w, e + q, t)
  {
    hide *;
    TermTimes(x, w, e, q, t);
  }

  lemma OddTerm(x: seq<Complex>, w: Complex, e: nat, q: nat, r: nat, t: nat)
    requires Power(w, q * r) == Mul(Power(w, q * t), MINUS_ONE)
    ensures Mul(Term(x, w, e, t), Power(w, q * r)) == Sub(ZERO, Term(x, w, e + q, t))
  {
    hide *;
    TermTimes(x, w, e, q, t);
    Negates(Term(x, w, e, t), Power(w, q * t), Power(w, q * r));
  }

  lemma TermTimes(x: seq<Complex>, w: Complex, e: nat, q: nat, t: nat)
    ensures Mul(Term(x, w, e, t), Power(w, q * t)) == Term(x, w, e + q, t)
  {
    hide Mul, Power;
    assert (e + q) * t == e * t + q * t;
    PowerAdds(w, e * t, q * t);
    MulAssociates(ValueAt(x, t), Power(w, e * t), Power(w, q * t));
  }

  lemma Negates(v: Complex, p: Complex, s: Complex)
    requires s == Mul(p, MINUS_ONE)
    ensures Mul(v, s) == Sub(ZERO, Mul(v, p))
  {
    hide Mul, Sub;
    MulAssociates(v, p, MINUS_ONE);
    MulOne(Mul(v, p));
  }

  lemma FullTurn(w: Complex, q: nat, h: nat, u: nat)
    requires Root(w, q, h)
    ensures Power(w, q * (u * (2 * h))) == ONE
  {
    assert Power(w, q * (2 * h)) == ONE by {
      assert q * (2 * h) == q * h + q * h;
      PowerAdds(w, q * h, q * h);
      assert Mul(MINUS_ONE, MINUS_ONE) == ONE;
    }
    PowerCycles(w, q * (2 * h), u);
    assert q * (u * (2 * h)) == u * (q * (2 * h)) by {
      Exchange(q, u, 2 * h);
    }
  }

  lemma Exchange(a: nat, b: nat, c: nat)
    ensures a * (b * c) == b * (a * c)
  {
    assert a * (b * c) == (a * b) * c;
    assert b * (a * c) == (b * a) * c;
  }

  lemma EvenPower(w: Complex, q: nat, r: nat, h: nat, u: nat)
    requires Root(w, q, h)
    ensures Power(w, q * (r + u * (2 * h))) == Power(w, q * r)
  {
    FullTurn(w, q, h, u);
    hide Power, Mul;
    var full := u * (2 * h);
    assert q * (r + full) == q * r + q * full;
    PowerAdds(w, q * r, q * full);
    MulOne(Power(w, q * r));
  }

  lemma OddPower(w: Complex, q: nat, r: nat, h: nat, u: nat)
    requires Root(w, q, h)
    ensures Power(w, q * r) == Mul(Power(w, q * (r + h + u * (2 * h))), MINUS_ONE)
  {
    EvenPower(w, q, r, h, u);
    var t := r + u * (2 * h);
    assert Power(w, q * h) == MINUS_ONE;
    assert q * (r + h + u * (2 * h)) == q * t + q * h by {
      assert q * (t + h) == q * t + q * h;
    }
    PowerAdds(w, q * t, q * h);
    assert Mul(MINUS_ONE, MINUS_ONE) == ONE;
    hide Power, Mul;
    MulAssociates(Power(w, q * t), MINUS_ONE, MINUS_ONE);
    MulOne(Power(w, q * t));
  }

  /** The difference of the two sums, turned by w^(q r). */
  lemma {:induction false} SumsTwist(x: seq<Complex>, w: Complex, e: nat, q: nat, r: nat, h: nat, n: nat)
    requires Root(w, q, h)
    ensures Mul(Sub(Sum(x, w, e, r, 2 * h, n), Sum(x, w, e, r + h, 2 * h, n)), Power(w, q * r))
            == Sum(x, w, e + q, r, h, 2 * n)
  {
    hide Term, Add, Sub, Mul, Power, Root;
    if n == 0 {
      NothingAdded();
      ZeroTimes(Power(w, q * r));
    } else {
      SumsTwist(x, w, e, q, r, h, n - 1);
      TermTwists(x, w, e, q, r, h, n - 1);
      Strides(r, h, n);
      var s, t := Sum(x, w, e, r, 2 * h, n - 1), Sum(x, w, e, r + h, 2 * h, n - 1);
      var a, b := Term(x, w, e, r + (n - 1) * (2 * h)), Term(x, w, e, r + h + (n - 1) * (2 * h));
      AddExchanges(s, a, t, b);
      MulAdds(Sub(s, t), Sub(a, b), Power(w, q * r));
      MulAdds(a, b, Power(w, q * r));
      LastTwo(x, w, e + q, r, h, n);
      TwoMore(Sum(x, w, e + q, r, h, 2 * (n - 1)), Term(x, w, e + q, r + (2 * n - 2) * h),
              Term(x, w, e + q, r + (2 * n - 1) * h));
    }
  }

  lemma ZeroTimes(p: Complex)
    ensures Mul(ZERO, p) == ZERO
  {
  }

  lemma TwoMore(s: Complex, a: Complex, b: Complex)
    ensures Add(s, Sub(a, Sub(ZERO, b))) == Add(Add(s, a), b)
  {
  }

  // ---------------------------------------------------------------------------------------
  // The stages.

  /** The exact butterfly with twiddle factors from a table. */
  ghost predicate Meets(meet: (Complex, Complex, nat) -> (Complex, Complex), table: nat -> Complex) {
    forall a, b, t :: meet(a, b, t) == (Add(a, b), Mul(Sub(a, b), table(t)))
  }

  /** The exact last butterfly. */
  ghost predicate MeetsLast(last: (Complex, Complex, nat) -> (Complex, Complex)) {
    forall a, b, t :: last(a, b, t) == (Add(a, b), Sub(a, b))
  }

  /** The table holds the powers of a root of unity: w^(n/2) is minus one. */
  ghost predicate Tabulates(table: nat -> Complex, w: Complex, k: nat)
    requires k >= 1
  {
    && Power(w, Pow2(k - 1)) == MINUS_ONE
    && forall t :: 0 <= t < Pow2(k - 1) ==> table(t) == Power(w, t)
  }

  /** After s stages: element r of block b is the sum of every m-th term from r on, the exponent
      being the reversal of b. */
  ghost predicate ElementIs(x: seq<Complex>, w: Complex, k: nat, s: nat, now: seq<Complex>, b: nat, r: nat)
    requires s <= k
  {
    Place(b, r, Pow2(k - s)) < |now| &&
    now[Place(b, r, Pow2(k - s))] == Sum(x, w, Reversed(s, b), r, Pow2(k - s), Pow2(s))
  }

  ghost predicate Transformed(x: seq<Complex>, w: Complex, k: nat, s: nat, now: seq<Complex>)
    requires s <= k
  {
    && |now| == Pow2(k)
    && forall b, r :: 0 <= b < Pow2(s) && 0 <= r < Pow2(k - s) ==> ElementIs(x, w, k, s, now, b, r)
  }

  function Place(b: nat, r: nat, m: nat): nat {
    b * m + r
  }

  lemma Placed(b: nat, r: nat, h: nat)
    ensures First(b, r, h) == Place(b, r, 2 * h) == Place(2 * b, r, h)
    ensures First(b, r, h) + h == Place(b, r + h, 2 * h) == Place(2 * b + 1, r, h)
  {
    assert (2 * b) * h == b * (2 * h);
    assert (2 * b + 1) * h == (2 * b) * h + h;
  }

  /** The low bit of a block number becomes the top bit of its exponent. */
  lemma ReversedBits(s: nat, b: nat)
    ensures Reversed(s + 1, 2 * b) == Reversed(s, b)
    ensures Reversed(s + 1, 2 * b + 1) == Reversed(s, b) + Pow2(s)
  {
  }

  lemma StartTransformed(x: seq<Complex>, w: Complex, k: nat)
    requires |x| == Pow2(k)
    ensures Transformed(x, w, k, 0, x)
  {
    forall b, r | 0 <= b < Pow2(0) && 0 <= r < Pow2(k - 0)
      ensures ElementIs(x, w, k, 0, x, b, r)
    {
      assert Place(b, r, Pow2(k)) == r;
      FirstSum(x, w, r, Pow2(k));
    }
  }

  lemma FirstSum(x: seq<Complex>, w: Complex, r: nat, m: nat)
    requires r < |x|
    ensures Sum(x, w, 0, r, m, 1) == x[r]
  {
    assert Sum(x, w, 0, r, m, 1) == Add(ZERO, Term(x, w, 0, r));
    MulOne(x[r]);
  }

  /** One pair of one stage. */
  lemma PairTransformed(x: seq<Complex>, w: Complex, e: nat, q: nat, r: nat, h: nat, n: nat, a: Complex, b: Complex)
    requires Root(w, q, h)
    requires a == Sum(x, w, e, r, 2 * h, n) && b == Sum(x, w, e, r + h, 2 * h, n)
    ensures Add(a, b) == Sum(x, w, e, r, h, 2 * n)
    ensures Mul(Sub(a, b), Power(w, q * r)) == Sum(x, w, e + q, r, h, 2 * n)
  {
    SumsMerge(x, w, e, r, h, n);
    SumsTwist(x, w, e, q, r, h, n);
    hide *;
  }

  lemma RootOfStage(w: Complex, k: nat, s: nat)
    requires s < k && Power(w, Pow2(k - 1)) == MINUS_ONE
    ensures Root(w, Pow2(s), Pow2(k - 1 - s))
  {
    PowersMultiply(s, k - 1 - s);
  }

  /** The two elements that a pair of a stage becomes. */
  lemma PairOf(before: seq<Complex>, after: seq<Complex>, h: nat, blocks: nat, wstep: nat,
               meet: (Complex, Complex, nat) -> (Complex, Complex), b: nat, r: nat)
    requires Stage(before, after, h, blocks, wstep, meet) && b < blocks && r < h
    ensures First(b, r, h) + h < |before| == |after|
    ensures (after[First(b, r, h)], after[First(b, r, h) + h]) ==
            meet(before[First(b, r, h)], before[First(b, r, h) + h], r * wstep)
  {
    hide First;
    FirstInRange(b, r, h, blocks);
  }

  lemma PairOfStage(x: seq<Complex>, w: Complex, k: nat, s: nat, now: seq<Complex>, after: seq<Complex>,
                    meet: (Complex, Complex, nat) -> (Complex, Complex), table: nat -> Complex, b: nat, r: nat)
    requires s < k && Transformed(x, w, k, s, now) && b < Pow2(s) && r < Pow2(k - 1 - s)
    requires Meets(meet, table) && Tabulates(table, w, k)
    requires Stage(now, after, Pow2(k - 1 - s), Pow2(s), Pow2(s), meet)
    ensures ElementIs(x, w, k, s + 1, after, 2 * b, r) && ElementIs(x, w, k, s + 1, after, 2 * b + 1, r)
  {
    hide *;
    var h := Pow2(k - 1 - s);
    var p := First(b, r, h);
    StageSizes(k, s);
    TwiddleBound(k, s, r);
    TwiddleIs(s, r);
    OneRoot(table, w, k, s);
    ElementGives(x, w, k, s, now, b, r);
    ElementGives(x, w, k, s, now, b, r + h);
    PairOf(now, after, h, Pow2(s), Pow2(s), meet, b, r);
    Placed(b, r, h);
    MeetGives(meet, table, w, k, now[p], now[p + h], r * Pow2(s));
    PairTransformed(x, w, Reversed(s, b), Pow2(s), r, h, Pow2(s), now[p], now[p + h]);
    ReversedBits(s, b);
    ElementMade(x, w, k, s + 1, after, 2 * b, r);
    ElementMade(x, w, k, s + 1, after, 2 * b + 1, r);
  }

  lemma OneRoot(table: nat -> Complex, w: Complex, k: nat, s: nat)
    requires s < k && Tabulates(table, w, k)
    ensures Root(w, Pow2(s), Pow2(k - 1 - s))
  {
    RootOfStage(w, k, s);
  }

  lemma ElementGives(x: seq<Complex>, w: Complex, k: nat, s: nat, now: seq<Complex>, b: nat, r: nat)
    requires s <= k && Transformed(x, w, k, s, now) && b < Pow2(s) && r < Pow2(k - s)
    ensures Place(b, r, Pow2(k - s)) < |now|
    ensures now[Place(b, r, Pow2(k - s))] == Sum(x, w, Reversed(s, b), r, Pow2(k - s), Pow2(s))
  {
    assert ElementIs(x, w, k, s, now, b, r);
  }

  lemma ElementMade(x: seq<Complex>, w: Complex, k: nat, s: nat, now: seq<Complex>, b: nat, r: nat)
    requires s <= k && Place(b, r, Pow2(k - s)) < |now|
    requires now[Place(b, r, Pow2(k - s))] == Sum(x, w, Reversed(s, b), r, Pow2(k - s), Pow2(s))
    ensures ElementIs(x, w, k, s, now, b, r)
  {
  }

  lemma MeetGives(meet: (Complex, Complex, nat) -> (Complex, Complex), table: nat -> Complex, w: Complex, k: nat,
                  a: Complex, b: Complex, t: nat)
    requires k >= 1 && Meets(meet, table) && Tabulates(table, w, k) && t < Pow2(k - 1)
    ensures meet(a, b, t) == (Add(a, b), Mul(Sub(a, b), Power(w, t)))
  {
  }

  lemma TwiddleIs(s: nat, r: nat)
    ensures Twiddle(s, r) == r * Pow2(s)
  {
  }

  lemma StageTransformed(x: seq<Complex>, w: Complex, k: nat, s: nat, now: seq<Complex>, after: seq<Complex>,
                         meet: (Complex, Complex, nat) -> (Complex, Complex), table: nat -> Complex)
    requires s < k && Transformed(x, w, k, s, now)
    requires Meets(meet, table) && Tabulates(table, w, k)
    requires Stage(now, after, Pow2(k - 1 - s), Pow2(s), Pow2(s), meet)
    ensures Transformed(x, w, k, s + 1, after)
  {
    StageSizes(k, s);
    assert |after| == |now|;
    hide Stage, ElementIs, Meets, Tabulates;
    var s1 := s + 1;
    forall c, r | 0 <= c < Pow2(s1) && 0 <= r < Pow2(k - s1)
      ensures ElementIs(x, w, k, s1, after, c, r)
    {
      PairOfStage(x, w, k, s, now, after, meet, table, c / 2, r);
      assert c == 2 * (c / 2) || c == 2 * (c / 2) + 1;
    }
  }

  /** The last stage has no twiddle factor: it would be one. */
  lemma LastMeets(now: seq<Complex>, after: seq<Complex>, k: nat, meet: (Complex, Complex, nat) -> (Complex, Complex),
                  last: (Complex, Complex, nat) -> (Complex, Complex), table: nat -> Complex, w: Complex)
    requires k >= 1 && Meets(meet, table) && Tabulates(table, w, k)
    requires MeetsLast(last)
    requires Stage(now, after, 1, Pow2(k - 1), Pow2(k - 1), last)
    ensures Stage(now, after, 1, Pow2(k - 1), Pow2(k - 1), meet)
  {
    assert table(0) == Power(w, 0) == ONE;
    hide First, Pow2, Power, Add, Sub, Mul;
    forall a: Complex, b: Complex
      ensures meet(a, b, 0) == last(a, b, 0)
    {
      MulOne(Sub(a, b));
    }
    forall b, r | 0 <= b < Pow2(k - 1) && 0 <= r < 1
      ensures var p := First(b, r, 1);
              p + 1 < |after| && (after[p], after[p + 1]) == meet(now[p], now[p + 1], r * Pow2(k - 1))
    {
      PairOf(now, after, 1, Pow2(k - 1), Pow2(k - 1), last, b, r);
    }
  }

  lemma {:induction false} AllTransformed(x: seq<Complex>, w: Complex, k: nat, steps: seq<seq<Complex>>, s: nat,
                                          meet: (Complex, Complex, nat) -> (Complex, Complex),
                                          last: (Complex, Complex, nat) -> (Complex, Complex), table: nat -> Complex)
    requires k >= 1 && s <= k && Stages(k, steps, meet, last, k) && steps[0] == x && |x| == Pow2(k)
    requires Meets(meet, table) && Tabulates(table, w, k)
    requires MeetsLast(last)
    ensures Transformed(x, w, k, s, steps[s])
  {
    if s == 0 {
      StartTransformed(x, w, k);
    } else {
      AllTransformed(x, w, k, steps, s - 1, meet, last, table);
      var h := Pow2(k - 1 - (s - 1));
      assert Stage(steps[s - 1], steps[s - 1 + 1], h, Pow2(s - 1), Pow2(s - 1), if s - 1 == k - 1 then last else meet);
      hide Stage, Transformed, Meets, Tabulates, Add, Sub, Stages;
      if s == k {
        assert h == 1;
        LastMeets(steps[s - 1], steps[s], k, meet, last, table, w);
      }
      StageTransformed(x, w, k, s - 1, steps[s - 1], steps[s], meet, table);
    }
  }

  /** One run of fft on `x`: the stages and the reordering. */
  ghost predicate Run(k: nat, meet: (Complex, Complex, nat) -> (Complex, Complex),
                      last: (Complex, Complex, nat) -> (Complex, Complex), 
                      x: seq<Complex>, steps: seq<seq<Complex>>, result: seq<Complex>)
  {
    Stages(k, steps, meet, last, k) && steps[0] == x && |x| == Pow2(k) && IsReordered(k, steps[k], result)
  }

  /** What fft leaves in the array is the transform, in its natural order. */
  lemma FftIsDft(x: seq<Complex>, w: Complex, k: nat, steps: seq<seq<Complex>>, result: seq<Complex>, f: nat,
                 meet: (Complex, Complex, nat) -> (Complex, Complex),
                 last: (Complex, Complex, nat) -> (Complex, Complex),
                 table: nat -> Complex)
    requires k >= 1 && Run(k, meet, last, x, steps, result)
    requires Meets(meet, table) && Tabulates(table, w, k) && MeetsLast(last) && f < Pow2(k)
    ensures |result| == Pow2(k) && result[f] == Dft(x, w, f)
  {
    AllTransformed(x, w, k, steps, k, meet, last, table);
    ReversedBound(k, f);
    ReversedTwice(k, f);
    var b := Reversed(k, f);
    assert Pow2(k - k) == 1;
    ElementGives(x, w, k, k, steps[k], b, 0);
    assert Place(b, 0, 1) == b;
    hide Sum, Stages, Transformed, Meets, Tabulates, Reversed;
    assert result[f] == steps[k][b];
  }
}
