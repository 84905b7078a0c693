/** The butterfly stages of the FFT, in place, for any butterfly: which elements meet, with which
    twiddle factor, and that every access is in range. */
module FftStages {
  import opened BitReversals

  /** In a stage, blocks of 2h elements are halved. Pair (b, r) is element r of block b and the
      one h behind it. */
  function First(b: nat, r: nat, h: nat): nat {
    b * (2 * h) + r
  }

  lemma FirstStep(b: nat, r: nat, h: nat)
    ensures First(b + 1, r, h) == First(b, r, h) + 2 * h
    ensures First(0, r, h) == r
  {
  }

  lemma FirstInRange(b: nat, r: nat, h: nat, blocks: nat)
    requires r < h
    ensures b < blocks <==> First(b, r, h) < blocks * (2 * h)
    ensures b < blocks ==> First(b, r, h) + h < blocks * (2 * h)
  {
    if b < blocks {
      Times(b + 1, blocks, 2 * h);
    } else {
      Times(blocks, b, 2 * h);
    }
  }

  lemma Times(a: nat, b: nat, c: nat)
    requires a <= b
    ensures a * c <= b * c
  {
  }

  /** Every element is in exactly one pair. */
  lemma PairsApart(b: nat, r: nat, c: nat, s: nat, h: nat)
    requires r < h && s < h && (b, r) != (c, s)
    ensures First(b, r, h) != First(c, s, h) && First(b, r, h) != First(c, s, h) + h
    ensures First(b, r, h) + h != First(c, s, h)
  {
    if b < c {
      BlockApart(b, c, h);
    } else if c < b {
      BlockApart(c, b, h);
    }
  }

  lemma BlockApart(b: nat, c: nat, h: nat)
    requires b < c
    ensures b * (2 * h) + 2 * h <= c * (2 * h)
  {
    Times(b + 1, c, 2 * h);
  }

  lemma PairsCover(x: nat, h: nat, blocks: nat) returns (b: nat, r: nat)
    requires h > 0 && x < blocks * (2 * h)
    ensures b < blocks && r < h && (x == First(b, r, h) || x == First(b, r, h) + h)
  {
    b := x / (2 * h);
    var rest := x % (2 * h);
    assert x == b * (2 * h) + rest;
    if b >= blocks {
      Times(blocks, b, 2 * h);
    }
    r := if rest < h then rest else rest - h;
  }

  /** Pairs before (b0, r0), block by block within each r, have met; the others not yet. */
  ghost predicate StagePart<E(!new)>(before: seq<E>, now: seq<E>, h: nat, blocks: nat, wstep: nat, meet: (E, E,
                              nat) -> (E, E), r0: nat, b0: nat) {
    && |before| == |now| == blocks * (2 * h)
    && forall b, r :: 0 <= b < blocks && 0 <= r < h ==>
         var p := First(b, r, h);
         p + h < |now| &&
         (now[p], now[p + h]) ==
         if r < r0 || (r == r0 && b < b0) then meet(before[p], before[p + h], r * wstep) else (before[p], before[p + h])
  }

  ghost predicate Stage<E(!new)>(before: seq<E>, after: seq<E>, h: nat, blocks: nat, wstep: nat, meet: (E, E,
                          nat) -> (E, E)) {
    StagePart(before, after, h, blocks, wstep, meet, h, 0)
  }

  lemma StageStart<E(!new)>(before: seq<E>, h: nat, blocks: nat, wstep: nat, meet: (E, E, nat) -> (E, E))
    requires |before| == blocks * (2 * h)
    ensures StagePart(before, before, h, blocks, wstep, meet, 0, 0)
  {
    forall b, r | 0 <= b < blocks && 0 <= r < h
      ensures First(b, r, h) + h < |before|
    {
      FirstInRange(b, r, h, blocks);
    }
  }

  lemma StageStep<E(!new)>(before: seq<E>, now: seq<E>, after: seq<E>, h: nat, blocks: nat, wstep: nat, meet: (E, E,
                    nat) -> (E, E), r0: nat, b0: nat)
    requires StagePart(before, now, h, blocks, wstep, meet, r0, b0) && r0 < h && b0 < blocks
    requires var p := First(b0, r0, h);
             p + h < |now| &&
             var (top, bottom) := meet(now[p], now[p + h], r0 * wstep);
             after == now[p := top][p + h := bottom]
    ensures StagePart(before, after, h, blocks, wstep, meet, r0, b0 + 1)
  {
    var p0 := First(b0, r0, h);
    hide First;
    forall b, r | 0 <= b < blocks && 0 <= r < h
      ensures var p := First(b, r, h);
              p + h < |after| &&
              (after[p], after[p + h]) ==
              if r < r0 || (r == r0 && b < b0 + 1) then meet(before[p], before[p + h], r * wstep)
              else (before[p], before[p + h])
    {
      var p := First(b, r, h);
      assert p + h < |now| && (now[p], now[p + h]) ==
        if r < r0 || (r == r0 && b < b0) then meet(before[p], before[p + h], r * wstep) else (before[p], before[p + h]);
      if (b, r) != (b0, r0) {
        PairsApart(b, r, b0, r0, h);
      }
    }
  }

  lemma StageRow<E(!new)>(before: seq<E>, now: seq<E>, h: nat, blocks: nat, wstep: nat, meet: (E, E, nat) -> (E, E),
                   r0: nat)
    requires StagePart(before, now, h, blocks, wstep, meet, r0, blocks)
    ensures StagePart(before, now, h, blocks, wstep, meet, r0 + 1, 0)
  {
    hide First;
  }

  /** One butterfly: the two halves of each element are neighbours. */
  method Butterfly<T>(data: array<T>, i: nat, j: nat, tops: (T, T), bottoms: (T, T), ghost p: nat, ghost q: nat)
    requires i == 2 * p && j == 2 * q && p != q && i + 1 < data.Length && j + 1 < data.Length && data.Length % 2 == 0
    modifies data
    ensures Elements(data[..]) == Elements(old(data[..]))[p := tops][q := bottoms]
  {
    data[i], data[i + 1] := tops.0, tops.1;
    data[j], data[j + 1] := bottoms.0, bottoms.1;
  }

  /** The pairs (b, r) of one r, in all blocks. */
  method RunRow<T(!new)>(data: array<T>, max: nat, m: nat, twiddle: nat, meet: ((T, T), (T, T), nat) -> ((T, T),
                  (T, T)), 
                         ghost before: seq<(T, T)>, ghost h: nat, ghost blocks: nat, ghost wstep: nat, ghost r: nat)
    requires max == 2 * h && m == 2 * r && r < h && twiddle == r * wstep
    requires data.Length == 2 * (blocks * (2 * h))
    requires StagePart(before, Elements(data[..]), h, blocks, wstep, meet, r, 0)
    modifies data
    ensures StagePart(before, Elements(data[..]), h, blocks, wstep, meet, r + 1, 0)
  {
    hide *;
    ghost var b := 0;
    var len, step, i := data.Length, 2 * max, m;
    FirstStep(0, r, h);
    while i < len
      invariant i == 2 * First(b, r, h) && b <= blocks
      invariant StagePart(before, Elements(data[..]), h, blocks, wstep, meet, r, b)
      decreases len - i
    {
      FirstInRange(b, r, h, blocks);
      FirstStep(b, r, h);
      ghost var now, p := Elements(data[..]), First(b, r, h);
      var j := i + max;
      var (top, bottom) := meet((data[i], data[i + 1]), (data[j], data[j + 1]), twiddle);
      Butterfly(data, i, j, top, bottom, p, p + h);
      StageStep(before, now, Elements(data[..]), h, blocks, wstep, meet, r, b);
      i := i + step;
      b := b + 1;
    }
    FirstInRange(b, r, h, blocks);
    StageRow(before, Elements(data[..]), h, blocks, wstep, meet, r);
  }

  /** One stage: positions count the halves, so a pair is `max` apart and blocks are twice that. */
  method RunStage<T(!new)>(data: array<T>, max: nat, wstep: nat, meet: ((T, T), (T, T), nat) -> ((T, T), (T, T)),
                    ghost h: nat, ghost blocks: nat)
    requires max == 2 * h && h > 0 && data.Length == 2 * (blocks * (2 * h))
    modifies data
    ensures Stage(Elements(old(data[..])), Elements(data[..]), h, blocks, wstep, meet)
  {
    hide *;
    ghost var before, r := Elements(data[..]), 0;
    StageStart(before, h, blocks, wstep, meet);
    var m, twiddle := 0, 0;
    while m < max
      invariant m == 2 * r && r <= h && twiddle == r * wstep
      invariant StagePart(before, Elements(data[..]), h, blocks, wstep, meet, r, 0)
    {
      RunRow(data, max, m, twiddle, meet, before, h, blocks, wstep, r);
      m := m + 2;
      twiddle := twiddle + wstep;
      r := r + 1;
    }
    StageDone(before, Elements(data[..]), h, blocks, wstep, meet);
  }

  lemma StageDone<E(!new)>(before: seq<E>, now: seq<E>, h: nat, blocks: nat, wstep: nat, meet: (E, E, nat) -> (E, E))
    requires StagePart(before, now, h, blocks, wstep, meet, h, 0)
    ensures Stage(before, now, h, blocks, wstep, meet)
  {
  }

  lemma {:induction false} PowersMultiply(a: nat, b: nat)
    ensures Pow2(a) * Pow2(b) == Pow2(a + b)
  {
    if a > 0 {
      PowersMultiply(a - 1, b);
      assert Pow2(a) * Pow2(b) == 2 * (Pow2(a - 1) * Pow2(b));
    }
  }

  /** Which twiddle factor pair r uses in stage s. */
  function Twiddle(s: nat, r: nat): nat {
    r * Pow2(s)
  }

  /** The twiddle factors of all stages but the last are in a table of 128 exactly when there are
      at most 256 elements. */
  lemma TwiddlesInTable(k: nat)
    requires k >= 2
    ensures Pow2(k) <= 256 <==>
            forall s, r :: 0 <= s < k - 1 && 0 <= r < Pow2(k - 1 - s) ==> Twiddle(s, r) < 128
  {
    hide Twiddle;
    forall s, r | 0 <= s < k - 1 && 0 <= r < Pow2(k - 1 - s)
      ensures Twiddle(s, r) < Pow2(k - 1)
    {
      TwiddleBound(k, s, r);
    }
    LargestTwiddle(k);
  }

  /** Concretely: 512 elements ask for factor 255 of the 128. */
  lemma TwiddleOutside()
    ensures Pow2(9) == 512 && 255 < Pow2(9 - 1 - 0) && Twiddle(0, 255) == 255
  {
    MorePowers(8, 9);
  }

  lemma TwiddleBound(k: nat, s: nat, r: nat)
    requires s < k && r < Pow2(k - 1 - s)
    ensures Twiddle(s, r) < Pow2(k - 1)
  {
    PowersMultiply(k - 1 - s, s);
    Times(r + 1, Pow2(k - 1 - s), Pow2(s));
  }

  /** The first stage uses the largest one. */
  lemma LargestTwiddle(k: nat)
    requires k >= 2
    ensures Pow2(k) == 2 * Pow2(k - 1)
    ensures var r := Pow2(k - 1) - 1; 0 <= r < Pow2(k - 1 - 0) && Twiddle(0, r) == Pow2(k - 1) - 1
    ensures Pow2(k) <= 256 || Pow2(k - 1) >= 256
  {
    if k > 8 {
      MorePowers(9, k);
    } else {
      MorePowers(k, 8);
    }
  }

  lemma {:induction false} MorePowers(a: nat, b: nat)
    requires a <= b
    ensures Pow2(a) <= Pow2(b)
    ensures Pow2(8) == 256 && Pow2(9) == 512
  {
    assert Pow2(4) == 16;
    assert Pow2(8) == 256;
    if a < b {
      MorePowers(a, b - 1);
    }
  }

  /** What the stages make of 2^k elements: stage s halves 2^s blocks, with every 2^s-th twiddle
      factor, but the last has none. */
  ghost predicate Stages<E(!new)>(k: nat, steps: seq<seq<E>>, meet: (E, E, nat) -> (E, E), last: (E, E, nat) -> (E, E),
                           n: nat)
    requires n <= k
  {
    && |steps| == n + 1
    && forall s :: 0 <= s < n ==>
         Stage(steps[s], steps[s + 1], Pow2(k - 1 - s), Pow2(s), Pow2(s), if s == k - 1 then last else meet)
  }

  /** fft: the stages, and then the reordering. At least two elements: with one, the last stage
      would reach behind the array. */
  method Fft<T(!new)>(data: array<T>, meet: ((T, T), (T, T), nat) -> ((T, T), (T, T)), last: ((T, T), (T, T),
               nat) -> ((T, T), (T, T)), ghost k: nat)
    returns (ghost steps: seq<seq<(T, T)>>)
    requires k >= 1 && data.Length == 2 * Pow2(k)
    modifies data
    ensures Stages(k, steps, meet, last, k) && steps[0] == Elements(old(data[..]))
    ensures IsReordered(k, steps[k], Elements(data[..]))
  {
    hide Stage, IsReordered;
    var max, wstep := data.Length / 2, 1;
    steps := [Elements(data[..])];
    ghost var s := 0;
    while max > 2
      invariant 0 <= s < k && max == Pow2(k - s) && wstep == Pow2(s)
      invariant Stages(k, steps, meet, last, s) && steps[0] == Elements(old(data[..])) && steps[s] == Elements(data[..])
      decreases max
    {
      StageSizes(k, s);
      RunStage(data, max, wstep, meet, Pow2(k - 1 - s), Pow2(s));
      steps := steps + [Elements(data[..])];
      max := max / 2;
      wstep := 2 * wstep;
      s := s + 1;
    }
    StageSizes(k, s);
    RunStage(data, max, wstep, last, Pow2(k - 1 - s), Pow2(s));
    steps := steps + [Elements(data[..])];
    Reorder(data, k);
  }

  lemma StageSizes(k: nat, s: nat)
    requires s < k
    ensures Pow2(k - s) == 2 * Pow2(k - 1 - s) && Pow2(s + 1) == 2 * Pow2(s)
    ensures Pow2(s) * (2 * Pow2(k - 1 - s)) == Pow2(k)
    ensures Pow2(k - s) > 2 <==> s < k - 1
  {
    PowersMultiply(s, k - s);
    if s < k - 1 {
      assert Pow2(k - s) == 4 * Pow2(k - 2 - s);
    }
  }
}
