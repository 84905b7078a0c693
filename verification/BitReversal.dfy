/** The index arithmetic of the FFT: the in-place bit-reversal reorder, and the stage indices. */
module BitReversals {
  function Pow2(k: nat): (n: nat)
    ensures n > 0
  {
    if k == 0 then 1 else 2 * Pow2(k - 1)
  }

  /** The `k` low bits of `p` in the opposite order. */
  function Reversed(k: nat, p: nat): nat {
    if k == 0 then 0 else (if p % 2 == 1 then Pow2(k - 1) else 0) + Reversed(k - 1, p / 2)
  }

  lemma {:induction false} ReversedBound(k: nat, p: nat)
    ensures Reversed(k, p) < Pow2(k)
  {
    if k > 0 {
      ReversedBound(k - 1, p / 2);
    }
  }

  /** The top bit becomes the low bit of the reversal. */
  lemma {:induction false} ReversedTop(k: nat, top: bool, r: nat)
    requires r < Pow2(k)
    ensures Reversed(k + 1, (if top then Pow2(k) else 0) + r) == (if top then 1 else 0) + 2 * Reversed(k, r)
  {
    if k > 0 {
      var p := (if top then Pow2(k) else 0) + r;
      assert p % 2 == r % 2 && p / 2 == (if top then Pow2(k - 1) else 0) + r / 2;
      ReversedTop(k - 1, top, r / 2);
    }
  }

  /** Reversing twice gives the number back. */
  lemma {:induction false} ReversedTwice(k: nat, p: nat)
    requires p < Pow2(k)
    ensures Reversed(k, Reversed(k, p)) == p
  {
    if k > 0 {
      var half, odd := Reversed(k - 1, p / 2), p % 2 == 1;
      ReversedTwice(k - 1, p / 2);
      ReversedBound(k - 1, p / 2);
      ReversedTop(k - 1, odd, half);
      assert Reversed(k, p) == (if odd then Pow2(k - 1) else 0) + half;
      hide Reversed, Pow2;
      assert p == 2 * (p / 2) + if odd then 1 else 0;
    }
  }

  /** Adding one from the top: bits that are set are cleared, up to the first that is not. */
  function TopIncrement(m: nat, q: nat): nat
    decreases m
  {
    if m >= 1 && q >= m then TopIncrement(m / 2, q - m) else q + m
  }

  /** Counting from the top runs through the reversals in order. */
  lemma {:induction false} TopIncrementReverses(k: nat, p: nat)
    requires k > 0 && p + 1 < Pow2(k)
    ensures TopIncrement(Pow2(k - 1), Reversed(k, p)) == Reversed(k, p + 1)
  {
    ReversedBound(k - 1, p / 2);
    if p % 2 == 1 {
      assert (p + 1) / 2 == p / 2 + 1 && (p + 1) % 2 == 0;
      assert k > 1;
      TopIncrementReverses(k - 1, p / 2);
    } else {
      assert (p + 1) / 2 == p / 2 && (p + 1) % 2 == 1;
    }
  }

  /** Every number of `k` bits has its reversal among them, and is the reversal of it. */
  lemma AllReversed(k: nat)
    ensures forall p :: 0 <= p < Pow2(k) ==> Reversed(k, p) < Pow2(k) && Reversed(k, Reversed(k, p)) == p
  {
    forall p | 0 <= p < Pow2(k)
      ensures Reversed(k, p) < Pow2(k) && Reversed(k, Reversed(k, p)) == p
    {
      ReversedBound(k, p);
      ReversedTwice(k, p);
    }
  }

  lemma {:induction false} ReversedZero(k: nat)
    ensures Reversed(k, 0) == 0
  {
    if k > 0 {
      ReversedZero(k - 1);
    }
  }

  /** The complex elements of `data`, each two consecutive entries. */
  function Elements<T>(data: seq<T>): (es: seq<(T, T)>)
    ensures |es| == |data| / 2
    ensures forall x :: 0 <= x < |es| ==> es[x] == (data[2 * x], data[2 * x + 1])
  {
    seq(|data| / 2, x requires 0 <= x < |data| / 2 => (data[2 * x], data[2 * x + 1]))
  }

  /** The elements in bit-reversed order. */
  ghost predicate IsReordered<E>(k: nat, before: seq<E>, after: seq<E>) {
    && |before| == |after| == Pow2(k)
    && forall p :: 0 <= p < Pow2(k) ==> Reversed(k, p) < Pow2(k) && after[p] == before[Reversed(k, p)]
  }

  /** Where element `x` came from, once the elements below `p` have found their places. */
  function Source(k: nat, p: nat, x: nat): nat {
    if x < p || Reversed(k, x) < p then Reversed(k, x) else x
  }

  ghost predicate PartlyReordered<E>(k: nat, before: seq<E>, after: seq<E>, p: nat) {
    && |before| == |after| == Pow2(k)
    && forall x :: 0 <= x < Pow2(k) ==> Source(k, p, x) < Pow2(k) && after[x] == before[Source(k, p, x)]
  }

  /** Two elements exchanged. */
  function Swapped<E>(es: seq<E>, x: nat, y: nat): seq<E>
    requires x < |es| && y < |es|
  {
    es[x := es[y]][y := es[x]]
  }

  /** Element `p` is exchanged with the one at its reversal, unless that was done already. */
  lemma PairDone<E>(k: nat, before: seq<E>, now: seq<E>, after: seq<E>, p: nat)
    requires PartlyReordered(k, before, now, p)
    requires p < Pow2(k) && Reversed(k, p) < Pow2(k)
    requires after == if Reversed(k, p) > p then Swapped(now, p, Reversed(k, p)) else now
    ensures PartlyReordered(k, before, after, p + 1)
  {
    AllReversed(k);
    var q := Reversed(k, p);
    forall x | 0 <= x < Pow2(k)
      ensures Source(k, p + 1, x) < Pow2(k) && after[x] == before[Source(k, p + 1, x)]
    {
      assert Reversed(k, x) == p ==> x == q;
      assert x == p || x == q || after[x] == now[x];
      assert Source(k, p, x) < Pow2(k) && now[x] == before[Source(k, p, x)];
      assert now[p] == before[Source(k, p, p)] && now[q] == before[Source(k, p, q)];
    }
  }

  lemma ElementsSwapped<T>(before: seq<T>, after: seq<T>, x: nat, y: nat)
    requires 2 * x + 1 < |before| && 2 * y + 1 < |before| && |before| % 2 == 0
    requires after == Swapped(Swapped(before, 2 * y, 2 * x), 2 * y + 1, 2 * x + 1)
    ensures Elements(after) == Swapped(Elements(before), x, y)
  {
  }

  lemma SwapKeeps<E>(es: seq<E>, x: nat, y: nat)
    requires x < |es| && y < |es|
    ensures multiset(Swapped(es, x, y)) == multiset(es)
  {
  }

  lemma TopStep(l: nat, q: nat)
    requires l > 0
    ensures Pow2(l) == 2 * Pow2(l - 1)
    ensures TopIncrement(Pow2(l) / 2, q) ==
            if q >= Pow2(l - 1) then TopIncrement(Pow2(l - 1) / 2, q - Pow2(l - 1)) else q + Pow2(l - 1)
  {
  }

  /** The position after `j`, reached by adding one from the top bit down. On the last element
      the code leaves some other number, which nothing reads. */
  method NextReversed(j: int, len: int, ghost k: nat, ghost p: nat) returns (next: int)
    requires len == 2 * Pow2(k) && p < Pow2(k) && j == 2 * Reversed(k, p) + 1
    ensures p + 1 < Pow2(k) ==> next == 2 * Reversed(k, p + 1) + 1
  {
    ghost var l, q, target := k, Reversed(k, p), Reversed(k, p + 1);
    FirstStep(k, p);
    hide Pow2, Reversed, TopIncrement;
    next := j;
    var m := len / 2;
    while m >= 2 && next > m
      invariant m == Pow2(l) && 0 <= q < m && next == 2 * q + 1
      invariant m < 2 <==> l == 0
      invariant p + 1 < Pow2(k) ==> TopIncrement(m / 2, q) == target
      decreases m
    {
      TopStep(l, q);
      q := q - m / 2;
      l := l - 1;
      next := next - m;
      m := m / 2;
    }
    if l > 0 {
      TopStep(l, q);
    } else {
      LastOfAll(k, p, q);
    }
    next := next + m;
  }

  lemma FirstStep(k: nat, p: nat)
    requires p < Pow2(k)
    ensures Reversed(k, p) < Pow2(k)
    ensures Pow2(k) < 2 <==> k == 0
    ensures p + 1 < Pow2(k) ==> TopIncrement(Pow2(k) / 2, Reversed(k, p)) == Reversed(k, p + 1)
  {
    ReversedBound(k, p);
    if p + 1 < Pow2(k) {
      TopIncrementReverses(k, p);
    }
  }

  /** The bits run out only at the last element. */
  lemma LastOfAll(k: nat, p: nat, q: nat)
    requires q < 1
    requires p + 1 < Pow2(k) ==> TopIncrement(Pow2(0) / 2, q) == Reversed(k, p + 1)
    ensures p + 1 >= Pow2(k)
  {
    ReversedZero(k);
    if p + 1 < Pow2(k) {
      ReversedTwice(k, p + 1);
    }
  }

  /** Elements `p` and `q` change places, both halves of each. */
  method Exchange<T>(data: array<T>, i: nat, j: nat, ghost p: nat, ghost q: nat)
    requires i == 2 * p + 1 < data.Length && j == 2 * q + 1 < data.Length && data.Length % 2 == 0
    modifies data
    ensures Elements(data[..]) == Swapped(Elements(old(data[..])), p, q)
    ensures multiset(Elements(data[..])) == multiset(Elements(old(data[..])))
  {
    hide *;
    ghost var was := data[..];
    data[j - 1], data[i - 1] := data[i - 1], data[j - 1];
    SwappedIs(was, data[..], j - 1, i - 1);
    ghost var half := data[..];
    data[j], data[i] := data[i], data[j];
    SwappedIs(half, data[..], j, i);
    ElementsSwapped(was, data[..], p, q);
    SwapKeeps(Elements(was), p, q);
  }

  /** The reorder loop at the end of fft, for 2^k complex elements. As in the code, positions
      count from one: element p has its two halves at 2p + 1 and 2p + 2. */
  method Reorder<T>(data: array<T>, ghost k: nat)
    requires data.Length == 2 * Pow2(k)
    modifies data
    ensures IsReordered(k, Elements(old(data[..])), Elements(data[..]))
    ensures multiset(Elements(data[..])) == multiset(Elements(old(data[..])))
  {
    hide *;
    ghost var before, p := Elements(data[..]), 0;
    var len := data.Length;
    var j, i := 1, 1;
    ReversedZero(k);
    NothingDone(k, before);
    while i < len
      invariant i == 2 * p + 1 && p <= Pow2(k)
      invariant p < Pow2(k) ==> j == 2 * Reversed(k, p) + 1
      invariant PartlyReordered(k, before, Elements(data[..]), p)
      invariant multiset(Elements(data[..])) == multiset(before)
    {
      ghost var q, was := Reversed(k, p), data[..];
      ReversedBound(k, p);
      if j > i {
        Exchange(data, i, j, p, q);
      } else {
        assert data[..] == was;
      }
      PairDone(k, before, Elements(was), Elements(data[..]), p);
      j := NextReversed(j, len, k, p);
      i := i + 2;
      p := p + 1;
    }
    AllDone(k, before, Elements(data[..]));
  }

  lemma NothingDone<E>(k: nat, before: seq<E>)
    requires |before| == Pow2(k)
    ensures PartlyReordered(k, before, before, 0)
  {
  }

  lemma SwappedIs<T>(before: seq<T>, after: seq<T>, x: nat, y: nat)
    requires x < |before| && y < |before| && |after| == |before|
    requires after[x] == before[y] && after[y] == before[x]
    requires forall z :: 0 <= z < |before| && z != x && z != y ==> after[z] == before[z]
    ensures after == Swapped(before, x, y)
  {
  }

  lemma AllDone<E>(k: nat, before: seq<E>, after: seq<E>)
    requires PartlyReordered(k, before, after, Pow2(k))
    ensures IsReordered(k, before, after)
  {
    forall p | 0 <= p < Pow2(k)
      ensures Reversed(k, p) < Pow2(k) && after[p] == before[Reversed(k, p)]
    {
      assert Source(k, Pow2(k), p) == Reversed(k, p);
    }
  }

  /** Reordering what was reordered gives the original back. */
  lemma ReorderTwice<E>(k: nat, first: seq<E>, second: seq<E>, third: seq<E>)
    requires IsReordered(k, first, second) && IsReordered(k, second, third)
    ensures third == first
  {
    AllReversed(k);
    forall p | 0 <= p < Pow2(k)
      ensures third[p] == first[p]
    {
      assert third[p] == second[Reversed(k, p)];
      assert second[Reversed(k, p)] == first[Reversed(k, Reversed(k, p))];
    }
  }
}
