/** How much padding alignment needs, and what fills it: the values of _bfd_riscv_relax_align. */
module RelaxAlignments {
  import opened MachineWords
  import opened RelaxImages

  ghost predicate PowerOfTwo(a: nat) {
    a == 1 || (a > 1 && a % 2 == 0 && PowerOfTwo(a / 2))
  }

  lemma {:induction false} PowersDivide(a: nat, b: nat)
    requires PowerOfTwo(a) && PowerOfTwo(b) && a <= b
    ensures b % a == 0
    decreases a
  {
    if a > 1 {
      PowersDivide(a / 2, b / 2);
      var q := b / 2 / (a / 2);
      assert b / 2 == a / 2 * q;
      Twice(a / 2, q);
      Remainder(a * q, a, q, 0);
    } else {
      assert b % 1 == 0;
    }
  }

  lemma Twice(a: nat, q: nat)
    ensures 2 * (a * q) == 2 * a * q
  {
  }

  lemma {:induction false} PowersApart(a: nat, b: nat)
    requires PowerOfTwo(a) && PowerOfTwo(b) && a < b
    ensures 2 * a <= b
    decreases a
  {
    if a > 1 {
      PowersApart(a / 2, b / 2);
    }
  }

  /** Division with remainder is unique. */
  lemma Remainder(n: nat, a: nat, q: nat, r: nat)
    requires 0 <= r < a && n == a * q + r
    ensures n % a == r && n / a == q
  {
    var d := q - n / a;
    assert a * d == n % a - r;
    AtLeast(a, d);
  }

  lemma AtLeast(a: nat, d: int)
    ensures d > 0 ==> a * d >= a
    ensures d < 0 ==> a * d <= 0 - a
  {
  }

  lemma AddBelow(n: nat, a: nat, d: nat)
    requires 0 < a && n % a + d < a
    ensures (n + d) % a == n % a + d
  {
    Remainder(n + d, a, n / a, n % a + d);
  }

  /** The first power of two from `a` on that is above `addend`. */
  function AlignmentFrom(a: nat, addend: nat): (r: nat)
    requires a > 0
    ensures r > addend
    decreases addend + 1 - a
  {
    if a > addend then a else AlignmentFrom(2 * a, addend)
  }

  lemma {:induction false} AlignmentFromIsLeast(a: nat, addend: nat)
    requires PowerOfTwo(a) && (a == 1 || a / 2 <= addend)
    ensures var r := AlignmentFrom(a, addend); PowerOfTwo(r) && addend < r && (r == 1 || r / 2 <= addend)
    decreases addend + 1 - a
  {
    if a <= addend {
      AlignmentFromIsLeast(2 * a, addend);
    }
  }

  function Alignment(addend: nat): nat {
    AlignmentFrom(1, addend)
  }

  /** The alignment is the least power of two above the addend. */
  lemma AlignmentIsLeast(addend: nat, b: nat)
    ensures PowerOfTwo(Alignment(addend)) && addend < Alignment(addend)
    ensures PowerOfTwo(b) && addend < b ==> Alignment(addend) <= b
    ensures addend < WORD / 2 ==> Alignment(addend) <= WORD / 2
  {
    AlignmentFromIsLeast(1, addend);
    var a := Alignment(addend);
    if PowerOfTwo(b) && b < a {
      PowersApart(b, a);
    }
    WordIsPower();
    if WORD / 2 < a {
      PowersApart(WORD / 2, a);
    }
  }

  lemma SixteenTimes(a: nat)
    requires PowerOfTwo(a)
    ensures PowerOfTwo(16 * a) && PowerOfTwo(8 * a)
  {
    hide PowerOfTwo;
    TwoTimes(a);
    TwoTimes(2 * a);
    TwoTimes(4 * a);
    TwoTimes(8 * a);
  }

  lemma TwoTimes(a: nat)
    requires PowerOfTwo(a)
    ensures PowerOfTwo(2 * a)
  {
  }

  lemma WordIsPower()
    ensures PowerOfTwo(WORD / 2) && PowerOfTwo(WORD)
  {
    assert PowerOfTwo(1);
    hide PowerOfTwo;
    SixteenTimes(0x1); SixteenTimes(0x10); SixteenTimes(0x100); SixteenTimes(0x1000);
    SixteenTimes(0x1_0000); SixteenTimes(0x10_0000); SixteenTimes(0x100_0000); SixteenTimes(0x1000_0000);
    SixteenTimes(0x1_0000_0000); SixteenTimes(0x10_0000_0000);
    SixteenTimes(0x100_0000_0000); SixteenTimes(0x1000_0000_0000);
    SixteenTimes(0x1_0000_0000_0000); SixteenTimes(0x10_0000_0000_0000);
    SixteenTimes(0x100_0000_0000_0000); SixteenTimes(0x1000_0000_0000_0000);
  }

  /** The bits of `x` below the power of two `a` cleared: x & ~(a - 1). */
  function Masked(x: Word, a: nat): Word
    requires a > 0
  {
    x - x % a
  }

  /** The bytes from `start` to the aligned address, as the code computes them. */
  function Gap(start: Word, a: nat): Word
    requires 0 < a < WORD
  {
    Minus(Plus(Masked(Minus(start, 1), a), a), start)
  }

  /** The padding that must stay. */
  function GapFor(start: Word, addend: Word): Word
    requires addend < WORD / 2
  {
    AlignmentIsLeast(addend, 1);
    Gap(start, Alignment(addend))
  }

  predicate Aligned(n: nat, a: nat)
    requires a > 0
  {
    n % a == 0
  }

  /** They are as few as can be, also where the address wraps around. */
  lemma GapIsLeast(start: Word, a: nat)
    requires PowerOfTwo(a) && a <= WORD / 2
    ensures Gap(start, a) < a && Aligned(Plus(start, Gap(start, a)), a)
    ensures forall n :: 0 <= n < Gap(start, a) ==> !Aligned(Plus(start, n), a)
  {
    assert a > 0;
    hide *;
    WordAligned(a);
    GapAligns(start, a);
    forall n | 0 <= n < Gap(start, a)
      ensures !Aligned(Plus(start, n), a)
    {
      NotBefore(start, a, n);
    }
  }

  lemma WordAligned(a: nat)
    requires PowerOfTwo(a) && a <= WORD / 2
    ensures a > 0 && Aligned(WORD, a)
  {
    WordIsPower();
    PowersDivide(a, WORD);
  }

  lemma NotBefore(start: Word, a: nat, n: nat)
    requires 0 < a <= WORD / 2 && Aligned(WORD, a) && n < Gap(start, a)
    ensures !Aligned(Plus(start, n), a)
  {
    hide Gap;
    GapIs(start, a);
    AddBelow(start, a, n);
    NoWrap(start, a, n);
  }

  lemma GapAligns(start: Word, a: nat)
    requires 0 < a <= WORD / 2 && Aligned(WORD, a)
    ensures Gap(start, a) < a && Aligned(Plus(start, Gap(start, a)), a)
  {
    hide Gap, Plus;
    GapIs(start, a);
    if start % a != 0 {
      var d := a - start % a;
      UpToMultiple(start, a);
      NoWrap(start, a, d - 1);
      PlusIs(start, d);
      Remainder(0, a, 0, 0);
    } else {
      PlusIs(start, 0);
      Remainder(0, a, 0, 0);
    }
  }

  lemma PlusIs(a: Word, b: Word)
    requires a + b <= WORD
    ensures Plus(a, b) == a + b || Plus(a, b) == 0
  {
  }

  lemma UpToMultiple(n: nat, a: nat)
    requires a > 0
    ensures (n + (a - n % a)) % a == 0
  {
    var q := n / a;
    assert a * (q + 1) == a * q + a;
    Remainder(n + (a - n % a), a, q + 1, 0);
  }

  lemma GapIs(start: Word, a: nat)
    requires 0 < a <= WORD / 2 && WORD % a == 0
    ensures Gap(start, a) == if start % a == 0 then 0 else a - start % a
  {
    hide *;
    BelowIs(start, a);
    GapFrom(start, a, Minus(start, 1), Minus(start, 1) % a, start % a);
  }

  lemma BelowIs(start: Word, a: nat)
    requires 0 < a <= WORD / 2 && WORD % a == 0
    ensures Minus(start, 1) % a == (if start % a == 0 then a - 1 else start % a - 1) <= Minus(start, 1)
    ensures 0 <= start % a <= start && start % a < a
  {
    Remainder(start, a, start / a, start % a);
    if start == 0 {
      Remainder(Minus(start, 1), a, WORD / a - 1, a - 1);
    } else if start % a == 0 {
      Remainder(Minus(start, 1), a, start / a - 1, a - 1);
    } else {
      Remainder(Minus(start, 1), a, start / a, start % a - 1);
    }
  }

  lemma GapFrom(start: Word, a: nat, below: Word, r: nat, m: nat)
    requires 0 < a <= WORD / 2 && below == Minus(start, 1) && r <= below && m <= start
    requires r == below % a && m < a && r == if m == 0 then a - 1 else m - 1
    ensures Gap(start, a) == if m == 0 then 0 else a - m
  {
  }

  /** Short of the next multiple, the address does not wrap around. */
  lemma NoWrap(start: Word, a: nat, n: nat)
    requires 0 < a && WORD % a == 0 && start % a + n < a
    ensures start + n < WORD
  {
    var q := WORD / a;
    assert WORD == a * q;
    assert start / a < q by {
      AtLeast(a, start / a - q);
    }
    assert a * (start / a) + a <= WORD by {
      AtLeast(a, q - start / a);
    }
  }

  /** addi x0, x0, 0 and its compressed form, low byte first. */
  const NOP: seq<Byte> := [0x13, 0, 0, 0]
  const COMPRESSED_NOP: seq<Byte> := [0x01, 0]

  /** As many instructions as fit in the gap, and a compressed one for what is left over. */
  function Nops(gap: nat): (bytes: seq<Byte>)
    ensures |bytes| == gap - gap % 4 + if gap % 4 == 0 then 0 else 2
  {
    if gap == 0 then [] else if gap < 4 then COMPRESSED_NOP else NOP + Nops(gap - 4)
  }

  /** What is written once the gap is filled up to `pos`. */
  ghost predicate FilledTo(done: seq<Byte>, gap: nat, pos: nat) {
    pos <= gap && |done| == pos && done + Nops(gap - pos) == Nops(gap)
  }

  lemma NothingFilled(bytes: seq<Byte>, offset: nat, gap: nat)
    requires offset <= |bytes|
    ensures FilledTo([], gap, 0) && Spliced(bytes, offset, []) == bytes
  {
  }

  lemma FillStep(bytes: seq<Byte>, offset: nat, done: seq<Byte>, gap: nat, pos: nat)
    requires FilledTo(done, gap, pos) && pos + 4 <= gap && offset + gap <= |bytes|
    ensures |NOP| == 4 && FilledTo(done + NOP, gap, pos + 4)
    ensures Spliced(Spliced(bytes, offset, done), offset + pos, NOP) == Spliced(bytes, offset, done + NOP)
  {
    assert Nops(gap - pos) == NOP + Nops(gap - pos - 4);
    SplicedTwice(bytes, offset, done, NOP);
  }

  lemma FillLast(bytes: seq<Byte>, offset: nat, done: seq<Byte>, gap: nat, pos: nat)
    requires FilledTo(done, gap, pos) && gap - 4 < pos < gap && offset + pos + 2 <= |bytes|
    ensures |COMPRESSED_NOP| == 2
    ensures Spliced(Spliced(bytes, offset, done), offset + pos, COMPRESSED_NOP) == Spliced(bytes, offset, Nops(gap))
  {
    SplicedTwice(bytes, offset, done, COMPRESSED_NOP);
  }

  lemma AllFilled(done: seq<Byte>, gap: nat)
    requires FilledTo(done, gap, gap)
    ensures done == Nops(gap)
  {
  }

  /** The section that a successful alignment leaves. */
  ghost function AlignedImage(image: Image, index: nat, gap: nat): Image
    requires index < |image.relocs| && |image.bytes| < WORD
    requires image.relocs[index].offset + image.relocs[index].addend <= |image.bytes|
    requires gap <= image.relocs[index].addend
  {
    var r := image.relocs[index];
    var done := image.(relocs := image.relocs[index := r.(info := 0)]);
    if gap == r.addend then done else
      Deleted(done.(bytes := Spliced(image.bytes, r.offset, Nops(gap))), Cut(r.offset + gap, r.addend - gap))
  }

  lemma AlignedIs(image: Image, index: nat, gap: nat, done: Image, padded: Image, r: Reloc)
    requires index < |image.relocs| && |image.bytes| < WORD && r == image.relocs[index]
    requires r.offset + r.addend <= |image.bytes| && gap <= r.addend
    requires done == image.(relocs := image.relocs[index := r.(info := 0)])
    ensures gap == r.addend ==> done == AlignedImage(image, index, gap)
    ensures gap < r.addend && padded == done.(bytes := Spliced(image.bytes, r.offset, Nops(gap)))
            ==> Deleted(padded, Cut(r.offset + gap, r.addend - gap)) == AlignedImage(image, index, gap)
  {
    hide Deleted;
  }

  /** The instructions fill the gap exactly when it is even. */
  lemma NopsTile(gap: nat)
    ensures |Nops(gap)| == gap <==> gap % 2 == 0
  {
  }

  /** What was after the padding is now right after the gap, and an even gap holds whole
      instructions. */
  lemma CodeFollowsGap(image: Image, index: nat, gap: nat)
    requires index < |image.relocs| && |image.bytes| < WORD
    requires image.relocs[index].offset + image.relocs[index].addend <= |image.bytes|
    requires gap <= image.relocs[index].addend
    ensures var r, after := image.relocs[index], AlignedImage(image, index, gap);
            && after.bytes[..r.offset] == image.bytes[..r.offset]
            && |after.bytes| == |image.bytes| - (r.addend - gap)
            && after.bytes[r.offset + gap..] == image.bytes[r.offset + r.addend..]
            && (gap < r.addend && gap % 2 == 0 ==> after.bytes[r.offset..r.offset + gap] == Nops(gap))
            && (gap == r.addend ==> after.bytes == image.bytes)
  {
    var r := image.relocs[index];
    if gap < r.addend {
      var written := Spliced(image.bytes, r.offset, Nops(gap));
      assert written[r.offset + r.addend..] == image.bytes[r.offset + r.addend..];
      assert written[..r.offset] == image.bytes[..r.offset];
      NopsTile(gap);
      if gap % 2 == 0 {
        assert written[r.offset..r.offset + gap] == Nops(gap);
      }
    }
  }

  /** In a section at address `secAddr`, what was after the padding is now at an aligned address, the
      next one from the start of the padding on. */
  lemma CodeIsAligned(image: Image, index: nat, secAddr: Word)
    requires index < |image.relocs| && |image.bytes| < WORD && image.relocs[index].addend < WORD / 2
    requires image.relocs[index].offset + image.relocs[index].addend <= |image.bytes|
    ensures var r := image.relocs[index];
            var start := Plus(secAddr, r.offset);
            var gap := GapFor(start, r.addend);
            && Minus(Plus(start, r.addend), r.addend) == start
            && (gap <= r.addend ==>
                  && Alignment(r.addend) > 0 && Aligned(Plus(start, gap), Alignment(r.addend))
                  && (forall n :: 0 <= n < gap ==> !Aligned(Plus(start, n), Alignment(r.addend)))
                  && r.offset + gap <= |AlignedImage(image, index, gap).bytes|
                  && AlignedImage(image, index, gap).bytes[r.offset + gap..] == image.bytes[r.offset + r.addend..])
  {
    hide AlignedImage, Alignment, Aligned, Gap;
    var r := image.relocs[index];
    var start := Plus(secAddr, r.offset);
    AlignmentIsLeast(r.addend, 1);
    GapIsLeast(start, Alignment(r.addend));
    if GapFor(start, r.addend) <= r.addend {
      CodeFollowsGap(image, index, GapFor(start, r.addend));
    }
  }
}
