/** AdjustRelocsImport: adding the address of the text section to every offset of a written
    section of relocations. */
module ImportAdjustments {
  import opened MachineWords
  import opened ImportFormats
  import opened ImportReaders
  import opened Wrappers

  /** The type stays; the offset moves by `base`, in 32 bits. */
  function AdjustedWord(w: Word32, base: Word32): Word32 {
    var offset := (w % 0x1000_0000 * 2 + base) % 0x1_0000_0000 / 2;
    w / 0x1000_0000 * 0x1000_0000 + offset % 0x1000_0000
  }

  function AdjustedWords(ws: seq<Word32>, base: Word32): (r: seq<Word32>)
    ensures |r| == |ws|
  {
    seq(|ws|, i requires 0 <= i < |ws| => AdjustedWord(ws[i], base))
  }

  /** There are `n` entries from word `at` on. */
  predicate WellFormed(ws: seq<Word32>, at: nat, n: nat)
    decreases n
  {
    n == 0 || (at < |ws| && at + 1 + ws[at] / 0x1_0000 <= |ws| && WellFormed(ws, at + 1 + ws[at] / 0x1_0000, n - 1))
  }

  function AdjustedFrom(ws: seq<Word32>, at: nat, n: nat, base: Word32): (r: seq<Word32>)
    requires WellFormed(ws, at, n)
    decreases n
  {
    if n == 0 then ws else
      var next := at + 1 + ws[at] / 0x1_0000;
      var after := Spliced(ws, at + 1, AdjustedWords(ws[at + 1..next], base));
      SameTail(ws, after, next, n - 1);
      AdjustedFrom(after, next, n - 1, base)
  }

  lemma {:induction false} SameTail(ws: seq<Word32>, after: seq<Word32>, at: nat, n: nat)
    requires WellFormed(ws, at, n) && |after| == |ws|
    requires forall j :: at <= j < |ws| ==> after[j] == ws[j]
    ensures WellFormed(after, at, n)
    decreases n
  {
    if n > 0 {
      SameTail(ws, after, at + 1 + ws[at] / 0x1_0000, n - 1);
    }
  }

  method AdjustRelocs(relocs: array<Word32>, base: Word32)
    requires relocs.Length > 0 && WellFormed(relocs[..], 1, relocs[0] % 0x1000)
    modifies relocs
    ensures relocs[..] == AdjustedFrom(old(relocs[..]), 1, old(relocs[0]) % 0x1000, base)
  {
    hide *;
    ghost var was := relocs[..];
    var total := relocs[0] % 0x1000;
    var at, i := 1, 0;
    while i < total
      invariant 0 <= i <= total && 0 <= at
      invariant WellFormed(relocs[..], at, total - i)
      invariant AdjustedFrom(relocs[..], at, total - i, base) == AdjustedFrom(was, 1, total, base)
    {
      AdjustStep(relocs[..], at, total - i, base);
      var count := relocs[at] / 0x1_0000;
      ghost var before := relocs[..];
      at := at + 1;
      ghost var start := at;
      var j := 0;
      NothingAdjusted(before, start, base);
      while j < count
        invariant 0 <= j <= count && at == start + j && start + count <= relocs.Length
        invariant relocs[..] == Spliced(before, start, AdjustedWords(before[start..start + j], base))
      {
        WordStep(before, relocs[..], start, j, base);
        WordIs(relocs[at], base);
        var offset := (relocs[at] % 0x1000_0000 * 2 + base) % 0x1_0000_0000 / 2;
        relocs[at] := relocs[at] / 0x1000_0000 * 0x1000_0000 + offset % 0x1000_0000;
        at := at + 1;
        j := j + 1;
      }
      i := i + 1;
    }
    NoneLeft(relocs[..], at, base);
  }

  lemma AdjustStep(ws: seq<Word32>, at: nat, n: nat, base: Word32)
    requires WellFormed(ws, at, n) && n > 0
    ensures at < |ws| && at + 1 + ws[at] / 0x1_0000 <= |ws|
    ensures var next := at + 1 + ws[at] / 0x1_0000;
            var after := Spliced(ws, at + 1, AdjustedWords(ws[at + 1..next], base));
            WellFormed(after, next, n - 1) && AdjustedFrom(ws, at, n, base) == AdjustedFrom(after, next, n - 1, base)
  {
    hide AdjustedWords;
    var next := at + 1 + ws[at] / 0x1_0000;
    SameTail(ws, Spliced(ws, at + 1, AdjustedWords(ws[at + 1..next], base)), next, n - 1);
  }

  lemma NoneLeft(ws: seq<Word32>, at: nat, base: Word32)
    ensures WellFormed(ws, at, 0) && AdjustedFrom(ws, at, 0, base) == ws
  {
  }

  lemma NothingAdjusted(ws: seq<Word32>, start: nat, base: Word32)
    requires start <= |ws|
    ensures Spliced(ws, start, AdjustedWords(ws[start..start + 0], base)) == ws
  {
  }

  lemma WordIs(w: Word32, base: Word32)
    ensures var offset := (w % 0x1000_0000 * 2 + base) % 0x1_0000_0000 / 2;
            w / 0x1000_0000 * 0x1000_0000 + offset % 0x1000_0000 == AdjustedWord(w, base)
  {
  }

  lemma WordStep(before: seq<Word32>, now: seq<Word32>, start: nat, j: nat, base: Word32)
    requires start + j < |before|
    requires now == Spliced(before, start, AdjustedWords(before[start..start + j], base))
    ensures now[start + j := AdjustedWord(now[start + j], base)] ==
            Spliced(before, start, AdjustedWords(before[start..start + (j + 1)], base))
  {
    hide AdjustedWord;
    assert now[start + j] == before[start + j];
    assert AdjustedWords(before[start..start + (j + 1)], base) ==
           AdjustedWords(before[start..start + j], base) + [AdjustedWord(before[start + j], base)];
    SplicedNext(before, now, start, AdjustedWords(before[start..start + j], base),
                AdjustedWord(before[start + j], base));
  }

  // ---------------------------------------------------------------------------------------

  function Shifted(refs: seq<Ref>, base: Word32): (r: seq<Ref>)
    ensures |r| == |refs|
  {
    seq(|refs|, i requires 0 <= i < |refs| => refs[i].(offset := Plus(refs[i].offset, base)))
  }

  function ShiftedImports(live: seq<Import>, base: Word32): (r: seq<Import>)
    ensures |r| == |live|
  {
    seq(|live|, i requires 0 <= i < |live| => live[i].(refs := Shifted(live[i].refs, base)))
  }

  /** The offset in a word moves to the sum, and its type stays, exactly when the sum can be held. */
  lemma WordShifts(w: Word32, base: Word32)
    ensures var code, offset := w / 0x1000_0000, w % 0x1000_0000 * 2;
            AdjustedWord(w, base) == Expression(code, Plus(offset, base))
            && AdjustedWord(w, base) % 0x1000_0000 * 2 == offset + base
            <==> Small(offset + base)
  {
    hide Expression;
    var code, offset := w / 0x1000_0000, w % 0x1000_0000 * 2;
    Fields(code, Plus(offset, base));
    hide Small;
    SumShifts(w, offset, base);
  }

  /** Concretely: moved by 2^29, a jump at 4 stays at 4. */
  lemma ShiftLost()
    ensures AdjustedWord(Expression(Code(Jal), 4), 0x2000_0000) == Expression(Code(Jal), 4)
    ensures UnpackedOne(Expression(Code(Jal), 4)) == [Ref(Jal, 4)]
  {
    var w := Expression(Code(Jal), 4);
    Fields(0, 4);
    hide Expression;
    assert w == w / 0x1000_0000 * 0x1000_0000 + w % 0x1000_0000;
  }

  lemma SumShifts(w: Word32, offset: Word, base: Word32)
    requires w % 0x1000_0000 * 2 == offset
    ensures AdjustedWord(w, base) / 0x1000_0000 == w / 0x1000_0000
    ensures AdjustedWord(w, base) % 0x1000_0000 * 2 == offset + base <==> Small(offset + base)
    ensures AdjustedWord(w, base) == w / 0x1000_0000 * 0x1000_0000 + AdjustedWord(w, base) % 0x1000_0000
  {
    hide Small;
    SumBack(offset + base);
  }

  lemma SumBack(sum: nat)
    ensures sum % 0x1_0000_0000 / 2 % 0x1000_0000 * 2 == sum <==> Small(sum)
  {
  }

  /** The offsets that are packed can still be held once moved. */
  predicate RepresentableAt(refs: seq<Ref>, base: Word32) {
    Representable(refs) && Representable(Shifted(refs, base))
  }

  lemma {:induction false} PackedShifts(refs: seq<Ref>, base: Word32)
    requires RepresentableAt(refs, base)
    ensures Packed(Shifted(refs, base)) == AdjustedWords(Packed(refs), base)
    decreases |refs|
  {
    if refs != [] {
      var first := refs[0];
      var n := if StartsPair(refs) then 2 else 1;
      StillPaired(refs, base);
      assert Shifted(refs, base)[n..] == Shifted(refs[n..], base);
      hide Expression, Paired, AdjustedWord, Small, Plus;
      PackedShifts(refs[n..], base);
      var code := if n == 2 then PAIR else Code(first.kind);
      ExpressionShifts(code, first.offset, base);
      var w := Expression(code, first.offset);
      assert AdjustedWords([w] + Packed(refs[n..]), base)
             == [AdjustedWord(w, base)] + AdjustedWords(Packed(refs[n..]), base);
    }
  }

  lemma ExpressionShifts(code: nat, offset: Word, base: Word32)
    requires code < 0x10 && Small(offset) && Small(Plus(offset, base))
    ensures AdjustedWord(Expression(code, offset), base) == Expression(code, Plus(offset, base))
  {
    assert Small(offset + base);
    hide Expression, AdjustedWord;
    Fields(code, offset);
    WordShifts(Expression(code, offset), base);
  }

  lemma StillPaired(refs: seq<Ref>, base: Word32)
    requires refs != []
    ensures StartsPair(Shifted(refs, base)) <==> StartsPair(refs)
  {
    if |refs| >= 2 {
    }
  }

  predicate HoldableAt(live: seq<Import>, base: Word32) {
    && Holdable(live)
    && forall i :: 0 <= i < |live| ==> RepresentableAt(live[i].refs, base)
  }

  lemma {:induction false} ShiftedSections(live: seq<Import>, base: Word32)
    requires forall i :: 0 <= i < |live| ==> RepresentableAt(live[i].refs, base)
    ensures Strings(ShiftedImports(live, base)) == Strings(live)
    ensures |RelocBody(ShiftedImports(live, base))| == |RelocBody(live)|
  {
    if live != [] {
      var k := |live| - 1;
      assert ShiftedImports(live, base)[..k] == ShiftedImports(live[..k], base);
      ShiftedSections(live[..k], base);
      PackedShifts(live[k].refs, base);
      hide Packed, AdjustedWords, Head;
    }
  }

  /** The entries below `k` are adjusted, the others not yet. */
  ghost predicate Halfway(ws: seq<Word32>, live: seq<Import>, base: Word32, k: nat)
    requires k <= |live|
  {
    var before, after, start := RelocSection(live), RelocSection(ShiftedImports(live, base)), EntryStart(live, k);
    |ws| == |before| == |after| && start <= |ws| && ws[..start] == after[..start] && ws[start..] == before[start..]
  }

  lemma SameStarts(live: seq<Import>, base: Word32, k: nat)
    requires HoldableAt(live, base) && k <= |live|
    ensures EntryStart(ShiftedImports(live, base), k) == EntryStart(live, k)
    ensures |RelocSection(ShiftedImports(live, base))| == |RelocSection(live)|
  {
    hide RelocBody, FirstWord;
    assert ShiftedImports(live, base)[..k] == ShiftedImports(live[..k], base);
    ShiftedSections(live[..k], base);
    ShiftedSections(live, base);
  }

  lemma HalfwayStep(ws: seq<Word32>, live: seq<Import>, base: Word32, k: nat)
    requires HoldableAt(live, base) && k < |live| && Halfway(ws, live, base, k)
    ensures var start, count := EntryStart(live, k), |Packed(live[k].refs)|;
            && start + 1 + count <= |ws| && ws[start] / 0x1_0000 == count
            && EntryStart(live, k + 1) == start + 1 + count
            && Halfway(Spliced(ws, start + 1, AdjustedWords(ws[start + 1..start + 1 + count], base)), live, base, k + 1)
  {
    hide *;
    HoldableAs(live, base, k);
    HalfwayIs(ws, live, base, k);
    SameStarts(live, base, k);
    SameStarts(live, base, k + 1);
    var shifted := ShiftedImports(live, base);
    EntryAt(live, k);
    EntryAt(shifted, k);
    var start, count := EntryStart(live, k), |Packed(live[k].refs)|;
    var part := ws[start + 1..start + 1 + count];
    assert part == RelocSection(live)[start + 1..start + 1 + count];
    assert ws[start] == RelocSection(live)[start];
    HalfwaySpliced(ws, RelocSection(live), RelocSection(shifted), start, AdjustedWords(part, base));
    HalfwayIs(Spliced(ws, start + 1, AdjustedWords(part, base)), live, base, k + 1);
  }

  lemma HalfwayIs(ws: seq<Word32>, live: seq<Import>, base: Word32, k: nat)
    requires k <= |live|
    ensures var before, after := RelocSection(live), RelocSection(ShiftedImports(live, base));
            var start := EntryStart(live, k);
            Halfway(ws, live, base, k) <==>
            |ws| == |before| == |after| && start <= |ws| && ws[..start] == after[..start]
            && ws[start..] == before[start..]
  {
    hide RelocSection, EntryStart;
  }

  lemma HalfwaySpliced(ws: seq<Word32>, before: seq<Word32>, after: seq<Word32>, start: nat, part: seq<Word32>)
    requires start + 1 + |part| <= |ws| == |before| == |after|
    requires ws[..start] == after[..start] && ws[start..] == before[start..]
    requires before[start] == after[start] && after[start + 1..start + 1 + |part|] == part
    ensures var now, next := Spliced(ws, start + 1, part), start + 1 + |part|;
            now[..next] == after[..next] && now[next..] == before[next..]
  {
    var now, next := Spliced(ws, start + 1, part), start + 1 + |part|;
    forall j | 0 <= j < next
      ensures now[j] == after[j]
    {
      if j > start {
        assert after[j] == after[start + 1..next][j - start - 1];
      } else if j < start {
        assert ws[j] == ws[..start][j];
      } else {
        assert ws[start] == ws[start..][0];
      }
    }
    forall j | next <= j < |ws|
      ensures now[j] == before[j]
    {
      assert ws[j] == ws[start..][j - start];
    }
  }

  lemma HoldableAs(live: seq<Import>, base: Word32, k: nat)
    requires HoldableAt(live, base) && k < |live|
    ensures |live| < 0x1000 && |Packed(live[k].refs)| < 0x1_0000
    ensures ShiftedImports(live, base)[k].refs == Shifted(live[k].refs, base)
    ensures Packed(Shifted(live[k].refs, base)) == AdjustedWords(Packed(live[k].refs), base)
  {
    PackedShifts(live[k].refs, base);
    hide Packed, AdjustedWords, Representable, Shifted;
  }

  lemma {:induction false} AdjustsFrom(ws: seq<Word32>, live: seq<Import>, base: Word32, k: nat)
    requires HoldableAt(live, base) && k <= |live| && Halfway(ws, live, base, k)
    ensures WellFormed(ws, EntryStart(live, k), |live| - k)
    ensures AdjustedFrom(ws, EntryStart(live, k), |live| - k, base) == RelocSection(ShiftedImports(live, base))
    decreases |live| - k
  {
    hide *;
    if k == |live| {
      HalfwayDone(ws, live, base);
      NoneLeft(ws, EntryStart(live, k), base);
    } else {
      HalfwayStep(ws, live, base, k);
      var start, count := EntryStart(live, k), |Packed(live[k].refs)|;
      var after := Spliced(ws, start + 1, AdjustedWords(ws[start + 1..start + 1 + count], base));
      AdjustsFrom(after, live, base, k + 1);
      SplicedTail(ws, start + 1, AdjustedWords(ws[start + 1..start + 1 + count], base));
      SameTail(after, ws, start + 1 + count, |live| - k - 1);
      FirstEntry(ws, start, |live| - k);
      AdjustStep(ws, start, |live| - k, base);
    }
  }

  lemma SplicedTail(ws: seq<Word32>, pos: nat, part: seq<Word32>)
    requires pos + |part| <= |ws|
    ensures forall j :: pos + |part| <= j < |ws| ==> ws[j] == Spliced(ws, pos, part)[j]
  {
  }

  lemma FirstEntry(ws: seq<Word32>, at: nat, n: nat)
    requires n > 0 && at < |ws| && at + 1 + ws[at] / 0x1_0000 <= |ws|
    requires WellFormed(ws, at + 1 + ws[at] / 0x1_0000, n - 1)
    ensures WellFormed(ws, at, n)
  {
  }

  lemma HalfwayDone(ws: seq<Word32>, live: seq<Import>, base: Word32)
    requires HoldableAt(live, base) && Halfway(ws, live, base, |live|)
    ensures ws == RelocSection(ShiftedImports(live, base))
  {
    hide RelocBody, HoldableAt, FirstWord;
    assert live[..|live|] == live;
    assert ws == ws[..EntryStart(live, |live|)] + ws[EntryStart(live, |live|)..];
  }

  /** The section written for the moved references is the adjusted one. */
  lemma AdjustsToShifted(live: seq<Import>, base: Word32)
    requires HoldableAt(live, base)
    ensures var ws := RelocSection(live);
            && ws[0] % 0x1000 == |live| && WellFormed(ws, 1, |live|)
            && AdjustedFrom(ws, 1, |live|, base) == RelocSection(ShiftedImports(live, base))
  {
    AdjustStart(live, base);
    AdjustsFrom(RelocSection(live), live, base, 0);
    hide *;
  }

  lemma AdjustStart(live: seq<Import>, base: Word32)
    requires HoldableAt(live, base)
    ensures EntryStart(live, 0) == 1 && Halfway(RelocSection(live), live, base, 0)
    ensures RelocSection(live)[0] % 0x1000 == |live|
  {
    assert live[..0] == [];
    SameStarts(live, base, 0);
    FirstWordBack(|live|, |RelocSection(live)|);
    hide FirstWord;
  }

  /** Reading the sections after the patch gives every reference `base` further on. */
  lemma ReadsWhatWasAdjusted(live: seq<Import>, base: Word32)
    requires HoldableAt(live, base) && Named(live)
    ensures var ws := RelocSection(live);
            && WellFormed(ws, 1, ws[0] % 0x1000)
            && Read(NameSection(live), AdjustedFrom(ws, 1, ws[0] % 0x1000, base)) == Some(ShiftedImports(live, base))
  {
    AdjustsToShifted(live, base);
    StaysHoldable(live, base);
    ReadsWhatWasWritten(ShiftedImports(live, base));
    hide *;
  }

  lemma StaysHoldable(live: seq<Import>, base: Word32)
    requires HoldableAt(live, base) && Named(live)
    ensures Holdable(ShiftedImports(live, base)) && Named(ShiftedImports(live, base))
    ensures NameSection(ShiftedImports(live, base)) == NameSection(live)
  {
    var shifted := ShiftedImports(live, base);
    ShiftedSections(live, base);
    forall i | 0 <= i < |live|
      ensures Known(shifted[i].refs) && Representable(shifted[i].refs) && |Packed(shifted[i].refs)| < 0x1_0000
    {
      PackedShifts(live[i].refs, base);
    }
    SameIndices(live, base, |live|);
  }

  lemma {:induction false} SameIndices(live: seq<Import>, base: Word32, k: nat)
    requires HoldableAt(live, base) && k <= |live|
             && NamesSize(ShiftedImports(live, base)) == NamesSize(live) < 0x1_0000_0000
    ensures Indices(ShiftedImports(live, base), k) == Indices(live, k)
  {
    hide *;
    var shifted := ShiftedImports(live, base);
    if k == 0 {
      assert Indices(shifted, 0) == Indices(live, 0);
    } else {
      SameIndices(live, base, k - 1);
      IndicesStep(live, k);
      IndicesStep(shifted, k);
      SameNameStart(live, base, k - 1);
    }
  }

  lemma SameNameStart(live: seq<Import>, base: Word32, k: nat)
    requires HoldableAt(live, base) && k <= |live|
    ensures NameStart(|live|, ShiftedImports(live, base), k) == NameStart(|live|, live, k)
  {
    assert ShiftedImports(live, base)[..k] == ShiftedImports(live[..k], base);
    ShiftedSections(live[..k], base);
  }
}
