/** Writing the import sections of a PULP component: the size pre-pass and the writer. */
module ImportSections {
  import opened MachineWords
  import opened ImportFormats
  import opened ImportReaders

  lemma LiveStep(imports: seq<Import>, i: nat)
    requires i < |imports|
    ensures Live(imports[..i + 1]) == Live(imports[..i]) + if imports[i].refs == [] then [] else [imports[i]]
  {
    assert imports[..i + 1][..i] == imports[..i];
  }

  lemma {:induction false} LiveGrows(imports: seq<Import>, i: nat)
    requires i <= |imports|
    ensures Live(imports[..i]) <= Live(imports)
    decreases |imports| - i
  {
    if i < |imports| {
      LiveGrows(imports, i + 1);
      LiveStep(imports, i);
    } else {
      assert imports[..i] == imports;
    }
  }

  /** From reference `i` on, the words left to pack; with `skip`, reference `i` is the second of
      a pair that is packed already. */
  function LeftToPack(refs: seq<Ref>, i: nat, skip: bool): seq<Word32>
    requires i + (if skip then 1 else 0) <= |refs|
  {
    Packed(refs[i + (if skip then 1 else 0)..])
  }

  lemma PackStep(refs: seq<Ref>, i: nat)
    requires i < |refs|
    ensures var pair := i + 1 < |refs| && Paired(refs[i], refs[i + 1]);
            LeftToPack(refs, i, false) ==
            [Expression(if pair then PAIR else Code(refs[i].kind), refs[i].offset)] + LeftToPack(refs, i + 1, pair)
  {
    hide Expression, Paired;
    var left := refs[i..];
    assert left[1..] == refs[i + 1..];
    if i + 1 < |refs| {
      assert left[1] == refs[i + 1];
      assert left[2..] == refs[i + 2..];
    }
  }

  lemma PackEnds(refs: seq<Ref>)
    ensures LeftToPack(refs, 0, false) == Packed(refs)
    ensures LeftToPack(refs, |refs|, false) == []
  {
    assert refs[0..] == refs;
  }

  /** How many words an import's references take. */
  method CountPacked(refs: seq<Ref>) returns (count: nat)
    ensures count == |Packed(refs)|
  {
    hide *;
    count := 0;
    var i, skip := 0, false;
    PackEnds(refs);
    while i < |refs|
      invariant 0 <= i && i + (if skip then 1 else 0) <= |refs|
      invariant count + |LeftToPack(refs, i, skip)| == |Packed(refs)|
    {
      if skip {
        SkipDone(refs, i);
        skip := false;
      } else {
        PackStep(refs, i);
        skip := i + 1 < |refs| && refs[i].kind == Hi20 && refs[i + 1].kind == Lo12I
                && Minus(refs[i + 1].offset, refs[i].offset) == 4;
        PairedIs(refs, i);
        count := count + 1;
      }
      i := i + 1;
    }
  }

  lemma SkipDone(refs: seq<Ref>, i: nat)
    requires i + 1 <= |refs|
    ensures LeftToPack(refs, i, true) == LeftToPack(refs, i + 1, false)
  {
  }

  lemma PairedIs(refs: seq<Ref>, i: nat)
    ensures i + 1 < |refs| ==>
              (Paired(refs[i], refs[i + 1]) <==>
               refs[i].kind == Hi20 && refs[i + 1].kind == Lo12I && Minus(refs[i + 1].offset, refs[i].offset) == 4)
  {
  }

  lemma LengthsStep(live: seq<Import>, x: Import)
    ensures |Strings(live + [x])| == |Strings(live)| + |x.name| + 1
    ensures |RelocBody(live + [x])| == |RelocBody(live)| + 1 + |Packed(x.refs)|
  {
    hide Packed;
  }

  lemma SizesAre(live: seq<Import>)
    ensures NamesSize(live) == Padded(4 * (|live| + 1) + |Strings(live)|)
    ensures |RelocSection(live)| == 1 + |RelocBody(live)|
    ensures Strings([]) == [] && RelocBody([]) == [] && Live([]) == []
  {
  }

  /** The pre-pass: how large the two sections will be, and how many imports they list. */
  method SectionSizes(imports: seq<Import>) returns (nameSize: nat, relocSize: nat, count: nat)
    ensures var live := Live(imports);
            nameSize == NamesSize(live) && relocSize == 4 * |RelocSection(live)| && count == |live|
  {
    hide Packed, Head, FirstWord, RelocBody, Strings, Live, NamesSize, RelocSection, Entry;
    nameSize, relocSize, count := 4, 4, 0;
    var i := 0;
    assert imports[..0] == [];
    SizesAre(Live(imports));
    while i < |imports|
      invariant 0 <= i <= |imports|
      invariant count == |Live(imports[..i])|
      invariant nameSize == 4 * (count + 1) + |Strings(Live(imports[..i]))|
      invariant relocSize == 4 * (1 + |RelocBody(Live(imports[..i]))|)
    {
      LiveStep(imports, i);
      if imports[i].refs != [] {
        LengthsStep(Live(imports[..i]), imports[i]);
        relocSize := relocSize + 4;
        nameSize := nameSize + 4;
        count := count + 1;
        nameSize := nameSize + |imports[i].name| + 1;
        var words := CountPacked(imports[i].refs);
        relocSize := relocSize + 4 * words;
      } else {
        assert Live(imports[..i]) + [] == Live(imports[..i]);
      }
      i := i + 1;
    }
    assert imports[..i] == imports;
    if nameSize % 4 != 0 {
      nameSize := (nameSize / 4 + 1) * 4;
    }
  }

  // ---------------------------------------------------------------------------------------
  // The writer.

  /** The section of names once the first `k` imports are in. */
  ghost predicate NamesSoFar(bytes: seq<Byte>, live: seq<Import>, k: nat)
    requires k <= |live| && NamesSize(live) < 0x1_0000_0000
  {
    var strings, head := 4 * (|live| + 1), NameStart(|live|, live, k);
    && |bytes| == NamesSize(live) && strings <= head <= |bytes|
    && bytes[..4] == Bytes4(FirstWord(|live|, NamesSize(live) / 4))
    && bytes[4..4 * (k + 1)] == Indices(live, k)
    && bytes[strings..head] == Strings(live[..k])
    && forall j :: head <= j < |bytes| ==> bytes[j] == 0
  }

  lemma NamesStart(bytes: seq<Byte>, live: seq<Import>)
    requires NamesSize(live) < 0x1_0000_0000 && |bytes| == NamesSize(live)
    requires bytes[..4] == Bytes4(FirstWord(|live|, NamesSize(live) / 4))
    requires forall j :: 4 <= j < |bytes| ==> bytes[j] == 0
    ensures NamesSoFar(bytes, live, 0) && NameStart(|live|, live, 0) == 4 * (|live| + 1)
  {
    hide Bytes4, FirstWord;
    assert live[..0] == [];
    StringsGrow(live, 0);
  }

  lemma NamesStep(bytes: seq<Byte>, live: seq<Import>, k: nat)
    requires k < |live| && NamesSize(live) < 0x1_0000_0000 && NamesSoFar(bytes, live, k)
    ensures var head, name := NameStart(|live|, live, k), live[k].name + [0];
            && head + |name| == NameStart(|live|, live, k + 1) <= |bytes|
            && 4 * (k + 1) + 4 <= |bytes|
            && head < 0x1_0000_0000
            && NamesSoFar(Spliced(Spliced(bytes, 4 * (k + 1), Bytes4(head)), head, name), live, k + 1)
  {
    hide Bytes4, FirstWord, NamesSize, Spliced;
    NamesBound(live, k);
    assert live[..k + 1][..k] == live[..k];
    TwoSpliced(bytes, 4 * (k + 1), Bytes4(NameStart(|live|, live, k)), 4 * (|live| + 1), NameStart(|live|, live, k),
               live[k].name + [0]);
  }

  lemma TwoSpliced<T>(s: seq<T>, at: nat, part: seq<T>, start: nat, head: nat, more: seq<T>)
    requires 4 <= at && at + |part| <= start <= head && head + |more| <= |s|
    ensures var r := Spliced(Spliced(s, at, part), head, more);
            && r[..4] == s[..4] && r[4..at + |part|] == s[4..at] + part
            && r[start..head + |more|] == s[start..head] + more
            && forall j :: head + |more| <= j < |s| ==> r[j] == s[j]
  {
    var once := Spliced(s, at, part);
    assert once[4..at + |part|] == s[4..at] + part;
    assert Spliced(once, head, more)[..head] == once[..head];
    assert Spliced(once, head, more)[4..at + |part|] == once[4..at + |part|];
  }

  lemma NamesBound(live: seq<Import>, k: nat)
    requires k < |live|
    ensures NameStart(|live|, live, k) + |live[k].name| + 1 == NameStart(|live|, live, k + 1) <= NamesSize(live)
  {
    StringsPrefix(live, k);
    StringsGrow(live, k + 1);
  }

  lemma NamesDone(bytes: seq<Byte>, live: seq<Import>)
    requires NamesSize(live) < 0x1_0000_0000 && NamesSoFar(bytes, live, |live|)
    ensures bytes == NameSection(live)
  {
    hide Bytes4, FirstWord, NamesSize;
    assert live[..|live|] == live;
    var strings, head := 4 * (|live| + 1), NameStart(|live|, live, |live|);
    assert bytes == bytes[..4] + bytes[4..strings] + bytes[strings..head] + bytes[head..];
  }

  method WriteNames(names: array<Byte>, imports: seq<Import>, size: nat, count: nat)
    requires NamesSize(Live(imports)) < 0x1_0000_0000
    requires size == NamesSize(Live(imports)) == names.Length && count == |Live(imports)|
    modifies names
    ensures names[..] == NameSection(Live(imports))
  {
    hide *;
    ghost var live, k := Live(imports), 0;
    HeaderFits(live);
    var i := 0;
    while i < size
      invariant 0 <= i <= size && forall j :: 0 <= j < i ==> names[j] == 0
    {
      names[i] := 0;
      i := i + 1;
    }
    ghost var zeros := names[..];
    var first := Bytes4(FirstWord(count, size / 4));
    Store(names, 0, first);
    SplicedStart(zeros, first);
    NamesStart(names[..], live);
    var head, n := (1 + count) * 4, 0;
    i := 0;
    LiveStart(imports);
    while i < |imports|
      invariant 0 <= i <= |imports| && n == |Live(imports[..i])| <= |live|
      invariant head == NameStart(|live|, live, n)
      invariant NamesSoFar(names[..], live, n)
    {
      LiveStep(imports, i);
      LiveGrows(imports, i + 1);
      if imports[i].refs != [] {
        LiveNext(imports, i);
        NamesStep(names[..], live, n);
        Store(names, 4 * (n + 1), Bytes4(head));
        n := n + 1;
        Store(names, head, imports[i].name + [0]);
        head := head + |imports[i].name| + 1;
      }
      i := i + 1;
    }
    LiveEnd(imports);
    NamesDone(names[..], live);
  }

  lemma HeaderFits(live: seq<Import>)
    ensures NamesSize(live) >= 4
  {
  }

  lemma SplicedStart(zeros: seq<Byte>, first: seq<Byte>)
    requires |first| == 4 <= |zeros| && forall j :: 0 <= j < |zeros| ==> zeros[j] == 0
    ensures Spliced(zeros, 0, first)[..4] == first
    ensures forall j :: 4 <= j < |zeros| ==> Spliced(zeros, 0, first)[j] == 0
  {
  }

  lemma LiveStart(imports: seq<Import>)
    ensures Live(imports[..0]) == []
  {
  }

  lemma LiveEnd(imports: seq<Import>)
    ensures Live(imports[..|imports|]) == Live(imports)
  {
    assert imports[..|imports|] == imports;
  }

  /** The next import that something refers to. */
  lemma LiveNext(imports: seq<Import>, i: nat)
    requires i < |imports| && imports[i].refs != []
    ensures var k := |Live(imports[..i])|; k < |Live(imports)| && Live(imports)[k] == imports[i]
    ensures |Live(imports[..i + 1])| == |Live(imports[..i])| + 1
  {
    LiveStep(imports, i);
    LiveGrows(imports, i + 1);
  }

  /** One import's entry. Fails on a relocation that the format has no type for. */
  method WriteEntry(relocs: array<Word32>, base: nat, k: nat, refs: seq<Ref>) returns (ok: bool, head: nat)
    requires base + 1 + |Packed(refs)| <= relocs.Length
    modifies relocs
    ensures ok <==> Known(refs)
    ensures ok ==> head == base + 1 + |Packed(refs)|
    ensures ok ==> relocs[..] == Spliced(old(relocs[..]), base, [Head(k, |Packed(refs)|)] + Packed(refs))
  {
    hide Packed, Head, LeftToPack, Spliced, Expression, Paired;
    ghost var was, done: seq<Word32> := relocs[..], [];
    head := base + 1;
    SplicedNone(was, base + 1);
    PackEnds(refs);
    var count, i, skip := 0, 0, false;
    while i < |refs|
      invariant 0 <= i && i + (if skip then 1 else 0) <= |refs|
      invariant count == |done| && head == base + 1 + count
      invariant done + LeftToPack(refs, i, skip) == Packed(refs)
      invariant relocs[..] == Spliced(was, base + 1, done)
      invariant forall j :: 0 <= j < i + (if skip then 1 else 0) ==> !refs[j].kind.Other?
    {
      if skip {
        SkipDone(refs, i);
        skip := false;
      } else {
        PackStep(refs, i);
        PairedIs(refs, i);
        var code;
        if refs[i].kind == Hi20 && i + 1 < |refs| && refs[i + 1].kind == Lo12I
           && Minus(refs[i + 1].offset, refs[i].offset) == 4 {
          skip := true;
          code := PAIR;
        } else if refs[i].kind.Other? {
          return false, head;
        } else {
          code := Code(refs[i].kind);
        }
        SplicedNext(was, relocs[..], base + 1, done, Expression(code, refs[i].offset));
        relocs[head] := Expression(code, refs[i].offset);
        done := done + [Expression(code, refs[i].offset)];
        head := head + 1;
        count := count + 1;
      }
      i := i + 1;
    }
    assert done == Packed(refs);
    relocs[base] := Head(k, count);
    EntryStored(was, base, done, relocs[..], Head(k, count));
    return true, head;
  }

  lemma EntryStored<T>(was: seq<T>, base: nat, done: seq<T>, after: seq<T>, x: T)
    requires base + 1 + |done| <= |was| && after == Spliced(was, base + 1, done)[base := x]
    ensures after == Spliced(was, base, [x] + done)
  {
  }

  /** The section of relocations once the first `k` imports are in. */
  ghost predicate RelocsSoFar(words: seq<Word32>, live: seq<Import>, k: nat)
    requires k <= |live|
  {
    && |words| == |RelocSection(live)| && EntryStart(live, k) <= |words|
    && words[0] == FirstWord(|live|, |words|)
    && words[1..EntryStart(live, k)] == RelocBody(live[..k])
  }

  lemma RelocsStart(words: seq<Word32>, live: seq<Import>)
    requires |words| == |RelocSection(live)| && words[0] == FirstWord(|live|, |words|)
    ensures EntryStart(live, 0) == 1 && RelocsSoFar(words, live, 0)
  {
    assert live[..0] == [];
  }

  lemma RelocsStep(words: seq<Word32>, live: seq<Import>, k: nat)
    requires k < |live| && RelocsSoFar(words, live, k)
    ensures var start, entry := EntryStart(live, k), Entry(k, live[k]);
            && start + |entry| == EntryStart(live, k + 1) <= |words|
            && |entry| == 1 + |Packed(live[k].refs)|
            && RelocsSoFar(Spliced(words, start, entry), live, k + 1)
  {
    hide Packed, Head, FirstWord;
    BodyPrefix(live, k);
    var start, entry := EntryStart(live, k), Entry(k, live[k]);
    hide RelocBody;
    var after := Spliced(words, start, entry);
    assert after[1..start + |entry|] == words[1..start] + entry;
  }

  lemma RelocsDone(words: seq<Word32>, live: seq<Import>)
    requires RelocsSoFar(words, live, |live|)
    ensures words == RelocSection(live)
  {
    hide Packed, Head, FirstWord, RelocBody;
    assert live[..|live|] == live;
    assert words == [words[0]] + words[1..];
  }

  /** PulpImportCreateNameAndRelocSections, with the sizes of the pre-pass small enough for an
      unsigned int. */
  method CreateSections(imports: seq<Import>)
    returns (ok: bool, names: array<Byte>, relocs: array<Word32>, count: nat)
    requires NamesSize(Live(imports)) < 0x1_0000_0000 && 4 * |RelocSection(Live(imports))| < 0x1_0000_0000
    ensures fresh(names) && fresh(relocs)
    ensures ok <==> forall i :: 0 <= i < |imports| ==> Known(imports[i].refs)
    ensures ok ==> names[..] == NameSection(Live(imports))
    ensures ok ==> relocs[..] == RelocSection(Live(imports))
    ensures ok ==> count == |Live(imports)|
  {
    hide *;
    ghost var live := Live(imports);
    var nameSize, relocSize, total := SectionSizes(imports);
    count := total;
    names := new Byte[nameSize];
    relocs := new Word32[relocSize / 4];
    WriteNames(names, imports, nameSize, count);
    var i, n, head := 0, 0, 1;
    while i < relocSize / 4
      invariant 0 <= i <= relocSize / 4 && names[..] == NameSection(live)
    {
      relocs[i] := 0;
      i := i + 1;
    }
    NotEmpty(live);
    relocs[0] := FirstWord(count, relocSize / 4);
    RelocsStart(relocs[..], live);
    LiveStart(imports);
    i := 0;
    while i < |imports|
      invariant 0 <= i <= |imports| && n == |Live(imports[..i])| <= |live|
      invariant names[..] == NameSection(live)
      invariant head == EntryStart(live, n)
      invariant RelocsSoFar(relocs[..], live, n)
      invariant forall j :: 0 <= j < i ==> Known(imports[j].refs)
    {
      LiveStep(imports, i);
      LiveGrows(imports, i + 1);
      if imports[i].refs != [] {
        LiveNext(imports, i);
        RelocsStep(relocs[..], live, n);
        EntryIs(n, live[n]);
        ok, head := WriteEntry(relocs, head, n, imports[i].refs);
        if !ok {
          return;
        }
        n := n + 1;
      } else {
        NothingUnknown(imports[i].refs);
      }
      i := i + 1;
    }
    ok := true;
    LiveEnd(imports);
    RelocsDone(relocs[..], live);
  }

  lemma NotEmpty(live: seq<Import>)
    ensures |RelocSection(live)| > 0
  {
  }

  lemma EntryIs(k: nat, entry: Import)
    ensures Entry(k, entry) == [Head(k, |Packed(entry.refs)|)] + Packed(entry.refs)
  {
  }

  lemma NothingUnknown(refs: seq<Ref>)
    requires refs == []
    ensures Known(refs)
  {
  }
}
