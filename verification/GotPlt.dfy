/** Space in .got, .plt, .got.plt and .rela.plt: how much is set aside for each symbol when the
    sections are sized, against what is written there later. Offsets and sizes are in bytes. */
module GotPlts {
  const PLT_HEADER_SIZE: nat := 32
  const PLT_ENTRY_SIZE: nat := 16

  /** Four bytes on 32-bit targets, eight on 64-bit ones; an external relocation has three words. */
  type WordSize = w: nat | w == 4 || w == 8 witness 4

  /** What a symbol needs of the GOT: the kinds of thread-local access to it. */
  datatype Need = Need(local: bool, gd: bool, ie: bool)

  /** The words set aside: for local symbols in size_dynamic_sections, for global ones in
      allocate_dynrelocs. */
  function Words(n: Need): nat {
    if n.local then 1 + (if n.gd then 1 else 0)
    else if n.gd || n.ie then (if n.gd then 2 else 0) + (if n.ie then 1 else 0)
    else 1
  }

  /** Where relocating the symbol writes, in words from its offset. */
  function Written(n: Need): set<nat> {
    if n.gd || n.ie then (if n.gd then {0, 1} else {}) + (if n.ie then {if n.gd then 2 else 0} else {})
    else {0}
  }

  function Total(needs: seq<Need>): nat {
    if needs == [] then 0 else Total(needs[..|needs| - 1]) + Words(needs[|needs| - 1])
  }

  /** The first word of symbol `i`: after the header word and what came before it. */
  function Slot(needs: seq<Need>, i: nat): nat
    requires i <= |needs|
  {
    1 + Total(needs[..i])
  }

  function Offset(word: WordSize, needs: seq<Need>, i: nat): nat
    requires i <= |needs|
  {
    word * Slot(needs, i)
  }

  lemma SlotStep(needs: seq<Need>, i: nat)
    requires i < |needs|
    ensures Slot(needs, i + 1) == Slot(needs, i) + Words(needs[i])
  {
    assert needs[..i + 1][..i] == needs[..i];
  }

  lemma {:induction false} SlotsGrow(needs: seq<Need>, i: nat, j: nat)
    requires i <= j <= |needs|
    ensures Slot(needs, i) <= Slot(needs, j)
    decreases j - i
  {
    if i < j {
      SlotStep(needs, i);
      SlotsGrow(needs, i + 1, j);
    }
  }

  lemma Scaled(word: WordSize, a: nat, b: nat)
    ensures a <= b ==> word * a <= word * b
    ensures word * (a + b) == word * a + word * b
    ensures word * a % word == 0 && (word * a + 1) / 2 * 2 == word * a
  {
    if word == 4 {
      ByFour(a);
    } else {
      ByEight(a);
    }
  }

  lemma ByFour(a: nat)
    ensures 4 * a % 4 == 0 && (4 * a + 1) / 2 * 2 == 4 * a
  {
    Halves(2 * a);
  }

  lemma ByEight(a: nat)
    ensures 8 * a % 8 == 0 && (8 * a + 1) / 2 * 2 == 8 * a
  {
    Halves(4 * a);
  }

  lemma Halves(a: nat)
    ensures (2 * a + 1) / 2 == a
  {
  }

  /** The words of a symbol are aligned, before those of later symbols, and inside the section;
      bit 0 of an offset is free to mark it. */
  lemma SlotsAreApart(word: WordSize, needs: seq<Need>, i: nat, j: nat)
    requires i < |needs| && j < |needs|
    ensures Offset(word, needs, i) % word == 0 && Offset(word, needs, i) >= word
    ensures (Offset(word, needs, i) + 1) / 2 * 2 == Offset(word, needs, i)
    ensures Offset(word, needs, i) + word * Words(needs[i]) <= Offset(word, needs, |needs|)
    ensures i < j ==> Offset(word, needs, i) + word * Words(needs[i]) <= Offset(word, needs, j)
  {
    hide Total, Words;
    SlotStep(needs, i);
    SlotsGrow(needs, i + 1, |needs|);
    Scaled(word, Slot(needs, i), Words(needs[i]));
    Scaled(word, Slot(needs, i + 1), Slot(needs, |needs|));
    if i < j {
      SlotsGrow(needs, i + 1, j);
      Scaled(word, Slot(needs, i + 1), Slot(needs, j));
    }
    Scaled(word, 1, Slot(needs, i));
  }

  /** The words that a symbol has, counted from its offset. */
  function SetAside(n: Need): set<nat> {
    if Words(n) == 1 then {0} else if Words(n) == 2 then {0, 1} else {0, 1, 2}
  }

  /** Relocation writes the words that the symbol has, and only them, exactly when the symbol is
      not a local one with both kinds of thread-local access: that has two words, and the third
      write goes to whatever comes next. */
  lemma WritesStayInside(n: Need)
    ensures forall k: nat :: k in SetAside(n) <==> k < Words(n)
    ensures Written(n) == SetAside(n) <==> !(n.local && n.ie && n.gd)
    ensures n.local && n.ie && n.gd ==> 2 in Written(n) && 2 !in SetAside(n)
  {
    if n.local && n.ie && n.gd {
      assert 2 in Written(n) && 2 !in SetAside(n);
    } else {
      assert Written(n) == SetAside(n);
    }
  }

  // ---------------------------------------------------------------------------------------

  /** A global symbol. Offset -1 says that it has none. */
  class LinkSymbol {
    const indirect: bool
    const pltRefs: int
    const gotRefs: int
    const finishes: bool
    const gd: bool
    const ie: bool
    const regular: bool     // it is defined in a regular file
    var pltOffset: int
    var gotOffset: int

    /** Where it is defined in .plt, or -1 if it is defined where it was. */
    var definedInPlt: int

    /** What it asks for. */
    function Needs(): (needs: seq<Need>) {
      if !indirect && gotRefs > 0 then [Need(false, gd, ie)] else []
    }

    function Plts(created: bool): nat {
      if !indirect && created && pltRefs > 0 && finishes then 1 else 0
    }

    constructor (indirect: bool, pltRefs: int, gotRefs: int, finishes: bool, gd: bool, ie: bool, regular: bool)
      ensures this.indirect == indirect && this.pltRefs == pltRefs && this.gotRefs == gotRefs
      ensures this.finishes == finishes && this.gd == gd && this.ie == ie && this.regular == regular
    {
      this.indirect, this.pltRefs, this.gotRefs := indirect, pltRefs, gotRefs;
      this.finishes, this.gd, this.ie, this.regular := finishes, gd, ie, regular;
      pltOffset, gotOffset, definedInPlt := -1, -1, -1;
    }
  }

  /** Where PLT entry `k` is. */
  function PltOffset(k: nat): nat {
    PLT_HEADER_SIZE + PLT_ENTRY_SIZE * k
  }

  /** What all these symbols ask for, in order. */
  function GlobalNeeds(symbols: seq<LinkSymbol>): seq<Need> {
    if symbols == [] then [] else GlobalNeeds(symbols[..|symbols| - 1]) + symbols[|symbols| - 1].Needs()
  }

  function GlobalPlts(created: bool, symbols: seq<LinkSymbol>): nat {
    if symbols == [] then 0 else GlobalPlts(created, symbols[..|symbols| - 1]) + symbols[|symbols| - 1].Plts(created)
  }

  datatype LocalTls = LocalTls(gd: bool, ie: bool)

  /** The needs of the first `n` local symbols that are referred to. */
  function LocalNeeds(refs: seq<int>, tls: seq<LocalTls>, n: nat): seq<Need>
    requires n <= |refs| == |tls|
  {
    if n == 0 then [] else
      LocalNeeds(refs, tls, n - 1) + if refs[n - 1] > 0 then [Need(true, tls[n - 1].gd, tls[n - 1].ie)] else []
  }

  /** The offset of a local symbol: that of its need, among those from before and of its file. */
  function LocalOffset(word: WordSize, before: seq<Need>, refs: seq<int>, tls: seq<LocalTls>, i: nat): int
    requires i < |refs| == |tls|
  {
    var needs := before + LocalNeeds(refs, tls, i);
    if refs[i] > 0 then Offset(word, needs, |needs|) else -1
  }

  lemma LocalStart(before: seq<Need>, refs: seq<int>, tls: seq<LocalTls>)
    requires |refs| == |tls|
    ensures before + LocalNeeds(refs, tls, 0) == before
  {
  }

  lemma LocalStep(word: WordSize, before: seq<Need>, refs: seq<int>, tls: seq<LocalTls>, i: nat)
    requires i < |refs| == |tls|
    ensures var needs := before + LocalNeeds(refs, tls, i);
            before + LocalNeeds(refs, tls, i + 1)
            == if refs[i] > 0 then needs + [Need(true, tls[i].gd, tls[i].ie)] else needs
  {
  }

  class DynamicSections {
    const word: WordSize
    const created: bool
    const shared: bool
    var got: nat
    var plt: nat
    var gotPlt: nat
    var relaPlt: nat

    /** What has been asked for so far, in order. */
    ghost var needs: seq<Need>
    ghost var plts: nat

    ghost predicate Valid()
      reads this
    {
      && got == Offset(word, needs, |needs|)
      && plt == (if plts == 0 then 0 else PLT_HEADER_SIZE + PLT_ENTRY_SIZE * plts)
      && gotPlt == word * (2 + plts)
      && relaPlt == 3 * word * plts
    }

    constructor (word: WordSize, created: bool, shared: bool)
      ensures Valid() && this.word == word && this.created == created && this.shared == shared
      ensures needs == [] && plts == 0
    {
      this.word, this.created, this.shared := word, created, shared;
      got, plt, gotPlt, relaPlt := word, 0, 2 * word, 0;
      needs, plts := [], 0;
    }

    /** The local symbols of one file: reference counts become offsets. */
    method SizeLocals(localGot: array<int>, tls: seq<LocalTls>)
      requires Valid() && localGot.Length == |tls|
      modifies this, localGot
      ensures Valid() && plts == old(plts)
      ensures needs == old(needs) + LocalNeeds(old(localGot[..]), tls, localGot.Length)
      ensures forall i :: 0 <= i < localGot.Length ==>
                localGot[i] == LocalOffset(word, old(needs), old(localGot[..]), tls, i)
    {
      hide Offset, LocalNeeds, Words;
      ghost var before, refs := needs, localGot[..];
      var i := 0;
      LocalStart(before, refs, tls);
      while i < localGot.Length
        invariant 0 <= i <= localGot.Length && plts == old(plts)
        invariant Valid() && needs == before + LocalNeeds(refs, tls, i)
        invariant forall j :: i <= j < localGot.Length ==> localGot[j] == refs[j]
        invariant forall j :: 0 <= j < i ==> localGot[j] == LocalOffset(word, before, refs, tls, j)
      {
        ghost var need := Need(true, tls[i].gd, tls[i].ie);
        LocalStep(word, before, refs, tls, i);
        OneMore(word, needs, need);
        if localGot[i] > 0 {
          localGot[i] := got;
          got := got + word;
          if tls[i].gd {
            got := got + word;
          }
          needs := needs + [need];
        } else {
          localGot[i] := -1;
        }
        i := i + 1;
      }
    }

    /** allocate_dynrelocs, as far as these sections go. */
    method Allocate(h: LinkSymbol)
      requires Valid()
      modifies this, h
      ensures Valid()
      ensures needs == old(needs) + h.Needs() && plts == old(plts) + h.Plts(created)
      ensures h.indirect ==> h.gotOffset == old(h.gotOffset) && h.pltOffset == old(h.pltOffset)
      ensures !h.indirect ==>
                && h.pltOffset == (if h.Plts(created) > 0 then PltOffset(old(plts)) else -1)
                && h.gotOffset == (if h.gotRefs > 0 then Offset(word, old(needs), |old(needs)|) else -1)
    {
      if h.indirect {
        return;
      }
      AllocatePlt(h);
      AllocateGot(h);
    }

    method AllocatePlt(h: LinkSymbol)
      requires Valid()
      modifies `plt, `gotPlt, `relaPlt, `plts, h`pltOffset, h`definedInPlt
      ensures Valid()
      ensures var wantsPlt := created && h.pltRefs > 0 && h.finishes;
              && plts == old(plts) + (if wantsPlt then 1 else 0)
              && h.pltOffset == (if wantsPlt then PltOffset(old(plts)) else -1)
              && h.definedInPlt == (if wantsPlt && !shared && !h.regular then h.pltOffset else old(h.definedInPlt))
    {
      hide Offset;
      if created && h.pltRefs > 0 {
        if h.finishes {
          if plt == 0 {
            plt := PLT_HEADER_SIZE;
          }
          h.pltOffset := plt;
          plt := plt + PLT_ENTRY_SIZE;
          gotPlt := gotPlt + word;
          relaPlt := relaPlt + 3 * word;
          plts := plts + 1;
          if !shared && !h.regular {
            h.definedInPlt := h.pltOffset;
          }
        } else {
          h.pltOffset := -1;
        }
      } else {
        h.pltOffset := -1;
      }
    }

    method AllocateGot(h: LinkSymbol)
      requires Valid()
      modifies `got, `needs, h`gotOffset
      ensures Valid()
      ensures needs == old(needs) + (if h.gotRefs > 0 then [Need(false, h.gd, h.ie)] else [])
      ensures h.gotOffset == if h.gotRefs > 0 then Offset(word, old(needs), |old(needs)|) else -1
    {
      hide Offset;
      if h.gotRefs > 0 {
        h.gotOffset := got;
        if h.gd || h.ie {
          if h.gd {
            got := got + 2 * word;
          }
          if h.ie {
            got := got + word;
          }
        } else {
          got := got + word;
        }
        OneMore(word, needs, Need(false, h.gd, h.ie));
        needs := needs + [Need(false, h.gd, h.ie)];
      } else {
        h.gotOffset := -1;
      }
    }

    /** Everything that asks for space: the local symbols of all files, and then all global
        symbols. Every offset is that of the symbol's own words or entry, in the final sections. */
    method LayOut(gots: seq<array<int>>, tls: seq<seq<LocalTls>>, symbols: seq<LinkSymbol>, ghost refs: seq<seq<int>>)
      requires Valid() && needs == [] && plts == 0
      requires |refs| == |gots| == |tls|
      requires forall f :: 0 <= f < |gots| ==> gots[f][..] == refs[f] && gots[f].Length == |tls[f]|
      requires forall f, g :: 0 <= f < g < |gots| ==> gots[f] != gots[g]
      requires forall i, j :: 0 <= i < j < |symbols| ==> symbols[i] != symbols[j]
      modifies this, symbols, gots
      ensures Valid() && needs == AllLocals(refs, tls, |refs|) + GlobalNeeds(symbols)
      ensures plts == GlobalPlts(created, symbols)
      ensures forall f, i :: 0 <= f < |gots| && 0 <= i < gots[f].Length ==>
                LocalPlaced(word, needs, refs, tls, f, i, gots[f][i])
      ensures forall j :: 0 <= j < |symbols| && !symbols[j].indirect ==>
                SymbolPlaced(word, needs, AllLocals(refs, tls, |refs|), created, symbols, j,
                             symbols[j].gotOffset, symbols[j].pltOffset)
    {
      hide Offset, LocalOffset, LocalPlaced, SymbolPlaced, LocalNeeds;
      SizeAllLocals(gots, tls, refs);
      AllocateAll(symbols, AllLocals(refs, tls, |refs|));
      forall f, i | 0 <= f < |gots| && 0 <= i < gots[f].Length
        ensures LocalPlaced(word, needs, refs, tls, f, i, gots[f][i])
      {
        LocalStays(word, refs, tls, f, i, GlobalNeeds(symbols));
      }
    }

    method SizeAllLocals(gots: seq<array<int>>, tls: seq<seq<LocalTls>>, ghost refs: seq<seq<int>>)
      requires Valid() && needs == [] && plts == 0
      requires |refs| == |gots| == |tls|
      requires forall f :: 0 <= f < |gots| ==> gots[f][..] == refs[f] && gots[f].Length == |tls[f]|
      requires forall f, g :: 0 <= f < g < |gots| ==> gots[f] != gots[g]
      modifies this, gots
      ensures Valid() && needs == AllLocals(refs, tls, |refs|) && plts == 0
      ensures forall f, i :: 0 <= f < |gots| && 0 <= i < gots[f].Length ==>
                gots[f][i] == LocalOffset(word, AllLocals(refs, tls, f), refs[f], tls[f], i)
    {
      hide Offset, LocalOffset, LocalNeeds;
      for f := 0 to |gots|
        invariant Valid() && needs == AllLocals(refs, tls, f) && plts == 0
        invariant forall g :: f <= g < |gots| ==> gots[g][..] == refs[g]
        invariant forall g, i :: 0 <= g < f && 0 <= i < gots[g].Length ==>
                    gots[g][i] == LocalOffset(word, AllLocals(refs, tls, g), refs[g], tls[g], i)
      {
        SizeLocals(gots[f], tls[f]);
      }
    }

    method AllocateAll(symbols: seq<LinkSymbol>, ghost locals: seq<Need>)
      requires Valid() && needs == locals && plts == 0
      requires forall i, j :: 0 <= i < j < |symbols| ==> symbols[i] != symbols[j]
      modifies this, symbols
      ensures Valid() && needs == locals + GlobalNeeds(symbols) && plts == GlobalPlts(created, symbols)
      ensures forall j :: 0 <= j < |symbols| && !symbols[j].indirect ==>
                SymbolPlaced(word, needs, locals, created, symbols, j, symbols[j].gotOffset, symbols[j].pltOffset)
    {
      hide Offset, SymbolPlaced;
      assert symbols[..0] == [];
      for j := 0 to |symbols|
        invariant Valid() && needs == locals + GlobalNeeds(symbols[..j]) && plts == GlobalPlts(created, symbols[..j])
        invariant forall i :: 0 <= i < j && !symbols[i].indirect ==>
                    SymbolPlaced(word, needs, locals, created, symbols, i, symbols[i].gotOffset, symbols[i].pltOffset)
      {
        ghost var before := needs;
        Allocate(symbols[j]);
        NextSymbol(before, needs, locals, created, symbols, j);
        forall i | 0 <= i < j && !symbols[i].indirect
          ensures SymbolPlaced(word, needs, locals, created, symbols, i, symbols[i].gotOffset, symbols[i].pltOffset)
        {
          assert symbols[i] != symbols[j];
          SymbolStays(word, before, needs, locals, created, symbols, i, symbols[i].gotOffset, symbols[i].pltOffset);
        }
        if !symbols[j].indirect {
          IsPlaced(word, before, needs, locals, created, symbols, j, symbols[j].gotOffset, symbols[j].pltOffset);
        }
      }
      assert symbols[..|symbols|] == symbols;
    }

    /** finish_dynamic_symbol for all symbols with PLT entries: the .got.plt word and the .rela.plt
        record of each. */
    method FinishPlts(symbols: seq<LinkSymbol>, ghost locals: seq<Need>) returns (slots: seq<int>, records: seq<int>)
      requires Valid() && plts == GlobalPlts(created, symbols)
      requires forall j :: 0 <= j < |symbols| && !symbols[j].indirect ==>
                 SymbolPlaced(word, needs, locals, created, symbols, j, symbols[j].gotOffset, symbols[j].pltOffset)
      ensures |slots| == |records| == |symbols|
      ensures forall j :: 0 <= j < |symbols| ==> PltFinished(symbols, j, slots[j], records[j])
    {
      hide PltFinished, Valid, SymbolPlaced;
      slots, records := [], [];
      for j := 0 to |symbols|
        invariant |slots| == |records| == j
        invariant forall i :: 0 <= i < j ==> PltFinished(symbols, i, slots[i], records[i])
      {
        var slot, record := FinishPlt(symbols, j, locals);
        slots, records := slots + [slot], records + [record];
      }
    }

    /** Symbol `j`, if it is to have a PLT entry, has that with the number of those before it: all of
        it is inside .plt, and so are the word and the record with that number. */
    ghost predicate PltFinished(symbols: seq<LinkSymbol>, j: nat, slot: int, record: int)
      requires j < |symbols|
      reads this, symbols
    {
      var k := GlobalPlts(created, symbols[..j]);
      if symbols[j].Plts(created) == 0 then slot == record == -1
      else
        && k < plts && symbols[j].pltOffset == PltOffset(k) && PltOffset(k) + PLT_ENTRY_SIZE <= plt
        && slot == word * (2 + k) && slot + word <= gotPlt
        && record == 3 * word * k && record + 3 * word <= relaPlt
    }

    /** finish_dynamic_symbol for one symbol. */
    method FinishPlt(symbols: seq<LinkSymbol>, j: nat, ghost locals: seq<Need>) returns (slot: int, record: int)
      requires Valid() && j < |symbols| && plts == GlobalPlts(created, symbols)
      requires !symbols[j].indirect ==>
                 SymbolPlaced(word, needs, locals, created, symbols, j, symbols[j].gotOffset, symbols[j].pltOffset)
      ensures PltFinished(symbols, j, slot, record)
    {
      hide Offset;
      slot, record := -1, -1;
      if !symbols[j].indirect && symbols[j].pltOffset != -1 {
        var index := (symbols[j].pltOffset - PLT_HEADER_SIZE) / PLT_ENTRY_SIZE;
        slot := 2 * word + index * word;
        record := index * (3 * word);
      }
    }
  }

  /** The needs of the local symbols of the first `f` files. */
  function AllLocals(refs: seq<seq<int>>, tls: seq<seq<LocalTls>>, f: nat): seq<Need>
    requires f <= |refs| == |tls| && forall g :: 0 <= g < |refs| ==> |refs[g]| == |tls[g]|
  {
    if f == 0 then [] else AllLocals(refs, tls, f - 1) + LocalNeeds(refs[f - 1], tls[f - 1], |refs[f - 1]|)
  }

  /** Local symbol `i` of file `f` has offset `offset`: that of its own need among all. */
  ghost predicate LocalPlaced(word: WordSize, needs: seq<Need>, refs: seq<seq<int>>, tls: seq<seq<LocalTls>>,
                              f: nat, i: nat, offset: int)
    requires f < |refs| == |tls| && (forall g :: 0 <= g < |refs| ==> |refs[g]| == |tls[g]|) && i < |refs[f]|
  {
    var n := |AllLocals(refs, tls, f)| + |LocalNeeds(refs[f], tls[f], i)|;
    if refs[f][i] > 0 then
      n < |needs| && needs[n] == Need(true, tls[f][i].gd, tls[f][i].ie) && offset == Offset(word, needs, n)
    else offset == -1
  }

  /** Global symbol `j` has its own GOT words and PLT entry, if it asks for them. */
  ghost predicate SymbolPlaced(word: WordSize, needs: seq<Need>, locals: seq<Need>, created: bool,
                               symbols: seq<LinkSymbol>, 
                               j: nat, gotOffset: int, pltOffset: int)
    requires j < |symbols|
  {
    var n, k := |locals| + |GlobalNeeds(symbols[..j])|, GlobalPlts(created, symbols[..j]);
    && (if symbols[j].Needs() == [] then gotOffset == -1
        else n < |needs| && needs[n] == symbols[j].Needs()[0] && gotOffset == Offset(word, needs, n))
    && (if symbols[j].Plts(created) == 0 then pltOffset == -1
        else k < GlobalPlts(created, symbols) && pltOffset == PltOffset(k))
  }

  /** What has been given out stays where it is when more is. */
  lemma PrefixOffset(word: WordSize, before: seq<Need>, more: seq<Need>, n: nat)
    requires n <= |before|
    ensures Offset(word, before + more, n) == Offset(word, before, n)
  {
    assert (before + more)[..n] == before[..n];
  }

  lemma LocalStays(word: WordSize, refs: seq<seq<int>>, tls: seq<seq<LocalTls>>, f: nat, i: nat, more: seq<Need>)
    requires f < |refs| == |tls| && (forall g :: 0 <= g < |refs| ==> |refs[g]| == |tls[g]|) && i < |refs[f]|
    ensures LocalPlaced(word, AllLocals(refs, tls, |refs|) + more, refs, tls, f, i,
                        LocalOffset(word, AllLocals(refs, tls, f), refs[f], tls[f], i))
  {
    var rest := MoreLocals(refs[f], tls[f], i, |refs[f]|);
    var others := MoreFiles(refs, tls, f + 1, |refs|);
    FileNeeds(refs, tls, f);
    hide AllLocals, LocalNeeds, Offset;
    var earlier := AllLocals(refs, tls, f) + LocalNeeds(refs[f], tls[f], i);
    Regroup(AllLocals(refs, tls, f), LocalNeeds(refs[f], tls[f], i), rest, others, more);
    PrefixOffset(word, earlier, rest + others + more, |earlier|);
    if refs[f][i] > 0 {
      NextIs(earlier, rest, others, more);
    }
  }

  lemma FileNeeds(refs: seq<seq<int>>, tls: seq<seq<LocalTls>>, f: nat)
    requires f < |refs| == |tls| && forall g :: 0 <= g < |refs| ==> |refs[g]| == |tls[g]|
    ensures AllLocals(refs, tls, f + 1) == AllLocals(refs, tls, f) + LocalNeeds(refs[f], tls[f], |refs[f]|)
  {
  }

  lemma NextIs<E>(a: seq<E>, b: seq<E>, c: seq<E>, d: seq<E>)
    requires b != []
    ensures |a| < |a + (b + c + d)| && (a + (b + c + d))[|a|] == b[0]
  {
  }

  lemma Regroup<E>(a: seq<E>, b: seq<E>, c: seq<E>, d: seq<E>, e: seq<E>)
    ensures a + (b + c) + d + e == a + b + (c + d + e)
  {
  }

  lemma {:induction false} MoreLocals(refs: seq<int>, tls: seq<LocalTls>, i: nat, n: nat) returns (rest: seq<Need>)
    requires i <= n <= |refs| == |tls|
    ensures LocalNeeds(refs, tls, n) == LocalNeeds(refs, tls, i) + rest
    ensures i < n && refs[i] > 0 ==> rest != [] && rest[0] == Need(true, tls[i].gd, tls[i].ie)
  {
    if i == n {
      rest := [];
    } else {
      rest := MoreLocals(refs, tls, i, n - 1);
      rest := rest + if refs[n - 1] > 0 then [Need(true, tls[n - 1].gd, tls[n - 1].ie)] else [];
    }
  }

  lemma {:induction false} MoreFiles(refs: seq<seq<int>>, tls: seq<seq<LocalTls>>, f: nat,
                                     n: nat) returns (rest: seq<Need>)
    requires f <= n <= |refs| == |tls| && forall g :: 0 <= g < |refs| ==> |refs[g]| == |tls[g]|
    ensures AllLocals(refs, tls, n) == AllLocals(refs, tls, f) + rest
  {
    if f == n {
      rest := [];
    } else {
      rest := MoreFiles(refs, tls, f, n - 1);
      rest := rest + LocalNeeds(refs[n - 1], tls[n - 1], |refs[n - 1]|);
    }
  }

  lemma NextSymbol(before: seq<Need>, needs: seq<Need>, locals: seq<Need>, created: bool, symbols: seq<LinkSymbol>,
                   j: nat)
    requires j < |symbols| && before == locals + GlobalNeeds(symbols[..j]) && needs == before + symbols[j].Needs()
    ensures needs == locals + GlobalNeeds(symbols[..j + 1])
    ensures GlobalPlts(created, symbols[..j + 1]) == GlobalPlts(created, symbols[..j]) + symbols[j].Plts(created)
  {
    assert symbols[..j + 1][..j] == symbols[..j];
  }

  lemma {:induction false} PltsGrow(created: bool, symbols: seq<LinkSymbol>, i: nat)
    requires i < |symbols|
    ensures GlobalPlts(created, symbols[..i]) + symbols[i].Plts(created) <= GlobalPlts(created, symbols)
    decreases |symbols|
  {
    var n := |symbols| - 1;
    if i < n {
      PltsGrow(created, symbols[..n], i);
      assert symbols[..n][..i] == symbols[..i];
    }
  }

  lemma SymbolStays(word: WordSize, before: seq<Need>, needs: seq<Need>, locals: seq<Need>, created: bool,
                    symbols: seq<LinkSymbol>, i: nat, gotOffset: int, pltOffset: int)
    requires i < |symbols| && SymbolPlaced(word, before, locals, created, symbols, i, gotOffset, pltOffset)
    requires before <= needs
    ensures SymbolPlaced(word, needs, locals, created, symbols, i, gotOffset, pltOffset)
  {
    var n := |locals| + |GlobalNeeds(symbols[..i])|;
    if symbols[i].Needs() != [] {
      assert needs == before + needs[|before|..];
      PrefixOffset(word, before, needs[|before|..], n);
    }
  }

  lemma IsPlaced(word: WordSize, before: seq<Need>, needs: seq<Need>, locals: seq<Need>, created: bool,
                 symbols: seq<LinkSymbol>, j: nat, gotOffset: int, pltOffset: int)
    requires j < |symbols| && before == locals + GlobalNeeds(symbols[..j]) && needs == before + symbols[j].Needs()
    requires pltOffset == if symbols[j].Plts(created) > 0 then PltOffset(GlobalPlts(created, symbols[..j])) else -1
    requires gotOffset == if symbols[j].Needs() != [] then Offset(word, before, |before|) else -1
    ensures SymbolPlaced(word, needs, locals, created, symbols, j, gotOffset, pltOffset)
  {
    PltsGrow(created, symbols, j);
    PrefixOffset(word, before, symbols[j].Needs(), |before|);
  }

  lemma OneMore(word: WordSize, needs: seq<Need>, n: Need)
    ensures Offset(word, needs + [n], |needs| + 1) ==
            Offset(word, needs, |needs|) +
            (if n.local then word + (if n.gd then word else 0)
             else if n.gd || n.ie then (if n.gd then 2 * word else 0) + (if n.ie then word else 0)
             else word)
  {
    assert (needs + [n])[..|needs|] == needs && needs[..|needs|] == needs;
    SlotStep(needs + [n], |needs|);
    Scaled(word, Slot(needs, |needs|), Words(n));
    assert word * 1 == word && word * 2 == 2 * word && word * 3 == 3 * word;
  }
}
