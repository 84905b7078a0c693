/** The two halves together: the words that references get when the sections have been laid out. */
module GotLinks {
  import opened GotPlts
  import opened GotContents

  /** A reference through the GOT: to local symbol `symbol` of a file, or to a global symbol. */
  datatype LinkRef = LocalRef(file: nat, symbol: nat, access: Access) | GlobalRef(symbol: nat, access: Access)

  /** What all symbols ask for, in the order it is given out. */
  function AllNeeds(counts: seq<seq<int>>, tls: seq<seq<LocalTls>>, symbols: seq<LinkSymbol>): seq<Need>
    requires SameShape(counts, tls)
  {
    AllLocals(counts, tls, |counts|) + GlobalNeeds(symbols)
  }

  predicate SameShape(counts: seq<seq<int>>, tls: seq<seq<LocalTls>>) {
    |counts| == |tls| && forall f :: 0 <= f < |counts| ==> |counts[f]| == |tls[f]|
  }

  /** The symbol has been counted when the relocations were checked, and the access recorded. */
  predicate Checked(counts: seq<seq<int>>, tls: seq<seq<LocalTls>>, symbols: seq<LinkSymbol>, r: LinkRef)
    requires SameShape(counts, tls)
  {
    match r
    case LocalRef(f, i, access) =>
      f < |counts| && i < |counts[f]| && counts[f][i] > 0 && Recorded(Need(true, tls[f][i].gd, tls[f][i].ie), access)
    case GlobalRef(j, access) =>
      j < |symbols| && symbols[j].Needs() != [] && Recorded(Need(false, symbols[j].gd, symbols[j].ie), access)
  }

  /** The same reference, with its symbol counted among all that have needs. */
  function Numbered(counts: seq<seq<int>>, tls: seq<seq<LocalTls>>, symbols: seq<LinkSymbol>, r: LinkRef): (n: Ref)
    requires SameShape(counts, tls) && Checked(counts, tls, symbols, r)
    ensures n.access == r.access
  {
    match r
    case LocalRef(f, i, access) => Ref(|AllLocals(counts, tls, f)| + |LocalNeeds(counts[f], tls[f], i)|, access)
    case GlobalRef(j, access) => Ref(|AllLocals(counts, tls, |counts|)| + |GlobalNeeds(symbols[..j])|, access)
  }

  function AllNumbered(counts: seq<seq<int>>, tls: seq<seq<LocalTls>>, symbols: seq<LinkSymbol>,
                       refs: seq<LinkRef>): seq<Ref>
    requires SameShape(counts, tls) && forall k :: 0 <= k < |refs| ==> Checked(counts, tls, symbols, refs[k])
  {
    seq(|refs|, k requires 0 <= k < |refs| => Numbered(counts, tls, symbols, refs[k]))
  }

  predicate Known(tls: seq<seq<LocalTls>>, symbols: seq<LinkSymbol>, r: LinkRef) {
    if r.LocalRef? then r.file < |tls| && r.symbol < |tls[r.file]| else r.symbol < |symbols|
  }

  /** What the symbol of a reference asks for. */
  function NeedOf(tls: seq<seq<LocalTls>>, symbols: seq<LinkSymbol>, r: LinkRef): Need
    requires Known(tls, symbols, r)
  {
    match r
    case LocalRef(f, i, _) => Need(true, tls[f][i].gd, tls[f][i].ie)
    case GlobalRef(j, _) => Need(false, symbols[j].gd, symbols[j].ie)
  }

  /** Space is laid out for all symbols, and then any references to them are relocated. Each is given
      the address of its own symbol's words, where laying out put them; and all words are written in
      their own symbol's space if and only if no reference is to a local symbol with both kinds of
      thread-local access. Then each is written once, inside the section, with its value. */
  method LayOutAndRelocate(sections: DynamicSections, gots: seq<array<int>>, counts: seq<seq<int>>,
                           tls: seq<seq<LocalTls>>, symbols: seq<LinkSymbol>, targets: seq<Target>, refs: seq<LinkRef>)
    returns (section: GotSection, addresses: seq<nat>)
    requires sections.Valid() && sections.needs == [] && sections.plts == 0
    requires SameShape(counts, tls) && |gots| == |counts| && forall f :: 0 <= f < |gots| ==> gots[f][..] == counts[f]
    requires forall f, g :: 0 <= f < g < |gots| ==> gots[f] != gots[g]
    requires forall i, j :: 0 <= i < j < |symbols| ==> symbols[i] != symbols[j]
    requires |targets| == |AllNeeds(counts, tls, symbols)|
    requires forall k :: 0 <= k < |refs| ==> Checked(counts, tls, symbols, refs[k])
    modifies sections, symbols, gots
    ensures fresh(section) && section.Valid() && section.word == sections.word
    ensures section.needs == AllNeeds(counts, tls, symbols) && section.targets == targets
    ensures sections.got == section.word * Slot(section.needs, |section.needs|)
    ensures section.marked == Met(section.needs, targets, AllNumbered(counts, tls, symbols, refs))
    ensures NoneCrowded(tls, refs) <==>
            forall p :: p in section.written ==>
              p.0 < |section.needs| && Owns(section.needs, p.0, Word(section.needs, p))
    ensures NoneCrowded(tls, refs) ==>
              && (forall p :: p in section.written ==>
                   && HoldsValue(section.word, section.needs, targets, section.memory[..], p)
                   && Word(section.needs, p) < Slot(section.needs, |section.needs|))
              && WrittenOnce(section.needs, section.written)
    ensures |addresses| == |refs| && forall x :: 0 <= x < |section.start| ==> section.start[x] == 0
    ensures NoneCrowded(tls, refs) ==> forall k :: 0 <= k < |refs| ==>
              Arrives(section.word, section.needs, targets, AllNumbered(counts, tls, symbols, refs)[k], section.start,
                      section.memory[..], addresses[k])
    ensures forall k :: 0 <= k < |refs| ==>
              addresses[k] == LinkOffset(gots, symbols, refs[k])
                              + section.word * Used(NeedOf(tls, symbols, refs[k]), refs[k].access)
  {
    hide Numbered, NeedOf, Offset, Slot, AllLocals, GlobalNeeds, Met, NoneCrowded, Used, Recorded, Owns, Word;
    hide ReferenceFinds, HoldsValue, WrittenOnce, AddressIsRight, LinkOffset, LaidOut, Filled, LocalPlaced,
         SymbolPlaced;
    var word, needs, numbered := sections.word, AllNeeds(counts, tls, symbols), AllNumbered(counts, tls, symbols, refs);
    var offsets := LayOutAll(sections, gots, counts, tls, symbols);
    forall k | 0 <= k < |refs|
      ensures RefPlaced(word, needs, tls, symbols, refs[k], numbered[k].symbol, LinkOffset(gots, symbols, refs[k]))
      ensures numbered[k].symbol < |needs| && Recorded(needs[numbered[k].symbol], numbered[k].access)
    {
      PlacedAt(word, gots, counts, tls, symbols, sections.created, refs[k]);
    }
    Space(word, needs);
    var memory := new nat[sections.got / word + 1](_ => 0);
    section := new GotSection(word, needs, targets, memory, offsets);
    addresses := section.RelocateAll(numbered);
    CrowdedIsMet(needs, targets, tls, symbols, refs, numbered);
    forall k | 0 <= k < |refs|
      ensures addresses[k] == LinkOffset(gots, symbols, refs[k])
                              + word * Used(NeedOf(tls, symbols, refs[k]), refs[k].access)
    {
      AddressFrom(word, needs, tls, symbols, refs[k], numbered[k], LinkOffset(gots, symbols, refs[k]), addresses[k]);
    }
  }

  /** The reference finds what it should at `address`. */
  ghost predicate Arrives(word: WordSize, needs: seq<Need>, targets: seq<Target>, r: Ref, start: seq<nat>,
                          memory: seq<nat>, address: nat)
  {
    r.symbol < |needs| == |targets| && ReferenceFinds(word, needs, targets, r, start, memory, address)
  }

  method LayOutAll(sections: DynamicSections, gots: seq<array<int>>, counts: seq<seq<int>>,
                   tls: seq<seq<LocalTls>>, symbols: seq<LinkSymbol>) returns (offsets: array<nat>)
    requires sections.Valid() && sections.needs == [] && sections.plts == 0
    requires SameShape(counts, tls) && |gots| == |counts| && forall f :: 0 <= f < |gots| ==> gots[f][..] == counts[f]
    requires forall f, g :: 0 <= f < g < |gots| ==> gots[f] != gots[g]
    requires forall i, j :: 0 <= i < j < |symbols| ==> symbols[i] != symbols[j]
    modifies sections, symbols, gots
    ensures sections.got == Offset(sections.word, AllNeeds(counts, tls, symbols), |AllNeeds(counts, tls, symbols)|)
    ensures LaidOut(sections.word, sections.created, gots, counts, tls, symbols)
    ensures fresh(offsets) && offsets.Length == |AllNeeds(counts, tls, symbols)|
    ensures forall n :: 0 <= n < offsets.Length ==>
              offsets[n] == Offset(sections.word, AllNeeds(counts, tls, symbols), n)
  {
    hide Offset, AllLocals, GlobalNeeds, LocalPlaced, SymbolPlaced;
    sections.LayOut(gots, tls, symbols, counts);
    offsets := Offsets(sections.word, AllNeeds(counts, tls, symbols), gots, counts, tls, symbols, sections.created);
  }

  /** Every symbol is where laying out puts it. */
  ghost predicate LaidOut(word: WordSize, created: bool, gots: seq<array<int>>, counts: seq<seq<int>>,
                          tls: seq<seq<LocalTls>>, symbols: seq<LinkSymbol>)
    requires SameShape(counts, tls) && |gots| == |counts|
    reads gots, symbols
  {
    var needs := AllNeeds(counts, tls, symbols);
    && (forall f :: 0 <= f < |gots| ==> gots[f].Length == |counts[f]|)
    && (forall f, i :: 0 <= f < |gots| && 0 <= i < gots[f].Length ==>
          LocalPlaced(word, needs, counts, tls, f, i, gots[f][i]))
    && (forall j :: 0 <= j < |symbols| && !symbols[j].indirect ==>
          SymbolPlaced(word, needs, AllLocals(counts, tls, |counts|), created, symbols, j,
                       symbols[j].gotOffset, symbols[j].pltOffset))
  }

  /** The offsets of the symbols that have one, in order. */
  method Offsets(word: WordSize, ghost needs: seq<Need>, gots: seq<array<int>>, ghost counts: seq<seq<int>>,
                 ghost tls: seq<seq<LocalTls>>, symbols: seq<LinkSymbol>, ghost created: bool)
    returns (offsets: array<nat>)
    requires SameShape(counts, tls) && |gots| == |counts| && needs == AllNeeds(counts, tls, symbols)
    requires LaidOut(word, created, gots, counts, tls, symbols)
    ensures fresh(offsets) && offsets.Length == |needs|
    ensures forall n :: 0 <= n < |needs| ==> offsets[n] == Offset(word, needs, n)
  {
    hide Given, AllLocals, LocalNeeds, GlobalNeeds, LocalPlaced, SymbolPlaced, Offset;
    var all: seq<nat> := [];
    NoneGiven(word, counts, tls, symbols);
    for f := 0 to |gots|
      invariant Given(word, needs, all, |AllLocals(counts, tls, f)|)
    {
      LocalsStart(counts, tls, f);
      for i := 0 to gots[f].Length
        invariant Given(word, needs, all, |AllLocals(counts, tls, f)| + |LocalNeeds(counts[f], tls[f], i)|)
      {
        LocalGiven(word, needs, counts, tls, f, i, gots[f][i], all);
        if gots[f][i] != -1 {
          all := all + [gots[f][i]];
        }
      }
      FileNeeds(counts, tls, f);
    }
    for j := 0 to |symbols|
      invariant Given(word, needs, all, |AllLocals(counts, tls, |counts|)| + |GlobalNeeds(symbols[..j])|)
    {
      SymbolGiven(word, needs, AllLocals(counts, tls, |counts|), created, symbols, j, symbols[j].gotOffset,
                  symbols[j].pltOffset, all);
      if !symbols[j].indirect && symbols[j].gotOffset != -1 {
        all := all + [symbols[j].gotOffset];
      }
    }
    AllGiven(word, counts, tls, symbols, all);
    offsets := new nat[|all|](k requires 0 <= k < |all| => all[k]);
  }

  /** The first `n` offsets are there. */
  predicate Given(word: WordSize, needs: seq<Need>, offsets: seq<nat>, n: nat) {
    |offsets| == n <= |needs| && forall k :: 0 <= k < n ==> offsets[k] == Offset(word, needs, k)
  }

  /** No reference is to a local symbol with both kinds of thread-local access. */
  predicate NoneCrowded(tls: seq<seq<LocalTls>>, refs: seq<LinkRef>) {
    forall k :: 0 <= k < |refs| && refs[k].LocalRef? && refs[k].file < |tls| && refs[k].symbol < |tls[refs[k].file]| ==>
      !(tls[refs[k].file][refs[k].symbol].gd && tls[refs[k].file][refs[k].symbol].ie)
  }

  /** The offset that laying out left in a symbol. */
  function LinkOffset(gots: seq<array<int>>, symbols: seq<LinkSymbol>, r: LinkRef): int
    requires if r.LocalRef? then r.file < |gots| && r.symbol < gots[r.file].Length else r.symbol < |symbols|
    reads if r.LocalRef? && r.file < |gots| then {gots[r.file]} else {},
          if r.GlobalRef? && r.symbol < |symbols| then {symbols[r.symbol]} else {}
  {
    if r.LocalRef? then gots[r.file][r.symbol] else symbols[r.symbol].gotOffset
  }

  lemma NoneGiven(word: WordSize, counts: seq<seq<int>>, tls: seq<seq<LocalTls>>, symbols: seq<LinkSymbol>)
    requires SameShape(counts, tls)
    ensures Given(word, AllNeeds(counts, tls, symbols), [], |AllLocals(counts, tls, 0)|)
    ensures |AllLocals(counts, tls, |counts|)| + |GlobalNeeds(symbols[..0])| == |AllLocals(counts, tls, |counts|)|
  {
  }

  lemma LocalsStart(counts: seq<seq<int>>, tls: seq<seq<LocalTls>>, f: nat)
    requires SameShape(counts, tls) && f < |counts|
    ensures |counts[f]| == |tls[f]| && |LocalNeeds(counts[f], tls[f], 0)| == 0
  {
  }

  lemma LocalGiven(word: WordSize, needs: seq<Need>, counts: seq<seq<int>>, tls: seq<seq<LocalTls>>, f: nat, i: nat,
                   offset: int, all: seq<nat>)
    requires SameShape(counts, tls) && f < |counts| && i < |counts[f]|
    requires LocalPlaced(word, needs, counts, tls, f, i, offset)
    requires Given(word, needs, all, |AllLocals(counts, tls, f)| + |LocalNeeds(counts[f], tls[f], i)|)
    ensures offset >= -1
    ensures Given(word, needs, if offset != -1 then all + [offset] else all,
                  |AllLocals(counts, tls, f)| + |LocalNeeds(counts[f], tls[f], i + 1)|)
  {
    hide Offset, AllLocals;
  }

  lemma SymbolGiven(word: WordSize, needs: seq<Need>, locals: seq<Need>, created: bool, symbols: seq<LinkSymbol>,
  j: nat,
                    gotOffset: int, pltOffset: int, all: seq<nat>)
    requires j < |symbols|
    requires !symbols[j].indirect ==> SymbolPlaced(word, needs, locals, created, symbols, j, gotOffset, pltOffset)
    requires Given(word, needs, all, |locals| + |GlobalNeeds(symbols[..j])|)
    ensures !symbols[j].indirect ==> gotOffset >= -1
    ensures Given(word, needs, if !symbols[j].indirect && gotOffset != -1 then all + [gotOffset] else all,
                  |locals| + |GlobalNeeds(symbols[..j + 1])|)
  {
    assert symbols[..j + 1][..j] == symbols[..j];
    hide Offset;
  }

  lemma AllGiven(word: WordSize, counts: seq<seq<int>>, tls: seq<seq<LocalTls>>, symbols: seq<LinkSymbol>,
                 all: seq<nat>)
    requires SameShape(counts, tls)
    requires Given(word, AllNeeds(counts, tls, symbols), all,
                   |AllLocals(counts, tls, |counts|)| + |GlobalNeeds(symbols[..|symbols|])|)
    ensures |all| == |AllNeeds(counts, tls, symbols)|
    ensures forall n :: 0 <= n < |all| ==> all[n] == Offset(word, AllNeeds(counts, tls, symbols), n)
  {
    assert symbols[..|symbols|] == symbols;
    hide Offset, AllLocals, GlobalNeeds;
  }

  /** The symbol of a reference has its own need among all, and the offset is that of the need. */
  predicate RefPlaced(word: WordSize, needs: seq<Need>, tls: seq<seq<LocalTls>>, symbols: seq<LinkSymbol>, r: LinkRef,
                      number: nat, offset: int)
    requires Known(tls, symbols, r)
  {
    number < |needs| && needs[number] == NeedOf(tls, symbols, r) && offset == Offset(word, needs, number)
  }

  lemma PlacedAt(word: WordSize, gots: seq<array<int>>, counts: seq<seq<int>>, tls: seq<seq<LocalTls>>,
                 symbols: seq<LinkSymbol>, created: bool, r: LinkRef)
    requires SameShape(counts, tls) && |gots| == |counts| && Checked(counts, tls, symbols, r)
    requires LaidOut(word, created, gots, counts, tls, symbols)
    ensures RefPlaced(word, AllNeeds(counts, tls, symbols), tls, symbols, r, Numbered(counts, tls, symbols, r).symbol,
                      LinkOffset(gots, symbols, r))
    ensures Recorded(NeedOf(tls, symbols, r), Numbered(counts, tls, symbols, r).access)
  {
    hide Offset, AllLocals, GlobalNeeds, LocalNeeds;
  }

  lemma Space(word: WordSize, needs: seq<Need>)
    ensures Offset(word, needs, |needs|) == word * Slot(needs, |needs|)
    ensures Offset(word, needs, |needs|) / word == Slot(needs, |needs|)
  {
    Quotient(word, Slot(needs, |needs|));
  }

  /** A crowded symbol is met just when a reference is to such a local symbol. */
  lemma CrowdedIsMet(needs: seq<Need>, targets: seq<Target>, tls: seq<seq<LocalTls>>, symbols: seq<LinkSymbol>,
                     refs: seq<LinkRef>, numbered: seq<Ref>)
    requires |targets| == |needs| && |numbered| == |refs|
    requires forall k :: 0 <= k < |refs| ==> Known(tls, symbols, refs[k]) && numbered[k].symbol < |needs|
    requires forall k :: 0 <= k < |refs| ==> needs[numbered[k].symbol] == NeedOf(tls, symbols, refs[k])
    ensures Roomy(needs, Met(needs, targets, numbered)) <==> NoneCrowded(tls, refs)
  {
    if k :| 0 <= k < |refs| && Crowded(NeedOf(tls, symbols, refs[k])) {
      assert numbered[k].symbol in Met(needs, targets, numbered);
    }
  }

  lemma AddressFrom(word: WordSize, needs: seq<Need>, tls: seq<seq<LocalTls>>, symbols: seq<LinkSymbol>, r: LinkRef,
                    numbered: Ref, offset: int, address: nat)
    requires Known(tls, symbols, r) && RefPlaced(word, needs, tls, symbols, r, numbered.symbol, offset)
    requires numbered.access == r.access && AddressIsRight(word, needs, numbered, address)
    ensures address == offset + word * Used(NeedOf(tls, symbols, r), r.access)
  {
    hide NeedOf, Used, Slot;
    Scaled(word, Slot(needs, numbered.symbol), Used(needs[numbered.symbol], r.access));
  }
}
