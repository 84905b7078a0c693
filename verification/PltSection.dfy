/** How the linker writes .plt and .got.plt, and what calls through them do once they are laid out. */
module PltSections {
  import opened GotPlts
  import opened MachineWords
  import opened PcrelWords
  import opened PltCodes
  import opened Wrappers

  lemma WordAmong(code: seq<Byte>, at: nat, size: nat, i: nat)
    requires at + size <= |code| && i + 4 <= size
    ensures code[at + i..at + i + 4] == code[at..at + size][i..i + 4]
  {
    var part := code[at..at + size];
    var there, here := part[i..i + 4], code[at + i..at + i + 4];
    assert forall j :: 0 <= j < 4 ==> there[j] == here[j];
  }

  lemma WordsKept(before: seq<Byte>, after: seq<Byte>, at: nat, words: seq<Word32>)
    requires HasWords(before, at, words) && |after| == |before|
    requires after[at..at + 4 * |words|] == before[at..at + 4 * |words|]
    ensures HasWords(after, at, words)
  {
    forall i | 0 <= i < |words|
      ensures Word4(after[at + 4 * i..at + 4 * i + 4]) == words[i]
    {
      WordAmong(after, at, 4 * |words|, 4 * i);
      WordAmong(before, at, 4 * |words|, 4 * i);
    }
  }

  lemma OneMoreWord(code: seq<Byte>, at: nat, words: seq<Word32>, i: nat)
    requires i < |words| && HasWords(code, at, words[..i]) && at + 4 * i + 4 <= |code|
    requires code[at + 4 * i..at + 4 * i + 4] == Bytes4(words[i])
    ensures HasWords(code, at, words[..i + 1])
  {
    WordBack(words[i]);
    forall j | 0 <= j < i + 1
      ensures Word4(code[at + 4 * j..at + 4 * j + 4]) == words[..i + 1][j]
    {
      assert j < i ==> words[..i][j] == words[j];
    }
  }

  /** bfd_put_32 for each word. */
  method PutWords(contents: array<Byte>, at: nat, words: seq<Word32>)
    requires at + 4 * |words| <= contents.Length
    modifies contents
    ensures HasWords(contents[..], at, words)
    ensures contents[..at] == old(contents[..at])
    ensures contents[at + 4 * |words|..] == old(contents[at + 4 * |words|..])
  {
    hide HasWords, Spliced;
    ghost var was := contents[..];
    var i := 0;
    NoWords(was, at);
    while i < |words|
      invariant 0 <= i <= |words|
      invariant HasWords(contents[..], at, words[..i])
      invariant contents[..at] == was[..at] && contents[at + 4 * i..] == was[at + 4 * i..]
    {
      ghost var before := contents[..];
      Store(contents, at + 4 * i, Bytes4(words[i]));
      Stored(before, at, i, words, contents[..], was);
      i := i + 1;
    }
    assert words[..i] == words;
  }

  lemma NoWords(code: seq<Byte>, at: nat)
    requires at <= |code|
    ensures HasWords(code, at, [])
  {
  }

  lemma Stored(before: seq<Byte>, at: nat, i: nat, words: seq<Word32>, after: seq<Byte>, was: seq<Byte>)
    requires i < |words| && at + 4 * i + 4 <= |before| == |was|
    requires after == Spliced(before, at + 4 * i, Bytes4(words[i])) && HasWords(before, at, words[..i])
    requires before[..at] == was[..at] && before[at + 4 * i..] == was[at + 4 * i..]
    ensures HasWords(after, at, words[..i + 1])
    ensures after[..at] == was[..at] && after[at + 4 * i + 4..] == was[at + 4 * i + 4..]
  {
    hide HasWords;
    SplicedAt(before, at + 4 * i, Bytes4(words[i]), 0, at);
    SplicedAt(before, at + 4 * i, Bytes4(words[i]), at, at + 4 * i);
    SplicedAt(before, at + 4 * i, Bytes4(words[i]), at + 4 * i, at + 4 * i + 4);
    SplicedAt(before, at + 4 * i, Bytes4(words[i]), at + 4 * i + 4, |before|);
    assert |words[..i]| == i;
    WordsKept(before, after, at, words[..i]);
    OneMoreWord(after, at, words, i);
    assert was[at + 4 * i + 4..] == was[at + 4 * i..][4..];
    hide Spliced;
  }

  /** The words of entry `k`, when .plt is at `base` and .got.plt at `gotPlt`. */
  ghost function EntryWords(word: WordSize, base: nat, gotPlt: nat, k: nat): (words: seq<Word32>)
    requires base + PltOffset(k) < WORD && PltWord(word, gotPlt, k) < WORD
    ensures |words| == 4
  {
    Entry(word, PltWord(word, gotPlt, k), base + PltOffset(k))
  }

  /** Symbol `j`, if it is to have a PLT entry, has it in both sections. */
  ghost predicate EntryPut(created: bool, symbols: seq<LinkSymbol>, j: nat, word: WordSize, base: nat, gotPlt: nat,
                           code: seq<Byte>, slots: seq<nat>)
    requires j < |symbols|
  {
    symbols[j].Plts(created) > 0 ==>
      var k := GlobalPlts(created, symbols[..j]);
      && base + PltOffset(k) < WORD && PltWord(word, gotPlt, k) < WORD
      && HasWords(code, PltOffset(k), EntryWords(word, base, gotPlt, k))
      && 2 + k < |slots| && slots[2 + k] == base
  }

  /** Nothing but `size` bytes or words at `at` has changed. */
  ghost predicate OnlyAt<T>(before: seq<T>, after: seq<T>, at: nat, size: nat) {
    && at + size <= |before| == |after|
    && after[..at] == before[..at] && after[at + size..] == before[at + size..]
  }

  /** What the symbols before have is not written over. */
  lemma EntryStays(created: bool, symbols: seq<LinkSymbol>, i: nat, j: nat, word: WordSize, base: nat, gotPlt: nat,
                   code: seq<Byte>, slots: seq<nat>, codeAfter: seq<Byte>, slotsAfter: seq<nat>)
    requires i < j < |symbols| && EntryPut(created, symbols, i, word, base, gotPlt, code, slots)
    requires symbols[j].Plts(created) > 0
    requires OnlyAt(code, codeAfter, PltOffset(GlobalPlts(created, symbols[..j])), PLT_ENTRY_SIZE)
    requires OnlyAt(slots, slotsAfter, 2 + GlobalPlts(created, symbols[..j]), 1)
    ensures EntryPut(created, symbols, i, word, base, gotPlt, codeAfter, slotsAfter)
  {
    hide HasWords, EntryWords, PltWord;
    if symbols[i].Plts(created) > 0 {
      var k, l := GlobalPlts(created, symbols[..i]), GlobalPlts(created, symbols[..j]);
      PltsGrow(created, symbols[..j], i);
      assert symbols[..j][..i] == symbols[..i];
      var at := PltOffset(k);
      PrefixSlice(code, codeAfter, at, at + 16, PltOffset(l));
      WordsKept(code, codeAfter, at, EntryWords(word, base, gotPlt, k));
      assert slotsAfter[..2 + l][2 + k] == slots[..2 + l][2 + k];
    }
  }

  lemma PrefixSlice(code: seq<Byte>, after: seq<Byte>, from: nat, to: nat, at: nat)
    requires from <= to <= at <= |code| == |after| && after[..at] == code[..at]
    ensures after[from..to] == code[from..to]
  {
    assert after[from..to] == after[..at][from..to] && code[from..to] == code[..at][from..to];
  }

  /** finish_dynamic_symbol, as far as the entry goes. `slots` are the words of .got.plt. */
  method FinishEntry(d: DynamicSections, symbols: seq<LinkSymbol>, j: nat, base: Word, gotPlt: Word,
                     contents: array<Byte>, slots: array<nat>, ghost locals: seq<Need>)
    requires d.Valid() && d.plts == GlobalPlts(d.created, symbols) && j < |symbols|
    requires !symbols[j].indirect ==>
               SymbolPlaced(d.word, d.needs, locals, d.created, symbols, j, symbols[j].gotOffset, symbols[j].pltOffset)
    requires contents.Length == d.plt && slots.Length == 2 + d.plts
    requires base + d.plt <= WORD && gotPlt + d.gotPlt <= WORD
    modifies contents, slots
    ensures EntryPut(d.created, symbols, j, d.word, base, gotPlt, contents[..], slots[..])
    ensures symbols[j].Plts(d.created) == 0 ==> contents[..] == old(contents[..]) && slots[..] == old(slots[..])
    ensures symbols[j].Plts(d.created) > 0 ==>
              var k := GlobalPlts(d.created, symbols[..j]);
              && OnlyAt(old(contents[..]), contents[..], PltOffset(k), PLT_ENTRY_SIZE)
              && OnlyAt(old(slots[..]), slots[..], 2 + k, 1)
  {
    hide HasWords, SymbolPlaced, Entry, Offset;
    var slot, record := d.FinishPlt(symbols, j, locals);
    if slot != -1 {
      ghost var k := GlobalPlts(d.created, symbols[..j]);
      SlotIndex(d.word, k);
      PutWords(contents, symbols[j].pltOffset, Entry(d.word, gotPlt + slot, base + symbols[j].pltOffset));
      slots[slot / d.word] := base;
    }
  }

  lemma SlotIndex(word: WordSize, k: nat)
    ensures word * (2 + k) / word == 2 + k && word * (2 + k) == 2 * word + k * word
  {
    if word == 4 {
    } else {
    }
  }

  /** finish_dynamic_symbol for symbols with PLT entries, and what finish_dynamic_sections then
      puts before them. */
  method FinishSections(d: DynamicSections, symbols: seq<LinkSymbol>, base: Word, gotPlt: Word,
                        contents: array<Byte>, slots: array<nat>, ghost locals: seq<Need>)
    requires d.Valid() && d.plts == GlobalPlts(d.created, symbols)
    requires forall j :: 0 <= j < |symbols| && !symbols[j].indirect ==>
               SymbolPlaced(d.word, d.needs, locals, d.created, symbols, j, symbols[j].gotOffset, symbols[j].pltOffset)
    requires contents.Length == d.plt && slots.Length == 2 + d.plts
    requires base + d.plt <= WORD && gotPlt + d.gotPlt <= WORD
    modifies contents, slots
    ensures forall j :: 0 <= j < |symbols| ==>
              EntryPut(d.created, symbols, j, d.word, base, gotPlt, contents[..], slots[..])
    ensures d.plts > 0 ==> HasWords(contents[..], 0, Header(d.word, gotPlt, base))
    ensures slots[0] == Modulus(d.word) - 1 && slots[1] == 0
  {
    hide HasWords, SymbolPlaced, EntryPut, Offset, Header, OnlyAt;
    for j := 0 to |symbols|
      invariant forall i :: 0 <= i < j ==>
                  EntryPut(d.created, symbols, i, d.word, base, gotPlt, contents[..], slots[..])
    {
      ghost var code, words := contents[..], slots[..];
      FinishEntry(d, symbols, j, base, gotPlt, contents, slots, locals);
      if symbols[j].Plts(d.created) > 0 {
        forall i | 0 <= i < j
          ensures EntryPut(d.created, symbols, i, d.word, base, gotPlt, contents[..], slots[..])
        {
          EntryStays(d.created, symbols, i, j, d.word, base, gotPlt, code, words, contents[..], slots[..]);
        }
      }
    }
    ghost var code, words := contents[..], slots[..];
    if contents.Length > 0 {
      PutWords(contents, 0, Header(d.word, gotPlt, base));
    }
    slots[0], slots[1] := Modulus(d.word) - 1, 0;
    forall i | 0 <= i < |symbols|
      ensures EntryPut(d.created, symbols, i, d.word, base, gotPlt, contents[..], slots[..])
    {
      HeaderIsBefore(d.created, symbols, i, d.word, base, gotPlt, code, words, contents[..], slots[..]);
    }
  }

  lemma HeaderIsBefore(created: bool, symbols: seq<LinkSymbol>, i: nat, word: WordSize, base: nat, gotPlt: nat,
                       code: seq<Byte>, slots: seq<nat>, codeAfter: seq<Byte>, slotsAfter: seq<nat>)
    requires i < |symbols| && EntryPut(created, symbols, i, word, base, gotPlt, code, slots)
    requires |code| == |codeAfter| && |slots| == |slotsAfter| >= 2 && slots[2..] == slotsAfter[2..]
    requires |code| >= 32 ==> code[32..] == codeAfter[32..]
    ensures EntryPut(created, symbols, i, word, base, gotPlt, codeAfter, slotsAfter)
  {
    hide HasWords, EntryWords, PltWord;
    if symbols[i].Plts(created) > 0 {
      var k := GlobalPlts(created, symbols[..i]);
      var at := PltOffset(k);
      WordsInside(code, at, EntryWords(word, base, gotPlt, k));
      assert code[at..at + 16] == code[32..][at - 32..at - 16];
      assert codeAfter[at..at + 16] == codeAfter[32..][at - 32..at - 16];
      WordsKept(code, codeAfter, at, EntryWords(word, base, gotPlt, k));
      assert slotsAfter[2..][k] == slots[2..][k];
    }
  }

  lemma WordsInside(code: seq<Byte>, at: nat, words: seq<Word32>)
    requires HasWords(code, at, words)
    ensures at + 4 * |words| <= |code|
  {
  }

  /** What symbol `j` can expect, if it is to have a PLT entry: calls of it arrive exactly when the
      entry reaches its word, and the first one gets to the dynamic linker if the header also reaches
      .got.plt. */
  ghost predicate Serves(created: bool, symbols: seq<LinkSymbol>, j: nat, pltOffset: int, word: WordSize, base: Word,
                         gotPlt: Word, code: seq<Byte>, slots: seq<nat>)
    requires j < |symbols|
  {
    symbols[j].Plts(created) > 0 ==>
      var k := GlobalPlts(created, symbols[..j]);
      && base + PltOffset(k) < WORD && PltWord(word, gotPlt, k) < WORD
      && pltOffset == PltOffset(k) && 2 + k < |slots| && slots[2 + k] == base
      && var reaches := Reaches(word, PltWord(word, gotPlt, k), base + PltOffset(k));
         && (CallArrives(word, code, base, gotPlt, k) <==> reaches)
         && (reaches && Reaches(word, gotPlt, base) ==> FirstCallResolves(word, code, base, gotPlt, k))
  }

  lemma EntryServes(created: bool, symbols: seq<LinkSymbol>, j: nat, pltOffset: int, word: WordSize, base: Word,
                    gotPlt: Word, code: seq<Byte>, slots: seq<nat>)
    requires j < |symbols| && EntryPut(created, symbols, j, word, base, gotPlt, code, slots)
    requires symbols[j].Plts(created) > 0 ==> pltOffset == PltOffset(GlobalPlts(created, symbols[..j]))
    requires |code| > 0 ==> HasWords(code, 0, Header(word, gotPlt, base))
    requires base % 2 == 0 && base + |code| <= Modulus(word) && gotPlt + |slots| * word <= Modulus(word)
    ensures Serves(created, symbols, j, pltOffset, word, base, gotPlt, code, slots)
  {
    hide HasWords, EntryWords, Header, CallArrives, FirstCallResolves, Reaches;
    if symbols[j].Plts(created) > 0 {
      var k := GlobalPlts(created, symbols[..j]);
      WordsInside(code, PltOffset(k), EntryWords(word, base, gotPlt, k));
      WordInside(word, k, |slots|);
      EntryWordsAre(word, base, gotPlt, k);
      CallsArrive(word, code, base, gotPlt, k);
      if Reaches(word, PltWord(word, gotPlt, k), base + PltOffset(k)) && Reaches(word, gotPlt, base) {
        FirstCallsResolve(word, code, base, gotPlt, k);
      }
    }
  }

  lemma EntryWordsAre(word: WordSize, base: nat, gotPlt: nat, k: nat)
    requires base + PltOffset(k) < WORD && PltWord(word, gotPlt, k) < WORD
    ensures EntryWords(word, base, gotPlt, k) == Entry(word, PltWord(word, gotPlt, k), base + PltOffset(k))
  {
  }

  lemma WordInside(word: WordSize, k: nat, n: nat)
    requires 2 + k < n
    ensures 2 * word + k * word + word <= n * word
  {
    if word == 4 {
    } else {
    }
  }

  /** From counting to calling: the sections are laid out, and then written. */
  method LayOutAndFinish(d: DynamicSections, gots: seq<array<int>>, tls: seq<seq<LocalTls>>, symbols: seq<LinkSymbol>,
                         base: Word, gotPlt: Word, ghost refs: seq<seq<int>>)
    returns (contents: array<Byte>, slots: array<nat>)
    requires d.Valid() && d.needs == [] && d.plts == 0
    requires |refs| == |gots| == |tls|
    requires forall f :: 0 <= f < |gots| ==> gots[f][..] == refs[f] && gots[f].Length == |tls[f]|
    requires forall f, g :: 0 <= f < g < |gots| ==> gots[f] != gots[g]
    requires forall i, j :: 0 <= i < j < |symbols| ==> symbols[i] != symbols[j]
    requires base % 2 == 0 && base + PltOffset(GlobalPlts(d.created, symbols)) <= Modulus(d.word)
    requires gotPlt + (2 + GlobalPlts(d.created, symbols)) * d.word <= Modulus(d.word)
    modifies d, symbols, gots
    ensures fresh(contents) && fresh(slots)
    ensures forall j :: 0 <= j < |symbols| ==>
              Serves(d.created, symbols, j, symbols[j].pltOffset, d.word, base, gotPlt, contents[..], slots[..])
  {
    hide HasWords, SymbolPlaced, LocalPlaced, EntryPut, Offset, Header, Serves, AllLocals, LocalNeeds, GlobalNeeds;
    d.LayOut(gots, tls, symbols, refs);
    contents := new Byte[d.plt](i => 0);
    SlotIndex(d.word, d.plts);
    slots := new nat[d.gotPlt / d.word](i => 0);
    ghost var locals := AllLocals(refs, tls, |refs|);
    FinishSections(d, symbols, base, gotPlt, contents, slots, locals);
    forall j | 0 <= j < |symbols|
      ensures Serves(d.created, symbols, j, symbols[j].pltOffset, d.word, base, gotPlt, contents[..], slots[..])
    {
      OffsetIs(d.word, d.needs, locals, d.created, symbols, j, symbols[j].gotOffset, symbols[j].pltOffset);
      EntryServes(d.created, symbols, j, symbols[j].pltOffset, d.word, base, gotPlt, contents[..], slots[..]);
    }
  }

  lemma OffsetIs(word: WordSize, needs: seq<Need>, locals: seq<Need>, created: bool, symbols: seq<LinkSymbol>, j: nat,
                 gotOffset: int, pltOffset: int)
    requires j < |symbols|
    requires !symbols[j].indirect ==> SymbolPlaced(word, needs, locals, created, symbols, j, gotOffset, pltOffset)
    ensures symbols[j].Plts(created) > 0 ==> pltOffset == PltOffset(GlobalPlts(created, symbols[..j]))
  {
    hide Offset;
  }
}
