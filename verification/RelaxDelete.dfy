/** Shrinking a section in place: riscv_relax_delete_bytes and _bfd_riscv_relax_align. */
module RelaxDeletes {
  import opened MachineWords
  import opened RelaxAlignments
  import opened RelaxNops
  import opened RelaxImages

  /** A global symbol: an entry of the linker's hash table. */
  class GlobalSymbol {
    var home: Home
    var value: Word
    var size: Word

    constructor (home: Home, value: Word, size: Word)
      ensures Model() == Symbol(home, value, size)
    {
      this.home, this.value, this.size := home, value, size;
    }

    function Model(): Symbol
      reads this
    {
      Symbol(home, value, size)
    }
  }

  function Models(globals: seq<GlobalSymbol>): (symbols: seq<Symbol>)
    reads globals
    ensures |symbols| == |globals|
    ensures forall i :: 0 <= i < |globals| ==> symbols[i] == globals[i].Model()
  {
    if globals == [] then [] else Models(globals[..|globals| - 1]) + [globals[|globals| - 1].Model()]
  }

  /** How often the table lists entry `g`. */
  ghost function Listed(globals: seq<GlobalSymbol>, g: GlobalSymbol): nat {
    if globals == [] then 0
    else Listed(globals[..|globals| - 1], g) + if globals[|globals| - 1] == g then 1 else 0
  }

  lemma ListedNext(globals: seq<GlobalSymbol>, i: nat)
    requires i < |globals|
    ensures forall g :: Listed(globals[..i + 1], g) == Listed(globals[..i], g) + if globals[i] == g then 1 else 0
  {
    assert globals[..i + 1][..i] == globals[..i];
  }

  lemma {:induction false} ListedOnce(globals: seq<GlobalSymbol>, j: nat)
    requires j < |globals| && forall i, k :: 0 <= i < k < |globals| ==> globals[i] != globals[k]
    ensures Listed(globals, globals[j]) == 1
  {
    var n := |globals| - 1;
    if j < n {
      ListedOnce(globals[..n], j);
    } else {
      NotListed(globals[..n], globals[n]);
    }
  }

  lemma {:induction false} NotListed(globals: seq<GlobalSymbol>, g: GlobalSymbol)
    requires g !in globals
    ensures Listed(globals, g) == 0
  {
    if globals != [] {
      NotListed(globals[..|globals| - 1], g);
    }
  }

  /** Adjusted so many times for one deletion. */
  function MovedTimes(s: Symbol, here: nat, cut: Cut, toaddr: nat, times: nat): Symbol
    requires cut.count < WORD
  {
    if times == 0 then s else MovedSymbol(MovedTimes(s, here, cut, toaddr, times - 1), here, cut, toaddr)
  }

  /** Concretely: of four bytes deleted before it, an entry that is listed twice loses eight. */
  lemma ListedTwice()
    ensures var s := Symbol(Section(1), 12, 4);
            && MovedSymbol(s, 1, Cut(4, 4), 40).value == 8
            && MovedTimes(s, 1, Cut(4, 4), 40, 2).value == 4
  {
    assert MovedTimes(Symbol(Section(1), 12, 4), 1, Cut(4, 4), 40, 1).value == 8;
  }

  /** A section with its relocations, and the symbol tables of its file. */
  class InputSection {
    const here: nat
    var contents: array<Byte>
    var size: nat
    var relocs: array<Reloc>
    var locals: array<Symbol>
    var globals: array<GlobalSymbol>

    /** Set once alignment was handled: nothing else may be relaxed after that. */
    var closed: bool

    constructor (here: nat, contents: array<Byte>, relocs: array<Reloc>, locals: array<Symbol>,
                 globals: array<GlobalSymbol>)
      ensures this.here == here && this.contents == contents && this.size == contents.Length
      ensures this.relocs == relocs && this.locals == locals && this.globals == globals && !this.closed
    {
      this.here, this.contents, this.size := here, contents, contents.Length;
      this.relocs, this.locals, this.globals := relocs, locals, globals;
      this.closed := false;
    }

    ghost predicate Valid()
      reads `size, `contents
    {
      size <= contents.Length && size < WORD
    }

    /** The table of hash entries lists each entry once. */
    ghost predicate Once()
      reads `globals, globals
    {
      forall i, j :: 0 <= i < j < globals.Length ==> globals[i] != globals[j]
    }

    ghost function Model(): (image: Image)
      reads `size, `contents, `relocs, `locals, `globals, contents, relocs, locals, globals, globals[..]
      requires size <= contents.Length
      ensures |image.bytes| == size && |image.relocs| == relocs.Length
      ensures |image.symbols| == locals.Length + globals.Length
    {
      Image(here, contents[..size], relocs[..], locals[..] + Models(globals[..]))
    }

    lemma ModelIs()
      requires size <= contents.Length
      ensures Model().bytes == contents[..size] && Model().relocs == relocs[..]
    {
    }

    /** memmove to a lower address. */
    method MoveDown(addr: nat, count: nat)
      requires addr + count <= size <= contents.Length
      modifies contents
      ensures contents[..size - count] == Without(old(contents[..size]), Cut(addr, count))
    {
      hide *;
      ghost var was := contents[..size];
      var i := addr;
      while i < size - count
        invariant addr <= i <= size - count
        invariant forall k :: 0 <= k < size ==> contents[k] == was[if addr <= k < i then k + count else k]
      {
        contents[i] := contents[i + count];
        i := i + 1;
      }
      WithoutIs(was, contents[..size - count], Cut(addr, count));
    }

    method AdjustRelocs(cut: Cut, toaddr: nat)
      requires cut.count < WORD
      modifies relocs
      ensures AllRelocsMoved(old(relocs[..]), relocs[..], cut, toaddr)
    {
      var i := 0;
      while i < relocs.Length
        invariant 0 <= i <= relocs.Length
        invariant forall j :: 0 <= j < i ==> relocs[j] == MovedReloc(old(relocs[j]), cut, toaddr)
        invariant forall j :: i <= j < relocs.Length ==> relocs[j] == old(relocs[j])
      {
        var r := relocs[i];
        if r.offset > cut.addr && r.offset < toaddr {
          relocs[i] := r.(offset := Minus(r.offset, cut.count));
        }
        i := i + 1;
      }
    }

    method AdjustLocals(cut: Cut, toaddr: nat)
      requires cut.count < WORD
      modifies locals
      ensures AllSymbolsMoved(old(locals[..]), locals[..], here, cut, toaddr)
    {
      var i := 0;
      while i < locals.Length
        invariant 0 <= i <= locals.Length
        invariant forall j :: 0 <= j < i ==> locals[j] == MovedSymbol(old(locals[j]), here, cut, toaddr)
        invariant forall j :: i <= j < locals.Length ==> locals[j] == old(locals[j])
      {
        if locals[i].home == Section(here) {
          if locals[i].value > cut.addr && locals[i].value <= toaddr {
            locals[i] := locals[i].(value := Minus(locals[i].value, cut.count));
          }
          var end := Plus(locals[i].value, locals[i].size);
          if locals[i].value <= cut.addr && end > cut.addr && end <= toaddr {
            locals[i] := locals[i].(size := Minus(locals[i].size, cut.count));
          }
        }
        i := i + 1;
      }
    }

    /** Every hash entry is adjusted as often as the table lists it. */
    method AdjustGlobals(cut: Cut, toaddr: nat)
      requires cut.count < WORD
      modifies globals[..]
      ensures globals[..] == old(globals[..])
      ensures forall j :: 0 <= j < globals.Length ==>
                globals[j].Model()
                == MovedTimes(old(globals[j].Model()), here, cut, toaddr, Listed(globals[..], globals[j]))
      ensures Once() ==> AllSymbolsMoved(old(Models(globals[..])), Models(globals[..]), here, cut, toaddr)
    {
      var i := 0;
      while i < globals.Length
        invariant 0 <= i <= globals.Length && globals[..] == old(globals[..])
        invariant forall j :: 0 <= j < globals.Length ==>
                    globals[j].Model()
                    == MovedTimes(old(globals[j].Model()), here, cut, toaddr, Listed(globals[..i], globals[j]))
      {
        ListedNext(globals[..], i);
        AdjustGlobal(globals[i], cut, toaddr);
        i := i + 1;
      }
      assert globals[..globals.Length] == globals[..];
      if Once() {
        forall j | 0 <= j < globals.Length
          ensures globals[j].Model() == MovedSymbol(old(globals[j].Model()), here, cut, toaddr)
        {
          ListedOnce(globals[..], j);
        }
      }
    }

    method AdjustGlobal(g: GlobalSymbol, cut: Cut, toaddr: nat)
      requires cut.count < WORD
      modifies g
      ensures g.Model() == MovedSymbol(old(g.Model()), here, cut, toaddr)
    {
      if g.home == Section(here) {
        if g.value > cut.addr && g.value <= toaddr {
          g.value := Minus(g.value, cut.count);
        }
        var end := Plus(g.value, g.size);
        if g.value <= cut.addr && end > cut.addr && end <= toaddr {
          g.size := Minus(g.size, cut.count);
        }
      }
    }

    /** Deletes `count` bytes at `addr`. Entries that the table lists more than once are moved more
        than once. */
    method Delete(addr: nat, count: nat)
      requires Valid() && addr + count <= size
      modifies `size, contents, relocs, locals, globals[..]
      ensures Valid() && globals[..] == old(globals[..]) && size == old(size) - count
      ensures contents[..size] == Without(old(contents[..size]), Cut(addr, count))
      ensures AllRelocsMoved(old(relocs[..]), relocs[..], Cut(addr, count), old(size))
      ensures AllSymbolsMoved(old(locals[..]), locals[..], here, Cut(addr, count), old(size))
      ensures forall j :: 0 <= j < globals.Length ==>
                globals[j].Model() ==
                MovedTimes(old(globals[j].Model()), here, Cut(addr, count), old(size), Listed(globals[..], globals[j]))
      ensures Once() ==> Model() == Deleted(old(Model()), Cut(addr, count))
    {
      hide Without, AllRelocsMoved, AllSymbolsMoved, Deleted, Models;
      var toaddr, cut := size, Cut(addr, count);
      ghost var image, l, g := Model(), locals[..], Models(globals[..]);
      MoveDown(addr, count);
      size := size - count;
      ghost var bytes := contents[..size];
      AdjustRelocs(cut, toaddr);
      ghost var r := relocs[..];
      AdjustLocals(cut, toaddr);
      ghost var newLocals := locals[..];
      assert Models(globals[..]) == g;
      AdjustGlobals(cut, toaddr);
      assert contents[..size] == bytes && relocs[..] == r && locals[..] == newLocals;
      if Once() {
        DeletedIs(image, Model(), l, newLocals, g, Models(globals[..]), cut);
      }
    }

    /** Writes the instructions that fill the gap. */
    method WriteNops(offset: nat, gap: nat)
      requires offset + gap < size <= contents.Length && offset + |Nops(gap)| <= size
      modifies contents
      ensures contents[..size] == Spliced(old(contents[..size]), offset, Nops(gap))
    {
      hide *;
      ghost var was, done: seq<Byte> := contents[..size], [];
      NothingFilled(was, offset, gap);
      var pos := 0;
      while pos < gap - gap % 4
        invariant 0 <= pos <= gap - gap % 4 && pos % 4 == 0
        invariant FilledTo(done, gap, pos) && |done| == pos
        invariant contents[..size] == Spliced(was, offset, done)
      {
        FillStep(was, offset, done, gap, pos);
        Put(offset + pos, NOP);
        done := done + NOP;
        pos := pos + 4;
      }
      if gap % 4 != 0 {
        FillLast(was, offset, done, gap, pos);
        Put(offset + pos, COMPRESSED_NOP);
      } else {
        AllFilled(done, gap);
      }
    }

    /** bfd_put_32 and bfd_put_16, low byte first. */
    method Put(pos: nat, bytes: seq<Byte>)
      requires pos + |bytes| <= size <= contents.Length
      modifies contents
      ensures contents[..size] == Spliced(old(contents[..size]), pos, bytes)
    {
      ghost var was := contents[..];
      Store(contents, pos, bytes);
    }

    /** Deletes padding so that what follows it is aligned. `symval` is the address where the
        padding ends. Fails, and changes nothing, when there is too little padding. */
    method RelaxAlign(index: nat, symval: Word) returns (ok: bool)
      requires Valid() && Once() && index < relocs.Length
      requires relocs[index].addend < WORD / 2 && relocs[index].offset + relocs[index].addend <= size
      modifies `size, `closed, contents, relocs, locals, globals[..]
      ensures Valid() && globals[..] == old(globals[..]) && closed
      ensures var r := old(relocs[index]);
              var gap := GapFor(Minus(symval, r.addend), r.addend);
              && ok == (gap <= r.addend)
              && Model() == if ok then AlignedImage(old(Model()), index, gap) else old(Model())
    {
      hide Nops, Spliced, Alignment, Gap, GapFor, AlignedImage, Deleted, Model;
      ghost var image := Model();
      var r := relocs[index];
      ModelIs();
      var alignment := FindAlignment(r.addend);
      var start := Minus(symval, r.addend);
      var gap := FindGap(start, r.addend, alignment);
      closed := true;
      if r.addend < gap {
        return false;
      }
      ghost var done := image.(relocs := image.relocs[index := r.(info := 0)]);
      MarkDone(index);
      if gap == r.addend {
        AlignedIs(image, index, gap, done, done, r);
        return true;
      }
      AlignedIs(image, index, gap, done, done.(bytes := Spliced(image.bytes, r.offset, Nops(gap))), r);
      FillAndDelete(r.offset, gap, r.addend);
      return true;
    }

    /** The relocation as relaxation meets it, in a section at address `secAddr`: its symbol is that of
        no section, so that the padding ends `addend` bytes behind the relocation itself. If there
        is enough padding, what follows it comes to the next aligned address. */
    method RelaxAlignHere(index: nat, secAddr: Word) returns (ok: bool)
      requires Valid() && Once() && index < relocs.Length
      requires relocs[index].addend < WORD / 2 && relocs[index].offset + relocs[index].addend <= size
      modifies `size, `closed, contents, relocs, locals, globals[..]
      ensures Valid() && globals[..] == old(globals[..]) && closed
      ensures var r, was := old(relocs[index]), old(contents[..size]);
              var start := Plus(secAddr, r.offset);
              var gap := GapFor(start, r.addend);
              && ok == (gap <= r.addend)
              && (!ok ==> contents[..size] == was)
              && (ok ==>
                    && Alignment(r.addend) > 0 && Aligned(Plus(start, gap), Alignment(r.addend))
                    && (forall n :: 0 <= n < gap ==> !Aligned(Plus(start, n), Alignment(r.addend)))
                    && r.offset + gap <= size && contents[r.offset + gap..size] == was[r.offset + r.addend..]
                    && contents[..r.offset] == was[..r.offset])
      ensures var r, was := old(relocs[index]), old(contents[..size]);
              var start := Plus(secAddr, r.offset);
              var gap := GapFor(start, r.addend);
              && (gap == r.addend ==> contents[..size] == was)
              && (gap < r.addend && gap % 2 == 0 ==> Idle(contents[r.offset..r.offset + gap], start))
    {
      hide AlignedImage, Alignment, Aligned, GapFor, Idle, Model;
      ghost var image := Model();
      ModelIs();
      CodeIsAligned(image, index, secAddr);
      ghost var r, start := relocs[index], Plus(secAddr, relocs[index].offset);
      ghost var gap := GapFor(start, r.addend);
      if gap <= r.addend {
        KeptIsIdle(image, index, gap, start);
      }
      ok := RelaxAlign(index, Plus(Plus(secAddr, relocs[index].offset), relocs[index].addend));
      ModelIs();
      assert contents[..size][..r.offset] == contents[..r.offset];
      assert ok ==> contents[..size][r.offset..r.offset + gap] == contents[r.offset..r.offset + gap];
    }

    method MarkDone(index: nat)
      requires Valid() && index < relocs.Length
      modifies relocs
      ensures Valid()
      ensures var was := old(Model());
              Model() == was.(relocs := was.relocs[index := was.relocs[index].(info := 0)])
    {
      relocs[index] := relocs[index].(info := 0);
    }

    method FillAndDelete(offset: nat, gap: nat, padding: nat)
      requires Valid() && Once() && gap < padding && offset + padding <= size
      modifies `size, contents, relocs, locals, globals[..]
      ensures Valid() && globals[..] == old(globals[..])
      ensures var was := old(Model());
              Model() == Deleted(was.(bytes := Spliced(was.bytes, offset, Nops(gap))), Cut(offset + gap, padding - gap))
    {
      hide Nops, Spliced, Deleted;
      WriteNops(offset, gap);
      Delete(offset + gap, padding - gap);
    }

    method FindAlignment(addend: Word) returns (alignment: Word)
      requires addend < WORD / 2
      ensures alignment == Alignment(addend) && 0 < alignment <= WORD / 2
    {
      AlignmentIsLeast(addend, 1);
      alignment := 1;
      while alignment <= addend
        invariant 0 < alignment && AlignmentFrom(alignment, addend) == Alignment(addend)
        decreases addend + 1 - alignment
      {
        alignment := 2 * alignment;
      }
    }

    method FindGap(start: Word, addend: Word, alignment: Word) returns (gap: Word)
      requires addend < WORD / 2 && alignment == Alignment(addend) && 0 < alignment
      ensures gap == GapFor(start, addend)
    {
      var aligned := Plus(Masked(Minus(start, 1), alignment), alignment);
      gap := Minus(aligned, start);
    }
  }

  lemma WithoutIs(was: seq<Byte>, bytes: seq<Byte>, cut: Cut)
    requires cut.addr + cut.count <= |was| && |bytes| == |was| - cut.count
    requires forall k :: 0 <= k < |bytes| ==> bytes[k] == was[if k < cut.addr then k else k + cut.count]
    ensures bytes == Without(was, cut)
  {
  }

  ghost predicate AllRelocsMoved(before: seq<Reloc>, after: seq<Reloc>, cut: Cut, toaddr: nat)
    requires cut.count < WORD
  {
    && |before| == |after|
    && forall i :: 0 <= i < |after| ==> after[i] == MovedReloc(before[i], cut, toaddr)
  }

  ghost predicate AllSymbolsMoved(before: seq<Symbol>, after: seq<Symbol>, here: nat, cut: Cut, toaddr: nat)
    requires cut.count < WORD
  {
    && |before| == |after|
    && forall i :: 0 <= i < |after| ==> after[i] == MovedSymbol(before[i], here, cut, toaddr)
  }

  lemma DeletedIs(image: Image, after: Image, locals: seq<Symbol>, newLocals: seq<Symbol>,
                  globals: seq<Symbol>, newGlobals: seq<Symbol>, cut: Cut)
    requires InBounds(|image.bytes|, cut) && image.symbols == locals + globals
    requires after.here == image.here && after.bytes == Without(image.bytes, cut)
    requires AllRelocsMoved(image.relocs, after.relocs, cut, |image.bytes|)
    requires after.symbols == newLocals + newGlobals
    requires AllSymbolsMoved(locals, newLocals, image.here, cut, |image.bytes|)
    requires AllSymbolsMoved(globals, newGlobals, image.here, cut, |image.bytes|)
    ensures after == Deleted(image, cut)
  {
    hide Without, MovedReloc, MovedSymbol;
    var d := Deleted(image, cut);
    assert after.relocs == d.relocs && after.symbols == d.symbols;
  }
}
