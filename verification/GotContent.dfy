/** What relocation writes into .got: every symbol's words, the first time it is referred to. */
module GotContents {
  import opened GotPlts

  /** R_RISCV_GOT_HI20, R_RISCV_TLS_GD_HI20 and R_RISCV_TLS_GOT_HI20. */
  datatype Access = Normal | General | Initial

  datatype Ref = Ref(symbol: nat, access: Access)

  const TP_OFFSET: nat := 0
  const DTP_OFFSET: nat := 0x800

  /** What is put in a word. */
  function Stored(word: WordSize, value: int): nat {
    value % if word == 4 then 0x1_0000_0000 else 0x1_0000_0000_0000_0000
  }

  /** A word of four or eight bytes holds what fits as it is, and of anything else the low bits: of the
      first offset below zero, all bits. */
  lemma StoredFits(word: WordSize, value: int)
    ensures Stored(4, value) < 0x1_0000_0000 && Stored(8, value) < 0x1_0000_0000_0000_0000
    ensures 0 <= value < 0x1_0000_0000 ==> Stored(word, value) == value
    ensures Stored(4, -1) == 0xffff_ffff && Stored(8, -1) == 0xffff_ffff_ffff_ffff
  {
  }

  /** What is known of a symbol: its address, and that of the thread-local segment if it is in there;
      and whether the dynamic linker fills in the words, by the symbol's number if it has one. */
  datatype Target = Target(address: nat, tls: nat, dynamic: bool, index: nat) {
    function Dtpoff(): int {
      address - tls - DTP_OFFSET
    }

    function Tpoff(): int {
      address - tls - TP_OFFSET
    }

    /** The value of word `k` of a symbol with need `n`. */
    ghost function Value(word: WordSize, n: Need, k: nat): nat {
      Stored(word,
             if !n.gd && !n.ie then (if n.local && dynamic then 0 else address)
             else if n.gd && k == 0 then (if dynamic then 0 else 1)
             else if n.gd && k == 1 then (if dynamic && index != 0 then 0 else Dtpoff())
             else if dynamic then 0 else Tpoff())
    }
  }

  /** The kinds of access to a symbol have been recorded when the space was set aside. */
  predicate Recorded(n: Need, access: Access) {
    match access
    case Normal => !n.gd && !n.ie
    case General => n.gd
    case Initial => n.ie
  }

  /** A global symbol that the dynamic linker fills in is left to finish_dynamic_symbol. */
  predicate Deferred(n: Need, t: Target) {
    !n.gd && !n.ie && !n.local && t.dynamic
  }

  /** Which of its words an access uses, counted from its offset. */
  function Used(n: Need, access: Access): nat {
    if access == Initial && n.gd && n.ie then 2 else 0
  }

  /** Where, from the start of the section, an access finds what it needs. */
  function Address(word: WordSize, needs: seq<Need>, i: nat, access: Access): nat
    requires i < |needs|
  {
    word * (Slot(needs, i) + Used(needs[i], access))
  }

  /** The word of the section that is word `k` of symbol `i`. */
  function Word(needs: seq<Need>, p: (nat, nat)): nat
    requires p.0 < |needs|
  {
    Slot(needs, p.0) + p.1
  }

  /** A local symbol with both kinds of thread-local access. */
  predicate Crowded(n: Need) {
    n.local && n.gd && n.ie
  }

  class GotSection {
    const word: WordSize
    const needs: seq<Need>
    const targets: seq<Target>

    /** The words from the start of the section on; what is behind the section is other memory. */
    const memory: array<nat>

    /** The offsets of the symbols. Bit 0 says that the words have been written. */
    const offsets: array<nat>

    ghost const start: seq<nat>
    ghost var marked: set<nat>

    /** Which words of which symbols have been written, in order. */
    ghost var written: seq<(nat, nat)>

    ghost predicate Shaped()
      reads `marked, offsets
    {
      && |targets| == |needs| == offsets.Length && memory != offsets
      && Slot(needs, |needs|) + 1 <= memory.Length == |start|
      && (forall i :: i in marked ==> i < |needs| && !Deferred(needs[i], targets[i]))
      && (forall i :: 0 <= i < |needs| ==> offsets[i] == Offset(word, needs, i) + if i in marked then 1 else 0)
    }

    ghost predicate Valid()
      reads this, offsets, memory
    {
      Shaped() && Filled(word, needs, targets, start, marked, written, memory[..])
    }

    /** The section before any relocation. */
    constructor (word: WordSize, needs: seq<Need>, targets: seq<Target>, memory: array<nat>, offsets: array<nat>)
      requires |targets| == |needs| == offsets.Length && memory != offsets && Slot(needs, |needs|) + 1 <= memory.Length
      requires forall i :: 0 <= i < |needs| ==> offsets[i] == Offset(word, needs, i)
      ensures Valid() && marked == {} && this.word == word && this.needs == needs && this.targets == targets
      ensures this.memory == memory && this.offsets == offsets && start == memory[..]
    {
      this.word, this.needs, this.targets, this.memory, this.offsets := word, needs, targets, memory, offsets;
      start, marked, written := memory[..], {}, [];
    }

    /** bfd_put_NN */
    method Put(offset: nat, value: int, ghost slot: nat)
      requires offset == word * slot && slot < memory.Length
      modifies memory
      ensures memory[..] == old(memory[..])[slot := Stored(word, value)]
    {
      Quotient(word, slot);
      memory[offset / word] := Stored(word, value);
    }

    /** Any sequence of references. Exactly the symbols met, and not left to the dynamic linker, have
        their words written: the first time they are met, with their values, inside the section,
        and each word once, if and only if none of them is crowded. The address recorded is that
        of a word of the symbol's own, except for the initial-exec word of a crowded symbol. */
    method RelocateAll(refs: seq<Ref>) returns (addresses: seq<nat>)
      requires Valid() && marked == {}
      requires forall j :: 0 <= j < |refs| ==>
                 refs[j].symbol < |needs| && Recorded(needs[refs[j].symbol], refs[j].access)
      modifies this`marked, this`written, memory, offsets
      ensures Valid() && marked == Met(needs, targets, refs)
      ensures Roomy(needs, marked) <==> forall p :: p in written ==> p.0 < |needs| && Owns(needs, p.0, Word(needs, p))
      ensures Roomy(needs, marked) ==>
                && (forall p :: p in written ==>
                     HoldsValue(word, needs, targets, memory[..], p) && Word(needs, p) < Slot(needs, |needs|))
                && WrittenOnce(needs, written)
      ensures |addresses| == |refs|
      ensures forall j :: 0 <= j < |refs| ==> AddressIsRight(word, needs, refs[j], addresses[j])
      ensures Roomy(needs, marked) ==> forall j :: 0 <= j < |refs| ==>
                ReferenceFinds(word, needs, targets, refs[j], start, memory[..], addresses[j])
    {
      hide Filled, Slot, Address, Owns, Words, AddressIsRight, ReferenceFinds, HoldsValue, WrittenOnce, Met, Roomy;
      addresses := [];
      MetNone(needs, targets, refs);
      for j := 0 to |refs|
        invariant Valid() && marked == Met(needs, targets, refs[..j]) && |addresses| == j
        invariant forall i :: 0 <= i < j ==> AddressIsRight(word, needs, refs[i], addresses[i])
      {
        var r := refs[j];
        var address;
        if r.access == Normal {
          address := RelocateNormal(r.symbol);
        } else {
          address := RelocateTls(r.symbol, r.access == Initial);
        }
        AddressOwned(word, needs, r);
        MetStep(needs, targets, refs, j);
        addresses := addresses + [address];
      }
      assert refs[..|refs|] == refs;
      WordsAreOwn(word, needs, targets, start, marked, written, memory[..]);
      AllFound(word, needs, targets, refs, start, marked, written, memory[..], addresses);
    }

    /** The thread-local cases. The address recorded is that of the word that the access uses. */
    method RelocateTls(i: nat, initial: bool) returns (address: nat)
      requires Valid() && i < |needs| && Recorded(needs[i], if initial then Initial else General)
      modifies this`marked, this`written, memory, offsets
      ensures Valid() && marked == old(marked) + {i}
      ensures address == Address(word, needs, i, if initial then Initial else General)
    {
      hide Filled, Slot, Shaped, Offset;
      ghost var was := marked;
      ShapedIs();
      Bit0(word, needs, i, i in marked);
      Bits(word, needs, i);
      hide Deferred, Address;
      var off := Mark(i);
      var initialOffset := 0;
      if needs[i].gd && needs[i].ie {
        initialOffset := 2 * word;
      }
      if off % 2 == 1 {
        off := off - 1;
        assert was + {i} == was;
      } else {
        WriteWords(i, off, initialOffset, was);
      }
      ShapedIs();
      address := off + if initial then initialOffset else 0;
    }

    lemma ShapedIs()
      requires Shaped()
      ensures |targets| == |needs| == offsets.Length && memory != offsets
              && Slot(needs, |needs|) + 1 <= memory.Length == |start|
      ensures forall i :: i in marked ==> i < |needs|
    {
    }

    /** Sets bit 0, and delivers the offset as it was. */
    method Mark(i: nat) returns (off: nat)
      requires Shaped() && i < |needs| && !Deferred(needs[i], targets[i])
      modifies this`marked, offsets
      ensures Shaped() && marked == old(marked) + {i}
      ensures off == Offset(word, needs, i) + if i in old(marked) then 1 else 0
    {
      Bit0(word, needs, i, i in marked);
      hide Slot, Offset, Deferred;
      off := offsets[i];
      offsets[i] := if off % 2 == 1 then off else off + 1;
      marked := marked + {i};
    }

    /** The words of a thread-local symbol that has not been met before. */
    method WriteWords(i: nat, off: nat, initialOffset: nat, ghost was: set<nat>)
      requires |targets| == |needs| && memory != offsets && Slot(needs, |needs|) + 1 <= memory.Length
      requires forall j :: j in was ==> j < |needs|
      requires i < |needs| && i !in was && Filled(word, needs, targets, start, was, written, memory[..])
      requires needs[i].gd || needs[i].ie
      requires off == Offset(word, needs, i) && initialOffset == if needs[i].gd && needs[i].ie then 2 * word else 0
      modifies memory, this`written
      ensures Filled(word, needs, targets, start, was + {i}, written, memory[..])
    {
      hide Filled, Slot, Stored;
      ghost var slot, before := Slot(needs, i), memory[..];
      var n, t := needs[i], targets[i];
      Bits(word, needs, i);
      Room(needs, i);
      if n.gd {
        if t.dynamic {
          Put(off, 0, slot);
          if t.index == 0 {
            Put(off + word, t.Dtpoff(), slot + 1);
          } else {
            Put(off + word, 0, slot + 1);
          }
        } else {
          Put(off, 1, slot);
          Put(off + word, t.Dtpoff(), slot + 1);
        }
      }
      if n.ie {
        if t.dynamic {
          Put(off + initialOffset, 0, slot + if n.gd then 2 else 0);
        } else {
          Put(off + initialOffset, t.Tpoff(), slot + if n.gd then 2 else 0);
        }
      }
      FilledNext(word, needs, targets, start, was, written, before, memory[..], i);
      written := written + Pairs(i, n);
    }

    /** The case of R_RISCV_GOT_HI20. */
    method RelocateNormal(i: nat) returns (address: nat)
      requires Valid() && i < |needs| && Recorded(needs[i], Normal)
      modifies this`marked, this`written, memory, offsets
      ensures Valid() && marked == old(marked) + if Deferred(needs[i], targets[i]) then {} else {i}
      ensures address == Address(word, needs, i, Normal)
      ensures Slot(needs, i) < memory.Length
      ensures memory[..] == if i !in marked || i in old(marked) then old(memory[..])
                            else
                              old(memory[..])[Slot(needs, i) :=
                                Stored(word, if needs[i].local && targets[i].dynamic then 0 else targets[i].address)]
    {
      hide Filled, Slot, Offset, Stored;
      Bit0(word, needs, i, i in marked);
      Bits(word, needs, i);
      Room(needs, i);
      ghost var before := memory[..];
      var off := offsets[i];
      if !needs[i].local && targets[i].dynamic {
        address := off;
      } else {
        if off % 2 == 1 {
          off := off - 1;
        } else {
          var relocation := targets[i].address;
          if needs[i].local && targets[i].dynamic {
            relocation := 0;
          }
          Put(off, relocation, Slot(needs, i));
          offsets[i] := off + 1;
          FilledNext(word, needs, targets, start, marked, written, before, memory[..], i);
          written := written + Pairs(i, needs[i]);
          marked := marked + {i};
        }
        address := off;
      }
    }
  }

  /** The words set aside for symbol `i`. */
  predicate Owns(needs: seq<Need>, i: nat, x: nat)
    requires i < |needs|
  {
    Slot(needs, i) <= x < Slot(needs, i) + Words(needs[i])
  }

  /** Just the words of the marked symbols have been written, each once; they hold their values,
      unless some marked symbol is crowded; and no other word has changed. */
  ghost predicate Filled(word: WordSize, needs: seq<Need>, targets: seq<Target>, start: seq<nat>, marked: set<nat>,
                         written: seq<(nat, nat)>, memory: seq<nat>)
    requires |targets| == |needs| && forall i :: i in marked ==> i < |needs|
  {
    && |memory| == |start|
    && (forall p :: p in written <==> p.0 in marked && p.1 in Written(needs[p.0]))
    && (forall a, b :: 0 <= a < b < |written| ==> written[a] != written[b])
    && (Roomy(needs, marked) ==> forall p :: p in written ==> HoldsValue(word, needs, targets, memory, p))
    && (forall x :: 0 <= x < |memory| && !IsWritten(needs, written, x) ==> memory[x] == start[x])
  }

  /** No marked symbol is crowded. */
  ghost predicate Roomy(needs: seq<Need>, marked: set<nat>)
    requires forall i :: i in marked ==> i < |needs|
  {
    forall i :: i in marked ==> !Crowded(needs[i])
  }

  ghost predicate HoldsValue(word: WordSize, needs: seq<Need>, targets: seq<Target>, memory: seq<nat>, p: (nat, nat))
    requires |targets| == |needs|
  {
    p.0 < |needs| && Word(needs, p) < |memory| && memory[Word(needs, p)] == targets[p.0].Value(word, needs[p.0], p.1)
  }

  ghost predicate IsWritten(needs: seq<Need>, written: seq<(nat, nat)>, x: nat) {
    exists p :: p in written && p.0 < |needs| && Word(needs, p) == x
  }

  /** The words of a symbol, in the order they are written. */
  function Pairs(i: nat, n: Need): seq<(nat, nat)> {
    if n.gd || n.ie then (if n.gd then [(i, 0), (i, 1)] else []) + (if n.ie then [(i, if n.gd then 2 else 0)] else [])
    else [(i, 0)]
  }

  lemma Quotient(word: WordSize, a: nat)
    ensures word * a / word == a
  {
    if word == 4 {
    } else {
    }
  }

  lemma Bit0(word: WordSize, needs: seq<Need>, i: nat, bit: bool)
    requires i < |needs|
    ensures (Offset(word, needs, i) + if bit then 1 else 0) % 2 == 1 <==> bit
  {
    SlotsAreApart(word, needs, i, i);
  }

  lemma Bits(word: WordSize, needs: seq<Need>, i: nat)
    requires i < |needs|
    ensures Offset(word, needs, i) == word * Slot(needs, i)
    ensures word * (Slot(needs, i) + 1) == Offset(word, needs, i) + word
    ensures word * (Slot(needs, i) + 2) == Offset(word, needs, i) + 2 * word
  {
    assert word * (Slot(needs, i) + 2) == word * Slot(needs, i) + word * 2;
  }

  /** The words of a symbol are in memory, though those of a crowded one may be behind the section. */
  lemma Room(needs: seq<Need>, i: nat)
    requires i < |needs|
    ensures Slot(needs, i) < Slot(needs, |needs|)
    ensures needs[i].gd ==> Slot(needs, i) + 1 < Slot(needs, |needs|)
    ensures needs[i].gd && needs[i].ie ==> Slot(needs, i) + 2 <= Slot(needs, |needs|)
  {
    SlotStep(needs, i);
    SlotsGrow(needs, i + 1, |needs|);
  }

  lemma FilledNext(word: WordSize, needs: seq<Need>, targets: seq<Target>, start: seq<nat>, marked: set<nat>,
                   written: seq<(nat, nat)>,
                   before: seq<nat>, after: seq<nat>, i: nat)
    requires |targets| == |needs| && (forall j :: j in marked ==> j < |needs|) && i < |needs| && i !in marked
    requires Filled(word, needs, targets, start, marked, written, before) && |after| == |before|
    requires forall p :: p in Pairs(i, needs[i]) ==> HoldsValue(word, needs, targets, after, p)
    requires forall x :: 0 <= x < |before| && !IsWritten(needs, Pairs(i, needs[i]), x) ==> after[x] == before[x]
    ensures Filled(word, needs, targets, start, marked + {i}, written + Pairs(i, needs[i]), after)
  {
    var more := Pairs(i, needs[i]);
    Joined(needs, marked, written, i, more);
    if Roomy(needs, marked + {i}) {
      assert Roomy(needs, marked) && !Crowded(needs[i]);
      forall p | p in written
        ensures HoldsValue(word, needs, targets, after, p)
      {
        assert HoldsValue(word, needs, targets, before, p);
        forall q | q in more
          ensures Word(needs, q) != Word(needs, p)
        {
          WordsApart(needs, p, q);
        }
        assert !IsWritten(needs, more, Word(needs, p));
      }
    }
    forall x | 0 <= x < |after| && !IsWritten(needs, written + more, x)
      ensures after[x] == start[x]
    {
    }
  }

  lemma Joined(needs: seq<Need>, marked: set<nat>, written: seq<(nat, nat)>, i: nat, more: seq<(nat, nat)>)
    requires (forall j :: j in marked ==> j < |needs|) && i < |needs| && i !in marked
    requires forall p :: p in written <==> p.0 in marked && p.1 in Written(needs[p.0])
    requires forall p :: p in more <==> p.0 == i && p.1 in Written(needs[i])
    requires forall a, b :: 0 <= a < b < |written| ==> written[a] != written[b]
    requires forall a, b :: 0 <= a < b < |more| ==> more[a] != more[b]
    ensures forall p :: p in written + more <==> p.0 in marked + {i} && p.1 in Written(needs[p.0])
    ensures forall a, b :: 0 <= a < b < |written + more| ==> (written + more)[a] != (written + more)[b]
  {
    hide Written;
    forall a, b | 0 <= a < b < |written + more|
      ensures (written + more)[a] != (written + more)[b]
    {
      if a < |written| <= b {
        assert written[a] in written && more[b - |written|] in more;
      }
    }
  }

  /** Different symbols that are not crowded have different words. */
  lemma WordsApart(needs: seq<Need>, p: (nat, nat), q: (nat, nat))
    requires p.0 < |needs| && q.0 < |needs| && p.0 != q.0 && !Crowded(needs[p.0]) && !Crowded(needs[q.0])
    requires p.1 in Written(needs[p.0]) && q.1 in Written(needs[q.0])
    ensures Word(needs, p) != Word(needs, q)
  {
    if p.0 < q.0 {
      WordBefore(needs, p, q);
    } else {
      WordBefore(needs, q, p);
    }
  }

  lemma WordBefore(needs: seq<Need>, p: (nat, nat), q: (nat, nat))
    requires p.0 < q.0 < |needs| && !Crowded(needs[p.0]) && p.1 in Written(needs[p.0])
    ensures Word(needs, p) < Slot(needs, q.0) <= Word(needs, q)
  {
    SlotStep(needs, p.0);
    SlotsGrow(needs, p.0 + 1, q.0);
    WritesStayInside(needs[p.0]);
  }

  /** The symbols that are met, and not left to the dynamic linker. */
  function Met(needs: seq<Need>, targets: seq<Target>, refs: seq<Ref>): (met: set<nat>)
    requires |targets| == |needs|
    ensures forall i :: i in met ==> i < |needs|
  {
    set j | 0 <= j < |refs| && refs[j].symbol < |needs| && !Deferred(needs[refs[j].symbol], targets[refs[j].symbol]) ::
      refs[j].symbol
  }

  lemma MetNone(needs: seq<Need>, targets: seq<Target>, refs: seq<Ref>)
    requires |targets| == |needs|
    ensures Met(needs, targets, refs[..0]) == {}
  {
  }

  lemma MetStep(needs: seq<Need>, targets: seq<Target>, refs: seq<Ref>, j: nat)
    requires |targets| == |needs| && j < |refs| && refs[j].symbol < |needs|
    ensures Met(needs, targets, refs[..j + 1])
            == Met(needs, targets, refs[..j]) +
               if Deferred(needs[refs[j].symbol], targets[refs[j].symbol]) then {} else {refs[j].symbol}
  {
    hide Deferred;
    assert refs[..j + 1] == refs[..j] + [refs[j]];
  }

  /** No word is written for two symbols, or twice for one. */
  ghost predicate WrittenOnce(needs: seq<Need>, written: seq<(nat, nat)>) {
    forall a, b :: 0 <= a < b < |written| && written[a].0 < |needs| && written[b].0 < |needs| ==>
      Word(needs, written[a]) != Word(needs, written[b])
  }

  ghost predicate AddressIsRight(word: WordSize, needs: seq<Need>, r: Ref, address: nat)
    requires r.symbol < |needs|
  {
    && address == Address(word, needs, r.symbol, r.access) && address % word == 0
    && (Owns(needs, r.symbol, address / word) <==> !(r.access == Initial && Crowded(needs[r.symbol])))
  }

  /** What an access finds at word `x`. If the dynamic linker does not fill the words in: the address of
      the symbol; or what has to be added to the thread pointer, which points to the thread's block,
      for the symbol's place in the block; or the number of the program's own module and what has to be
      added to that module's entry in the dynamic thread vector, which points 0x800 bytes into the
      block. Where the dynamic linker fills a word in, that is zero; but the place of a symbol that it
      does not know by number is there already. */
  ghost predicate Finds(word: WordSize, n: Need, t: Target, access: Access, memory: seq<nat>, x: nat) {
    x < |memory| &&
    match access
    case Normal => memory[x] == if n.local && t.dynamic then 0 else Stored(word, t.address)
    case Initial => if t.dynamic then memory[x] == 0 else LeadsTo(word, memory[x], 0, t)
    case General =>
      x + 1 < |memory| &&
      if !t.dynamic then memory[x] == 1 && LeadsTo(word, memory[x + 1], 0x800, t)
      else memory[x] == 0 && if t.index == 0 then LeadsTo(word, memory[x + 1], 0x800, t) else memory[x + 1] == 0
  }

  /** Added to where something points `ahead` bytes into a thread's block, `offset` gives the place that
      the symbol has in the block. */
  ghost predicate LeadsTo(word: WordSize, offset: nat, ahead: nat, t: Target) {
    SamePlace(word, ahead + offset, t.address - t.tls)
  }

  /** Whatever the block, `a` and `b` from its start is the same place. */
  ghost predicate SamePlace(word: WordSize, a: int, b: int) {
    forall block: nat :: Place(word, block, a) == Place(word, block, b)
  }

  function Place(word: WordSize, block: nat, distance: int): nat {
    Stored(word, block + distance)
  }

  /** What is said of a reference: a word that is left to the dynamic linker has not been touched. */
  ghost predicate ReferenceFinds(word: WordSize, needs: seq<Need>, targets: seq<Target>, r: Ref, start: seq<nat>,
                                 memory: seq<nat>, address: nat)
    requires r.symbol < |needs| == |targets|
  {
    var x := address / word;
    if Deferred(needs[r.symbol], targets[r.symbol]) then x < |memory| == |start| && memory[x] == start[x]
    else Finds(word, needs[r.symbol], targets[r.symbol], r.access, memory, x)
  }

  lemma AllFound(word: WordSize, needs: seq<Need>, targets: seq<Target>, refs: seq<Ref>, start: seq<nat>,
                 marked: set<nat>, written: seq<(nat, nat)>, memory: seq<nat>, addresses: seq<nat>)
    requires |targets| == |needs| && (forall i :: i in marked ==> i < |needs|) && |addresses| == |refs|
    requires Filled(word, needs, targets, start, marked, written, memory)
    requires Slot(needs, |needs|) < |memory| && marked == Met(needs, targets, refs)
    requires forall j :: 0 <= j < |refs| ==>
               && refs[j].symbol < |needs| && Recorded(needs[refs[j].symbol], refs[j].access)
               && AddressIsRight(word, needs, refs[j], addresses[j])
    ensures Roomy(needs, marked) ==> forall j :: 0 <= j < |refs| ==>
              ReferenceFinds(word, needs, targets, refs[j], start, memory, addresses[j])
  {
    hide Filled, Slot, Recorded, AddressIsRight, ReferenceFinds, Roomy, Met;
    if Roomy(needs, marked) {
      forall j | 0 <= j < |refs|
        ensures ReferenceFinds(word, needs, targets, refs[j], start, memory, addresses[j])
      {
        FoundFrom(word, needs, targets, refs, start, marked, written, memory, j, addresses[j]);
      }
    }
  }

  lemma FoundFrom(word: WordSize, needs: seq<Need>, targets: seq<Target>, refs: seq<Ref>, start: seq<nat>,
                  marked: set<nat>, written: seq<(nat, nat)>, memory: seq<nat>, j: nat, address: nat)
    requires |targets| == |needs| && (forall i :: i in marked ==> i < |needs|) && j < |refs|
    requires Filled(word, needs, targets, start, marked, written, memory) && Roomy(needs, marked)
    requires Slot(needs, |needs|) < |memory| && refs[j].symbol < |needs|
    requires marked == Met(needs, targets, refs) && Recorded(needs[refs[j].symbol], refs[j].access)
    requires AddressIsRight(word, needs, refs[j], address)
    ensures ReferenceFinds(word, needs, targets, refs[j], start, memory, address)
  {
    hide Slot, Target.Value, Finds, Filled, Roomy, IsWritten;
    var r, i := refs[j], refs[j].symbol;
    Quotient(word, Slot(needs, i) + Used(needs[i], r.access));
    if Deferred(needs[i], targets[i]) {
      Untouched(word, needs, targets, start, marked, written, memory, i);
    } else {
      assert i in marked;
      MarkedHolds(word, needs, targets, start, marked, written, memory, i);
      ValueFinds(word, needs[i], targets[i], r.access, memory, Slot(needs, i));
    }
  }

  lemma MarkedHolds(word: WordSize, needs: seq<Need>, targets: seq<Target>, start: seq<nat>, marked: set<nat>,
                    written: seq<(nat, nat)>, memory: seq<nat>, i: nat)
    requires |targets| == |needs| && (forall j :: j in marked ==> j < |needs|) && i in marked
    requires Filled(word, needs, targets, start, marked, written, memory) && Roomy(needs, marked)
    ensures !Crowded(needs[i])
    ensures forall k :: k in Written(needs[i]) ==>
              && Slot(needs, i) + k < |memory|
              && memory[Slot(needs, i) + k] == targets[i].Value(word, needs[i], k)
  {
    hide Slot, Target.Value, Written, IsWritten;
    forall k | k in Written(needs[i])
      ensures Slot(needs, i) + k < |memory| && memory[Slot(needs, i) + k] == targets[i].Value(word, needs[i], k)
    {
      assert (i, k) in written;
      assert HoldsValue(word, needs, targets, memory, (i, k));
    }
  }

  lemma Untouched(word: WordSize, needs: seq<Need>, targets: seq<Target>, start: seq<nat>, marked: set<nat>,
                  written: seq<(nat, nat)>, memory: seq<nat>, i: nat)
    requires |targets| == |needs| && (forall j :: j in marked ==> j < |needs|) && i < |needs| && i !in marked
    requires Filled(word, needs, targets, start, marked, written, memory) && Roomy(needs, marked)
    requires !needs[i].gd && !needs[i].ie && Slot(needs, |needs|) < |memory|
    ensures Slot(needs, i) < |memory| == |start| && memory[Slot(needs, i)] == start[Slot(needs, i)]
  {
    hide Slot, Roomy, IsWritten, HoldsValue;
    Room(needs, i);
    NotWrittenBy(needs, marked, written, i);
  }

  lemma NotWrittenBy(needs: seq<Need>, marked: set<nat>, written: seq<(nat, nat)>, i: nat)
    requires (forall j :: j in marked ==> j < |needs|) && Roomy(needs, marked) && i < |needs| && i !in marked
    requires forall p :: p in written ==> p.0 in marked && p.1 in Written(needs[p.0])
    requires !needs[i].gd && !needs[i].ie
    ensures !IsWritten(needs, written, Slot(needs, i))
  {
    hide Slot;
    forall p | p in written
      ensures Word(needs, p) != Slot(needs, i)
    {
      WordsApart(needs, p, (i, 0));
    }
  }

  lemma ValueFinds(word: WordSize, n: Need, t: Target, access: Access, memory: seq<nat>, x: nat)
    requires Recorded(n, access) && !Deferred(n, t) && !Crowded(n)
    requires forall k :: k in Written(n) ==> x + k < |memory| && memory[x + k] == t.Value(word, n, k)
    ensures Finds(word, n, t, access, memory, x + Used(n, access))
  {
    hide Stored, LeadsTo;
    StoredLeads(word, t, TP_OFFSET);
    StoredLeads(word, t, DTP_OFFSET);
    StoredSmall(word);
    assert x + 0 == x;
    match access
    case Normal => assert 0 in Written(n);
    case Initial => assert Used(n, access) in Written(n);
    case General => assert 0 in Written(n) && 1 in Written(n);
  }

  lemma StoredSmall(word: WordSize)
    ensures Stored(word, 0) == 0 && Stored(word, 1) == 1
  {
  }

  lemma StoredLeads(word: WordSize, t: Target, ahead: nat)
    ensures LeadsTo(word, Stored(word, t.address - t.tls - ahead), ahead, t)
  {
    SamePlaces(word, ahead + Stored(word, t.address - t.tls - ahead), t.address - t.tls, ahead);
  }

  lemma SamePlaces(word: WordSize, a: int, b: int, ahead: nat)
    requires a == ahead + Stored(word, b - ahead)
    ensures SamePlace(word, a, b)
  {
    hide Stored;
    forall block: nat
      ensures Place(word, block, a) == Place(word, block, b)
    {
      StoredSum(word, block + ahead, b - ahead);
    }
  }

  lemma StoredSum(word: WordSize, a: nat, b: int)
    ensures Stored(word, a + Stored(word, b)) == Stored(word, a + b)
  {
  }

  lemma AddressOwned(word: WordSize, needs: seq<Need>, r: Ref)
    requires r.symbol < |needs| && Recorded(needs[r.symbol], r.access)
    ensures AddressIsRight(word, needs, r, Address(word, needs, r.symbol, r.access))
  {
    var x := Slot(needs, r.symbol) + Used(needs[r.symbol], r.access);
    Quotient(word, x);
    Scaled(word, x, 0);
  }

  lemma WordsAreOwn(word: WordSize, needs: seq<Need>, targets: seq<Target>, start: seq<nat>, marked: set<nat>,
                    written: seq<(nat, nat)>, memory: seq<nat>)
    requires |targets| == |needs| && (forall i :: i in marked ==> i < |needs|)
    requires Filled(word, needs, targets, start, marked, written, memory)
    ensures Roomy(needs, marked) <==> forall p :: p in written ==> p.0 < |needs| && Owns(needs, p.0, Word(needs, p))
    ensures Roomy(needs, marked) ==>
              && (forall p :: p in written ==>
                   HoldsValue(word, needs, targets, memory, p) && Word(needs, p) < Slot(needs, |needs|))
              && WrittenOnce(needs, written)
  {
    if Roomy(needs, marked) {
      forall p | p in written
        ensures p.0 < |needs| && Owns(needs, p.0, Word(needs, p)) && Word(needs, p) < Slot(needs, |needs|)
      {
        WritesStayInside(needs[p.0]);
        SlotStep(needs, p.0);
        SlotsGrow(needs, p.0 + 1, |needs|);
      }
      forall a, b | 0 <= a < b < |written|
        ensures Word(needs, written[a]) != Word(needs, written[b])
      {
        var p, q := written[a], written[b];
        assert p in written && q in written;
        if p.0 != q.0 {
          WordsApart(needs, p, q);
        }
      }
    } else {
      var i :| i in marked && Crowded(needs[i]);
      assert (i, 2) in written && !Owns(needs, i, Word(needs, (i, 2)));
    }
  }

  lemma CrowdedSlots(word: WordSize, needs: seq<Need>)
    requires needs == [Need(true, true, true), Need(true, false, false)]
    ensures Slot(needs, 0) == 1 && Slot(needs, 1) == 3 && Slot(needs, 2) == 4
    ensures Address(word, needs, 0, Initial) == word * 3 == Address(word, needs, 1, Normal)
  {
    assert needs[..0] == [] && needs[..1] == [needs[0]] && needs[..1][..0] == [];
    SlotStep(needs, 0);
    SlotStep(needs, 1);
    hide Slot;
  }

  /** A crowded local symbol and the next one: the word that the initial-exec access to the first is
      sent to ends up with the address of the second. */
  method LocalsCollide(word: WordSize, first: Target, second: Target) returns (got: GotSection)
    ensures fresh(got) && fresh(got.memory) && got.memory.Length == 5
    ensures got.needs == [Need(true, true, true), Need(true, false, false)]
    ensures Address(word, got.needs, 0, Initial) == word * 3 == Address(word, got.needs, 1, Normal)
    ensures got.memory[3] == Stored(word, if second.dynamic then 0 else second.address)
  {
    hide Filled, Slot, Address;
    var needs := [Need(true, true, true), Need(true, false, false)];
    CrowdedSlots(word, needs);
    var memory, offsets := new nat[5], new nat[2];
    offsets[0], offsets[1] := word, 3 * word;
    got := new GotSection(word, needs, [first, second], memory, offsets);
    var initial := got.RelocateTls(0, true);
    var normal := got.RelocateNormal(1);
  }
}
