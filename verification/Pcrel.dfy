/** Relocating pc-relative pairs: high parts are patched and remembered as they come, low parts
    wait until the whole section has been seen. */
module PcrelRelocs {
  import opened MachineWords
  import opened PcrelWords

  datatype Kind = PcrelHi20 | PcrelLo12I | PcrelLo12S

  /** `relocation` is the address of the symbol; for a low part, of the label on its high part. */
  datatype Reloc = Reloc(kind: Kind, offset: nat, relocation: Word, addend: Word)

  predicate InSection(relocs: seq<Reloc>, size: nat) {
    forall i :: 0 <= i < |relocs| ==> relocs[i].offset + 4 <= size
  }

  predicate Apart(a: Reloc, b: Reloc) {
    a.offset + 4 <= b.offset || b.offset + 4 <= a.offset
  }

  /** No two relocations patch the same bytes. */
  predicate AllApart(relocs: seq<Reloc>) {
    forall i, j :: 0 <= i < j < |relocs| ==> Apart(relocs[i], relocs[j])
  }

  function Pc(addr: Word, r: Reloc): Word
    requires r.offset < WORD
  {
    Plus(addr, r.offset)
  }

  /** What is remembered of a high part: how far its target is from it. */
  function Distance(addr: Word, r: Reloc): Word
    requires r.offset < WORD
  {
    Minus(Plus(r.relocation, r.addend), Pc(addr, r))
  }

  /** The high parts that have been seen. */
  function Table(addr: Word, relocs: seq<Reloc>): map<Word, Word>
    requires InSection(relocs, WORD)
  {
    if relocs == [] then map[] else
      var last, before := relocs[|relocs| - 1], Table(addr, relocs[..|relocs| - 1]);
      if last.kind == PcrelHi20 then before[Pc(addr, last) := Distance(addr, last)] else before
  }

  // ---------------------------------------------------------------------------------------
  // Order does not matter.

  lemma PcsDiffer(addr: Word, a: Reloc, b: Reloc)
    requires a.offset < WORD && b.offset < WORD && Apart(a, b)
    ensures Pc(addr, a) != Pc(addr, b)
  {
  }

  ghost predicate HighAt(addr: Word, relocs: seq<Reloc>, i: nat, pc: Word)
    requires InSection(relocs, WORD) && i < |relocs|
  {
    relocs[i].kind == PcrelHi20 && Pc(addr, relocs[i]) == pc
  }

  /** An address is in the table just when a high part is there, with that part's distance. */
  lemma {:induction false} TableIs(addr: Word, relocs: seq<Reloc>, pc: Word)
    requires InSection(relocs, WORD) && AllApart(relocs)
    ensures pc in Table(addr, relocs) <==> exists i :: 0 <= i < |relocs| && HighAt(addr, relocs, i, pc)
    ensures forall i :: 0 <= i < |relocs| && HighAt(addr, relocs, i, pc) ==>
              pc in Table(addr, relocs) && Table(addr, relocs)[pc] == Distance(addr, relocs[i])
    decreases |relocs|
  {
    hide Pc, Distance, Apart, Table;
    if relocs == [] {
      EmptyTable(addr);
    } else {
      var n := |relocs| - 1;
      var before := relocs[..n];
      TableIs(addr, before, pc);
      forall i | 0 <= i < n
        ensures HighAt(addr, relocs, i, pc) <==> HighAt(addr, before, i, pc)
        ensures Pc(addr, relocs[i]) != Pc(addr, relocs[n])
      {
        assert Apart(relocs[i], relocs[n]);
        PcsDiffer(addr, relocs[i], relocs[n]);
      }
      TableStep(addr, relocs);
      if pc in Table(addr, relocs) && !HighAt(addr, relocs, n, pc) {
        var i :| 0 <= i < n && HighAt(addr, before, i, pc);
        assert HighAt(addr, relocs, i, pc);
      }
    }
  }

  lemma EmptyTable(addr: Word)
    ensures Table(addr, []) == map[]
  {
  }

  lemma TableStep(addr: Word, relocs: seq<Reloc>)
    requires InSection(relocs, WORD) && relocs != []
    ensures var n := |relocs| - 1;
            var before := Table(addr, relocs[..n]);
            Table(addr, relocs) ==
            if relocs[n].kind == PcrelHi20 then before[Pc(addr, relocs[n]) := Distance(addr, relocs[n])] else before
  {
    hide Pc, Distance;
  }

  /** The table is the same in whatever order the relocations come. */
  lemma OrderIsFree(addr: Word, relocs: seq<Reloc>, others: seq<Reloc>)
    requires InSection(relocs, WORD) && AllApart(relocs) && InSection(others, WORD) && AllApart(others)
    requires forall r :: r in relocs <==> r in others
    ensures Table(addr, relocs) == Table(addr, others)
  {
    forall pc: Word
      ensures pc in Table(addr, relocs) <==> pc in Table(addr, others)
      ensures pc in Table(addr, relocs) && pc in Table(addr, others) ==>
                Table(addr, relocs)[pc] == Table(addr, others)[pc]
    {
      SameLookup(addr, relocs, others, pc);
      SameLookup(addr, others, relocs, pc);
    }
  }

  lemma SameLookup(addr: Word, relocs: seq<Reloc>, others: seq<Reloc>, pc: Word)
    requires InSection(relocs, WORD) && AllApart(relocs) && InSection(others, WORD) && AllApart(others)
    requires forall r :: r in relocs <==> r in others
    ensures pc in Table(addr, relocs) ==>
              pc in Table(addr, others) && Table(addr, relocs)[pc] == Table(addr, others)[pc]
  {
    hide AllApart, Pc, Distance;
    TableIs(addr, relocs, pc);
    TableIs(addr, others, pc);
    hide Table;
    if pc in Table(addr, relocs) {
      var i :| 0 <= i < |relocs| && HighAt(addr, relocs, i, pc);
      assert relocs[i] in others;
      var j :| 0 <= j < |others| && others[j] == relocs[i];
      assert HighAt(addr, others, j, pc);
    }
  }

  // ---------------------------------------------------------------------------------------
  // The patched section.

  function WordAt(s: seq<Byte>, offset: nat): Word32
    requires offset + 4 <= |s|
  {
    Word4(s[offset..offset + 4])
  }

  /** The patched instruction of one relocation. */
  function Final(addr: Word, table: map<Word, Word>, r: Reloc, insn: Word32): Word32
    requires r.offset < WORD
  {
    match r.kind
    case PcrelHi20 => PatchU(insn, HighPart(Distance(addr, r)))
    case PcrelLo12I => if r.relocation in table then PatchI(insn, Plus(table[r.relocation], r.addend)) else insn
    case PcrelLo12S => if r.relocation in table then PatchS(insn, Plus(table[r.relocation], r.addend)) else insn
  }

  predicate Outside(relocs: seq<Reloc>, k: nat) {
    forall i :: 0 <= i < |relocs| ==> k < relocs[i].offset || relocs[i].offset + 4 <= k
  }

  /** The relocations in `done` are patched; nothing else has changed. */
  ghost predicate PatchedSoFar(addr: Word, table: map<Word, Word>, relocs: seq<Reloc>, before: seq<Byte>,
                               now: seq<Byte>, done: set<nat>)
    requires InSection(relocs, |before|) && |before| < WORD
  {
    && |now| == |before|
    && (forall i :: 0 <= i < |relocs| ==>
          WordAt(now, relocs[i].offset) ==
          var insn := WordAt(before, relocs[i].offset);
          if i in done then Final(addr, table, relocs[i], insn) else insn)
    && (forall k :: 0 <= k < |before| && Outside(relocs, k) ==> now[k] == before[k])
  }

  lemma NothingPatched(addr: Word, table: map<Word, Word>, relocs: seq<Reloc>, before: seq<Byte>)
    requires InSection(relocs, |before|) && |before| < WORD
    ensures PatchedSoFar(addr, table, relocs, before, before, {})
  {
    hide WordAt, Final, Outside;
  }

  lemma PatchOne(addr: Word, table: map<Word, Word>, relocs: seq<Reloc>, before: seq<Byte>, now: seq<Byte>,
                 done: set<nat>, i: nat)
    requires InSection(relocs, |before|) && |before| < WORD && AllApart(relocs)
    requires PatchedSoFar(addr, table, relocs, before, now, done)
    requires i < |relocs| && i !in done
    ensures |now| == |before|
    ensures var r := relocs[i];
            PatchedSoFar(addr, table, relocs, before,
                         Spliced(now, r.offset, Bytes4(Final(addr, table, r, WordAt(now, r.offset)))), done + {i})
  {
    hide Final, Bytes4, WordAt, Outside, Spliced;
    var r := relocs[i];
    var insn := Final(addr, table, r, WordAt(now, r.offset));
    var after := Spliced(now, r.offset, Bytes4(insn));
    forall j | 0 <= j < |relocs|
      ensures WordAt(after, relocs[j].offset) == if j == i then insn else WordAt(now, relocs[j].offset)
    {
      assert j < i ==> Apart(relocs[j], relocs[i]);
      assert j > i ==> Apart(relocs[i], relocs[j]);
      WordAfter(now, r.offset, insn, relocs[j].offset);
    }
    forall k | 0 <= k < |before| && Outside(relocs, k)
      ensures after[k] == before[k]
    {
      OutsideOne(relocs, k, i);
      ByteAfter(now, r.offset, Bytes4(insn), k);
    }
  }

  lemma OutsideOne(relocs: seq<Reloc>, k: nat, i: nat)
    requires Outside(relocs, k) && i < |relocs|
    ensures k < relocs[i].offset || relocs[i].offset + 4 <= k
  {
  }

  lemma ByteAfter(s: seq<Byte>, offset: nat, bytes: seq<Byte>, k: nat)
    requires offset + |bytes| <= |s| && k < |s| && (k < offset || offset + |bytes| <= k)
    ensures Spliced(s, offset, bytes)[k] == s[k]
  {
  }

  lemma WordAfter(s: seq<Byte>, offset: nat, w: Word32, other: nat)
    requires offset + 4 <= |s| && other + 4 <= |s|
    ensures other == offset ==> WordAt(Spliced(s, offset, Bytes4(w)), other) == w
    ensures offset + 4 <= other || other + 4 <= offset ==>
              WordAt(Spliced(s, offset, Bytes4(w)), other) == WordAt(s, other)
  {
    hide Bytes4, Word4, Spliced;
    WordBack(w);
    SplicedAt(s, offset, Bytes4(w), other, other + 4);
  }

  // ---------------------------------------------------------------------------------------

  ghost predicate IsAll(done: set<nat>, n: nat) {
    forall i :: 0 <= i < n ==> i in done
  }

  /** Once everything is patched, a low part with no addend completes the address of the high
      part at its label, and neither instruction has changed outside its immediate. */
  lemma PairsArrive(addr: Word, relocs: seq<Reloc>, before: seq<Byte>, now: seq<Byte>, done: set<nat>, i: nat, j: nat)
    requires InSection(relocs, |before|) && |before| < WORD && AllApart(relocs)
    requires PatchedSoFar(addr, Table(addr, relocs), relocs, before, now, done) && IsAll(done, |relocs|)
    requires i < |relocs| && relocs[i].kind == PcrelHi20 && ValidU(HighPart(Distance(addr, relocs[i])))
    requires j < |relocs| && relocs[j].kind != PcrelHi20
    requires relocs[j].relocation == Pc(addr, relocs[i]) && relocs[j].addend == 0
    ensures |now| == |before|
    ensures var hi, lo := WordAt(now, relocs[i].offset), WordAt(now, relocs[j].offset);
            var wasHi, wasLo := WordAt(before, relocs[i].offset), WordAt(before, relocs[j].offset);
            var low := if relocs[j].kind == PcrelLo12I then ImmediateI(lo) else ImmediateS(lo);
            && Plus(Plus(Pc(addr, relocs[i]), ImmediateU(hi)), low) == Plus(relocs[i].relocation, relocs[i].addend)
            && OthersU(hi) == OthersU(wasHi)
            && (relocs[j].kind == PcrelLo12I ==> OthersI(lo) == OthersI(wasLo))
            && (relocs[j].kind == PcrelLo12S ==> OthersS(lo) == OthersS(wasLo))
  {
    var pc, target := Pc(addr, relocs[i]), Plus(relocs[i].relocation, relocs[i].addend);
    var wasHi, wasLo := WordAt(before, relocs[i].offset), WordAt(before, relocs[j].offset);
    assert HighAt(addr, relocs, i, pc);
    hide *;
    TableIs(addr, relocs, pc);
    DoneAt(addr, relocs, before, now, done, i);
    DoneAt(addr, relocs, before, now, done, j);
    var value := Distance(addr, relocs[i]);
    DistanceIs(addr, relocs[i]);
    FinalHigh(addr, Table(addr, relocs), relocs[i], wasHi);
    FinalLow(addr, Table(addr, relocs), relocs[j], wasLo);
    Arrives(pc, target);
    PatchedU(wasHi, HighPart(value));
    PatchedI(wasLo, value);
    PatchedS(wasLo, value);
  }

  lemma DoneAt(addr: Word, relocs: seq<Reloc>, before: seq<Byte>, now: seq<Byte>, done: set<nat>, i: nat)
    requires InSection(relocs, |before|) && |before| < WORD && i < |relocs|
    requires PatchedSoFar(addr, Table(addr, relocs), relocs, before, now, done) && IsAll(done, |relocs|)
    ensures |now| == |before| && relocs[i].offset + 4 <= |before|
    ensures WordAt(now, relocs[i].offset)
            == Final(addr, Table(addr, relocs), relocs[i], WordAt(before, relocs[i].offset))
  {
    hide WordAt, Final, Table, Outside;
  }

  lemma DistanceIs(addr: Word, r: Reloc)
    requires r.offset < WORD
    ensures Pc(addr, r) == Plus(addr, r.offset)
    ensures Distance(addr, r) == Minus(Plus(r.relocation, r.addend), Pc(addr, r))
    ensures Distance(addr, r) == Plus(Minus(r.relocation, Pc(addr, r)), r.addend)
  {
  }

  lemma FinalHigh(addr: Word, table: map<Word, Word>, r: Reloc, insn: Word32)
    requires r.offset < WORD && r.kind == PcrelHi20
    ensures Final(addr, table, r, insn) == PatchU(insn, HighPart(Distance(addr, r)))
  {
    hide Distance, PatchU, HighPart;
  }

  lemma FinalLow(addr: Word, table: map<Word, Word>, r: Reloc, insn: Word32)
    requires r.offset < WORD && r.kind != PcrelHi20 && r.relocation in table
    ensures Final(addr, table, r, insn) ==
            var value := Plus(table[r.relocation], r.addend);
            if r.kind == PcrelLo12I then PatchI(insn, value) else PatchS(insn, value)
  {
    hide PatchI, PatchS;
  }

  /** And the section comes out the same in whatever order the relocations come. */
  lemma OrderGivesSame(addr: Word, relocs: seq<Reloc>, others: seq<Reloc>, before: seq<Byte>, a: seq<Byte>,
                       b: seq<Byte>, doneA: set<nat>, doneB: set<nat>)
    requires InSection(relocs, |before|) && AllApart(relocs) && InSection(others, |before|) && AllApart(others)
    requires |before| < WORD && forall r :: r in relocs <==> r in others
    requires PatchedSoFar(addr, Table(addr, relocs), relocs, before, a, doneA) && IsAll(doneA, |relocs|)
    requires PatchedSoFar(addr, Table(addr, others), others, before, b, doneB) && IsAll(doneB, |others|)
    ensures a == b
  {
    OrderIsFree(addr, relocs, others);
    hide Table, AllApart, Final, WordAt, IsAll;
    assert |a| == |b| == |before|;
    forall k | 0 <= k < |before|
      ensures a[k] == b[k]
    {
      if i :| 0 <= i < |relocs| && relocs[i].offset <= k < relocs[i].offset + 4 {
        hide PatchedSoFar;
        assert relocs[i] in others;
        var j :| 0 <= j < |others| && others[j] == relocs[i];
        DoneAt(addr, relocs, before, a, doneA, i);
        DoneAt(addr, others, before, b, doneB, j);
        SameByte(a, b, relocs[i].offset, k);
      } else {
        OutsideBoth(relocs, others, k);
      }
    }
  }

  lemma SameByte(a: seq<Byte>, b: seq<Byte>, offset: nat, k: nat)
    requires offset <= k < offset + 4 <= |a| == |b| && WordAt(a, offset) == WordAt(b, offset)
    ensures a[k] == b[k]
  {
    BytesBack(a[offset..offset + 4]);
    BytesBack(b[offset..offset + 4]);
    hide Word4;
    assert a[k] == a[offset..offset + 4][k - offset];
    assert b[k] == b[offset..offset + 4][k - offset];
  }

  lemma OutsideBoth(relocs: seq<Reloc>, others: seq<Reloc>, k: nat)
    requires forall r :: r in relocs <==> r in others
    requires forall i :: 0 <= i < |relocs| ==> !(relocs[i].offset <= k < relocs[i].offset + 4)
    ensures Outside(relocs, k) && Outside(others, k)
  {
    forall j | 0 <= j < |others|
      ensures k < others[j].offset || others[j].offset + 4 <= k
    {
      assert others[j] in relocs;
    }
  }
}
