/** A section relocated in place: riscv_record_pcrel_hi_reloc, riscv_record_pcrel_lo_reloc,
    riscv_resolve_pcrel_lo_relocs and the pc-relative part of riscv_elf_relocate_section. */
module PcrelSections {
  import opened MachineWords
  import opened PcrelWords
  import opened PcrelRelocs

  datatype Status = Relocated | Overflow | NoHighPart

  /** A low part that waits: which relocation it is, and the label of its high part. */
  datatype LoReloc = LoReloc(index: nat, addr: Word)

  ghost predicate AllReach(addr: Word, relocs: seq<Reloc>)
    requires InSection(relocs, WORD)
  {
    forall i :: 0 <= i < |relocs| && relocs[i].kind == PcrelHi20 ==> ValidU(HighPart(Distance(addr, relocs[i])))
  }

  ghost predicate AllFound(addr: Word, relocs: seq<Reloc>)
    requires InSection(relocs, WORD)
  {
    forall i :: 0 <= i < |relocs| && relocs[i].kind != PcrelHi20 ==> relocs[i].relocation in Table(addr, relocs)
  }

  ghost function HighsBelow(relocs: seq<Reloc>, n: nat): set<nat>
    requires n <= |relocs|
  {
    set i: nat | i < n && relocs[i].kind == PcrelHi20
  }

  ghost function IndicesOf(lows: seq<LoReloc>): set<nat> {
    set k | 0 <= k < |lows| :: lows[k].index
  }

  /** The waiting list holds each low part below `n` once. */
  ghost predicate Waiting(relocs: seq<Reloc>, lows: seq<LoReloc>, n: nat)
    requires n <= |relocs|
  {
    && (forall k :: 0 <= k < |lows| ==>
          var i := lows[k].index; i < n && relocs[i].kind != PcrelHi20 && lows[k].addr == relocs[i].relocation)
    && (forall k, l :: 0 <= k < l < |lows| ==> lows[k].index != lows[l].index)
    && (forall i :: 0 <= i < n && relocs[i].kind != PcrelHi20 ==> i in IndicesOf(lows))
  }

  lemma Starts(addr: Word, table: map<Word, Word>, relocs: seq<Reloc>, before: seq<Byte>)
    requires InSection(relocs, |before|) && |before| < WORD
    ensures InSection(relocs[..0], WORD) && Table(addr, relocs[..0]) == map[]
    ensures Waiting(relocs, [], 0) && HighsBelow(relocs, 0) == {}
    ensures PatchedSoFar(addr, table, relocs, before, before, {})
  {
    NothingPatched(addr, table, relocs, before);
    hide PatchedSoFar;
  }

  lemma HighsStep(addr: Word, relocs: seq<Reloc>, i: nat)
    requires InSection(relocs, WORD) && i < |relocs|
    ensures InSection(relocs[..i + 1], WORD) && relocs[i].offset + 4 <= WORD
    ensures Table(addr, relocs[..i + 1]) ==
            if relocs[i].kind == PcrelHi20 then
              Table(addr, relocs[..i])[Pc(addr, relocs[i]) := Distance(addr, relocs[i])]
            else Table(addr, relocs[..i])
    ensures HighsBelow(relocs, i + 1) == HighsBelow(relocs, i) + if relocs[i].kind == PcrelHi20 then {i} else {}
    ensures i !in HighsBelow(relocs, i)
  {
    TableStep(addr, relocs[..i + 1]);
    assert relocs[..i + 1][..i] == relocs[..i];
    hide Table;
  }

  lemma WaitingStep(relocs: seq<Reloc>, lows: seq<LoReloc>, i: nat)
    requires i < |relocs| && Waiting(relocs, lows, i)
    ensures relocs[i].kind == PcrelHi20 ==> Waiting(relocs, lows, i + 1)
    ensures relocs[i].kind != PcrelHi20 ==> Waiting(relocs, [LoReloc(i, relocs[i].relocation)] + lows, i + 1)
  {
    if relocs[i].kind != PcrelHi20 {
      var all := [LoReloc(i, relocs[i].relocation)] + lows;
      forall j | 0 <= j < i + 1 && relocs[j].kind != PcrelHi20
        ensures j in IndicesOf(all)
      {
        if j < i {
          var k :| 0 <= k < |lows| && lows[k].index == j;
          assert all[k + 1].index == j;
        } else {
          assert all[0].index == j;
        }
      }
    }
  }

  lemma WaitingAt(relocs: seq<Reloc>, lows: seq<LoReloc>, k: nat)
    requires Waiting(relocs, lows, |relocs|) && k < |lows|
    ensures lows[k].index < |relocs|
    ensures relocs[lows[k].index].kind != PcrelHi20 && lows[k].addr == relocs[lows[k].index].relocation
    ensures lows[k].index !in HighsBelow(relocs, |relocs|) + IndicesOf(lows[..k])
    ensures IndicesOf(lows[..k + 1]) == IndicesOf(lows[..k]) + {lows[k].index}
  {
    assert lows[..k + 1][k] == lows[k];
    assert forall l :: 0 <= l < k ==> lows[..k + 1][l] == lows[..k][l];
    forall x
      ensures x in IndicesOf(lows[..k + 1]) <==> x in IndicesOf(lows[..k]) + {lows[k].index}
    {
      if x in IndicesOf(lows[..k]) {
        var l :| 0 <= l < k && lows[..k][l].index == x;
        assert lows[..k + 1][l].index == x;
      }
      if x == lows[k].index {
        assert lows[..k + 1][k].index == x;
      }
    }
  }

  lemma OutOfReach(addr: Word, relocs: seq<Reloc>, i: nat)
    requires InSection(relocs, WORD) && i < |relocs| && relocs[i].kind == PcrelHi20
    requires !ValidU(HighPart(Distance(addr, relocs[i])))
    ensures !AllReach(addr, relocs)
  {
  }

  lemma EndsFirst(addr: Word, relocs: seq<Reloc>)
    requires InSection(relocs, WORD)
    requires forall j :: 0 <= j < |relocs| && relocs[j].kind == PcrelHi20 ==>
               ValidU(HighPart(Distance(addr, relocs[j])))
    ensures relocs[..|relocs|] == relocs && AllReach(addr, relocs)
  {
    hide ValidU, HighPart, Distance;
  }

  lemma NoneResolved(relocs: seq<Reloc>, lows: seq<LoReloc>)
    ensures HighsBelow(relocs, |relocs|) == HighsBelow(relocs, |relocs|) + IndicesOf(lows[..0])
  {
  }

  lemma NotFound(addr: Word, relocs: seq<Reloc>, i: nat)
    requires InSection(relocs, WORD) && i < |relocs| && relocs[i].kind != PcrelHi20
    requires relocs[i].relocation !in Table(addr, relocs)
    ensures !AllFound(addr, relocs)
  {
  }

  lemma AllResolved(addr: Word, relocs: seq<Reloc>, lows: seq<LoReloc>, done: set<nat>)
    requires InSection(relocs, WORD) && Waiting(relocs, lows, |relocs|)
    requires done == HighsBelow(relocs, |relocs|) + IndicesOf(lows)
    requires forall k :: 0 <= k < |lows| ==> lows[k].addr in Table(addr, relocs)
    ensures IsAll(done, |relocs|) && AllFound(addr, relocs)
  {
    hide Table;
    forall i | 0 <= i < |relocs| && relocs[i].kind != PcrelHi20
      ensures relocs[i].relocation in Table(addr, relocs)
    {
      assert i in IndicesOf(lows);
    }
  }

  /** How relocating a section ends: in an overflow if some high part cannot reach its target, else
      without one if some low part's label is not on a high part, else with every instruction
      patched. */
  ghost predicate Finished(addr: Word, relocs: seq<Reloc>, before: seq<Byte>, status: Status, after: seq<Byte>)
    requires InSection(relocs, |before|) && |before| < WORD
  {
    && (status == Overflow <==> !AllReach(addr, relocs))
    && (status == NoHighPart <==> AllReach(addr, relocs) && !AllFound(addr, relocs))
    && (status == Relocated ==>
          exists done :: IsAll(done, |relocs|) &&
                         PatchedSoFar(addr, Table(addr, relocs), relocs, before, after, done))
  }

  /** However the relocations are ordered, it ends in the same way, and if well with the same bytes. */
  lemma OrderEndsSame(addr: Word, relocs: seq<Reloc>, others: seq<Reloc>, before: seq<Byte>, status: Status,
                      after: seq<Byte>, otherStatus: Status, otherAfter: seq<Byte>)
    requires InSection(relocs, |before|) && AllApart(relocs) && InSection(others, |before|) && AllApart(others)
    requires |before| < WORD && forall r :: r in relocs <==> r in others
    requires Finished(addr, relocs, before, status, after) && Finished(addr, others, before, otherStatus, otherAfter)
    ensures status == otherStatus && (status == Relocated ==> after == otherAfter)
  {
    hide Table, PatchedSoFar, AllApart, ValidU, HighPart, Distance, IsAll;
    OrderIsFree(addr, relocs, others);
    ReachFrom(addr, relocs, others);
    ReachFrom(addr, others, relocs);
    hide AllReach, AllFound;
    if status == Relocated && otherStatus == Relocated {
      var done :| IsAll(done, |relocs|) && PatchedSoFar(addr, Table(addr, relocs), relocs, before, after, done);
      var otherDone :| IsAll(otherDone, |others|) &&
                       PatchedSoFar(addr, Table(addr, others), others, before, otherAfter, otherDone);
      OrderGivesSame(addr, relocs, others, before, after, otherAfter, done, otherDone);
    }
  }

  lemma ReachFrom(addr: Word, relocs: seq<Reloc>, others: seq<Reloc>)
    requires InSection(relocs, WORD) && InSection(others, WORD)
    requires forall r :: r in others ==> r in relocs
    requires Table(addr, relocs) == Table(addr, others)
    ensures AllReach(addr, relocs) ==> AllReach(addr, others)
    ensures AllFound(addr, relocs) ==> AllFound(addr, others)
  {
    hide Table, ValidU, HighPart, Distance;
    forall j | 0 <= j < |others|
      ensures exists i :: 0 <= i < |relocs| && relocs[i] == others[j]
    {
      assert others[j] in relocs;
    }
  }

  class PcrelSection {
    const addr: Word
    const contents: array<Byte>
    var hiRelocs: map<Word, Word>
    var loRelocs: seq<LoReloc>

    constructor (addr: Word, contents: array<Byte>)
      ensures this.addr == addr && this.contents == contents
    {
      this.addr, this.contents, hiRelocs, loRelocs := addr, contents, map[], [];
    }

    method RecordHi(pc: Word, value: Word)
      modifies `hiRelocs
      ensures hiRelocs == old(hiRelocs)[pc := Minus(value, pc)]
    {
      hiRelocs := hiRelocs[pc := Minus(value, pc)];
    }

    method RecordLo(index: nat, addr: Word)
      modifies `loRelocs
      ensures loRelocs == [LoReloc(index, addr)] + old(loRelocs)
    {
      loRelocs := [LoReloc(index, addr)] + loRelocs;
    }

    /** perform_relocation. */
    method Perform(r: Reloc, symbol: Word) returns (ok: bool)
      requires r.offset + 4 <= contents.Length < WORD
      modifies contents
      ensures ok == (r.kind == PcrelHi20 ==> ValidU(HighPart(Plus(Minus(symbol, Pc(addr, r)), r.addend))))
      ensures var was := old(contents[..]);
              var insn := WordAt(was, r.offset);
              contents[..] ==
              if !ok then was
              else
                Spliced(was, r.offset, Bytes4(
                  match r.kind
                  case PcrelHi20 => PatchU(insn, HighPart(Plus(Minus(symbol, Pc(addr, r)), r.addend)))
                  case PcrelLo12I => PatchI(insn, Plus(symbol, r.addend))
                  case PcrelLo12S => PatchS(insn, Plus(symbol, r.addend))))
    {
      hide HighPart, ValidU, PatchU, PatchI, PatchS, Bytes4, Spliced, Word4;
      var value := symbol;
      if r.kind == PcrelHi20 {
        value := Minus(value, Plus(addr, r.offset));
      }
      value := Plus(value, r.addend);
      if r.kind == PcrelHi20 && !ValidU(HighPart(value)) {
        return false;
      }
      var insn := Word4(contents[r.offset..r.offset + 4]);
      assert contents[r.offset..r.offset + 4] == contents[..][r.offset..r.offset + 4];
      match r.kind {
        case PcrelHi20 => Store(contents, r.offset, Bytes4(PatchU(insn, HighPart(value))));
        case PcrelLo12I => Store(contents, r.offset, Bytes4(PatchI(insn, value)));
        case PcrelLo12S => Store(contents, r.offset, Bytes4(PatchS(insn, value)));
      }
      return true;
    }

    /** Relocates the section. It succeeds exactly when every high part can reach its target and
        every low part's label is on a high part, and then every instruction is patched. */
    method RelocateSection(relocs: seq<Reloc>) returns (status: Status)
      requires contents.Length < WORD && InSection(relocs, contents.Length) && AllApart(relocs)
      modifies this, contents
      ensures Finished(addr, relocs, old(contents[..]), status, contents[..])
    {
      hide Table, Waiting, HighsBelow, IndicesOf, PatchedSoFar, AllApart, AllReach, AllFound, IsAll;
      hide ValidU, HighPart, PatchU, PatchI, PatchS, Distance, Pc, WordAt, Final, Bytes4, Spliced, Plus, Minus;
      ghost var before, table := contents[..], Table(addr, relocs);
      hiRelocs, loRelocs := map[], [];
      ghost var done := {};
      Starts(addr, table, relocs, before);
      var i := 0;
      while i < |relocs|
        invariant 0 <= i <= |relocs| && |contents[..]| == |before|
        invariant hiRelocs == Table(addr, relocs[..i])
        invariant Waiting(relocs, loRelocs, i) && done == HighsBelow(relocs, i)
        invariant PatchedSoFar(addr, table, relocs, before, contents[..], done)
        invariant forall j :: 0 <= j < i && relocs[j].kind == PcrelHi20 ==> ValidU(HighPart(Distance(addr, relocs[j])))
      {
        var r := relocs[i];
        HighsStep(addr, relocs, i);
        WaitingStep(relocs, loRelocs, i);
        if r.kind == PcrelHi20 {
          RecordHi(Plus(addr, r.offset), Plus(r.relocation, r.addend));
          DistanceIs(addr, r);
          FinalHigh(addr, table, r, WordAt(contents[..], r.offset));
          PatchOne(addr, table, relocs, before, contents[..], done, i);
          var ok := Perform(r, r.relocation);
          if !ok {
            OutOfReach(addr, relocs, i);
            return Overflow;
          }
          done := done + {i};
        } else {
          RecordLo(i, r.relocation);
        }
        i := i + 1;
      }
      EndsFirst(addr, relocs);
      status := Resolve(relocs, before);
    }

    method Resolve(relocs: seq<Reloc>, ghost before: seq<Byte>) returns (status: Status)
      requires |before| == contents.Length < WORD && InSection(relocs, contents.Length) && AllApart(relocs)
      requires hiRelocs == Table(addr, relocs) && Waiting(relocs, loRelocs, |relocs|)
      requires PatchedSoFar(addr, hiRelocs, relocs, before, contents[..], HighsBelow(relocs, |relocs|))
      modifies contents
      ensures status == if AllFound(addr, relocs) then Relocated else NoHighPart
      ensures status == Relocated ==>
                exists done :: IsAll(done, |relocs|) &&
                               PatchedSoFar(addr, Table(addr, relocs), relocs, before, contents[..], done)
    {
      hide Table, Waiting, HighsBelow, IndicesOf, PatchedSoFar, AllApart, AllReach, AllFound, IsAll;
      hide ValidU, HighPart, PatchU, PatchI, PatchS, Distance, Pc, WordAt, Final, Bytes4, Spliced, Plus, Minus;
      ghost var done := HighsBelow(relocs, |relocs|);
      var k := 0;
      NoneResolved(relocs, loRelocs);
      while k < |loRelocs|
        invariant 0 <= k <= |loRelocs|
        invariant PatchedSoFar(addr, hiRelocs, relocs, before, contents[..], done)
        invariant done == HighsBelow(relocs, |relocs|) + IndicesOf(loRelocs[..k])
        invariant forall l :: 0 <= l < k ==> loRelocs[l].addr in hiRelocs
      {
        var entry := loRelocs[k];
        WaitingAt(relocs, loRelocs, k);
        var r := relocs[entry.index];
        if entry.addr !in hiRelocs {
          NotFound(addr, relocs, entry.index);
          return NoHighPart;
        }
        FinalLow(addr, hiRelocs, r, WordAt(contents[..], r.offset));
        PatchOne(addr, hiRelocs, relocs, before, contents[..], done, entry.index);
        var ok := Perform(r, hiRelocs[entry.addr]);
        done := done + {entry.index};
        k := k + 1;
      }
      assert loRelocs[..k] == loRelocs;
      AllResolved(addr, relocs, loRelocs, done);
      return Relocated;
    }
  }
}
