/** The import sections of a PULP component: how references are packed into words, how the two
    sections are laid out, and how they are read back. */
module ImportFormats {
  import opened MachineWords
  import opened Wrappers

  datatype Kind = Jal | Hi20 | Lo12I | Lo12S | Other(code: nat)

  datatype Ref = Ref(kind: Kind, offset: Word)

  /** An imported symbol: its name, and the places that refer to it. */
  datatype Import = Import(name: seq<Byte>, refs: seq<Ref>)

  // ---------------------------------------------------------------------------------------
  // References.

  /** A lui and the addi right after it make one entry. */
  predicate Paired(first: Ref, second: Ref) {
    first.kind == Hi20 && second.kind == Lo12I && Minus(second.offset, first.offset) == 4
  }

  predicate StartsPair(refs: seq<Ref>) {
    |refs| >= 2 && Paired(refs[0], refs[1])
  }

  function Code(kind: Kind): (c: nat)
    ensures c < 0x10
  {
    match kind
    case Jal => 0
    case Hi20 => 2
    case Lo12I => 3
    case Lo12S => 4
    case Other(_) => 0xF
  }

  const PAIR: nat := 1

  /** 28 bits of half the offset; below 2^29 those are all. */
  function Half(offset: Word): nat {
    if offset < 0x2000_0000 then offset / 2 else offset / 2 % 0x1000_0000
  }

  /** Four bits of type over them. */
  function Expression(code: nat, offset: Word): Word32
    requires code < 0x10
  {
    code * 0x1000_0000 + Half(offset)
  }

  function Packed(refs: seq<Ref>): seq<Word32> {
    if refs == [] then []
    else if StartsPair(refs) then [Expression(PAIR, refs[0].offset)] + Packed(refs[2..])
    else [Expression(Code(refs[0].kind), refs[0].offset)] + Packed(refs[1..])
  }

  function UnpackedOne(w: Word32): seq<Ref> {
    var code, offset := w / 0x1000_0000, w % 0x1000_0000 * 2;
    if code == PAIR then [Ref(Hi20, offset), Ref(Lo12I, offset + 4)]
    else if code == 0 then [Ref(Jal, offset)]
    else if code == 2 then [Ref(Hi20, offset)]
    else if code == 3 then [Ref(Lo12I, offset)]
    else if code == 4 then [Ref(Lo12S, offset)]
    else [Ref(Other(code), offset)]
  }

  function Unpacked(ws: seq<Word32>): seq<Ref> {
    if ws == [] then [] else UnpackedOne(ws[0]) + Unpacked(ws[1..])
  }

  /** What 28 bits of half an offset can hold. */
  predicate Small(offset: int) {
    0 <= offset < 0x2000_0000 && offset % 2 == 0
  }

  predicate Known(refs: seq<Ref>) {
    forall i :: 0 <= i < |refs| ==> !refs[i].kind.Other?
  }

  /** The offset of every entry can be held. */
  predicate Representable(refs: seq<Ref>) {
    refs == [] || (Small(refs[0].offset) && Representable(refs[if StartsPair(refs) then 2 else 1..]))
  }

  /** A packed reference is read back exactly when its offset is even and below 2^29. */
  lemma ExpressionBack(kind: Kind, offset: Word)
    requires !kind.Other?
    ensures UnpackedOne(Expression(Code(kind), offset)) == [Ref(kind, offset)] <==> Small(offset)
    ensures UnpackedOne(Expression(PAIR, offset)) == [Ref(Hi20, offset), Ref(Lo12I, Plus(offset, 4))] <==> Small(offset)
  {
    Fields(Code(kind), offset);
    Fields(PAIR, offset);
    hide Expression;
  }

  /** The type field of every word that is written, by its number, and what each number is read
      as. */
  lemma TypeNumbers(offset: Word)
    ensures Expression(Code(Jal), offset) / 0x1000_0000 == 0
    ensures Expression(PAIR, offset) / 0x1000_0000 == 1
    ensures Expression(Code(Hi20), offset) / 0x1000_0000 == 2
    ensures Expression(Code(Lo12I), offset) / 0x1000_0000 == 3
    ensures Expression(Code(Lo12S), offset) / 0x1000_0000 == 4
    ensures UnpackedOne(0x0000_0003) == [Ref(Jal, 6)]
    ensures UnpackedOne(0x1000_0003) == [Ref(Hi20, 6), Ref(Lo12I, 10)]
    ensures UnpackedOne(0x2000_0003) == [Ref(Hi20, 6)]
    ensures UnpackedOne(0x3000_0003) == [Ref(Lo12I, 6)]
    ensures UnpackedOne(0x4000_0003) == [Ref(Lo12S, 6)]
  {
    hide Expression;
    Fields(0, offset);
    Fields(1, offset);
    Fields(2, offset);
    Fields(3, offset);
    Fields(4, offset);
  }

  /** Concretely: a jump at 2^29 is read back as one at zero, and one at 3 as one at 2. */
  lemma OffsetsLost()
    ensures UnpackedOne(Expression(Code(Jal), 0x2000_0000)) == [Ref(Jal, 0)]
    ensures UnpackedOne(Expression(Code(Jal), 3)) == [Ref(Jal, 2)]
  {
    hide Expression;
    Fields(0, 0x2000_0000);
    Fields(0, 3);
  }

  lemma Fields(code: nat, offset: Word)
    requires code < 0x10
    ensures Expression(code, offset) / 0x1000_0000 == code
    ensures Expression(code, offset) % 0x1000_0000 == offset / 2 % 0x1000_0000
  {
  }

  /** Packing loses nothing exactly when the offsets can be held. */
  lemma {:induction false} PackedBack(refs: seq<Ref>)
    requires Known(refs)
    ensures Unpacked(Packed(refs)) == refs <==> Representable(refs)
    decreases |refs|
  {
    if refs != [] {
      hide Expression, UnpackedOne, Small;
      var first := refs[0];
      ExpressionBack(first.kind, first.offset);
      if StartsPair(refs) {
        PackedBack(refs[2..]);
        UnpackedLength(Expression(PAIR, first.offset));
        SamePrefix(UnpackedOne(Expression(PAIR, first.offset)), Unpacked(Packed(refs[2..])), refs, 2);
        assert refs[..2] == [first, refs[1]];
      } else {
        PackedBack(refs[1..]);
        UnpackedLength(Expression(Code(first.kind), first.offset));
        SamePrefix(UnpackedOne(Expression(Code(first.kind), first.offset)), Unpacked(Packed(refs[1..])), refs, 1);
        assert refs[..1] == [first];
      }
    }
  }

  lemma UnpackedLength(w: Word32)
    ensures |UnpackedOne(w)| == if w / 0x1000_0000 == PAIR then 2 else 1
  {
  }

  lemma SamePrefix(a: seq<Ref>, b: seq<Ref>, s: seq<Ref>, n: nat)
    requires |a| == n <= |s|
    ensures a + b == s <==> a == s[..n] && b == s[n..]
  {
    if a + b == s {
      assert a == (a + b)[..n] && b == (a + b)[n..];
    }
  }

  // ---------------------------------------------------------------------------------------
  // The section of relocations.

  /** The imports that the sections list: those that something refers to. */
  function Live(imports: seq<Import>): (live: seq<Import>)
    ensures |live| <= |imports|
    ensures forall i :: 0 <= i < |live| ==> live[i] in imports && live[i].refs != []
  {
    if imports == [] then [] else
      var last := imports[|imports| - 1];
      Live(imports[..|imports| - 1]) + if last.refs == [] then [] else [last]
  }

  /** The low 12 bits count the imports, the others the section's words. */
  function FirstWord(count: nat, words: nat): Word32 {
    count % 0x1000 + words % 0x10_0000 * 0x1000
  }

  /** Where the name's index is in the other section, and how many words follow. */
  function Head(k: nat, count: nat): Word32 {
    4 * (k + 1) % 0x1_0000 + count % 0x1_0000 * 0x1_0000
  }

  function Entry(k: nat, entry: Import): (ws: seq<Word32>)
    ensures ws != []
  {
    [Head(k, |Packed(entry.refs)|)] + Packed(entry.refs)
  }

  function RelocBody(live: seq<Import>): seq<Word32> {
    if live == [] then [] else
      var k := |live| - 1;
      RelocBody(live[..k]) + Entry(k, live[k])
  }

  function RelocSection(live: seq<Import>): seq<Word32> {
    [FirstWord(|live|, 1 + |RelocBody(live)|)] + RelocBody(live)
  }

  // ---------------------------------------------------------------------------------------
  // The section of names.

  function Strings(live: seq<Import>): seq<Byte> {
    if live == [] then [] else Strings(live[..|live| - 1]) + live[|live| - 1].name + [0]
  }

  /** Where the string of import `k` starts, when there are `n` of them. */
  function NameStart(n: nat, live: seq<Import>, k: nat): nat
    requires k <= |live|
  {
    4 * (n + 1) + |Strings(live[..k])|
  }

  function Padded(size: nat): nat {
    if size % 4 == 0 then size else (size / 4 + 1) * 4
  }

  function NamesSize(live: seq<Import>): nat {
    Padded(4 * (|live| + 1) + |Strings(live)|)
  }

  /** The first `k` indices. */
  function Indices(live: seq<Import>, k: nat): (bytes: seq<Byte>)
    requires k <= |live| && NamesSize(live) < 0x1_0000_0000
    ensures |bytes| == 4 * k
  {
    if k == 0 then [] else
      StringsGrow(live, k - 1);
      Indices(live, k - 1) + Bytes4(NameStart(|live|, live, k - 1))
  }

  lemma {:induction false} StringsGrow(live: seq<Import>, k: nat)
    requires k <= |live|
    ensures |Strings(live[..k])| <= |Strings(live)|
  {
    if k < |live| {
      StringsGrow(live[..|live| - 1], k);
      assert live[..|live| - 1][..k] == live[..k];
    } else {
      assert live[..k] == live;
    }
  }

  function NameSection(live: seq<Import>): (bytes: seq<Byte>)
    requires NamesSize(live) < 0x1_0000_0000
    ensures |bytes| == NamesSize(live)
  {
    var filled := Bytes4(FirstWord(|live|, NamesSize(live) / 4)) + Indices(live, |live|) + Strings(live);
    filled + seq(NamesSize(live) - |filled|, i => 0)
  }

  // ---------------------------------------------------------------------------------------
  // Concretely.

  const AB: Import := Import([0x61, 0x62], [Ref(Hi20, 4), Ref(Lo12I, 8), Ref(Jal, 16)])

  const C: Import := Import([0x63], [Ref(Lo12S, 6)])

  /** Two imports, ab with a pair and a jump, and c with a store: the words of one section. */
  lemma KnownRelocs()
    ensures RelocSection([AB, C]) == [0x6002, 0x2_0004, 0x1000_0002, 0x0000_0008, 0x1_0008, 0x4000_0003]
  {
    KnownEntries();
    hide Entry;
    Bodies([AB, C]);
    hide RelocBody, FirstWord;
  }

  lemma Bodies(live: seq<Import>)
    requires |live| == 2
    ensures RelocBody(live) == Entry(0, live[0]) + Entry(1, live[1])
  {
    hide Entry;
    var first := live[..1];
    assert first[..0] == [] && first[0] == live[0];
    assert RelocBody(first) == Entry(0, live[0]);
    assert RelocBody(live) == RelocBody(first) + Entry(1, live[1]);
  }

  lemma KnownEntries()
    ensures Entry(0, AB) == [0x2_0004, 0x1000_0002, 0x0000_0008] && Entry(1, C) == [0x1_0008, 0x4000_0003]
    ensures FirstWord(2, 6) == 0x6002
  {
    PackedAB();
    PackedC();
    hide Packed;
  }

  lemma PackedAB()
    ensures Packed(AB.refs) == [0x1000_0002, 0x0000_0008]
  {
    var refs := AB.refs;
    assert refs[2..] == [Ref(Jal, 16)] && refs[2..][1..] == [];
    assert Packed(refs[2..]) == [8];
  }

  lemma PackedC()
    ensures Packed(C.refs) == [0x4000_0003]
  {
    assert C.refs[1..] == [];
  }

  /** And the bytes of the other. */
  lemma KnownNames()
    ensures NamesSize([AB, C]) == 20
    ensures NameSection([AB, C]) == [0x02, 0x50, 0, 0, 0x0c, 0, 0, 0, 0x0f, 0, 0, 0, 0x61, 0x62, 0, 0x63, 0, 0, 0, 0]
  {
    KnownStrings();
    KnownIndices();
    hide Strings, Indices, Bytes4;
    KnownBytes();
  }

  lemma KnownStrings()
    ensures Strings([AB, C][..1]) == [0x61, 0x62, 0] && Strings([AB, C]) == [0x61, 0x62, 0, 0x63, 0]
  {
    assert [AB, C][..1] == [AB] && [AB, C][..0] == [AB][..0] == [];
    assert Strings([AB]) == [0x61, 0x62, 0];
  }

  lemma KnownIndices()
    ensures NamesSize([AB, C]) == 20 && Indices([AB, C], 2) == Bytes4(12) + Bytes4(15)
  {
    KnownStrings();
    hide Strings, Bytes4;
    assert [AB, C][..0] == [];
    NoStrings();
    assert Indices([AB, C], 1) == Bytes4(12);
  }

  lemma NoStrings()
    ensures Strings([]) == []
  {
  }

  lemma KnownBytes()
    ensures Bytes4(0x5002) == [0x02, 0x50, 0, 0] && Bytes4(12) == [0x0c, 0, 0, 0] && Bytes4(15) == [0x0f, 0, 0, 0]
  {
  }
}
