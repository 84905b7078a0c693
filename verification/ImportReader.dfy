/** Reading the import sections, as DiassembleImports walks them, and why it finds what was
    written. */
module ImportReaders {
  import opened MachineWords
  import opened ImportFormats
  import opened Wrappers

  /** The string at `pos`, up to its terminating zero. */
  function StringAt(bytes: seq<Byte>, pos: nat): seq<Byte>
    decreases |bytes| - pos
  {
    if pos >= |bytes| || bytes[pos] == 0 then [] else [bytes[pos]] + StringAt(bytes, pos + 1)
  }

  /** The word of the section of names that an entry refers to. */
  function NameOf(names: seq<Byte>, entry: nat): Option<seq<Byte>> {
    var at := entry / 4 * 4;
    if at + 4 > |names| then None else Some(StringAt(names, Word4(names[at..at + 4])))
  }

  /** `n` entries from word `at` on. None if the words run out. */
  function ReadFrom(names: seq<Byte>, relocs: seq<Word32>, at: nat, n: nat): Option<seq<Import>>
    decreases n
  {
    if n == 0 then Some([])
    else if at >= |relocs| then None
    else
      var entry, count := relocs[at] % 0x1_0000, relocs[at] / 0x1_0000;
      if at + 1 + count > |relocs| then None else
        match (NameOf(names, entry), ReadFrom(names, relocs, at + 1 + count, n - 1))
        case (Some(name), Some(rest)) => Some([Import(name, Unpacked(relocs[at + 1..at + 1 + count]))] + rest)
        case _ => None
  }

  function Read(names: seq<Byte>, relocs: seq<Word32>): Option<seq<Import>> {
    if relocs == [] then None else ReadFrom(names, relocs, 1, relocs[0] % 0x1000)
  }

  /** The listing of names takes `n` strings in a row instead. */
  function NamesInARow(names: seq<Byte>, pos: nat, n: nat): seq<seq<Byte>>
    decreases n
  {
    if n == 0 then [] else
      var name := StringAt(names, pos);
      [name] + NamesInARow(names, pos + |name| + 1, n - 1)
  }

  // ---------------------------------------------------------------------------------------

  /** C strings hold no zero. */
  predicate Named(live: seq<Import>) {
    forall i, j :: 0 <= i < |live| && 0 <= j < |live[i].name| ==> live[i].name[j] != 0
  }

  /** What the two sections can hold. */
  predicate Holdable(live: seq<Import>) {
    && |live| < 0x1000
    && NamesSize(live) < 0x1_0000_0000
    && forall i :: 0 <= i < |live| ==>
         Known(live[i].refs) && Representable(live[i].refs) && |Packed(live[i].refs)| < 0x1_0000
  }

  lemma {:induction false} StringBack(bytes: seq<Byte>, pos: nat, name: seq<Byte>)
    requires pos + |name| < |bytes| && bytes[pos..pos + |name|] == name && bytes[pos + |name|] == 0
    requires forall j :: 0 <= j < |name| ==> name[j] != 0
    ensures StringAt(bytes, pos) == name
    decreases |name|
  {
    if name != [] {
      assert bytes[pos] == name[0];
      assert bytes[pos + 1..pos + |name|] == name[1..];
      StringBack(bytes, pos + 1, name[1..]);
    }
  }

  lemma {:induction false} StringsPrefix(live: seq<Import>, k: nat)
    requires k < |live|
    ensures |Strings(live[..k])| + |live[k].name| < |Strings(live)|
    ensures Strings(live)[|Strings(live[..k])|..|Strings(live[..k])| + |live[k].name|] == live[k].name
    ensures Strings(live)[|Strings(live[..k])| + |live[k].name|] == 0
    ensures |Strings(live[..k + 1])| == |Strings(live[..k])| + |live[k].name| + 1
  {
    var before := live[..|live| - 1];
    assert live[..k + 1][..k] == live[..k];
    if k < |before| {
      StringsPrefix(before, k);
      assert before[..k] == live[..k];
      assert before[..k + 1] == live[..k + 1];
    } else {
      assert before == live[..k] && live[..k + 1] == live;
    }
  }

  lemma IndicesStep(live: seq<Import>, k: nat)
    requires 0 < k <= |live| && NamesSize(live) < 0x1_0000_0000
    ensures 0 <= NameStart(|live|, live, k - 1) < 0x1_0000_0000
    ensures Indices(live, k) == Indices(live, k - 1) + Bytes4(NameStart(|live|, live, k - 1))
  {
    StringsGrow(live, k - 1);
    hide Bytes4;
  }

  lemma {:induction false} IndicesPrefix(live: seq<Import>, n: nat, k: nat)
    requires k < n <= |live| && NamesSize(live) < 0x1_0000_0000
    ensures NameStart(|live|, live, k) < 0x1_0000_0000
    ensures Indices(live, n)[4 * k..4 * k + 4] == Bytes4(NameStart(|live|, live, k))
  {
    hide *;
    IndicesStep(live, n);
    if k < n - 1 {
      IndicesPrefix(live, n - 1, k);
      assert Indices(live, n)[4 * k..4 * k + 4] == Indices(live, n - 1)[4 * k..4 * k + 4];
    }
  }

  /** The parts of the section of names, by position. */
  lemma IndexAt(live: seq<Import>, k: nat)
    requires k < |live| && NamesSize(live) < 0x1_0000_0000
    ensures 4 * (k + 1) + 4 <= |NameSection(live)|
    ensures NameStart(|live|, live, k) < 0x1_0000_0000
    ensures Word4(NameSection(live)[4 * (k + 1)..4 * (k + 1) + 4]) == NameStart(|live|, live, k)
  {
    IndicesPrefix(live, |live|, k);
    WordBack(NameStart(|live|, live, k));
    hide Word4, Bytes4, FirstWord, Indices, Strings, NameStart;
    var section, at := NameSection(live), 4 * (k + 1);
    assert section[at..at + 4] == Indices(live, |live|)[4 * k..4 * k + 4];
  }

  lemma StringsAreIn(live: seq<Import>)
    requires NamesSize(live) < 0x1_0000_0000
    ensures var pos := 4 * (|live| + 1);
            pos + |Strings(live)| <= |NameSection(live)|
            && NameSection(live)[pos..pos + |Strings(live)|] == Strings(live)
  {
    hide Word4, Bytes4, FirstWord, Indices, Strings;
  }

  lemma SliceOf<T>(s: seq<T>, pos: nat, part: seq<T>, from: nat, to: nat)
    requires pos + |part| <= |s| && s[pos..pos + |part|] == part && from <= to <= |part|
    ensures s[pos + from..pos + to] == part[from..to]
  {
    forall i | from <= i < to
      ensures s[pos + i] == part[i]
    {
      assert s[pos..pos + |part|][i] == s[pos + i];
    }
  }

  lemma NameAt(live: seq<Import>, k: nat)
    requires k < |live| && NamesSize(live) < 0x1_0000_0000
    ensures Named(live) ==> StringAt(NameSection(live), NameStart(|live|, live, k)) == live[k].name
    ensures NameStart(|live|, live, k + 1) == NameStart(|live|, live, k) + |live[k].name| + 1
  {
    hide Word4, Bytes4, FirstWord, Indices, Strings, NameSection, NamesSize, StringAt;
    StringsPrefix(live, k);
    var start, length := |Strings(live[..k])|, |live[k].name|;
    var pos := NameStart(|live|, live, k);
    StringsAreIn(live);
    var section := NameSection(live);
    SliceOf(section, 4 * (|live| + 1), Strings(live), start, start + length);
    SliceOf(section, 4 * (|live| + 1), Strings(live), start + length, start + length + 1);
    assert section[pos + length] == section[pos + length..pos + length + 1][0];
    if Named(live) {
      StringBack(section, pos, live[k].name);
    }
  }

  lemma {:induction false} BodyPrefix(live: seq<Import>, k: nat)
    requires k < |live|
    ensures |RelocBody(live[..k])| + |Entry(k, live[k])| <= |RelocBody(live)|
    ensures RelocBody(live)[|RelocBody(live[..k])|..|RelocBody(live[..k])| + |Entry(k, live[k])|] == Entry(k, live[k])
    ensures RelocBody(live[..k + 1]) == RelocBody(live[..k]) + Entry(k, live[k])
  {
    var before := live[..|live| - 1];
    assert live[..k + 1][..k] == live[..k];
    if k < |before| {
      BodyPrefix(before, k);
      assert before[..k] == live[..k];
      assert before[..k + 1] == live[..k + 1];
    } else {
      assert before == live[..k] && live[..k + 1] == live;
    }
  }

  /** Where entry `k` starts. */
  function EntryStart(live: seq<Import>, k: nat): nat
    requires k <= |live|
  {
    1 + |RelocBody(live[..k])|
  }

  lemma EntryAt(live: seq<Import>, k: nat)
    requires k < |live| && |live| < 0x1000 && |Packed(live[k].refs)| < 0x1_0000
    ensures var at, ws := EntryStart(live, k), RelocSection(live);
            var count := |Packed(live[k].refs)|;
            && at + 1 + count <= |ws|
            && ws[at] % 0x1_0000 == 4 * (k + 1) && ws[at] / 0x1_0000 == count
            && ws[at + 1..at + 1 + count] == Packed(live[k].refs)
            && EntryStart(live, k + 1) == at + 1 + count
  {
    hide Packed, FirstWord, RelocBody, Head;
    BodyPrefix(live, k);
    var at, ws, count := EntryStart(live, k), RelocSection(live), |Packed(live[k].refs)|;
    var entry := Entry(k, live[k]);
    assert ws[at..at + 1 + count] == entry;
    assert ws[at] == entry[0];
    assert ws[at + 1..at + 1 + count] == entry[1..];
    HeadBack(k, count);
  }

  lemma HeadBack(k: nat, count: nat)
    requires k < 0x1000 && count < 0x1_0000
    ensures Head(k, count) % 0x1_0000 == 4 * (k + 1) && Head(k, count) / 0x1_0000 == count
  {
  }

  lemma {:induction false} ReadFromBack(live: seq<Import>, k: nat)
    requires k <= |live| && Holdable(live) && Named(live) && NamesSize(live) < 0x1_0000_0000
    ensures ReadFrom(NameSection(live), RelocSection(live), EntryStart(live, k), |live| - k) == Some(live[k..])
    decreases |live| - k
  {
    hide *;
    if k == |live| {
      ReadNothing(NameSection(live), RelocSection(live), EntryStart(live, k));
    } else {
      ReadFromBack(live, k + 1);
      HoldableAt(live, k);
      EntryAt(live, k);
      IndexAt(live, k);
      NameAt(live, k);
      PackedBack(live[k].refs);
      assert live[k..] == [live[k]] + live[k + 1..];
      ReadStep(NameSection(live), RelocSection(live), EntryStart(live, k), |live| - k, k, live[k].name, live[k].refs,
               live[k + 1..]);
    }
  }

  lemma ReadNothing(names: seq<Byte>, relocs: seq<Word32>, at: nat)
    ensures ReadFrom(names, relocs, at, 0) == Some([])
  {
  }

  lemma HoldableAt(live: seq<Import>, k: nat)
    requires Holdable(live) && k < |live|
    ensures Known(live[k].refs) && Representable(live[k].refs) && |Packed(live[k].refs)| < 0x1_0000
    ensures |live| < 0x1000 && NamesSize(live) < 0x1_0000_0000
  {
  }

  /** One entry read. */
  lemma ReadStep(names: seq<Byte>, relocs: seq<Word32>, at: nat, n: nat, k: nat, name: seq<Byte>, refs: seq<Ref>,
                 rest: seq<Import>)
    requires at < |relocs| && n > 0
    requires var entry, count := relocs[at] % 0x1_0000, relocs[at] / 0x1_0000;
             && at + 1 + count <= |relocs| && entry == 4 * (k + 1)
             && Unpacked(relocs[at + 1..at + 1 + count]) == refs
             && ReadFrom(names, relocs, at + 1 + count, n - 1) == Some(rest)
    requires 4 * (k + 1) + 4 <= |names|
    requires StringAt(names, Word4(names[4 * (k + 1)..4 * (k + 1) + 4])) == name
    ensures ReadFrom(names, relocs, at, n) == Some([Import(name, refs)] + rest)
  {
    hide Unpacked, StringAt, Word4;
  }

  /** Reading what was written gives the imports back, with their references unpacked. */
  lemma ReadsWhatWasWritten(live: seq<Import>)
    requires Holdable(live) && Named(live)
    ensures Read(NameSection(live), RelocSection(live)) == Some(live)
  {
    ReadFromBack(live, 0);
    assert live[..0] == [] && live[0..] == live;
    FirstWordBack(|live|, 1 + |RelocBody(live)|);
    hide FirstWord, NameSection, ReadFrom;
  }

  lemma FirstWordBack(count: nat, words: nat)
    requires count < 0x1000
    ensures FirstWord(count, words) % 0x1000 == count
    ensures words < 0x10_0000 ==> FirstWord(count, words) / 0x1000 == words
  {
  }

  function Names(live: seq<Import>): seq<seq<Byte>> {
    if live == [] then [] else [live[0].name] + Names(live[1..])
  }

  /** And so does the listing of the names in a row. */
  lemma {:induction false} NamesAreInARow(live: seq<Import>, k: nat)
    requires k <= |live| && NamesSize(live) < 0x1_0000_0000 && Named(live)
    ensures NamesInARow(NameSection(live), NameStart(|live|, live, k), |live| - k) == Names(live[k..])
    decreases |live| - k
  {
    if k < |live| {
      hide NameSection, NameStart, Named, StringAt;
      NameAt(live, k);
      NamesAreInARow(live, k + 1);
      assert live[k..][1..] == live[k + 1..];
    }
  }
}
