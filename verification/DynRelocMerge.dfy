/** Merging the dynamic relocations of an indirect symbol into those of the symbol it stands for:
    riscv_elf_copy_indirect_symbol, on its linked lists. */
module DynRelocMerges {
  /** How many relocations a section needs, and how many of them are pc-relative. */
  datatype Entry = Entry(sec: nat, count: nat, pcCount: nat)

  // ---------------------------------------------------------------------------------------
  // The lists as values.

  /** The first entry for the section takes the counts in. */
  function Absorbed(dir: seq<Entry>, e: Entry): (r: seq<Entry>)
    ensures |r| == |dir|
  {
    if dir == [] then []
    else if dir[0].sec == e.sec then [Entry(e.sec, dir[0].count + e.count, dir[0].pcCount + e.pcCount)] + dir[1..]
    else [dir[0]] + Absorbed(dir[1..], e)
  }

  predicate Mentions(list: seq<Entry>, sec: nat) {
    exists i :: 0 <= i < |list| && list[i].sec == sec
  }

  /** After the first entries of the indirect list: those kept, and the direct list. */
  function Merging(ind: seq<Entry>, dir: seq<Entry>): (r: (seq<Entry>, seq<Entry>))
    ensures |r.1| == |dir|
  {
    if ind == [] then ([], dir) else
      var (kept, d) := Merging(ind[..|ind| - 1], dir);
      var e := ind[|ind| - 1];
      if Mentions(d, e.sec) then (kept, Absorbed(d, e)) else (kept + [e], d)
  }

  function Merged(ind: seq<Entry>, dir: seq<Entry>): seq<Entry> {
    Merging(ind, dir).0 + Merging(ind, dir).1
  }

  function Amount(e: Entry, sec: nat, pc: bool): nat {
    if e.sec != sec then 0 else if pc then e.pcCount else e.count
  }

  /** The counts of one section, all or only the pc-relative ones. */
  function Sum(list: seq<Entry>, sec: nat, pc: bool): nat {
    if list == [] then 0 else Amount(list[0], sec, pc) + Sum(list[1..], sec, pc)
  }

  lemma {:induction false} SumJoin(a: seq<Entry>, b: seq<Entry>, sec: nat, pc: bool)
    ensures Sum(a + b, sec, pc) == Sum(a, sec, pc) + Sum(b, sec, pc)
  {
    if a == [] {
      assert a + b == b;
    } else {
      assert (a + b)[1..] == a[1..] + b;
      SumJoin(a[1..], b, sec, pc);
    }
  }

  lemma {:induction false} AbsorbedSum(dir: seq<Entry>, e: Entry, sec: nat, pc: bool)
    requires Mentions(dir, e.sec)
    ensures Sum(Absorbed(dir, e), sec, pc) == Sum(dir, sec, pc) + Amount(e, sec, pc)
  {
    if dir[0].sec == e.sec {
      assert Absorbed(dir, e)[1..] == dir[1..];
    } else {
      var i :| 0 <= i < |dir| && dir[i].sec == e.sec;
      assert dir[1..][i - 1].sec == e.sec;
      AbsorbedSum(dir[1..], e, sec, pc);
      assert Absorbed(dir, e)[1..] == Absorbed(dir[1..], e);
    }
  }

  /** No count is lost or made up: for every section the sums stay the same. */
  lemma {:induction false} MergeConserves(ind: seq<Entry>, dir: seq<Entry>, sec: nat, pc: bool)
    ensures Sum(Merged(ind, dir), sec, pc) == Sum(ind, sec, pc) + Sum(dir, sec, pc)
  {
    if ind == [] {
      assert Merged(ind, dir) == dir;
    } else {
      hide Amount, Mentions, Absorbed;
      var before, e := ind[..|ind| - 1], ind[|ind| - 1];
      MergeConserves(before, dir, sec, pc);
      var (kept, d) := Merging(before, dir);
      SumJoin(kept, d, sec, pc);
      SumJoin(before, [e], sec, pc);
      assert ind == before + [e];
      if Mentions(d, e.sec) {
        AbsorbedSum(d, e, sec, pc);
        SumJoin(kept, Absorbed(d, e), sec, pc);
      } else {
        SumJoin(kept, [e], sec, pc);
        SumJoin(kept + [e], d, sec, pc);
      }
    }
  }

  predicate OnePerSection(list: seq<Entry>) {
    forall i, j :: 0 <= i < j < |list| ==> list[i].sec != list[j].sec
  }

  lemma {:induction false} NoneOf(list: seq<Entry>, sec: nat, pc: bool)
    requires !Mentions(list, sec)
    ensures Sum(list, sec, pc) == 0
  {
    if list != [] {
      assert list[0].sec != sec;
      assert forall i :: 0 <= i < |list| - 1 ==> list[1..][i] == list[i + 1];
      NoneOf(list[1..], sec, pc);
    }
  }

  /** With one entry a section, the sum of a section is what its entry says. */
  lemma {:induction false} OnlyCount(list: seq<Entry>, i: nat)
    requires OnePerSection(list) && i < |list|
    ensures Sum(list, list[i].sec, false) == list[i].count && Sum(list, list[i].sec, true) == list[i].pcCount
  {
    var rest := list[1..];
    assert forall j :: 0 <= j < |rest| ==> rest[j] == list[j + 1];
    if i == 0 {
      NoneOf(rest, list[0].sec, false);
      NoneOf(rest, list[0].sec, true);
    } else {
      OnlyCount(rest, i - 1);
    }
  }

  lemma {:induction false} AbsorbedSections(dir: seq<Entry>, e: Entry)
    ensures forall i :: 0 <= i < |dir| ==> Absorbed(dir, e)[i].sec == dir[i].sec
  {
    if dir != [] && dir[0].sec != e.sec {
      AbsorbedSections(dir[1..], e);
    }
  }

  lemma {:induction false} MergingSections(ind: seq<Entry>, dir: seq<Entry>)
    ensures var (kept, d) := Merging(ind, dir);
            && (forall i :: 0 <= i < |dir| ==> d[i].sec == dir[i].sec)
            && (forall i :: 0 <= i < |kept| ==> kept[i] in ind && !Mentions(dir, kept[i].sec))
  {
    if ind != [] {
      var before, e := ind[..|ind| - 1], ind[|ind| - 1];
      MergingSections(before, dir);
      var (kept, d) := Merging(before, dir);
      AbsorbedSections(d, e);
      if Mentions(dir, e.sec) {
        var i :| 0 <= i < |dir| && dir[i].sec == e.sec;
        assert d[i].sec == e.sec;
      }
    }
  }

  /** If both lists have one entry a section, so has the merged list. */
  lemma {:induction false} MergeKeepsOnePerSection(ind: seq<Entry>, dir: seq<Entry>)
    requires OnePerSection(ind) && OnePerSection(dir)
    ensures OnePerSection(Merged(ind, dir))
  {
    MergingSections(ind, dir);
    if ind != [] {
      var before, e := ind[..|ind| - 1], ind[|ind| - 1];
      MergeKeepsOnePerSection(before, dir);
      MergingSections(before, dir);
      var (kept, d) := Merging(before, dir);
      AbsorbedSections(d, e);
      if Mentions(d, e.sec) {
        OnePerSectionOf(kept + d, kept + Absorbed(d, e));
      } else {
        forall i | 0 <= i < |kept|
          ensures kept[i].sec != e.sec
        {
          assert Merging(before, dir).0[i] in before;
          var k :| 0 <= k < |before| && before[k] == kept[i];
          assert ind[k].sec != ind[|ind| - 1].sec;
        }
        OneMore(kept, d, e);
      }
    }
  }

  /** So each entry of the merged list has what both lists say of its section, added up. */
  lemma CountsAdd(ind: seq<Entry>, dir: seq<Entry>, i: nat)
    requires OnePerSection(ind) && OnePerSection(dir) && i < |Merged(ind, dir)|
    ensures var e := Merged(ind, dir)[i];
            && e.count == Sum(ind, e.sec, false) + Sum(dir, e.sec, false)
            && e.pcCount == Sum(ind, e.sec, true) + Sum(dir, e.sec, true)
  {
    hide Merged, Sum, OnePerSection;
    var e := Merged(ind, dir)[i];
    MergeKeepsOnePerSection(ind, dir);
    OnlyCount(Merged(ind, dir), i);
    MergeConserves(ind, dir, e.sec, false);
    MergeConserves(ind, dir, e.sec, true);
  }

  lemma OnePerSectionOf(a: seq<Entry>, b: seq<Entry>)
    requires OnePerSection(a) && |a| == |b| && forall i :: 0 <= i < |a| ==> a[i].sec == b[i].sec
    ensures OnePerSection(b)
  {
  }

  lemma OneMore(kept: seq<Entry>, d: seq<Entry>, e: Entry)
    requires OnePerSection(kept + d) && !Mentions(d, e.sec)
    requires forall i :: 0 <= i < |kept| ==> kept[i].sec != e.sec
    ensures OnePerSection(kept + [e] + d)
  {
    var was, all := kept + d, kept + [e] + d;
    forall i, j | 0 <= i < j < |all|
      ensures all[i].sec != all[j].sec
    {
      assert i < |kept| ==> all[i] == was[i] == kept[i];
      assert i > |kept| ==> all[i] == was[i - 1];
      assert j < |kept| ==> all[j] == was[j];
      assert j > |kept| ==> all[j] == was[j - 1] == d[j - |kept| - 1];
    }
  }

  // ---------------------------------------------------------------------------------------
  // The linked lists.

  class DynReloc {
    var next: DynReloc?
    const sec: nat
    var count: nat
    var pcCount: nat

    constructor (sec: nat, count: nat, pcCount: nat, next: DynReloc?)
      ensures Value() == Entry(sec, count, pcCount) && this.next == next
    {
      this.sec, this.count, this.pcCount, this.next := sec, count, pcCount, next;
    }

    function Value(): Entry
      reads `count, `pcCount
    {
      Entry(sec, count, pcCount)
    }
  }

  class HashEntry {
    var dynRelocs: DynReloc?

    constructor (dynRelocs: DynReloc?)
      ensures this.dynRelocs == dynRelocs
    {
      this.dynRelocs := dynRelocs;
    }
  }

  function Start(nodes: seq<DynReloc>): DynReloc? {
    if |nodes| == 0 then null else nodes[0]
  }

  /** The nodes are linked in this order, and none is there twice. */
  ghost predicate Linked(nodes: seq<DynReloc>)
    reads nodes`next
  {
    && (forall k {:trigger nodes[k].next} :: 0 <= k < |nodes| ==>
         nodes[k].next == if k + 1 < |nodes| then nodes[k + 1] else null)
    && (forall j, k :: 0 <= j < k < |nodes| ==> nodes[j] != nodes[k])
  }

  ghost function Values(nodes: seq<DynReloc>): (list: seq<Entry>)
    reads nodes`count, nodes`pcCount
    ensures |list| == |nodes|
    ensures forall k :: 0 <= k < |nodes| ==> list[k] == nodes[k].Value()
  {
    if nodes == [] then [] else Values(nodes[..|nodes| - 1]) + [nodes[|nodes| - 1].Value()]
  }

  ghost predicate Separate(a: seq<DynReloc>, b: seq<DynReloc>) {
    forall i, j :: 0 <= i < |a| && 0 <= j < |b| ==> a[i] != b[j]
  }

  /** Adds the counts of `p` to the first node of the list for the same section, if any. */
  method AbsorbInto(dir: HashEntry, p: DynReloc, ghost nodes: seq<DynReloc>) returns (found: bool)
    requires dir.dynRelocs == Start(nodes) && Linked(nodes) && p !in nodes
    modifies nodes`count, nodes`pcCount
    ensures found == Mentions(old(Values(nodes)), p.sec)
    ensures Values(nodes) == if found then Absorbed(old(Values(nodes)), p.Value()) else old(Values(nodes))
  {
    ghost var was := Values(nodes);
    var q := dir.dynRelocs;
    ghost var k := 0;
    while q != null
      invariant 0 <= k <= |nodes|
      invariant q == if k < |nodes| then nodes[k] else null
      invariant Values(nodes) == was
      invariant forall i :: 0 <= i < k ==> was[i].sec != p.sec
      decreases |nodes| - k
    {
      if q.sec == p.sec {
        q.pcCount := q.pcCount + p.pcCount;
        q.count := q.count + p.count;
        AbsorbedAt(was, p.Value(), k);
        return true;
      }
      q := q.next;
      k := k + 1;
    }
    return false;
  }

  lemma {:induction false} AbsorbedAt(dir: seq<Entry>, e: Entry, k: nat)
    requires k < |dir| && dir[k].sec == e.sec && forall i :: 0 <= i < k ==> dir[i].sec != e.sec
    ensures Absorbed(dir, e) == dir[k := Entry(e.sec, dir[k].count + e.count, dir[k].pcCount + e.pcCount)]
  {
    if k > 0 {
      AbsorbedAt(dir[1..], e, k - 1);
    }
  }

  /** The pointer to a pointer: null stands for the head of the indirect list. */
  method SetLink(ind: HashEntry, prev: DynReloc?, target: DynReloc?)
    modifies ind`dynRelocs, (if prev == null then {} else {prev})`next
    ensures prev == null ==> ind.dynRelocs == target
    ensures prev != null ==> prev.next == target && ind.dynRelocs == old(ind.dynRelocs)
  {
    if prev == null {
      ind.dynRelocs := target;
    } else {
      prev.next := target;
    }
  }

  function Last(nodes: seq<DynReloc>): DynReloc? {
    if |nodes| == 0 then null else nodes[|nodes| - 1]
  }

  /** Takes the first node of `rest` out of the list. */
  method Unlink(ind: HashEntry, prev: DynReloc?, p: DynReloc, ghost kept: seq<DynReloc>, ghost rest: seq<DynReloc>)
    requires rest != [] && p == rest[0] && prev == Last(kept)
    requires ind.dynRelocs == Start(kept + rest) && Linked(kept + rest)
    modifies ind`dynRelocs, (if prev == null then {} else {prev})`next
    ensures ind.dynRelocs == Start(kept + rest[1..]) && Linked(kept + rest[1..])
    ensures p.next == old(p.next)
  {
    ghost var all, less := kept + rest, kept + rest[1..];
    LinkedIs(all);
    NextIs(kept, rest);
    assert forall k :: 0 <= k < |less| ==> less[k] == all[if k < |kept| then k else k + 1];
    assert |kept| > 0 ==> all[|kept| - 1] == prev != all[|kept|];
    assert all[|kept|] == p && Start(less) == if |kept| > 0 then Start(all) else Start(rest[1..]);
    SetLink(ind, prev, p.next);
    forall k | 0 <= k < |less|
      ensures less[k].next == if k + 1 < |less| then less[k + 1] else null
    {
      if k + 1 < |kept| {
        assert less[k] == all[k] != prev && less[k + 1] == all[k + 1];
      } else if k + 1 == |kept| {
        assert less[k] == prev && less[k].next == Start(rest[1..]);
        assert k + 1 < |less| ==> less[k + 1] == rest[1..][0];
      } else {
        var m := k + 1;
        assert less[k] == all[m] && (|kept| > 0 ==> all[m] != all[|kept| - 1]);
        assert all[m].next == if m + 1 < |all| then all[m + 1] else null;
        assert m < |less| ==> less[m] == all[m + 1];
      }
    }
    assert ind.dynRelocs == Start(less) && p.next == old(p.next);
    forall j, k | 0 <= j < k < |less|
      ensures less[j] != less[k]
    {
      assert less[j] == all[if j < |kept| then j else j + 1] && less[k] == all[if k < |kept| then k else k + 1];
    }
  }

  lemma LinkedIs(nodes: seq<DynReloc>)
    requires Linked(nodes)
    ensures forall k {:trigger nodes[k].next} :: 0 <= k < |nodes| ==>
              nodes[k].next == if k + 1 < |nodes| then nodes[k + 1] else null
    ensures forall j, k :: 0 <= j < |nodes| && 0 <= k < |nodes| && j != k ==> nodes[j] != nodes[k]
  {
  }

  /** Puts the direct list behind the kept nodes. */
  method Append(ind: HashEntry, prev: DynReloc?, target: DynReloc?, ghost kept: seq<DynReloc>,
                ghost dirNodes: seq<DynReloc>)
    requires prev == Last(kept) && ind.dynRelocs == Start(kept) && Linked(kept)
    requires target == Start(dirNodes) && Linked(dirNodes) && Separate(kept, dirNodes)
    modifies ind`dynRelocs, (if prev == null then {} else {prev})`next
    ensures ind.dynRelocs == Start(kept + dirNodes) && Linked(kept + dirNodes)
  {
    LinkedIs(kept);
    LinkedIs(dirNodes);
    ghost var all := kept + dirNodes;
    assert |kept| > 0 ==> kept[|kept| - 1] == prev;
    assert Start(all) == if |kept| > 0 then Start(kept) else Start(dirNodes);
    SetLink(ind, prev, target);
    forall k | 0 <= k < |all|
      ensures all[k].next == if k + 1 < |all| then all[k + 1] else null
    {
      if k + 1 < |kept| {
        assert all[k] == kept[k] != prev && all[k + 1] == kept[k + 1];
      } else if k + 1 == |kept| {
        assert all[k] == prev && all[k].next == Start(dirNodes);
        assert k + 1 < |all| ==> all[k + 1] == dirNodes[0];
      } else {
        var m := k - |kept|;
        assert all[k] == dirNodes[m] && (|kept| > 0 ==> kept[|kept| - 1] != dirNodes[m]);
        assert all[k].next == if m + 1 < |dirNodes| then dirNodes[m + 1] else null;
        assert m + 1 < |dirNodes| ==> all[k + 1] == dirNodes[m + 1];
      }
    }
    assert ind.dynRelocs == Start(all);
    forall j, k | 0 <= j < k < |all|
      ensures all[j] != all[k]
    {
      assert all[j] == if j < |kept| then kept[j] else dirNodes[j - |kept|];
      assert all[k] == if k < |kept| then kept[k] else dirNodes[k - |kept|];
    }
  }

  /** Moves the list of `ind` to the front of that of `dir`, except for the nodes whose section
      `dir` has already: their counts are added there. No other node is dropped. */
  method CopyIndirectSymbol(dir: HashEntry, ind: HashEntry, ghost dirNodes: seq<DynReloc>,
                            ghost indNodes: seq<DynReloc>)
    returns (ghost kept: seq<DynReloc>)
    requires dir != ind && dir.dynRelocs == Start(dirNodes) && ind.dynRelocs == Start(indNodes)
    requires Linked(dirNodes) && Linked(indNodes) && Separate(indNodes, dirNodes)
    modifies dir, ind, dirNodes, indNodes
    ensures ind.dynRelocs == null
    ensures dir.dynRelocs == Start(kept + dirNodes) && Linked(kept + dirNodes)
    ensures Values(kept + dirNodes) == Merged(old(Values(indNodes)), old(Values(dirNodes)))
    ensures KeptOnly(kept, indNodes, old(Values(dirNodes)))
  {
    hide Linked, Values, Merged, Merging, KeptOnly, Separate;
    MergedWithNothing(Values(indNodes), Values(dirNodes));
    KeptAll(indNodes);
    if ind.dynRelocs == null {
      assert indNodes == [];
      kept := [];
      assert kept + dirNodes == dirNodes;
      return;
    }
    if dir.dynRelocs == null {
      assert dirNodes == [];
      kept := indNodes;
      assert kept + dirNodes == indNodes;
    } else {
      kept := MergeLists(dir, ind, dirNodes, indNodes);
    }
    dir.dynRelocs := ind.dynRelocs;
    ind.dynRelocs := null;
  }

  /** The nodes kept are those whose section the direct list does not have. */
  ghost predicate KeptOnly(kept: seq<DynReloc>, nodes: seq<DynReloc>, dir: seq<Entry>) {
    && (forall p :: p in kept ==> p in nodes)
    && (forall p :: p in nodes ==> (p in kept <==> !Mentions(dir, p.sec)))
  }

  lemma KeptAll(nodes: seq<DynReloc>)
    ensures KeptOnly(nodes, nodes, [])
    ensures nodes == [] ==> forall dir :: KeptOnly([], nodes, dir)
  {
  }

  lemma MergedWithNothing(ind: seq<Entry>, dir: seq<Entry>)
    ensures dir == [] ==> Merged(ind, dir) == ind
    ensures ind == [] ==> Merged(ind, dir) == dir
  {
    MergingIntoNothing(ind);
  }

  lemma {:induction false} MergingIntoNothing(ind: seq<Entry>)
    ensures Merging(ind, []) == (ind, [])
  {
    if ind != [] {
      MergingIntoNothing(ind[..|ind| - 1]);
      assert ind == ind[..|ind| - 1] + [ind[|ind| - 1]];
    }
  }

  /** After the first `i` nodes of the indirect list. */
  ghost predicate MergedTo(i: nat, nodes: seq<DynReloc>, ind: seq<Entry>, dir: seq<Entry>, kept: seq<DynReloc>,
                           keptNow: seq<Entry>, dirNow: seq<Entry>) {
    && i <= |nodes| == |ind|
    && Merging(ind[..i], dir) == (keptNow, dirNow)
    && KeptOnly(kept, nodes[..i], dir)
  }

  lemma MergedStep(i: nat, nodes: seq<DynReloc>, ind: seq<Entry>, dir: seq<Entry>, kept: seq<DynReloc>,
                   keptNow: seq<Entry>, dirNow: seq<Entry>)
    requires MergedTo(i, nodes, ind, dir, kept, keptNow, dirNow) && i < |nodes| && nodes[i].sec == ind[i].sec
    requires forall j, k :: 0 <= j < k < |nodes| ==> nodes[j] != nodes[k]
    ensures Mentions(dirNow, ind[i].sec) ==> MergedTo(i + 1, nodes, ind, dir, kept, keptNow, Absorbed(dirNow, ind[i]))
    ensures !Mentions(dirNow, ind[i].sec) ==>
              MergedTo(i + 1, nodes, ind, dir, kept + [nodes[i]], keptNow + [ind[i]], dirNow)
  {
    MergingSections(ind[..i], dir);
    assert ind[..i + 1][..i] == ind[..i];
    assert nodes[..i + 1] == nodes[..i] + [nodes[i]];
    hide Mentions, Absorbed;
  }

  /** One step of the merge: `p`, the first node of `rest`, is dropped or kept. */
  method MergeOne(dir: HashEntry, ind: HashEntry, prev: DynReloc?, p: DynReloc,
                  ghost kept: seq<DynReloc>, ghost rest: seq<DynReloc>, ghost dirNodes: seq<DynReloc>)
    returns (last: DynReloc?, found: bool)
    requires dir != ind && dir.dynRelocs == Start(dirNodes) && Linked(dirNodes)
    requires ind.dynRelocs == Start(kept + rest) && Linked(kept + rest) && Separate(kept + rest, dirNodes)
    requires |rest| > 0 && p == rest[0] && prev == Last(kept)
    modifies ind`dynRelocs, dirNodes`count, dirNodes`pcCount, (if prev == null then {} else {prev})`next
    ensures Linked(dirNodes) && p.next == old(p.next) == Start(rest[1..])
    ensures found == Mentions(old(Values(dirNodes)), p.sec)
    ensures Values(dirNodes) == if found then Absorbed(old(Values(dirNodes)), old(p.Value())) else old(Values(dirNodes))
    ensures var now := if found then kept else kept + [p];
            && last == Last(now) && ind.dynRelocs == Start(now + rest[1..]) && Linked(now + rest[1..])
            && Values(now) == old(Values(now))
  {
    hide Values, Linked, Mentions, Absorbed;
    NextIs(kept, rest);
    Aside(kept, rest, dirNodes);
    last := prev;
    found := AbsorbInto(dir, p, dirNodes);
    ValuesSame(kept);
    ValuesSame(kept + [p]);
    if found {
      assert prev != null ==> prev in kept;
      Unlink(ind, prev, p, kept, rest);
    } else {
      last := p;
      assert kept + [p] + rest[1..] == kept + rest;
    }
  }

  lemma Aside(kept: seq<DynReloc>, rest: seq<DynReloc>, dirNodes: seq<DynReloc>)
    requires Separate(kept + rest, dirNodes) && |rest| > 0 && Linked(kept + rest)
    ensures rest[0] !in dirNodes && rest[0] !in kept && forall q :: q in kept ==> q !in dirNodes
  {
    var all := kept + rest;
    assert all[|kept|] == rest[0];
    forall q | q in kept
      ensures q !in dirNodes && q != rest[0]
    {
      var i :| 0 <= i < |kept| && kept[i] == q;
      assert all[i] == q;
    }
  }

  /** Where the merge is: the first `i` nodes of the indirect list are done. */
  ghost predicate InMerge(dir: HashEntry, ind: HashEntry, prev: DynReloc?, p: DynReloc?, i: nat, kept: seq<DynReloc>,
                          dirNodes: seq<DynReloc>, indNodes: seq<DynReloc>, indWas: seq<Entry>, dirWas: seq<Entry>)
    reads dir, ind, dirNodes, indNodes, kept
  {
    && dir != ind && i <= |indNodes| && p == Start(indNodes[i..]) && prev == Last(kept)
    && dir.dynRelocs == Start(dirNodes) && Linked(dirNodes)
    && ind.dynRelocs == Start(kept + indNodes[i..]) && Linked(kept + indNodes[i..])
    && Separate(kept + indNodes[i..], dirNodes)
    && (forall q :: q in kept ==> q in indNodes)
    && (forall q :: q in indNodes ==> q !in dirNodes)
    && (forall j, k :: 0 <= j < k < |indNodes| ==> indNodes[j] != indNodes[k])
    && Values(indNodes) == indWas
    && MergedTo(i, indNodes, indWas, dirWas, kept, Values(kept), Values(dirNodes))
  }

  method MergeStep(dir: HashEntry, ind: HashEntry, prev: DynReloc?, p: DynReloc, ghost i: nat,
                   ghost kept: seq<DynReloc>, 
                   ghost dirNodes: seq<DynReloc>, ghost indNodes: seq<DynReloc>, ghost indWas: seq<Entry>,
                   ghost dirWas: seq<Entry>)
    returns (last: DynReloc?, next: DynReloc?, ghost now: seq<DynReloc>)
    requires i < |indNodes| && InMerge(dir, ind, prev, p, i, kept, dirNodes, indNodes, indWas, dirWas)
    modifies ind`dynRelocs, dirNodes`count, dirNodes`pcCount, indNodes`next
    ensures InMerge(dir, ind, last, next, i + 1, now, dirNodes, indNodes, indWas, dirWas)
    ensures next == Start(indNodes[i + 1..])
  {
    hide Values, Linked, Mentions, Absorbed, MergedTo, Separate, Start, Last;
    ghost var rest := indNodes[i..];
    assert rest[1..] == indNodes[i + 1..];
    FirstOf(rest, p);
    ValueAt(indNodes, i);
    ghost var keptNow, dirNow, e := Values(kept), Values(dirNodes), p.Value();
    MergedStep(i, indNodes, indWas, dirWas, kept, keptNow, dirNow);
    StillSeparate(kept, rest, dirNodes);
    assert Values(kept + [p]) == Values(kept) + [p.Value()];
    LastOf(kept);
    var found;
    last, found := MergeOne(dir, ind, prev, p, kept, rest, dirNodes);
    ValuesSame(indNodes);
    now := if found then kept else kept + [p];
    next := p.next;
  }

  lemma FirstOf(rest: seq<DynReloc>, p: DynReloc)
    requires |rest| > 0 && p == Start(rest)
    ensures p == rest[0]
  {
  }

  lemma LastOf(kept: seq<DynReloc>)
    ensures Last(kept) != null ==> Last(kept) in kept
  {
  }

  method MergeLists(dir: HashEntry, ind: HashEntry, ghost dirNodes: seq<DynReloc>, ghost indNodes: seq<DynReloc>)
    returns (ghost kept: seq<DynReloc>)
    requires dir != ind && dir.dynRelocs == Start(dirNodes) && ind.dynRelocs == Start(indNodes)
    requires Linked(dirNodes) && Linked(indNodes) && Separate(indNodes, dirNodes)
    modifies ind`dynRelocs, dirNodes`count, dirNodes`pcCount, indNodes`next
    ensures ind.dynRelocs == Start(kept + dirNodes) && Linked(kept + dirNodes)
    ensures Values(kept + dirNodes) == Merged(old(Values(indNodes)), old(Values(dirNodes)))
    ensures KeptOnly(kept, indNodes, old(Values(dirNodes)))
  {
    hide Values, Linked, Merging, InMerge, KeptOnly, Merged, Separate, Last;
    ghost var indWas, dirWas := Values(indNodes), Values(dirNodes);
    ghost var i := 0;
    var prev: DynReloc?, p := null, ind.dynRelocs;
    kept := [];
    MergeStart(dir, ind, dirNodes, indNodes);
    assert indNodes[0..] == indNodes;
    while p != null
      invariant 0 <= i <= |indNodes| && p == Start(indNodes[i..])
      invariant InMerge(dir, ind, prev, p, i, kept, dirNodes, indNodes, indWas, dirWas)
      decreases |indNodes| - i
    {
      prev, p, kept := MergeStep(dir, ind, prev, p, i, kept, dirNodes, indNodes, indWas, dirWas);
      i := i + 1;
    }
    MergeEnd(dir, ind, prev, kept, dirNodes, indNodes, indWas, dirWas);
    label before:
    Append(ind, prev, dir.dynRelocs, kept, dirNodes);
    ValuesSame@before(kept + dirNodes);
  }

  lemma MergeStart(dir: HashEntry, ind: HashEntry, dirNodes: seq<DynReloc>, indNodes: seq<DynReloc>)
    requires dir != ind && dir.dynRelocs == Start(dirNodes) && ind.dynRelocs == Start(indNodes)
    requires Linked(dirNodes) && Linked(indNodes) && Separate(indNodes, dirNodes)
    ensures InMerge(dir, ind, null, ind.dynRelocs, 0, [], dirNodes, indNodes, Values(indNodes), Values(dirNodes))
  {
    Distinct(indNodes);
    assert indNodes[0..] == indNodes && [] + indNodes[0..] == indNodes;
    hide Values, Linked, MergedTo, Separate;
  }

  lemma MergeEnd(dir: HashEntry, ind: HashEntry, prev: DynReloc?, kept: seq<DynReloc>,
                 dirNodes: seq<DynReloc>, indNodes: seq<DynReloc>, indWas: seq<Entry>, dirWas: seq<Entry>)
    requires InMerge(dir, ind, prev, null, |indNodes|, kept, dirNodes, indNodes, indWas, dirWas)
    ensures ind.dynRelocs == Start(kept) && Linked(kept) && Separate(kept, dirNodes) && prev == Last(kept)
    ensures dir.dynRelocs == Start(dirNodes) && Linked(dirNodes)
    ensures prev != null ==> prev in indNodes
    ensures Values(kept + dirNodes) == Merged(indWas, dirWas) && KeptOnly(kept, indNodes, dirWas)
  {
    assert kept + indNodes[|indNodes|..] == kept;
    assert indNodes[..|indNodes|] == indNodes && indWas[..|indWas|] == indWas;
    ValuesJoin(kept, dirNodes);
    LastOf(kept);
    hide Values, Linked, MergedTo, Separate, KeptOnly, Merged;
  }

  twostate lemma ValuesSame(nodes: seq<DynReloc>)
    requires forall q :: q in nodes ==> q.Value() == old(q.Value())
    ensures Values(nodes) == old(Values(nodes))
  {
  }

  lemma ValueAt(nodes: seq<DynReloc>, i: nat)
    requires i < |nodes|
    ensures Values(nodes)[i] == nodes[i].Value() && nodes[i].sec == nodes[i].Value().sec
  {
  }

  lemma StillSeparate(kept: seq<DynReloc>, rest: seq<DynReloc>, dirNodes: seq<DynReloc>)
    requires Separate(kept + rest, dirNodes) && |rest| > 0
    ensures Separate(kept + rest[1..], dirNodes) && Separate(kept + [rest[0]] + rest[1..], dirNodes)
  {
    var all := kept + rest;
    assert kept + [rest[0]] + rest[1..] == all;
    assert forall k :: 0 <= k < |kept + rest[1..]| ==> (kept + rest[1..])[k] == all[if k < |kept| then k else k + 1];
  }

  lemma Distinct(nodes: seq<DynReloc>)
    requires Linked(nodes)
    ensures forall j, k :: 0 <= j < k < |nodes| ==> nodes[j] != nodes[k]
  {
  }

  lemma NextIs(kept: seq<DynReloc>, rest: seq<DynReloc>)
    requires Linked(kept + rest) && rest != []
    ensures rest[0].next == Start(rest[1..])
  {
    var all := kept + rest;
    assert all[|kept|] == rest[0];
    assert |rest| > 1 ==> all[|kept| + 1] == rest[1];
  }

  lemma ValuesJoin(a: seq<DynReloc>, b: seq<DynReloc>)
    ensures Values(a + b) == Values(a) + Values(b)
  {
  }
}
