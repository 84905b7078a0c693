/** What riscv_relax_delete_bytes does to a section, its relocations and its symbols, on values;
    and why labels keep denoting the same bytes over any run of deletions. */
module RelaxImages {
  import opened MachineWords

  datatype Reloc = Reloc(offset: Word, addend: Word, info: nat)

  datatype Home = Undefined | Section(index: nat)

  datatype Symbol = Symbol(home: Home, value: Word, size: Word)

  /** A section: its number, its bytes, its relocations, and the symbols of its file. */
  datatype Image = Image(here: nat, bytes: seq<Byte>, relocs: seq<Reloc>, symbols: seq<Symbol>)

  datatype Cut = Cut(addr: nat, count: nat)

  function Without<T>(s: seq<T>, cut: Cut): seq<T>
    requires cut.addr + cut.count <= |s|
  {
    s[..cut.addr] + s[cut.addr + cut.count..]
  }

  function MovedReloc(r: Reloc, cut: Cut, toaddr: nat): Reloc
    requires cut.count < WORD
  {
    if cut.addr < r.offset < toaddr then r.(offset := Minus(r.offset, cut.count)) else r
  }

  function MovedValue(value: Word, cut: Cut, toaddr: nat): Word
    requires cut.count < WORD
  {
    if cut.addr < value <= toaddr then Minus(value, cut.count) else value
  }

  /** The new size, judged by the value that was moved already. */
  function MovedSize(moved: Word, size: Word, cut: Cut, toaddr: nat): Word
    requires cut.count < WORD
  {
    if moved <= cut.addr < Plus(moved, size) <= toaddr then Minus(size, cut.count) else size
  }

  function MovedSymbol(s: Symbol, here: nat, cut: Cut, toaddr: nat): Symbol
    requires cut.count < WORD
  {
    if s.home != Section(here) then s else
      var value := MovedValue(s.value, cut, toaddr);
      s.(value := value, size := MovedSize(value, s.size, cut, toaddr))
  }

  ghost predicate InBounds(size: nat, cut: Cut) {
    cut.addr + cut.count <= size < WORD
  }

  function Deleted(image: Image, cut: Cut): Image
    requires InBounds(|image.bytes|, cut)
  {
    var toaddr := |image.bytes|;
    image.(bytes := Without(image.bytes, cut),
           relocs := seq(|image.relocs|,
                         i requires 0 <= i < |image.relocs| => MovedReloc(image.relocs[i], cut, toaddr)),
           symbols := seq(|image.symbols|,
                          i requires 0 <= i < |image.symbols| =>
                            MovedSymbol(image.symbols[i], image.here, cut, toaddr)))
  }

  // ---------------------------------------------------------------------------------------
  // Runs of deletions. `alive` holds the original positions of the bytes that are left.

  ghost predicate Fits(size: nat, cuts: seq<Cut>)
    decreases |cuts|, 0
  {
    cuts == [] ||
    var before := cuts[..|cuts| - 1];
    Fits(size, before) && InBounds(|Alive(size, before)|, cuts[|cuts| - 1])
  }

  function Alive(size: nat, cuts: seq<Cut>): seq<nat>
    requires Fits(size, cuts)
    decreases |cuts|, 1
  {
    if cuts == [] then seq(size, i => i) else Without(Alive(size, cuts[..|cuts| - 1]), cuts[|cuts| - 1])
  }

  function Relaxed(image: Image, cuts: seq<Cut>): (r: Image)
    requires Fits(|image.bytes|, cuts)
    ensures |r.bytes| == |Alive(|image.bytes|, cuts)|
    ensures r.here == image.here && |r.relocs| == |image.relocs| && |r.symbols| == |image.symbols|
  {
    if cuts == [] then image else Deleted(Relaxed(image, cuts[..|cuts| - 1]), cuts[|cuts| - 1])
  }

  /** Position `p` among the bytes that are left is where the original position `o` is now: as
      many bytes are left before it. */
  ghost predicate Stands(alive: seq<nat>, o: nat, p: int) {
    && 0 <= p <= |alive|
    && (forall k :: 0 <= k < p ==> alive[k] < o)
    && (forall k :: p <= k < |alive| ==> alive[k] >= o)
  }

  ghost predicate StrictlyInside(p: int, cut: Cut) {
    cut.addr < p < cut.addr + cut.count
  }

  lemma StandsOnce(alive: seq<nat>, o: nat, p: int, q: int)
    requires Stands(alive, o, p) && Stands(alive, o, q)
    ensures p == q
  {
    StandsBefore(alive, o, p, q);
    StandsBefore(alive, o, q, p);
  }

  lemma StandsBefore(alive: seq<nat>, o: nat, p: int, q: int)
    requires Stands(alive, o, p) && Stands(alive, o, q)
    ensures p <= q
  {
    if q < |alive| {
      assert alive[q] >= o;
    }
  }

  function Closed(p: int, cut: Cut): int {
    if p <= cut.addr then p else if p >= cut.addr + cut.count then p - cut.count else cut.addr
  }

  lemma CutStands(alive: seq<nat>, o: nat, p: int, cut: Cut)
    requires Stands(alive, o, p) && cut.addr + cut.count <= |alive|
    ensures Stands(Without(alive, cut), o, Closed(p, cut))
  {
  }

  /** A label ends up where it should exactly when it was not strictly inside the deleted bytes. */
  lemma LabelsStand(alive: seq<nat>, o: nat, value: Word, cut: Cut)
    requires Stands(alive, o, value) && InBounds(|alive|, cut)
    ensures Stands(Without(alive, cut), o, MovedValue(value, cut, |alive|)) <==> !StrictlyInside(value, cut)
  {
    hide Stands;
    CutStands(alive, o, value, cut);
    StandsBound(alive, o, value);
    var after := Without(alive, cut);
    var moved := MovedValue(value, cut, |alive|);
    if Stands(after, o, moved) {
      StandsOnce(after, o, moved, Closed(value, cut));
    }
  }

  lemma StandsBound(alive: seq<nat>, o: nat, p: int)
    requires Stands(alive, o, p)
    ensures 0 <= p <= |alive|
  {
  }

  /** A symbol whose start and end are not strictly inside keeps its extent, except when it is
      not empty and starts exactly where the deleted bytes end: then its size shrinks by what
      was deleted before it. */
  lemma EndsStand(alive: seq<nat>, o: nat, s: Symbol, here: nat, cut: Cut)
    requires InBounds(|alive|, cut) && s.home == Section(here)
    requires s.value + s.size < WORD && Stands(alive, o, s.value + s.size) && s.value <= |alive|
    requires !StrictlyInside(s.value, cut) && !StrictlyInside(s.value + s.size, cut)
    ensures var after := MovedSymbol(s, here, cut, |alive|);
            (after.value + after.size < WORD && Stands(Without(alive, cut), o, after.value + after.size))
            <==> !(cut.count > 0 && s.size > 0 && s.value == cut.addr + cut.count)
  {
    hide Stands;
    CutStands(alive, o, s.value + s.size, cut);
    StandsBound(alive, o, s.value + s.size);
    var left := Without(alive, cut);
    var after := MovedSymbol(s, here, cut, |alive|);
    if Stands(left, o, after.value + after.size) {
      StandsOnce(left, o, after.value + after.size, Closed(s.value + s.size, cut));
    }
  }

  /** A relocation of a byte that is left still refers to it. */
  lemma RelocsStand(alive: seq<nat>, o: nat, r: Reloc, cut: Cut)
    requires InBounds(|alive|, cut) && r.offset < |alive| && alive[r.offset] == o
    requires !(cut.addr <= r.offset < cut.addr + cut.count)
    ensures var after := MovedReloc(r, cut, |alive|);
            after.offset < |Without(alive, cut)| && Without(alive, cut)[after.offset] == o
  {
  }

  // ---------------------------------------------------------------------------------------
  // The run theorems.

  /** No label of symbol `i` is strictly inside what any step deletes. */
  ghost predicate StartClear(image: Image, cuts: seq<Cut>, i: nat)
    requires Fits(|image.bytes|, cuts) && i < |image.symbols|
  {
    cuts == [] ||
    var before := cuts[..|cuts| - 1];
    StartClear(image, before, i) && !StrictlyInside(Relaxed(image, before).symbols[i].value, cuts[|cuts| - 1])
  }

  /** Nor is its end, and it does not start where deleted bytes end, unless it is empty. */
  ghost predicate ExtentClear(image: Image, cuts: seq<Cut>, i: nat)
    requires Fits(|image.bytes|, cuts) && i < |image.symbols|
  {
    cuts == [] ||
    var before, cut := cuts[..|cuts| - 1], cuts[|cuts| - 1];
    var s := Relaxed(image, before).symbols[i];
    && ExtentClear(image, before, i)
    && !StrictlyInside(s.value + s.size, cut)
    && !(cut.count > 0 && s.size > 0 && s.value == cut.addr + cut.count)
  }

  lemma InitiallyStands(size: nat, o: nat)
    requires o <= size
    ensures Stands(Alive(size, []), o, o)
  {
  }

  lemma RelaxedStep(image: Image, cuts: seq<Cut>)
    requires Fits(|image.bytes|, cuts) && cuts != []
    ensures var before, cut := cuts[..|cuts| - 1], cuts[|cuts| - 1];
            && Fits(|image.bytes|, before) && InBounds(|Alive(|image.bytes|, before)|, cut)
            && Relaxed(image, cuts) == Deleted(Relaxed(image, before), cut)
            && Alive(|image.bytes|, cuts) == Without(Alive(|image.bytes|, before), cut)
  {
  }

  lemma SymbolStep(image: Image, cuts: seq<Cut>, i: nat)
    requires Fits(|image.bytes|, cuts) && cuts != [] && i < |image.symbols|
    ensures var before, cut := cuts[..|cuts| - 1], cuts[|cuts| - 1];
            && Fits(|image.bytes|, before) && InBounds(|Alive(|image.bytes|, before)|, cut)
            && Alive(|image.bytes|, cuts) == Without(Alive(|image.bytes|, before), cut)
            && Relaxed(image, cuts).symbols[i] ==
               MovedSymbol(Relaxed(image, before).symbols[i], image.here, cut, |Alive(|image.bytes|, before)|)
  {
    RelaxedStep(image, cuts);
    hide MovedSymbol, MovedReloc;
  }

  /** After any run of deletions, a label of the section that was never strictly inside deleted
      bytes is where its original position is now. */
  lemma {:induction false} LabelsKept(image: Image, cuts: seq<Cut>, i: nat)
    requires Fits(|image.bytes|, cuts) && i < |image.symbols|
    requires image.symbols[i].home == Section(image.here) && image.symbols[i].value <= |image.bytes|
    requires StartClear(image, cuts, i)
    ensures Relaxed(image, cuts).symbols[i].home == Section(image.here)
    ensures Stands(Alive(|image.bytes|, cuts), image.symbols[i].value, Relaxed(image, cuts).symbols[i].value)
  {
    hide Stands, Alive, Deleted, MovedSize;
    if cuts == [] {
      InitiallyStands(|image.bytes|, image.symbols[i].value);
    } else {
      SymbolStep(image, cuts, i);
      var before, cut := cuts[..|cuts| - 1], cuts[|cuts| - 1];
      LabelsKept(image, before, i);
      LabelsStand(Alive(|image.bytes|, before), image.symbols[i].value, Relaxed(image, before).symbols[i].value, cut);
    }
  }

  /** Likewise its end, so its extent is now the bytes left of its original extent. */
  lemma {:induction false} ExtentsKept(image: Image, cuts: seq<Cut>, i: nat)
    requires Fits(|image.bytes|, cuts) && i < |image.symbols| && |image.bytes| < WORD
    requires image.symbols[i].home == Section(image.here)
    requires image.symbols[i].value + image.symbols[i].size <= |image.bytes|
    requires StartClear(image, cuts, i) && ExtentClear(image, cuts, i)
    ensures var s := Relaxed(image, cuts).symbols[i];
            && s.value + s.size < WORD
            && Stands(Alive(|image.bytes|, cuts), image.symbols[i].value + image.symbols[i].size, s.value + s.size)
  {
    hide Stands, Alive, Deleted, MovedSymbol;
    if cuts == [] {
      InitiallyStands(|image.bytes|, image.symbols[i].value + image.symbols[i].size);
    } else {
      SymbolStep(image, cuts, i);
      var before, cut := cuts[..|cuts| - 1], cuts[|cuts| - 1];
      LabelsKept(image, before, i);
      ExtentsKept(image, before, i);
      StandsBound(Alive(|image.bytes|, before), image.symbols[i].value, Relaxed(image, before).symbols[i].value);
      EndsStand(Alive(|image.bytes|, before), image.symbols[i].value + image.symbols[i].size,
                Relaxed(image, before).symbols[i], image.here, cut);
    }
  }

  /** Positions left are in their original order, and no original position is left twice. */
  lemma {:induction false} AliveAscends(size: nat, cuts: seq<Cut>)
    requires Fits(size, cuts)
    ensures forall j, k :: 0 <= j < k < |Alive(size, cuts)| ==> Alive(size, cuts)[j] < Alive(size, cuts)[k]
    ensures forall k :: 0 <= k < |Alive(size, cuts)| ==> Alive(size, cuts)[k] < size
  {
    if cuts != [] {
      AliveAscends(size, cuts[..|cuts| - 1]);
    }
  }

  /** A relocation of a byte that is left still refers to it; nothing else of it has changed. */
  lemma {:induction false} RelocsKept(image: Image, cuts: seq<Cut>, i: nat)
    requires Fits(|image.bytes|, cuts) && i < |image.relocs| && |image.bytes| < WORD
    requires image.relocs[i].offset in Alive(|image.bytes|, cuts)
    ensures var r := Relaxed(image, cuts).relocs[i];
            && r.offset < |Alive(|image.bytes|, cuts)|
            && Alive(|image.bytes|, cuts)[r.offset] == image.relocs[i].offset
            && r == image.relocs[i].(offset := r.offset)
  {
    var size, o := |image.bytes|, image.relocs[i].offset;
    if cuts != [] {
      RelaxedStep(image, cuts);
      var before, cut := cuts[..|cuts| - 1], cuts[|cuts| - 1];
      hide Alive, Relaxed;
      RelocsKept(image, before, i);
      AliveAscends(size, before);
      RelocsStand(Alive(size, before), o, Relaxed(image, before).relocs[i], cut);
    }
  }

  /** The bytes left are the original ones, in order. */
  lemma {:induction false} BytesKept(image: Image, cuts: seq<Cut>, k: nat)
    requires Fits(|image.bytes|, cuts) && k < |Alive(|image.bytes|, cuts)|
    ensures Alive(|image.bytes|, cuts)[k] < |image.bytes|
    ensures Relaxed(image, cuts).bytes[k] == image.bytes[Alive(|image.bytes|, cuts)[k]]
  {
    if cuts != [] {
      RelaxedStep(image, cuts);
      var cut := cuts[|cuts| - 1];
      BytesKept(image, cuts[..|cuts| - 1], if k < cut.addr then k else k + cut.count);
    }
  }

  /** Concretely: four bytes deleted before a symbol of twenty bytes leave it with sixteen. */
  lemma SizeLostAtTheEnd()
    ensures var s := Symbol(Section(1), 8, 20);
            MovedSymbol(s, 1, Cut(4, 4), 40) == Symbol(Section(1), 4, 16)
  {
  }
}
