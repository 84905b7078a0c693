/** Where s19toslm.py puts the words in the flash, and where boot_code.c finds them. */
module FlashLayouts {
  import opened MachineWords
  import opened FlashImages

  /** The memories, in words. */
  const L2_START: nat := 0
  const L2_WORDS: nat := 8192
  const TCDM_START: nat := 0x40000
  const TCDM_WORDS: nat := 6144
  const BLOCK: nat := 1024
  const HEADER: nat := 8

  predicate InL2(a: nat) {
    L2_START <= a < L2_START + L2_WORDS
  }

  predicate InTcdm(a: nat) {
    TCDM_START <= a < TCDM_START + TCDM_WORDS
  }

  function Blocks(size: nat): nat {
    size / BLOCK + 1
  }

  /** In words: the first block behind the data. */
  function InstrBase(tcdmSize: nat): nat {
    ((tcdmSize + HEADER) / BLOCK + 1) * BLOCK
  }

  /** The byte of the flash where the word at `a` starts. */
  function FlashAddr(a: nat, tcdmSize: nat): nat
    requires InL2(a) || InTcdm(a)
  {
    if InL2(a) then 4 * (a - L2_START + InstrBase(tcdmSize)) else 4 * (a - TCDM_START) + 4 * HEADER
  }

  function HeaderWord(i: nat, l2Size: nat, tcdmSize: nat): Word32
    requires i < HEADER && l2Size <= L2_WORDS && tcdmSize <= TCDM_WORDS
  {
    match i
    case 0 => 4 * InstrBase(tcdmSize)
    case 1 => 4 * L2_START
    case 2 => 4 * l2Size
    case 3 => Blocks(l2Size)
    case 4 => 4 * HEADER
    case 5 => 4 * TCDM_START
    case 6 => 4 * tcdmSize
    case _ => Blocks(tcdmSize)
  }

  /** Concretely, for 3000 instruction words, and 1015 or 1016 data words: with its eight words of header
      the data then fills one block, and behind it the instructions start one block later. */
  lemma KnownHeader()
    ensures HeaderWord(0, 3000, 1015) == 0x1000 && HeaderWord(0, 3000, 1016) == 0x2000
    ensures HeaderWord(1, 3000, 1016) == 0 && HeaderWord(2, 3000, 1016) == 12000 && HeaderWord(3, 3000, 1016) == 3
    ensures HeaderWord(4, 3000, 1016) == 0x20 && HeaderWord(5, 3000, 1016) == 0x10_0000
    ensures HeaderWord(6, 3000, 1016) == 4064 && HeaderWord(7, 3000, 1016) == 1
    ensures InL2(8191) && !InL2(8192) && !InTcdm(0x3_ffff) && InTcdm(0x4_0000) && InTcdm(0x4_17ff) && !InTcdm(0x4_1800)
    ensures FlashAddr(2999, 1016) == 0x2000 + 4 * 2999 && FlashAddr(0x4_03f7, 1016) == 0xffc
  {
  }

  /** The number of words in the blocks that are copied covers word `a`. */
  predicate Covered(words: map<nat, Hex>, a: nat)
    requires InL2(a) || InTcdm(a)
  {
    if InL2(a) then a - L2_START < Blocks(|Present(words, L2_START, L2_WORDS)|) * BLOCK
    else a - TCDM_START < Blocks(|Present(words, TCDM_START, TCDM_WORDS)|) * BLOCK
  }

  /** The data word, if any, whose place in the flash is that of instruction word `a`. */
  function Overlay(a: nat, tcdmSize: nat): nat
    requires InL2(a)
  {
    TCDM_START + (a - L2_START + InstrBase(tcdmSize) - HEADER)
  }

  /** Word `a` is booted: its block is copied, and no data word with other bytes is put in its
      place in the flash. */
  predicate WordBoots(words: map<nat, Hex>, a: nat)
    requires a in words && (InL2(a) || InTcdm(a))
  {
    && Covered(words, a)
    && forall b :: b in words && InTcdm(b) && InL2(a) && words[b] != words[a] ==>
         FlashAddr(b, |Present(words, TCDM_START, TCDM_WORDS)|)
         != FlashAddr(a, |Present(words, TCDM_START, TCDM_WORDS)|)
  }

  /** All words of the two memories are booted. */
  predicate Boots(words: map<nat, Hex>) {
    forall a :: a in words && (InL2(a) || InTcdm(a)) ==> WordBoots(words, a)
  }

  /** Every word is in a block that is copied, and the data ends before the instructions begin. */
  predicate Fits(words: map<nat, Hex>, l2Size: nat, tcdmSize: nat) {
    forall a :: a in words ==>
      && (InL2(a) ==> a - L2_START < Blocks(l2Size) * BLOCK)
      && (InTcdm(a) ==> a - TCDM_START < Blocks(tcdmSize) * BLOCK && a - TCDM_START + HEADER < InstrBase(tcdmSize))
  }

  /** The words of a memory, by address. */
  function Present(words: map<nat, Hex>, start: nat, size: nat): set<nat> {
    set a | a in words && start <= a < start + size
  }

  /** They follow each other from the start of the memory. */
  predicate Dense(words: map<nat, Hex>, start: nat, size: nat) {
    forall a, b :: a in words && start <= b <= a < start + size ==> b in words
  }

  function Range(start: nat, n: nat): (s: set<nat>)
    ensures forall a :: a in s <==> start <= a < start + n
  {
    if n == 0 then {} else Range(start, n - 1) + {start + n - 1}
  }

  lemma {:induction false} RangeSize(start: nat, n: nat)
    ensures |Range(start, n)| == n
  {
    if n > 0 {
      RangeSize(start, n - 1);
    }
  }

  lemma {:induction false} SubsetSize(a: set<nat>, b: set<nat>)
    requires a <= b
    ensures |a| <= |b|
  {
    if a != {} {
      var x :| x in a;
      SubsetSize(a - {x}, b - {x});
    }
  }

  lemma DenseBound(words: map<nat, Hex>, start: nat, size: nat, a: nat)
    requires Dense(words, start, size) && a in words && start <= a < start + size
    ensures a - start < |Present(words, start, size)|
  {
    var range := Range(start, a - start + 1);
    forall b | b in range
      ensures b in Present(words, start, size)
    {
      assert b in words;
    }
    RangeSize(start, a - start + 1);
    SubsetSize(range, Present(words, start, size));
  }

  lemma PresentSize(words: map<nat, Hex>, start: nat, size: nat)
    ensures |Present(words, start, size)| <= size
  {
    RangeSize(start, size);
    SubsetSize(Present(words, start, size), Range(start, size));
  }

  /** Images without holes fit. */
  lemma DenseFits(words: map<nat, Hex>)
    requires Dense(words, L2_START, L2_WORDS) && Dense(words, TCDM_START, TCDM_WORDS)
    ensures Fits(words, |Present(words, L2_START, L2_WORDS)|, |Present(words, TCDM_START, TCDM_WORDS)|)
  {
    var l2, tcdm := |Present(words, L2_START, L2_WORDS)|, |Present(words, TCDM_START, TCDM_WORDS)|;
    forall a | a in words
      ensures InL2(a) ==> a - L2_START < Blocks(l2) * BLOCK
      ensures InTcdm(a) ==> a - TCDM_START < Blocks(tcdm) * BLOCK && a - TCDM_START + HEADER < InstrBase(tcdm)
    {
      hide Dense, Present;
      if InL2(a) {
        DenseBound(words, L2_START, L2_WORDS, a);
        RoundedUp(l2);
      }
      if InTcdm(a) {
        DenseBound(words, TCDM_START, TCDM_WORDS, a);
        RoundedUp(tcdm);
        RoundedUp(tcdm + HEADER);
      }
    }
  }

  /** Images that fit are booted. */
  lemma FittingBoots(words: map<nat, Hex>)
    requires Fits(words, |Present(words, L2_START, L2_WORDS)|, |Present(words, TCDM_START, TCDM_WORDS)|)
    ensures Boots(words)
  {
    hide Present;
    forall a | a in words && (InL2(a) || InTcdm(a))
      ensures WordBoots(words, a)
    {
    }
  }

  lemma RoundedUp(n: nat)
    ensures n < (n / BLOCK + 1) * BLOCK
  {
  }

  /** No two words, and no word and the header, share a byte of the flash. */
  lemma AreasApart(words: map<nat, Hex>, l2Size: nat, tcdmSize: nat, a: nat, b: nat)
    requires Fits(words, l2Size, tcdmSize) && a in words && b in words && a != b
    requires (InL2(a) || InTcdm(a)) && (InL2(b) || InTcdm(b))
    ensures FlashAddr(a, tcdmSize) % 4 == 0 && FlashAddr(a, tcdmSize) >= 4 * HEADER
    ensures FlashAddr(a, tcdmSize) + 4 <= FlashAddr(b, tcdmSize) || FlashAddr(b, tcdmSize) + 4 <= FlashAddr(a, tcdmSize)
  {
  }

  // ---------------------------------------------------------------------------------------
  // Writing.

  predicate Placed(flash: map<nat, Byte>, addr: nat, w: Hex) {
    && addr in flash && addr + 1 in flash && addr + 2 in flash && addr + 3 in flash
    && flash[addr] == w[0] && flash[addr + 1] == w[1] && flash[addr + 2] == w[2] && flash[addr + 3] == w[3]
  }

  method DumpBytes(flash: map<nat, Byte>, addr: nat, data: Hex) returns (r: map<nat, Byte>)
    ensures Placed(r, addr, data)
    ensures Kept(flash, r, addr)
  {
    r := flash;
    for i := 0 to 4
      invariant forall k :: k in r <==> k in flash || addr <= k < addr + i
      invariant forall k :: k in r ==> r[k] == if addr <= k < addr + i then data[k - addr] else flash[k]
    {
      r := r[addr + i := data[i]];
    }
  }

  ghost predicate HeaderPlaced(flash: map<nat, Byte>, l2Size: nat, tcdmSize: nat, n: nat)
    requires n <= HEADER && l2Size <= L2_WORDS && tcdmSize <= TCDM_WORDS
  {
    forall i :: 0 <= i < n ==> Placed(flash, 4 * i, HexOf(HeaderWord(i, l2Size, tcdmSize)))
  }

  /** Whose bytes are in the place of word `a`, once the words `done` have been dumped: data words
      are dumped last. */
  function Winner(done: seq<nat>, a: nat, tcdmSize: nat): nat {
    if InL2(a) && Overlay(a, tcdmSize) in done && InTcdm(Overlay(a, tcdmSize)) then Overlay(a, tcdmSize) else a
  }

  ghost predicate WordsPlaced(flash: map<nat, Byte>, words: map<nat, Hex>, done: seq<nat>, tcdmSize: nat) {
    forall a :: a in done && a in words && (InL2(a) || InTcdm(a)) ==>
      var w := Winner(done, a, tcdmSize); w in words && Placed(flash, FlashAddr(a, tcdmSize), words[w])
  }

  /** sorted() */
  ghost predicate Sorted(order: seq<nat>) {
    forall i, j :: 0 <= i < j < |order| ==> order[i] < order[j]
  }

  function Among(order: seq<nat>, start: nat, size: nat): set<nat> {
    set a | a in order && start <= a < start + size
  }

  lemma AmongStep(order: seq<nat>, i: nat, start: nat, size: nat)
    requires i < |order| && order[i] !in order[..i]
    ensures |Among(order[..i + 1], start, size)|
            == |Among(order[..i], start, size)| + if start <= order[i] < start + size then 1 else 0
  {
    assert order[..i + 1] == order[..i] + [order[i]];
    if start <= order[i] < start + size {
      assert Among(order[..i + 1], start, size) == Among(order[..i], start, size) + {order[i]};
    } else {
      assert Among(order[..i + 1], start, size) == Among(order[..i], start, size);
    }
  }

  lemma SamePresent(words: map<nat, Hex>, order: seq<nat>, start: nat, size: nat)
    requires Enumerates(order, words.Keys)
    ensures Present(words, start, size) == Among(order, start, size)
    ensures Among(order[..0], start, size) == {}
  {
    forall a
      ensures a in order <==> a in words
    {
      assert a in words.Keys <==> a in order;
    }
  }

  /** How many words each memory has. */
  method CountWords(words: map<nat, Hex>, order: seq<nat>) returns (l2Size: nat, tcdmSize: nat)
    requires Enumerates(order, words.Keys)
    ensures l2Size == |Present(words, L2_START, L2_WORDS)| && tcdmSize == |Present(words, TCDM_START, TCDM_WORDS)|
  {
    hide Present, Among, Enumerates;
    SamePresent(words, order, L2_START, L2_WORDS);
    SamePresent(words, order, TCDM_START, TCDM_WORDS);
    l2Size, tcdmSize := 0, 0;
    var i := 0;
    while i < |order|
      invariant 0 <= i <= |order|
      invariant l2Size == |Among(order[..i], L2_START, L2_WORDS)|
                && tcdmSize == |Among(order[..i], TCDM_START, TCDM_WORDS)|
    {
      KeyOf(words, order, i);
      AmongStep(order, i, L2_START, L2_WORDS);
      AmongStep(order, i, TCDM_START, TCDM_WORDS);
      var addr := order[i];
      if addr >= L2_START && addr <= L2_START + L2_WORDS - 1 {
        l2Size := l2Size + 1;
      }
      if addr >= TCDM_START && addr <= TCDM_START + TCDM_WORDS - 1 {
        tcdmSize := tcdmSize + 1;
      }
      i := i + 1;
    }
    assert order[..i] == order;
  }

  /** Writes the header, then every word of the two memories. */
  method WriteFlash(words: map<nat, Hex>, order: seq<nat>) returns (flash: map<nat, Byte>, l2Size: nat, tcdmSize: nat)
    requires Enumerates(order, words.Keys) && Sorted(order)
    ensures l2Size == |Present(words, L2_START, L2_WORDS)| <= L2_WORDS
    ensures tcdmSize == |Present(words, TCDM_START, TCDM_WORDS)| <= TCDM_WORDS
    ensures HeaderPlaced(flash, l2Size, tcdmSize, HEADER) && WordsPlaced(flash, words, order, tcdmSize)
  {
    hide Present, Enumerates, Placed, HexOf, WordsPlaced, Sorted;
    l2Size, tcdmSize := CountWords(words, order);
    PresentSize(words, L2_START, L2_WORDS);
    PresentSize(words, TCDM_START, TCDM_WORDS);
    flash := WriteHeader(l2Size, tcdmSize);
    var i := 0;
    NonePlaced(flash, words, order[..0], tcdmSize);
    while i < |order|
      invariant 0 <= i <= |order|
      invariant HeaderPlaced(flash, l2Size, tcdmSize, HEADER) && WordsPlaced(flash, words, order[..i], tcdmSize)
    {
      var addr := order[i];
      KeyOf(words, order, i);
      ghost var was := flash;
      if InL2(addr) || InTcdm(addr) {
        flash := DumpBytes(flash, FlashAddr(addr, tcdmSize), words[addr]);
        WordsStay(was, flash, words, order, i, tcdmSize);
      } else {
        OthersIgnored(flash, words, order, i, tcdmSize);
      }
      i := i + 1;
    }
    assert order[..i] == order;
  }

  lemma KeyOf(words: map<nat, Hex>, order: seq<nat>, i: nat)
    requires Enumerates(order, words.Keys) && i < |order|
    ensures order[i] in words && order[i] !in order[..i]
    ensures forall a :: a in order[..i] ==> a in words
  {
    forall a | a in order
      ensures a in words
    {
      assert a in words.Keys;
    }
  }

  method WriteHeader(l2Size: nat, tcdmSize: nat) returns (flash: map<nat, Byte>)
    requires l2Size <= L2_WORDS && tcdmSize <= TCDM_WORDS
    ensures HeaderPlaced(flash, l2Size, tcdmSize, HEADER)
  {
    hide Placed, HexOf, HeaderWord;
    flash := map[];
    for i := 0 to HEADER
      invariant HeaderPlaced(flash, l2Size, tcdmSize, i)
    {
      flash := DumpBytes(flash, 4 * i, HexOf(HeaderWord(i, l2Size, tcdmSize)));
    }
  }

  /** What dumping a word keeps. */
  ghost predicate Kept(was: map<nat, Byte>, flash: map<nat, Byte>, addr: nat) {
    forall other: nat, w :: (other + 4 <= addr || addr + 4 <= other) && Placed(was, other, w) ==>
      Placed(flash, other, w)
  }

  lemma NonePlaced(flash: map<nat, Byte>, words: map<nat, Hex>, none: seq<nat>, tcdmSize: nat)
    requires none == []
    ensures WordsPlaced(flash, words, none, tcdmSize)
  {
  }

  lemma OthersIgnored(flash: map<nat, Byte>, words: map<nat, Hex>, order: seq<nat>, i: nat, tcdmSize: nat)
    requires i < |order| && !InL2(order[i]) && !InTcdm(order[i]) && WordsPlaced(flash, words, order[..i], tcdmSize)
    ensures WordsPlaced(flash, words, order[..i + 1], tcdmSize)
  {
    hide Placed, FlashAddr;
    assert order[..i + 1] == order[..i] + [order[i]];
    forall a | a in order[..i + 1] && a in words && (InL2(a) || InTcdm(a))
      ensures Winner(order[..i + 1], a, tcdmSize) == Winner(order[..i], a, tcdmSize)
    {
    }
  }

  /** Dumping the next word changes the place of the instruction word it overlays, if any. */
  lemma WordsStay(was: map<nat, Byte>, flash: map<nat, Byte>, words: map<nat, Hex>, order: seq<nat>, i: nat,
                  tcdmSize: nat)
    requires i < |order| && Sorted(order) && order[i] in words
    requires InL2(order[i]) || InTcdm(order[i])
    requires Kept(was, flash, FlashAddr(order[i], tcdmSize)) && WordsPlaced(was, words, order[..i], tcdmSize)
    requires Placed(flash, FlashAddr(order[i], tcdmSize), words[order[i]])
    ensures WordsPlaced(flash, words, order[..i + 1], tcdmSize)
  {
    hide Placed;
    assert order[..i + 1] == order[..i] + [order[i]];
    forall a | a in order[..i + 1] && a in words && (InL2(a) || InTcdm(a))
      ensures var w := Winner(order[..i + 1], a, tcdmSize);
              w in words && Placed(flash, FlashAddr(a, tcdmSize), words[w])
    {
      if a != order[i] {
        assert a in order[..i] && a < order[i];
        PlaceChanges(order[..i], order[i], a, tcdmSize);
      } else if InL2(a) {
        assert forall b :: b in order[..i] ==> b < order[i];
      }
    }
  }

  /** Later words that are dumped over `a` are the data word that overlays it. */
  lemma PlaceChanges(done: seq<nat>, b: nat, a: nat, tcdmSize: nat)
    requires (InL2(a) || InTcdm(a)) && (InL2(b) || InTcdm(b)) && a < b
    ensures Winner(done + [b], a, tcdmSize) == b || Winner(done + [b], a, tcdmSize) == Winner(done, a, tcdmSize)
    ensures Winner(done + [b], a, tcdmSize) == b ==> FlashAddr(a, tcdmSize) == FlashAddr(b, tcdmSize)
    ensures Winner(done + [b], a, tcdmSize) != b ==>
              FlashAddr(a, tcdmSize) + 4 <= FlashAddr(b, tcdmSize)
              || FlashAddr(b, tcdmSize) + 4 <= FlashAddr(a, tcdmSize)
  {
  }
}
