/** boot_code.c: the header read and the two block-copy loops. */
module BootLoaders {
  import opened MachineWords
  import opened FlashImages
  import opened FlashLayouts

  /** The flash takes 24 address bits; bytes that were never written read as `blank`. */
  const FLASH_SIZE: nat := 0x100_0000

  function FlashByte(flash: map<nat, Byte>, blank: Byte, addr: nat): Byte {
    if addr % FLASH_SIZE in flash then flash[addr % FLASH_SIZE] else blank
  }

  /** A word as the SPI controller hands it over: the first byte is the most significant. */
  function FlashWord(flash: map<nat, Byte>, blank: Byte, addr: nat): Hex {
    [FlashByte(flash, blank, addr), FlashByte(flash, blank, addr + 1),
     FlashByte(flash, blank, addr + 2), FlashByte(flash, blank, addr + 3)]
  }

  /** The command that starts a read leaves out the address bits from 24 on. */
  lemma FlashRepeats(flash: map<nat, Byte>, blank: Byte, addr: nat)
    ensures FlashByte(flash, blank, addr + 0x100_0000) == FlashByte(flash, blank, addr)
    ensures addr < 0x100_0000 ==> FlashByte(flash, blank, addr) == if addr in flash then flash[addr] else blank
  {
  }

  lemma PlacedIsRead(flash: map<nat, Byte>, blank: Byte, addr: nat, w: Hex)
    requires addr + 4 <= FLASH_SIZE && Placed(flash, addr, w)
    ensures FlashWord(flash, blank, addr) == w
  {
  }

  /** One header field. */
  function Field(flash: map<nat, Byte>, blank: Byte, i: nat): Word32 {
    ValueOf(FlashWord(flash, blank, 4 * i))
  }

  /** RAM word `a` comes from a copy of `count` words from flash address `from` to RAM word `to`. */
  predicate CopiedTo(a: nat, to: nat, count: nat) {
    to <= a < to + count
  }

  class Board {
    var ram: map<nat, Hex>

    constructor ()
      ensures ram == map[]
    {
      ram := map[];
    }

    /** spi_read_fifo: one block. */
    method ReadBlock(flash: map<nat, Byte>, blank: Byte, addr: nat, to: nat)
      modifies this
      ensures forall a :: a in ram <==> a in old(ram) || CopiedTo(a, to, BLOCK)
      ensures forall a :: a in ram ==>
                ram[a] == if CopiedTo(a, to, BLOCK) then FlashWord(flash, blank, addr + 4 * (a - to)) else old(ram)[a]
    {
      hide FlashWord;
      var j := 0;
      while j < BLOCK
        invariant 0 <= j <= BLOCK
        invariant forall a :: a in ram <==> a in old(ram) || CopiedTo(a, to, j)
        invariant forall a :: a in ram ==>
                    ram[a] == if CopiedTo(a, to, j) then FlashWord(flash, blank, addr + 4 * (a - to)) else old(ram)[a]
      {
        ram := ram[to + j := FlashWord(flash, blank, addr + 4 * j)];
        j := j + 1;
      }
    }

    method CopyBlocks(flash: map<nat, Byte>, blank: Byte, start: nat, to: nat, blocks: nat)
      modifies this
      ensures forall a :: a in ram <==> a in old(ram) || CopiedTo(a, to, blocks * BLOCK)
      ensures forall a :: a in ram ==>
                ram[a] ==
                if CopiedTo(a, to, blocks * BLOCK) then FlashWord(flash, blank, start + 4 * (a - to)) else old(ram)[a]
    {
      hide FlashWord;
      var addr, pointer, i := start, to, 0;
      while i < blocks
        invariant 0 <= i <= blocks && pointer == to + i * BLOCK && addr == start + 4 * (i * BLOCK)
        invariant forall a :: a in ram <==> a in old(ram) || CopiedTo(a, to, i * BLOCK)
        invariant forall a :: a in ram ==>
                    ram[a] ==
                    if CopiedTo(a, to, i * BLOCK) then FlashWord(flash, blank, start + 4 * (a - to)) else old(ram)[a]
      {
        ReadBlock(flash, blank, addr, pointer);
        pointer := pointer + 0x400;
        addr := addr + 0x1000;
        i := i + 1;
      }
    }

    /** Copies the instructions and then the data to where the header says. */
    method Boot(flash: map<nat, Byte>, blank: Byte)
      modifies this
      ensures forall a :: a in ram <==>
                a in old(ram) || CopiedTo(a, Field(flash, blank, 5) / 4, Field(flash, blank, 7) * BLOCK)
                || CopiedTo(a, Field(flash, blank, 1) / 4, Field(flash, blank, 3) * BLOCK)
      ensures forall a :: a in ram ==>
                ram[a] ==
                if CopiedTo(a, Field(flash, blank, 5) / 4, Field(flash, blank, 7) * BLOCK) then
                  FlashWord(flash, blank, Field(flash, blank, 4) + 4 * (a - Field(flash, blank, 5) / 4))
                else if CopiedTo(a, Field(flash, blank, 1) / 4, Field(flash, blank, 3) * BLOCK) then
                  FlashWord(flash, blank, Field(flash, blank, 0) + 4 * (a - Field(flash, blank, 1) / 4))
                else old(ram)[a]
    {
      hide FlashWord, Field, CopiedTo;
      var header: seq<Word32> := seq(HEADER, i requires 0 <= i < HEADER => Field(flash, blank, i));
      CopyBlocks(flash, blank, header[0], header[1] / 4, header[3]);
      CopyBlocks(flash, blank, header[4], header[5] / 4, header[7]);
    }
  }

  /** The header fields that the image builder wrote. */
  lemma HeaderRead(flash: map<nat, Byte>, blank: Byte, l2Size: nat, tcdmSize: nat, i: nat)
    requires l2Size <= L2_WORDS && tcdmSize <= TCDM_WORDS && i < HEADER
    requires HeaderPlaced(flash, l2Size, tcdmSize, HEADER)
    ensures Field(flash, blank, i) == HeaderWord(i, l2Size, tcdmSize)
  {
    hide HexOf, ValueOf, FlashWord, HeaderWord, Placed;
    PlacedIsRead(flash, blank, 4 * i, HexOf(HeaderWord(i, l2Size, tcdmSize)));
    HexBack(HeaderWord(i, l2Size, tcdmSize));
  }

  ghost predicate Booted(ram: map<nat, Hex>, words: map<nat, Hex>, a: nat)
    requires a in words
  {
    a in ram && ram[a] == words[a]
  }

  /** Building the flash image and booting from it, with empty memories, puts back exactly the
      words that `WordBoots` says; so all of them if and only if `Boots` says so. */
  method BuildAndBoot(board: Board, bytes: map<nat, Byte>, anyOrder: seq<nat>,
                      blank: Byte) returns (words: map<nat, Hex>)
    requires Enumerates(anyOrder, bytes.Keys)
    modifies board
    ensures IsGathered(bytes, words)
    ensures forall a :: a in words && (InL2(a) || InTcdm(a)) && WordBoots(words, a) ==> Booted(board.ram, words, a)
    ensures old(board.ram) == map[] ==>
              forall a :: a in words && (InL2(a) || InTcdm(a)) ==>
                (Booted(board.ram, words, a) <==> WordBoots(words, a))
    ensures old(board.ram) == map[] ==>
              ((forall a :: a in words && (InL2(a) || InTcdm(a)) ==> Booted(board.ram, words, a)) <==> Boots(words))
    ensures old(board.ram) == map[] ==>
              ((forall a :: a in board.ram ==> InL2(a) || InTcdm(a)) <==>
               !Full(words, L2_START, L2_WORDS) && !Full(words, TCDM_START, TCDM_WORDS))
  {
    hide Full, IsGathered, Enumerates, WordBoots, Booted, InL2, InTcdm;
    words := BytesToWords(bytes, anyOrder);
    FlashAndBoot(board, words, blank);
  }

  /** The same from the words on. */
  method FlashAndBoot(board: Board, words: map<nat, Hex>, blank: Byte)
    modifies board
    ensures forall a :: a in words && (InL2(a) || InTcdm(a)) && WordBoots(words, a) ==> Booted(board.ram, words, a)
    ensures old(board.ram) == map[] ==>
              forall a :: a in words && (InL2(a) || InTcdm(a)) ==>
                && (a in board.ram <==> Covered(words, a))
                && (Booted(board.ram, words, a) <==> WordBoots(words, a))
    ensures old(board.ram) == map[] ==>
              ((forall a :: a in board.ram ==> InL2(a) || InTcdm(a)) <==>
               !Full(words, L2_START, L2_WORDS) && !Full(words, TCDM_START, TCDM_WORDS))
  {
    hide Full, Covered, Present, Field, FlashWord, WordsPlaced, HeaderPlaced, HeaderWord, Enumerates, WordBoots, Sorted;
    var order := SortedKeys(words);
    var flash, l2Size, tcdmSize := WriteFlash(words, order);
    board.Boot(flash, blank);
    forall a | a in words && (InL2(a) || InTcdm(a))
      ensures WordBoots(words, a) ==> Booted(board.ram, words, a)
      ensures old(board.ram) == map[] ==> (a in board.ram <==> Covered(words, a))
      ensures old(board.ram) == map[] && Booted(board.ram, words, a) ==> WordBoots(words, a)
    {
      WordRead(flash, blank, words, order, l2Size, tcdmSize, a);
    }
    if old(board.ram) == map[] {
      StaysInside(flash, blank, words, l2Size, tcdmSize, board.ram);
    }
  }

  /** A memory of which every word has been gathered: one more block is copied than it has. */
  predicate Full(words: map<nat, Hex>, start: nat, size: nat) {
    |Present(words, start, size)| == size
  }

  /** What is copied stays inside the two memories exactly when neither is full. */
  lemma StaysInside(flash: map<nat, Byte>, blank: Byte, words: map<nat, Hex>, l2Size: nat, tcdmSize: nat,
                    ram: map<nat, Hex>)
    requires l2Size == |Present(words, L2_START, L2_WORDS)| <= L2_WORDS
    requires tcdmSize == |Present(words, TCDM_START, TCDM_WORDS)| <= TCDM_WORDS
    requires HeaderPlaced(flash, l2Size, tcdmSize, HEADER)
    requires forall a :: a in ram <==> CopiedTo(a, Field(flash, blank, 5) / 4, Field(flash, blank, 7) * BLOCK)
                                       || CopiedTo(a, Field(flash, blank, 1) / 4, Field(flash, blank, 3) * BLOCK)
    ensures (forall a :: a in ram ==> InL2(a) || InTcdm(a)) <==>
            !Full(words, L2_START, L2_WORDS) && !Full(words, TCDM_START, TCDM_WORDS)
  {
    hide Field, HeaderPlaced;
    HeaderRead(flash, blank, l2Size, tcdmSize, 1);
    HeaderRead(flash, blank, l2Size, tcdmSize, 3);
    HeaderRead(flash, blank, l2Size, tcdmSize, 5);
    HeaderRead(flash, blank, l2Size, tcdmSize, 7);
    hide Present;
    assert CopiedTo(L2_WORDS, L2_START, Blocks(l2Size) * BLOCK) <==> l2Size == L2_WORDS;
    assert CopiedTo(TCDM_START + TCDM_WORDS, TCDM_START, Blocks(tcdmSize) * BLOCK) <==> tcdmSize == TCDM_WORDS;
    assert l2Size == L2_WORDS ==> L2_WORDS in ram;
    assert tcdmSize == TCDM_WORDS ==> TCDM_START + TCDM_WORDS in ram;
  }

  /** sorted() */
  method SortedKeys(words: map<nat, Hex>) returns (order: seq<nat>)
    ensures Enumerates(order, words.Keys) && Sorted(order)
  {
    hide Enumerates, Sorted, Below;
    order := [];
    var left := words.Keys;
    ghost var done: set<nat> := {};
    NoKey(order);
    while left != {}
      invariant done + left == words.Keys && Enumerates(order, done) && Sorted(order)
      invariant Below(order, left)
      decreases |left|
    {
      var k := LeastOf(left);
      StillBelow(order, left, k);
      OneMoreKey(order, done, k);
      done := done + {k};
      order := order + [k];
      left := left - {k};
    }
  }

  ghost predicate Below(order: seq<nat>, left: set<nat>) {
    forall j, k :: j in order && k in left ==> j < k
  }

  lemma StillBelow(order: seq<nat>, left: set<nat>, k: nat)
    requires Below(order, left) && k in left && forall j :: j in left ==> k <= j
    ensures (forall j :: j in order ==> j < k) && Below(order + [k], left - {k})
  {
  }

  method LeastOf(keys: set<nat>) returns (least: nat)
    requires keys != {}
    ensures least in keys && forall k :: k in keys ==> least <= k
  {
    least :| least in keys;
    var left := keys - {least};
    while left != {}
      invariant left <= keys && least in keys && forall k :: k in keys ==> k in left || least <= k
      decreases |left|
    {
      var k :| k in left;
      left := left - {k};
      if k < least {
        least := k;
      }
    }
  }

  lemma NoKey(order: seq<nat>)
    requires order == []
    ensures Enumerates(order, {}) && Sorted(order) && forall left :: Below(order, left)
  {
  }

  lemma OneMoreKey(order: seq<nat>, keys: set<nat>, k: nat)
    requires Enumerates(order, keys) && Sorted(order) && forall j :: j in order ==> j < k
    ensures Enumerates(order + [k], keys + {k}) && Sorted(order + [k])
  {
    assert forall i :: 0 <= i < |order| ==> order[i] in order;
  }

  /** What the boot loader reads for a word that is copied is what was dumped in its place last. */
  lemma WordRead(flash: map<nat, Byte>, blank: Byte, words: map<nat, Hex>, order: seq<nat>, l2Size: nat, tcdmSize: nat,
                 a: nat)
    requires l2Size == |Present(words, L2_START, L2_WORDS)| <= L2_WORDS
    requires tcdmSize == |Present(words, TCDM_START, TCDM_WORDS)| <= TCDM_WORDS
    requires HeaderPlaced(flash, l2Size, tcdmSize, HEADER) && WordsPlaced(flash, words, order, tcdmSize)
    requires Enumerates(order, words.Keys) && a in words && (InL2(a) || InTcdm(a))
    ensures var inData := CopiedTo(a, Field(flash, blank, 5) / 4, Field(flash, blank, 7) * BLOCK);
            var inInstr := CopiedTo(a, Field(flash, blank, 1) / 4, Field(flash, blank, 3) * BLOCK);
            var from := if inData then Field(flash, blank, 4) + 4 * (a - Field(flash, blank, 5) / 4)
                        else if inInstr then Field(flash, blank, 0) + 4 * (a - Field(flash, blank, 1) / 4) else 0;
            && (Covered(words, a) <==> inData || inInstr)
            && (WordBoots(words, a) <==>
              && (inData || inInstr)
              && words[a] == FlashWord(flash, blank, from))
  {
    hide Field, FlashWord, HeaderPlaced, Placed, ValueOf, HexOf, Present;
    assert a in words.Keys && a in order;
    HeaderRead(flash, blank, l2Size, tcdmSize, 0);
    HeaderRead(flash, blank, l2Size, tcdmSize, 1);
    HeaderRead(flash, blank, l2Size, tcdmSize, 3);
    HeaderRead(flash, blank, l2Size, tcdmSize, 4);
    HeaderRead(flash, blank, l2Size, tcdmSize, 5);
    HeaderRead(flash, blank, l2Size, tcdmSize, 7);
    var w := Winner(order, a, tcdmSize);
    PlacedIsRead(flash, blank, FlashAddr(a, tcdmSize), words[w]);
  }

  /** Booting with a hole: of two instruction words 1024 apart only the first gets to its memory. */
  method BootWithHole(board: Board, w: Hex, blank: Byte)
    requires board.ram == map[]
    modifies board
    ensures 0 in board.ram && board.ram[0] == w && 1024 !in board.ram
  {
    var words := map[0 := w, 1024 := w];
    assert Present(words, L2_START, L2_WORDS) == {0, 1024};
    assert Present(words, TCDM_START, TCDM_WORDS) == {};
    FlashAndBoot(board, words, blank);
    assert WordBoots(words, 0) && !Covered(words, 1024);
    assert Booted(board.ram, words, 0);
  }

  /** Booting with data 1016 words behind their start: they are dumped over the first instruction. */
  method BootWithOverlap(board: Board, instr: Hex, data: Hex, blank: Byte)
    requires board.ram == map[] && instr != data
    modifies board
    ensures 0 in board.ram && board.ram[0] != instr
  {
    var words := map[0 := instr, TCDM_START + 1016 := data];
    assert Present(words, TCDM_START, TCDM_WORDS) == {TCDM_START + 1016};
    FlashAndBoot(board, words, blank);
    assert !WordBoots(words, 0) by {
      assert words[TCDM_START + 1016] != words[0] && InTcdm(TCDM_START + 1016);
      assert FlashAddr(TCDM_START + 1016, 1) == FlashAddr(0, 1);
    }
    assert !Booted(board.ram, words, 0) && Covered(words, 0);
  }
}
