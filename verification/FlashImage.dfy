/** The flash image: how s19toslm.py gathers bytes into words and lays them out. A word is its
    four bytes, most significant first, as the program writes it in hexadecimal. */
module FlashImages {
  import opened MachineWords

  type Hex = w: seq<Byte> | |w| == 4 witness [0, 0, 0, 0]

  function HexOf(n: Word32): Hex {
    [n / 0x100_0000, n / 0x1_0000 % 0x100, n / 0x100 % 0x100, n % 0x100]
  }

  function ValueOf(w: Hex): Word32 {
    var b0: int, b1: int, b2: int, b3: int := w[0], w[1], w[2], w[3];
    0x100_0000 * b0 + 0x1_0000 * b1 + 0x100 * b2 + b3
  }

  lemma HexBack(n: Word32)
    ensures ValueOf(HexOf(n)) == n
  {
    Digits(n);
    Digits(n / 0x100);
    Digits(n / 0x1_0000);
  }

  // ---------------------------------------------------------------------------------------
  // Bytes to words.

  function ByteAt(bytes: map<nat, Byte>, addr: nat): Byte {
    if addr in bytes then bytes[addr] else 0
  }

  /** The word with its byte number `k` replaced; byte 0 is the least significant. */
  function WithByte(data: Hex, k: nat, b: Byte): Hex
    requires k < 4
  {
    data[3 - k := b]
  }

  /** The word at word address `w`, absent bytes being zero. */
  function Gathered(bytes: map<nat, Byte>, w: nat): Hex {
    [ByteAt(bytes, 4 * w + 3), ByteAt(bytes, 4 * w + 2), ByteAt(bytes, 4 * w + 1), ByteAt(bytes, 4 * w)]
  }

  /** Concretely: the bytes 11, 22, 33 and 44 from an address up are the word 0x44332211, which is put in
      the flash with its byte 44 first. */
  lemma KnownWord()
    ensures var bytes: map<nat, Byte> := map[4 := 0x11, 5 := 0x22, 6 := 0x33, 7 := 0x44];
            Gathered(bytes, 1) == HexOf(0x4433_2211) == [0x44, 0x33, 0x22, 0x11]
    ensures ValueOf([0x44, 0x33, 0x22, 0x11]) == 0x4433_2211
  {
  }

  predicate Touched(bytes: map<nat, Byte>, w: nat) {
    4 * w in bytes || 4 * w + 1 in bytes || 4 * w + 2 in bytes || 4 * w + 3 in bytes
  }

  /** Each word of which some byte is there. */
  ghost predicate IsGathered(bytes: map<nat, Byte>, words: map<nat, Hex>) {
    && (forall w :: w in words <==> Touched(bytes, w))
    && (forall w :: w in words ==> words[w] == Gathered(bytes, w))
  }

  ghost predicate Enumerates(order: seq<nat>, keys: set<nat>) {
    && (forall i, j :: 0 <= i < j < |order| ==> order[i] != order[j])
    && (forall k :: k in keys <==> k in order)
  }

  function Only(bytes: map<nat, Byte>, order: seq<nat>): (m: map<nat, Byte>)
    ensures forall k :: k in m <==> k in bytes && k in order
    ensures forall k :: k in m ==> m[k] == bytes[k]
  {
    map k | k in bytes && k in order :: bytes[k]
  }

  /** In whatever order the dictionary of bytes is gone through, the words are the same. */
  method BytesToWords(bytes: map<nat, Byte>, order: seq<nat>) returns (words: map<nat, Hex>)
    requires Enumerates(order, bytes.Keys)
    ensures IsGathered(bytes, words)
  {
    hide IsGathered, Enumerates, Only, WithByte;
    words := map[];
    var i := 0;
    NothingGathered(Only(bytes, order[..0]));
    AllOnly(bytes, order);
    while i < |order|
      invariant 0 <= i <= |order|
      invariant IsGathered(Only(bytes, order[..i]), words)
    {
      OnlyStep(bytes, order, i);
      var addr := order[i];
      var wordAddr := addr / 4;
      var data: Hex := [0, 0, 0, 0];
      if wordAddr in words {
        data := words[wordAddr];
      }
      GatherStep(Only(bytes, order[..i]), words, addr, bytes[addr], data);
      words := words[wordAddr := WithByte(data, addr % 4, bytes[addr])];
      i := i + 1;
    }
    assert order[..i] == order;
  }

  lemma AllOnly(bytes: map<nat, Byte>, order: seq<nat>)
    requires Enumerates(order, bytes.Keys)
    ensures Only(bytes, order) == bytes
  {
    assert forall k :: k in bytes ==> k in bytes.Keys;
  }

  lemma OnlyStep(bytes: map<nat, Byte>, order: seq<nat>, i: nat)
    requires Enumerates(order, bytes.Keys) && i < |order|
    ensures order[i] in bytes && order[i] !in Only(bytes, order[..i])
    ensures Only(bytes, order[..i + 1]) == Only(bytes, order[..i])[order[i] := bytes[order[i]]]
  {
    assert order[i] in bytes.Keys;
    assert order[..i + 1] == order[..i] + [order[i]];
  }

  lemma NothingGathered(bytes: map<nat, Byte>)
    requires forall k :: k !in bytes
    ensures IsGathered(bytes, map[])
  {
  }

  lemma GatherStep(bytes: map<nat, Byte>, words: map<nat, Hex>, addr: nat, b: Byte, data: Hex)
    requires IsGathered(bytes, words) && addr !in bytes
    requires data == if addr / 4 in words then words[addr / 4] else [0, 0, 0, 0]
    ensures IsGathered(bytes[addr := b], words[addr / 4 := WithByte(data, addr % 4, b)])
  {
    hide Touched, Gathered, WithByte;
    var more, after := bytes[addr := b], words[addr / 4 := WithByte(data, addr % 4, b)];
    forall w
      ensures w in after <==> Touched(more, w)
      ensures w in after ==> after[w] == Gathered(more, w)
    {
      OneMoreByte(bytes, addr, b, w);
    }
  }

  lemma OneMoreByte(bytes: map<nat, Byte>, addr: nat, b: Byte, w: nat)
    requires addr !in bytes
    ensures Touched(bytes[addr := b], w) <==> Touched(bytes, w) || w == addr / 4
    ensures Gathered(bytes[addr := b], w) ==
            if w == addr / 4 then WithByte(Gathered(bytes, w), addr % 4, b) else Gathered(bytes, w)
    ensures !Touched(bytes, w) ==> Gathered(bytes, w) == [0, 0, 0, 0]
  {
    assert addr == 4 * (addr / 4) + addr % 4;
  }
}
