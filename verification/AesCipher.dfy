/**
 AES on blocks of four columns: the cipher of section 5.1 of FIPS 197 and the equivalent
 inverse cipher of section 5.3.5, for any number of rounds and any round keys.
 */
module AesCiphers {
  import opened AesColumns
  import opened AesSboxes

  datatype Block = Block(c0: Column, c1: Column, c2: Column, c3: Column)

  function AddBlocks(x: Block, y: Block): Block {
    Block(AddColumns(x.c0, y.c0), AddColumns(x.c1, y.c1), AddColumns(x.c2, y.c2), AddColumns(x.c3, y.c3))
  }

  function SubColumn(c: Column): Column {
    Column(Sub(c.a0), Sub(c.a1), Sub(c.a2), Sub(c.a3))
  }

  function InvSubColumn(c: Column): Column {
    Column(InvSub(c.a0), InvSub(c.a1), InvSub(c.a2), InvSub(c.a3))
  }

  /** ShiftRows after SubBytes: byte number r of column c comes from column c + r. */
  function SubShift(x: Block): Block {
    Block(SubColumn(Column(x.c0.a0, x.c1.a1, x.c2.a2, x.c3.a3)),
          SubColumn(Column(x.c1.a0, x.c2.a1, x.c3.a2, x.c0.a3)),
          SubColumn(Column(x.c2.a0, x.c3.a1, x.c0.a2, x.c1.a3)),
          SubColumn(Column(x.c3.a0, x.c0.a1, x.c1.a2, x.c2.a3)))
  }

  /** InvShiftRows and InvSubBytes: byte number r of column c comes from column c - r. */
  function InvSubShift(x: Block): Block {
    Block(InvSubColumn(Column(x.c0.a0, x.c3.a1, x.c2.a2, x.c1.a3)),
          InvSubColumn(Column(x.c1.a0, x.c0.a1, x.c3.a2, x.c2.a3)),
          InvSubColumn(Column(x.c2.a0, x.c1.a1, x.c0.a2, x.c3.a3)),
          InvSubColumn(Column(x.c3.a0, x.c2.a1, x.c1.a2, x.c0.a3)))
  }

  /** The byte in row `r` of column `c`; byte r + 4c of the block. */
  function ByteOf(x: Block, r: nat, c: nat): bv8
    requires r < 4 && c < 4
  {
    var column := if c == 0 then x.c0 else if c == 1 then x.c1 else if c == 2 then x.c2 else x.c3;
    if r == 0 then column.a0 else if r == 1 then column.a1 else if r == 2 then column.a2 else column.a3
  }

  /** Section 5.1.2: row r is shifted by r. */
  lemma ShiftedRows(x: Block, r: nat, c: nat)
    requires r < 4 && c < 4
    ensures ByteOf(SubShift(x), r, c) == Sub(ByteOf(x, r, (c + r) % 4))
  {
    hide Sub;
  }

  function MixColumns(x: Block): Block {
    Block(MixColumn(x.c0), MixColumn(x.c1), MixColumn(x.c2), MixColumn(x.c3))
  }

  function InvMixColumns(x: Block): Block {
    Block(InvMixColumn(x.c0), InvMixColumn(x.c1), InvMixColumn(x.c2), InvMixColumn(x.c3))
  }

  /** The state after the initial key addition and `r` rounds; the last round does not mix. */
  function Rounds(keys: seq<Block>, x: Block, r: nat): Block
    requires r < |keys|
  {
    if r == 0 then AddBlocks(x, keys[0])
    else
      var t := SubShift(Rounds(keys, x, r - 1));
      AddBlocks(if r < |keys| - 1 then MixColumns(t) else t, keys[r])
  }

  function Cipher(keys: seq<Block>, x: Block): Block
    requires keys != []
  {
    Rounds(keys, x, |keys| - 1)
  }

  /** The state of the equivalent inverse cipher after its initial key addition and `r` rounds. */
  function InvRounds(keys: seq<Block>, x: Block, r: nat): Block
    requires r < |keys|
  {
    if r == 0 then AddBlocks(x, keys[|keys| - 1])
    else
      var t := InvSubShift(InvRounds(keys, x, r - 1));
      AddBlocks(if r < |keys| - 1 then InvMixColumns(t) else t, keys[|keys| - 1 - r])
  }

  function EqInvCipher(keys: seq<Block>, x: Block): Block
    requires keys != []
  {
    InvRounds(keys, x, |keys| - 1)
  }

  /** The key schedule for the equivalent inverse cipher: all round keys but the first and the
      last go through InvMixColumns. */
  function Converted(keys: seq<Block>): (converted: seq<Block>)
    ensures |converted| == |keys|
  {
    seq(|keys|, r requires 0 <= r < |keys| => if 0 < r < |keys| - 1 then InvMixColumns(keys[r]) else keys[r])
  }

  lemma AddTwice(x: Block, y: Block)
    ensures AddBlocks(AddBlocks(x, y), y) == x
  {
    hide Add;
    ColumnTwice(x.c0, y.c0);
    ColumnTwice(x.c1, y.c1);
    ColumnTwice(x.c2, y.c2);
    ColumnTwice(x.c3, y.c3);
  }

  lemma ColumnTwice(c: Column, d: Column)
    ensures AddColumns(AddColumns(c, d), d) == c
  {
    hide Add;
    ByteTwice(c.a0, d.a0);
    ByteTwice(c.a1, d.a1);
    ByteTwice(c.a2, d.a2);
    ByteTwice(c.a3, d.a3);
  }

  lemma ByteTwice(a: bv8, b: bv8)
    ensures Add(Add(a, b), b) == a
  {
    hide Add;
    AddAssociates(a, b, b);
    AddZero(a);
    AddZero(b);
  }

  lemma InvSubShiftSubShift(x: Block)
    ensures InvSubShift(SubShift(x)) == x
  {
    hide Sub, InvSub;
    SubColumnBack(x.c0);
    SubColumnBack(x.c1);
    SubColumnBack(x.c2);
    SubColumnBack(x.c3);
  }

  lemma SubColumnBack(c: Column)
    ensures InvSubColumn(SubColumn(c)) == c
  {
    hide Sub, InvSub;
    SubInverse(c.a0);
    SubInverse(c.a1);
    SubInverse(c.a2);
    SubInverse(c.a3);
  }

  lemma InvMixColumnsBack(x: Block)
    ensures InvMixColumns(MixColumns(x)) == x
  {
    hide MixColumn, InvMixColumn;
    InvMixMix(x.c0);
    InvMixMix(x.c1);
    InvMixMix(x.c2);
    InvMixMix(x.c3);
  }

  lemma InvMixColumnsAdd(x: Block, y: Block)
    ensures InvMixColumns(AddBlocks(x, y)) == AddBlocks(InvMixColumns(x), InvMixColumns(y))
  {
    hide InvMixColumn, AddColumns;
    InvMixAdd(x.c0, y.c0);
    InvMixAdd(x.c1, y.c1);
    InvMixAdd(x.c2, y.c2);
    InvMixAdd(x.c3, y.c3);
  }

  /** After `r` rounds, decryption has got back to where encryption was before it mixed in
      round |keys| - 1 - r. */
  lemma {:induction false} RoundsBack(keys: seq<Block>, x: Block, r: nat)
    requires r + 1 < |keys|
    ensures InvRounds(Converted(keys), Cipher(keys, x), r) == SubShift(Rounds(keys, x, |keys| - 2 - r))
  {
    hide AddBlocks, SubShift, InvSubShift, MixColumns, InvMixColumns;
    var n := |keys| - 1;
    if r == 0 {
      AddTwice(SubShift(Rounds(keys, x, n - 1)), keys[n]);
    } else {
      RoundsBack(keys, x, r - 1);
      var y := Rounds(keys, x, n - r);
      var t := SubShift(Rounds(keys, x, n - r - 1));
      InvSubShiftSubShift(y);
      assert y == AddBlocks(MixColumns(t), keys[n - r]);
      InvMixColumnsAdd(MixColumns(t), keys[n - r]);
      InvMixColumnsBack(t);
      AddTwice(t, InvMixColumns(keys[n - r]));
    }
  }

  /** The equivalent inverse cipher with the converted keys undoes the cipher. */
  lemma DecryptsWhatIsEncrypted(keys: seq<Block>, x: Block)
    requires keys != []
    ensures EqInvCipher(Converted(keys), Cipher(keys, x)) == x
  {
    hide AddBlocks, SubShift, InvSubShift, MixColumns, InvMixColumns;
    var n := |keys| - 1;
    AddTwice(x, keys[0]);
    if n > 0 {
      RoundsBack(keys, x, n - 1);
      InvSubShiftSubShift(Rounds(keys, x, 0));
    }
  }
}
