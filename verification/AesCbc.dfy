/** AES_convert_key, AES_encrypt, AES_decrypt and the CBC functions, in place on arrays. */
module AesCbc {
  import opened AesColumns
  import opened AesSboxes
  import opened AesWords
  import opened AesCiphers

  // ---- Words and bytes as blocks

  /** Four words as a block, each word a column with its first byte most significant. */
  function WordBlock(w: seq<bv32>, p: nat): Block
    requires p + 4 <= |w|
  {
    Block(Bytes(w[p]), Bytes(w[p + 1]), Bytes(w[p + 2]), Bytes(w[p + 3]))
  }

  /** The round keys held in the words of a key schedule. */
  function Keys(ks: seq<bv32>, rounds: nat): (keys: seq<Block>)
    requires 4 * (rounds + 1) <= |ks|
    ensures |keys| == rounds + 1
  {
    seq(rounds + 1, r requires 0 <= r <= rounds => WordBlock(ks, 4 * r))
  }

  function ByteColumn(b: seq<bv8>, p: nat): Column
    requires p + 4 <= |b|
  {
    Column(b[p], b[p + 1], b[p + 2], b[p + 3])
  }

  function ByteBlock(b: seq<bv8>, p: nat): Block
    requires p + 16 <= |b|
  {
    Block(ByteColumn(b, p), ByteColumn(b, p + 4), ByteColumn(b, p + 8), ByteColumn(b, p + 12))
  }

  /** The first `n` blocks of a message. */
  function Blocks(b: seq<bv8>, n: nat): (blocks: seq<Block>)
    requires 16 * n <= |b|
    ensures |blocks| == n && forall i :: 0 <= i < n ==> blocks[i] == ByteBlock(b, 16 * i)
  {
    seq(n, i requires 0 <= i < n => ByteBlock(b, 16 * i))
  }

  /** The number of whole blocks in `length` bytes. */
  function WholeBlocks(length: int): (n: nat)
    ensures length >= 0 ==> 16 * n <= length < 16 * (n + 1)
    ensures length < 16 ==> n == 0
  {
    if length < 16 then 0 else length / 16
  }

  lemma SameBytes(a: seq<bv8>, b: seq<bv8>, p: nat)
    requires p + 16 <= |a| && p + 16 <= |b|
    requires forall j :: p <= j < p + 16 ==> a[j] == b[j]
    ensures ByteBlock(a, p) == ByteBlock(b, p)
  {
  }

  lemma SameEarlierBlocks(a: seq<bv8>, b: seq<bv8>, n: nat)
    requires |a| == |b| && 16 * n <= |a|
    requires forall j :: 0 <= j < 16 * n ==> a[j] == b[j]
    ensures forall i :: 0 <= i < n ==> ByteBlock(a, 16 * i) == ByteBlock(b, 16 * i)
  {
  }

  // ---- One row of a round

  /** One word of a round of AES_encrypt: four table look-ups and, but for the last round, the mixing of
      the four bytes. */
  function EncryptRow(d0: bv32, d1: bv32, d2: bv32, d3: bv32, mix: bool): bv32 {
    var a0 := Wide(Sub(((d0 >> 24) & 0xff) as bv8));
    var a1 := Wide(Sub(((d1 >> 16) & 0xff) as bv8));
    var a2 := Wide(Sub(((d2 >> 8) & 0xff) as bv8));
    var a3 := Wide(Sub((d3 & 0xff) as bv8));
    if mix then MixBytes(a0, a1, a2, a3) else Pack(a0, a1, a2, a3)
  }

  lemma EncryptRowIs(d0: bv32, d1: bv32, d2: bv32, d3: bv32, mix: bool)
    ensures var c := SubColumn(Column(Bytes(d0).a0, Bytes(d1).a1, Bytes(d2).a2, Bytes(d3).a3));
            Bytes(EncryptRow(d0, d1, d2, d3, mix)) == if mix then MixColumn(c) else c
  {
    hide Sub, Wide, Pack, MixBytes, MixColumn;
    var c := SubColumn(Column(Bytes(d0).a0, Bytes(d1).a1, Bytes(d2).a2, Bytes(d3).a3));
    MixBytesIs(c);
    BytesWord(c);
    BytesWord(MixColumn(c));
  }

  /** One word of a round of AES_decrypt: the same with the inverse table and the inverse mixing. */
  function DecryptRow(d0: bv32, d1: bv32, d2: bv32, d3: bv32, mix: bool): bv32 {
    var a0 := Wide(InvSub(((d0 >> 24) & 0xff) as bv8));
    var a1 := Wide(InvSub(((d1 >> 16) & 0xff) as bv8));
    var a2 := Wide(InvSub(((d2 >> 8) & 0xff) as bv8));
    var a3 := Wide(InvSub((d3 & 0xff) as bv8));
    if mix then UnmixBytes(a0, a1, a2, a3) else Pack(a0, a1, a2, a3)
  }

  lemma DecryptRowIs(d0: bv32, d1: bv32, d2: bv32, d3: bv32, mix: bool)
    ensures var c := InvSubColumn(Column(Bytes(d0).a0, Bytes(d1).a1, Bytes(d2).a2, Bytes(d3).a3));
            Bytes(DecryptRow(d0, d1, d2, d3, mix)) == if mix then InvMixColumn(c) else c
  {
    hide InvSub, Wide, Pack, UnmixBytes, InvMixColumn;
    var c := InvSubColumn(Column(Bytes(d0).a0, Bytes(d1).a1, Bytes(d2).a2, Bytes(d3).a3));
    UnmixBytesIs(c);
    BytesWord(c);
    BytesWord(InvMixColumn(c));
  }

  /** The word that round row `j` makes, before the key addition. */
  function EncryptedRow(d: seq<bv32>, j: nat, mix: bool): bv32
    requires |d| == 4 && j < 4
  {
    EncryptRow(d[j % 4], d[(j + 1) % 4], d[(j + 2) % 4], d[(j + 3) % 4], mix)
  }

  function DecryptedRow(d: seq<bv32>, j: nat, mix: bool): bv32
    requires |d| == 4 && j < 4
  {
    DecryptRow(d[(j + 4) % 4], d[(j + 3) % 4], d[(j + 2) % 4], d[(j + 1) % 4], mix)
  }

  lemma KeyAdditionIs(d: seq<bv32>, e: seq<bv32>, key: seq<bv32>, p: nat)
    requires |d| == 4 && |e| == 4 && p + 4 <= |key|
    requires forall j :: 0 <= j < 4 ==> e[j] == XorWords(d[j], key[p + j])
    ensures WordBlock(e, 0) == AddBlocks(WordBlock(d, 0), WordBlock(key, p))
  {
    hide Bytes, XorWords, AddColumns;
    XorWordsBytes(d[0], key[p]);
    XorWordsBytes(d[1], key[p + 1]);
    XorWordsBytes(d[2], key[p + 2]);
    XorWordsBytes(d[3], key[p + 3]);
  }

  lemma EncryptRoundIs(d: seq<bv32>, t: seq<bv32>, mix: bool)
    requires |d| == 4 && |t| == 4
    requires forall j :: 0 <= j < 4 ==> t[j] == EncryptedRow(d, j, mix)
    ensures var u := SubShift(WordBlock(d, 0));
            WordBlock(t, 0) == if mix then MixColumns(u) else u
  {
    hide Bytes, EncryptRow, SubColumn, MixColumn;
    EncryptRowIs(d[0], d[1], d[2], d[3], mix);
    EncryptRowIs(d[1], d[2], d[3], d[0], mix);
    EncryptRowIs(d[2], d[3], d[0], d[1], mix);
    EncryptRowIs(d[3], d[0], d[1], d[2], mix);
  }

  lemma DecryptRoundIs(d: seq<bv32>, t: seq<bv32>, mix: bool)
    requires |d| == 4 && |t| == 4
    requires forall j :: 0 <= j < 4 ==> t[j] == DecryptedRow(d, j, mix)
    ensures var u := InvSubShift(WordBlock(d, 0));
            WordBlock(t, 0) == if mix then InvMixColumns(u) else u
  {
    hide Bytes, DecryptRow, InvSubColumn, InvMixColumn;
    DecryptRowIs(d[0], d[3], d[2], d[1], mix);
    DecryptRowIs(d[1], d[0], d[3], d[2], mix);
    DecryptRowIs(d[2], d[1], d[0], d[3], mix);
    DecryptRowIs(d[3], d[2], d[1], d[0], mix);
  }

  class Context {
    const rounds: nat
    const ks: array<bv32>
    const iv: array<bv8>

    constructor (rounds: nat, ks: array<bv32>, iv: array<bv8>)
      ensures this.rounds == rounds && this.ks == ks && this.iv == iv
    {
      this.rounds, this.ks, this.iv := rounds, ks, iv;
    }

    /** The schedule has room for all round keys, and the vector is one block. */
    predicate Valid() {
      4 * (rounds + 1) <= ks.Length && iv.Length == 16 && ks as object != iv as object
    }

    function RoundKeys(): (keys: seq<Block>)
      requires Valid()
      reads ks
      ensures |keys| == rounds + 1
    {
      Keys(ks[..], rounds)
    }

    /** AES_convert_key */
    method ConvertKey()
      requires Valid()
      modifies ks
      ensures RoundKeys() == Converted(old(RoundKeys()))
      ensures forall j :: 0 <= j < ks.Length ==>
                ks[j] == if 4 <= j < 4 * rounds then PackedInvMix(old(ks[j])) else old(ks[j])
    {
      hide PackedInvMix, InvMixColumn, Bytes;
      var k := 4;
      var i := rounds * 4;
      while i > 4
        invariant 4 <= k && (rounds > 0 ==> k + i == 4 + 4 * rounds)
        invariant rounds > 0 ==> 4 <= i
        invariant forall j :: 0 <= j < ks.Length ==>
                    ks[j] == if 4 <= j < k then PackedInvMix(old(ks[j])) else old(ks[j])
        invariant k == 4 || k <= 4 * rounds
      {
        ks[k] := PackedInvMix(ks[k]);
        k := k + 1;
        i := i - 1;
      }
      ghost var before := old(ks[..]);
      forall r | 0 <= r <= rounds
        ensures WordBlock(ks[..], 4 * r) == Converted(Keys(before, rounds))[r]
      {
        PackedInvMixIs(before[4 * r]);
        PackedInvMixIs(before[4 * r + 1]);
        PackedInvMixIs(before[4 * r + 2]);
        PackedInvMixIs(before[4 * r + 3]);
      }
    }

    /** AES_encrypt */
    method Encrypt(data: array<bv32>)
      requires Valid() && data.Length == 4 && data != ks
      modifies data
      ensures WordBlock(data[..], 0) == Cipher(RoundKeys(), old(WordBlock(data[..], 0)))
    {
      hide XorWords, EncryptedRow, SubShift, MixColumns, AddBlocks, Bytes;
      ghost var x, keys := WordBlock(data[..], 0), RoundKeys();
      var tmp := new bv32[4];
      AddKey(data, data, 0, 0);
      var k := 4;
      for round := 0 to rounds
        invariant k == 4 * (round + 1)
        invariant WordBlock(data[..], 0) == Rounds(keys, x, round)
      {
        ghost var d := data[..];
        for row := 0 to 4
          invariant data[..] == d
          invariant forall j :: 0 <= j < row ==> tmp[j] == EncryptedRow(d, j, round < rounds - 1)
        {
          tmp[row] := EncryptedRow(data[..], row, round < rounds - 1);
        }
        EncryptRoundIs(d, tmp[..], round < rounds - 1);
        AddKey(data, tmp, k, round + 1);
        k := k + 4;
      }
    }

    /** The key addition loops of AES_encrypt: data[row] = tmp[row] ^ *(k++). */
    method AddKey(data: array<bv32>, tmp: array<bv32>, k: nat, ghost r: nat)
      requires Valid() && data.Length == 4 && tmp.Length == 4 && data != ks
      requires r <= rounds && k == 4 * r
      modifies data
      ensures WordBlock(data[..], 0) == AddBlocks(old(WordBlock(tmp[..], 0)), RoundKeys()[r])
    {
      hide XorWords, AddBlocks, Bytes;
      ghost var d := tmp[..];
      for row := 0 to 4
        invariant forall j :: row <= j < 4 ==> tmp[j] == d[j]
        invariant forall j :: 0 <= j < row ==> data[j] == XorWords(d[j], ks[k + j])
      {
        data[row] := XorWords(tmp[row], ks[k + row]);
      }
      KeyAdditionIs(d, data[..], ks[..], k);
    }

    /** AES_decrypt */
    method Decrypt(data: array<bv32>)
      requires Valid() && data.Length == 4 && data != ks
      modifies data
      ensures WordBlock(data[..], 0) == EqInvCipher(RoundKeys(), old(WordBlock(data[..], 0)))
    {
      hide XorWords, DecryptedRow, InvSubShift, InvMixColumns, AddBlocks, Bytes;
      ghost var x, keys := WordBlock(data[..], 0), RoundKeys();
      var tmp := new bv32[4];
      var k := (rounds + 1) * 4;
      AddKeyDownwards(data, data, k, rounds);
      k := k - 4;
      for round := 0 to rounds
        invariant k == 4 * (rounds - round)
        invariant WordBlock(data[..], 0) == InvRounds(keys, x, round)
      {
        ghost var d := data[..];
        var row := 4;
        while row > 0
          invariant 0 <= row <= 4 && data[..] == d
          invariant forall j :: row <= j < 4 ==> tmp[j] == DecryptedRow(d, j, round < rounds - 1)
        {
          tmp[row - 1] := DecryptedRow(data[..], row - 1, round < rounds - 1);
          row := row - 1;
        }
        DecryptRoundIs(d, tmp[..], round < rounds - 1);
        AddKeyDownwards(data, tmp, k, rounds - 1 - round);
        k := k - 4;
      }
    }

    /** The key addition loops of AES_decrypt: data[row-1] = tmp[row-1] ^ *(--k). */
    method AddKeyDownwards(data: array<bv32>, tmp: array<bv32>, k: nat, ghost r: nat)
      requires Valid() && data.Length == 4 && tmp.Length == 4 && data != ks
      requires r <= rounds && k == 4 * (r + 1)
      modifies data
      ensures WordBlock(data[..], 0) == AddBlocks(old(WordBlock(tmp[..], 0)), RoundKeys()[r])
    {
      hide XorWords, AddBlocks, Bytes;
      ghost var d := tmp[..];
      var row, k' := 4, k;
      while row > 0
        invariant 0 <= row <= 4 && k' == 4 * r + row
        invariant forall j :: 0 <= j < row ==> tmp[j] == d[j]
        invariant forall j :: row <= j < 4 ==> data[j] == XorWords(d[j], ks[4 * r + j])
      {
        k' := k' - 1;
        data[row - 1] := XorWords(tmp[row - 1], ks[k']);
        row := row - 1;
      }
      KeyAdditionIs(d, data[..], ks[..], 4 * r);
    }

    /** memcpy and ntohl: sixteen bytes as four words, first byte most significant. */
    static method Load(b: array<bv8>, p: nat, w: array<bv32>)
      requires p + 16 <= b.Length && w.Length == 4
      modifies w
      ensures WordBlock(w[..], 0) == ByteBlock(b[..], p)
    {
      hide Word, Bytes;
      for i := 0 to 4
        invariant forall j :: 0 <= j < i ==> w[j] == Word(ByteColumn(b[..], p + 4 * j))
      {
        w[i] := Word(Column(b[p + 4 * i], b[p + 4 * i + 1], b[p + 4 * i + 2], b[p + 4 * i + 3]));
      }
      BytesWord(ByteColumn(b[..], p));
      BytesWord(ByteColumn(b[..], p + 4));
      BytesWord(ByteColumn(b[..], p + 8));
      BytesWord(ByteColumn(b[..], p + 12));
    }

    /** htonl and memcpy: four words as sixteen bytes. */
    static method Store(w: array<bv32>, b: array<bv8>, p: nat)
      requires p + 16 <= b.Length && w.Length == 4
      modifies b
      ensures ByteBlock(b[..], p) == WordBlock(w[..], 0)
      ensures forall j :: 0 <= j < b.Length && !(p <= j < p + 16) ==> b[j] == old(b[j])
    {
      hide Bytes;
      for i := 0 to 4
        invariant forall j :: 0 <= j < i ==> ByteColumn(b[..], p + 4 * j) == Bytes(w[j])
        invariant forall j :: 0 <= j < b.Length && !(p <= j < p + 4 * i) ==> b[j] == old(b[j])
      {
        var c := Bytes(w[i]);
        b[p + 4 * i], b[p + 4 * i + 1], b[p + 4 * i + 2], b[p + 4 * i + 3] := c.a0, c.a1, c.a2, c.a3;
      }
    }

    /** tin[i] = msg[i] ^ tout[i] */
    static method XorInto(x: array<bv32>, y: array<bv32>)
      requires x.Length == 4 && y.Length == 4 && x != y
      modifies x
      ensures WordBlock(x[..], 0) == AddBlocks(old(WordBlock(x[..], 0)), WordBlock(y[..], 0))
    {
      hide Bytes, XorWords, AddBlocks;
      ghost var d := x[..];
      for i := 0 to 4
        invariant forall j :: i <= j < 4 ==> x[j] == d[j]
        invariant forall j :: 0 <= j < i ==> x[j] == XorWords(d[j], y[j])
      {
        x[i] := XorWords(x[i], y[i]);
      }
      KeyAdditionIs(d, x[..], y[..], 0);
    }

    static method CopyWords(x: array<bv32>, y: array<bv32>)
      requires x.Length == 4 && y.Length == 4
      modifies y
      ensures y[..] == old(x[..])
    {
      ghost var d := x[..];
      for i := 0 to 4
        invariant forall j :: i <= j < 4 ==> x[j] == d[j]
        invariant forall j :: 0 <= j < i ==> y[j] == d[j]
      {
        y[i] := x[i];
      }
    }

    /** The loop body of AES_cbc_encrypt: one block, from and to position `p`. */
    method EncryptNext(msg: array<bv8>, out: array<bv8>, p: nat, tin: array<bv32>, tout: array<bv32>)
      requires Valid() && p + 16 <= msg.Length && p + 16 <= out.Length
      requires tin.Length == 4 && tout.Length == 4 && tin != tout && tin != ks && tout != ks
      modifies out, tin, tout
      ensures WordBlock(tout[..], 0)
           == Cipher(RoundKeys(), AddBlocks(old(ByteBlock(msg[..], p)), old(WordBlock(tout[..], 0))))
      ensures ByteBlock(out[..], p) == WordBlock(tout[..], 0)
      ensures forall j :: 0 <= j < out.Length && !(p <= j < p + 16) ==> out[j] == old(out[j])
    {
      hide AddBlocks, Cipher, WordBlock, ByteBlock, Keys;
      Load(msg, p, tin);
      XorInto(tin, tout);
      Encrypt(tin);
      CopyWords(tin, tout);
      Store(tout, out, p);
    }

    /** AES_cbc_encrypt. The message may be encrypted in place; bytes after its last whole block
        are left alone. */
    method CbcEncrypt(msg: array<bv8>, out: array<bv8>, length: int)
      requires Valid() && length <= msg.Length && length <= out.Length
      requires msg != iv && out != iv
      modifies out, iv
      ensures Blocks(out[..], WholeBlocks(length))
           == CbcEncrypted(RoundKeys(), old(ByteBlock(iv[..], 0)), old(Blocks(msg[..], WholeBlocks(length))))
      ensures ByteBlock(iv[..], 0) == NextIv(old(ByteBlock(iv[..], 0)), Blocks(out[..], WholeBlocks(length)))
      ensures forall j :: 16 * WholeBlocks(length) <= j < out.Length ==> out[j] == old(out[j])
    {
      hide AddBlocks, Cipher, ByteBlock, WordBlock, Keys, EncryptedBlock, EncryptedUpTo, CbcEncrypted, Blocks, NextIv;
      ghost var n, iv0, m := WholeBlocks(length), ByteBlock(iv[..], 0), Blocks(msg[..], WholeBlocks(length));
      ghost var keys, bytes := RoundKeys(), msg[..];
      var tin, tout := new bv32[4], new bv32[4];
      Load(iv, 0, tout);
      var p: nat, left := 0, length - 16;
      ghost var i: nat := 0;
      NoneEncrypted(keys, iv0, m, out[..]);
      while left >= 0
        invariant p == 16 * i && left == length - 16 * (i + 1) && i <= n
        invariant iv[..] == old(iv[..]) && RoundKeys() == keys
        invariant forall j :: p <= j < length ==> msg[j] == bytes[j]
        invariant forall j :: p <= j < out.Length ==> out[j] == old(out[j])
        invariant EncryptedUpTo(keys, iv0, m, out[..], i)
        invariant WordBlock(tout[..], 0) == if i == 0 then iv0 else EncryptedBlock(keys, iv0, m, i - 1)
      {
        SameBytes(msg[..], bytes, p);
        ghost var before := out[..];
        NextEncrypted(keys, iv0, m, i);
        EncryptNext(msg, out, p, tin, tout);
        EncryptedFurther(keys, iv0, m, before, out[..], i);
        p := p + 16;
        left := left - 16;
        i := i + 1;
      }
      AllEncrypted(keys, iv0, m, out[..]);
      Store(tout, iv, 0);
    }

    /** The loop body of AES_cbc_decrypt. */
    method DecryptNext(msg: array<bv8>, out: array<bv8>, p: nat, tin: array<bv32>, xor: array<bv32>, data: array<bv32>)
      requires Valid() && p + 16 <= msg.Length && p + 16 <= out.Length
      requires tin.Length == 4 && xor.Length == 4 && data.Length == 4
      requires tin != xor && tin != data && xor != data && tin != ks && xor != ks && data != ks
      modifies out, tin, xor, data
      ensures WordBlock(xor[..], 0) == old(ByteBlock(msg[..], p))
      ensures ByteBlock(out[..], p)
           == AddBlocks(EqInvCipher(RoundKeys(), old(ByteBlock(msg[..], p))), old(WordBlock(xor[..], 0)))
      ensures forall j :: 0 <= j < out.Length && !(p <= j < p + 16) ==> out[j] == old(out[j])
    {
      hide AddBlocks, EqInvCipher, WordBlock, ByteBlock, Keys;
      Load(msg, p, tin);
      CopyWords(tin, data);
      Decrypt(data);
      XorInto(data, xor);
      CopyWords(tin, xor);
      Store(data, out, p);
    }

    /** AES_cbc_decrypt, likewise. */
    method CbcDecrypt(msg: array<bv8>, out: array<bv8>, length: int)
      requires Valid() && length <= msg.Length && length <= out.Length
      requires msg != iv && out != iv
      modifies out, iv
      ensures Blocks(out[..], WholeBlocks(length))
           == CbcDecrypted(RoundKeys(), old(ByteBlock(iv[..], 0)), old(Blocks(msg[..], WholeBlocks(length))))
      ensures ByteBlock(iv[..], 0) == NextIv(old(ByteBlock(iv[..], 0)), old(Blocks(msg[..], WholeBlocks(length))))
      ensures forall j :: 16 * WholeBlocks(length) <= j < out.Length ==> out[j] == old(out[j])
    {
      hide AddBlocks, EqInvCipher, ByteBlock, WordBlock, Keys;
      ghost var n, iv0, c := WholeBlocks(length), ByteBlock(iv[..], 0), Blocks(msg[..], WholeBlocks(length));
      ghost var keys, bytes := RoundKeys(), msg[..];
      var tin, xor, data := new bv32[4], new bv32[4], new bv32[4];
      Load(iv, 0, xor);
      var p: nat, left := 0, length - 16;
      ghost var i: nat := 0;
      while left >= 0
        invariant p == 16 * i && left == length - 16 * (i + 1) && i <= n
        invariant iv[..] == old(iv[..]) && RoundKeys() == keys
        invariant forall j :: p <= j < length ==> msg[j] == bytes[j]
        invariant forall j :: p <= j < out.Length ==> out[j] == old(out[j])
        invariant forall j :: 0 <= j < i ==> ByteBlock(out[..], 16 * j) == DecryptedBlock(keys, iv0, c, j)
        invariant WordBlock(xor[..], 0) == if i == 0 then iv0 else c[i - 1]
      {
        SameBytes(msg[..], bytes, p);
        ghost var before := out[..];
        DecryptNext(msg, out, p, tin, xor, data);
        SameEarlierBlocks(before, out[..], i);
        p := p + 16;
        left := left - 16;
        i := i + 1;
      }
      Store(xor, iv, 0);
    }
  }

  // ---- CBC (section 6.2 of NIST SP 800-38A)

  /** Ciphertext block number `i`. */
  function EncryptedBlock(keys: seq<Block>, iv: Block, m: seq<Block>, i: nat): Block
    requires keys != [] && i < |m|
  {
    Cipher(keys, AddBlocks(m[i], if i == 0 then iv else EncryptedBlock(keys, iv, m, i - 1)))
  }

  function CbcEncrypted(keys: seq<Block>, iv: Block, m: seq<Block>): (c: seq<Block>)
    requires keys != []
    ensures |c| == |m|
  {
    seq(|m|, i requires 0 <= i < |m| => EncryptedBlock(keys, iv, m, i))
  }

  /** The first `n` blocks of `out` are those of the ciphertext. */
  ghost predicate EncryptedUpTo(keys: seq<Block>, iv: Block, m: seq<Block>, out: seq<bv8>, n: nat)
    requires keys != [] && n <= |m| && 16 * |m| <= |out|
  {
    forall j :: 0 <= j < n ==> ByteBlock(out, 16 * j) == EncryptedBlock(keys, iv, m, j)
  }

  lemma NoneEncrypted(keys: seq<Block>, iv: Block, m: seq<Block>, out: seq<bv8>)
    requires keys != [] && 16 * |m| <= |out|
    ensures EncryptedUpTo(keys, iv, m, out, 0)
  {
  }

  lemma NextEncrypted(keys: seq<Block>, iv: Block, m: seq<Block>, i: nat)
    requires keys != [] && i < |m|
    ensures EncryptedBlock(keys, iv, m, i)
            == Cipher(keys, AddBlocks(m[i], if i == 0 then iv else EncryptedBlock(keys, iv, m, i - 1)))
  {
  }

  lemma EncryptedFurther(keys: seq<Block>, iv: Block, m: seq<Block>, before: seq<bv8>, out: seq<bv8>, i: nat)
    requires keys != [] && i < |m| && 16 * |m| <= |before| == |out| && EncryptedUpTo(keys, iv, m, before, i)
    requires forall j :: 0 <= j < 16 * i ==> out[j] == before[j]
    requires ByteBlock(out, 16 * i) == EncryptedBlock(keys, iv, m, i)
    ensures EncryptedUpTo(keys, iv, m, out, i + 1)
  {
    hide ByteBlock, EncryptedBlock;
    SameEarlierBlocks(before, out, i);
  }

  lemma AllEncrypted(keys: seq<Block>, iv: Block, m: seq<Block>, out: seq<bv8>)
    requires keys != [] && 16 * |m| <= |out| && EncryptedUpTo(keys, iv, m, out, |m|)
    ensures Blocks(out, |m|) == CbcEncrypted(keys, iv, m)
    ensures NextIv(iv, Blocks(out, |m|)) == if m == [] then iv else EncryptedBlock(keys, iv, m, |m| - 1)
  {
    hide ByteBlock, EncryptedBlock;
  }

  /** Plaintext block number `i`. */
  function DecryptedBlock(keys: seq<Block>, iv: Block, c: seq<Block>, i: nat): Block
    requires keys != [] && i < |c|
  {
    AddBlocks(EqInvCipher(keys, c[i]), if i == 0 then iv else c[i - 1])
  }

  function CbcDecrypted(keys: seq<Block>, iv: Block, c: seq<Block>): (m: seq<Block>)
    requires keys != []
    ensures |m| == |c|
  {
    seq(|c|, i requires 0 <= i < |c| => DecryptedBlock(keys, iv, c, i))
  }

  /** The vector that a call leaves behind: the last ciphertext block, if there is one. */
  function NextIv(iv: Block, c: seq<Block>): Block {
    if c == [] then iv else c[|c| - 1]
  }

  /** Decryption with the converted keys recovers every message. */
  lemma CbcRoundTrip(keys: seq<Block>, iv: Block, m: seq<Block>)
    requires keys != []
    ensures CbcDecrypted(Converted(keys), iv, CbcEncrypted(keys, iv, m)) == m
  {
    hide AddBlocks, Cipher, EqInvCipher, Converted;
    var c := CbcEncrypted(keys, iv, m);
    forall i | 0 <= i < |m|
      ensures CbcDecrypted(Converted(keys), iv, c)[i] == m[i]
    {
      var before := if i == 0 then iv else c[i - 1];
      DecryptsWhatIsEncrypted(keys, AddBlocks(m[i], before));
      AddTwice(m[i], before);
    }
  }

  /** Splitting a message over two calls gives the same ciphertext. */
  lemma EncryptionSplits(keys: seq<Block>, iv: Block, m: seq<Block>, n: seq<Block>)
    requires keys != []
    ensures CbcEncrypted(keys, iv, m + n)
         == CbcEncrypted(keys, iv, m) + CbcEncrypted(keys, NextIv(iv, CbcEncrypted(keys, iv, m)), n)
  {
    hide AddBlocks, Cipher;
    var iv' := NextIv(iv, CbcEncrypted(keys, iv, m));
    forall i | 0 <= i < |m| + |n|
      ensures EncryptedBlock(keys, iv, m + n, i)
           == if i < |m| then EncryptedBlock(keys, iv, m, i) else EncryptedBlock(keys, iv', n, i - |m|)
    {
      SplitBlock(keys, iv, m, n, i);
    }
  }

  lemma {:induction false} SplitBlock(keys: seq<Block>, iv: Block, m: seq<Block>, n: seq<Block>, i: nat)
    requires keys != [] && i < |m| + |n|
    ensures var iv' := NextIv(iv, CbcEncrypted(keys, iv, m));
            EncryptedBlock(keys, iv, m + n, i)
              == if i < |m| then EncryptedBlock(keys, iv, m, i) else EncryptedBlock(keys, iv', n, i - |m|)
  {
    hide AddBlocks, Cipher;
    if i > 0 {
      SplitBlock(keys, iv, m, n, i - 1);
    }
  }

  lemma DecryptionSplits(keys: seq<Block>, iv: Block, c: seq<Block>, d: seq<Block>)
    requires keys != []
    ensures CbcDecrypted(keys, iv, c + d) == CbcDecrypted(keys, iv, c) + CbcDecrypted(keys, NextIv(iv, c), d)
  {
    hide AddBlocks, EqInvCipher;
    var l, r := CbcDecrypted(keys, iv, c), CbcDecrypted(keys, NextIv(iv, c), d);
    forall i | 0 <= i < |c| + |d|
      ensures CbcDecrypted(keys, iv, c + d)[i] == (l + r)[i]
    {
      assert (c + d)[i] == if i < |c| then c[i] else d[i - |c|];
      assert i > 0 ==> (c + d)[i - 1] == if i <= |c| then c[i - 1] else d[i - 1 - |c|];
    }
  }

  /** Encrypting a message of whole blocks, converting the key schedule, and decrypting from the
      same vector gives the message back, byte for byte. */
  method RoundTrip(context: Context, msg: array<bv8>, length: nat) returns (text: array<bv8>)
    requires context.Valid() && length <= msg.Length && length % 16 == 0 && msg != context.iv
    modifies context.ks, context.iv
    ensures fresh(text) && text[..] == old(msg[..length])
  {
    hide Converted, ByteBlock, CbcEncrypted, CbcDecrypted, Keys;
    var iv := new bv8[16](i requires 0 <= i < 16 reads context, context.iv => context.iv[i]);
    ghost var keys, vector, n := context.RoundKeys(), context.iv[..], WholeBlocks(length);
    ghost var iv0, m := ByteBlock(vector, 0), Blocks(msg[..], n);
    assert iv[..] == vector;
    var cipher := new bv8[length];
    text := new bv8[length];
    context.CbcEncrypt(msg, cipher, length);
    ghost var c := cipher[..];
    context.ConvertKey();
    forall i | 0 <= i < 16 {
      context.iv[i] := iv[i];
    }
    assert context.iv[..] == vector && cipher[..] == c;
    context.CbcDecrypt(cipher, text, length);
    CbcRoundTrip(keys, iv0, m);
    BlocksAreBytes(text[..], old(msg[..]), n);
  }

  /** The blocks of a message determine its bytes. */
  lemma BlocksAreBytes(a: seq<bv8>, b: seq<bv8>, n: nat)
    requires 16 * n <= |a| && 16 * n <= |b| && Blocks(a, n) == Blocks(b, n)
    ensures a[..16 * n] == b[..16 * n]
  {
    forall j | 0 <= j < 16 * n
      ensures a[j] == b[j]
    {
      BlockBytes(a, j);
      BlockBytes(b, j);
      assert Blocks(a, n)[j / 16] == Blocks(b, n)[j / 16];
    }
  }

  function ByteOf(x: Block, k: nat): bv8
    requires k < 16
  {
    var c := if k < 4 then x.c0 else if k < 8 then x.c1 else if k < 12 then x.c2 else x.c3;
    var r := k % 4;
    if r == 0 then c.a0 else if r == 1 then c.a1 else if r == 2 then c.a2 else c.a3
  }

  lemma BlockBytes(a: seq<bv8>, j: nat)
    requires 16 * (j / 16) + 16 <= |a|
    ensures a[j] == ByteOf(ByteBlock(a, 16 * (j / 16)), j % 16)
  {
    var p, k := 16 * (j / 16), j % 16;
    assert j == p + k;
    assert k == 4 * (k / 4) + k % 4;
  }
}
