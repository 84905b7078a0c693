/** Bytes and machine words as bounded integers. */
module MachineWords {
  type Byte = x: int | 0 <= x < 0x100

  type Word32 = x: int | 0 <= x < 0x1_0000_0000

  const WORD: nat := 0x1_0000_0000_0000_0000

  /** bfd_vma: 64 bits, unsigned, wrapping around. */
  type Word = x: int | 0 <= x < WORD

  function Plus(a: Word, b: Word): Word {
    if a + b < WORD then a + b else a + b - WORD
  }

  function Minus(a: Word, b: Word): Word {
    if a >= b then a - b else a - b + WORD
  }

  /** Four bytes, low byte first. */
  function Bytes4(w: Word32): (bytes: seq<Byte>)
    ensures |bytes| == 4
  {
    [w % 0x100, w / 0x100 % 0x100, w / 0x1_0000 % 0x100, w / 0x100_0000]
  }

  function Word4(bytes: seq<Byte>): Word32
    requires |bytes| == 4
  {
    var b0: int, b1: int, b2: int, b3: int := bytes[0], bytes[1], bytes[2], bytes[3];
    b0 + 0x100 * b1 + 0x1_0000 * b2 + 0x100_0000 * b3
  }

  lemma WordBack(w: Word32)
    ensures Word4(Bytes4(w)) == w
  {
    Digits(w);
    Digits(w / 0x100);
    Digits(w / 0x1_0000);
  }

  lemma Digits(n: nat)
    ensures n == n / 0x100 * 0x100 + n % 0x100
    ensures n / 0x100 / 0x100 == n / 0x1_0000 && n / 0x1_0000 / 0x100 == n / 0x100_0000
  {
  }

  lemma BytesBack(bytes: seq<Byte>)
    requires |bytes| == 4
    ensures Bytes4(Word4(bytes)) == bytes
  {
    var b0: int, b1: int, b2: int, b3: int := bytes[0], bytes[1], bytes[2], bytes[3];
    var w := Word4(bytes);
    assert w / 0x100 == b1 + 0x100 * b2 + 0x1_0000 * b3;
    assert w / 0x1_0000 == b2 + 0x100 * b3;
    assert w / 0x100_0000 == b3;
  }

  /** `part` written over `s` from `pos` on. */
  function Spliced<T>(s: seq<T>, pos: nat, part: seq<T>): (r: seq<T>)
    requires pos + |part| <= |s|
    ensures |r| == |s|
  {
    s[..pos] + part + s[pos + |part|..]
  }

  lemma SplicedTwice<T>(s: seq<T>, pos: nat, a: seq<T>, b: seq<T>)
    requires pos + |a| + |b| <= |s|
    ensures Spliced(Spliced(s, pos, a), pos + |a|, b) == Spliced(s, pos, a + b)
  {
  }

  lemma SplicedAt<T>(s: seq<T>, pos: nat, part: seq<T>, from: nat, to: nat)
    requires pos + |part| <= |s| && from <= to <= |s|
    ensures from == pos && to == pos + |part| ==> Spliced(s, pos, part)[from..to] == part
    ensures to <= pos || pos + |part| <= from ==> Spliced(s, pos, part)[from..to] == s[from..to]
  {
  }

  lemma SplicedNone<T>(s: seq<T>, pos: nat)
    requires pos <= |s|
    ensures Spliced(s, pos, []) == s
  {
  }

  lemma SplicedNext<T>(was: seq<T>, now: seq<T>, pos: nat, done: seq<T>, x: T)
    requires pos + |done| < |was| && now == Spliced(was, pos, done)
    ensures now[pos + |done| := x] == Spliced(was, pos, done + [x])
  {
  }

  method Store<T>(a: array<T>, pos: nat, part: seq<T>)
    requires pos + |part| <= a.Length
    modifies a
    ensures a[..] == Spliced(old(a[..]), pos, part)
  {
    hide Spliced;
    ghost var was := a[..];
    SplicedNone(was, pos);
    var i := 0;
    while i < |part|
      invariant 0 <= i <= |part|
      invariant a[..] == Spliced(was, pos, part[..i])
    {
      SplicedNext(was, a[..], pos, part[..i], part[i]);
      assert part[..i + 1] == part[..i] + [part[i]];
      a[pos + i] := part[i];
      i := i + 1;
    }
    assert part[..i] == part;
  }
}
