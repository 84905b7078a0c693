/** The immediates of a pc-relative address: how two instructions hold it, and that they add up
    to it. Encodings as in the RISC-V unprivileged specification, section 2.3; a field of bits is
    taken out by division and remainder. */
module PcrelWords {
  import opened MachineWords

  /** RISCV_CONST_HIGH_PART: rounded so that the low part is signed. */
  function HighPart(value: Word): Word {
    var rounded := Plus(value, 0x800);
    rounded - rounded % 0x1000
  }

  /** A twelve-bit number, signed. */
  function Signed12(low: nat): Word
    requires low < 0x1000
  {
    if low < 0x800 then low else low + WORD - 0x1000
  }

  /** The immediates that the instructions add. */
  function ImmediateU(insn: Word32): Word {
    var high := insn / 0x1000 * 0x1000;
    if high < 0x8000_0000 then high else high + WORD - 0x1_0000_0000
  }

  function ImmediateI(insn: Word32): Word {
    Signed12(insn / 0x10_0000)
  }

  function ImmediateS(insn: Word32): Word {
    Signed12(insn / 0x200_0000 * 0x20 + insn / 0x80 % 0x20)
  }

  /** Concretely: auipc x5, -1; lw x5, -4(x2); addi x1, x1, 2047; sw x5, -4(x2); sw x1, 44(x2). */
  lemma KnownImmediates()
    ensures ImmediateU(0xffff_f297) == WORD - 0x1000
    ensures ImmediateI(0xffc1_2283) == WORD - 4 && ImmediateI(0x7ff0_8093) == 2047
    ensures ImmediateS(0xfe51_2e23) == WORD - 4 && ImmediateS(0x0211_2623) == 44
  {
    hide Signed12;
    assert 0xfe51_2e23 / 0x200_0000 == 0x7f && 0xfe51_2e23 / 0x80 % 0x20 == 0x1c;
    assert 0x0211_2623 / 0x200_0000 == 1 && 0x0211_2623 / 0x80 % 0x20 == 12;
    KnownNumbers();
  }

  lemma KnownNumbers()
    ensures Signed12(0xffc) == WORD - 4 && Signed12(0x7ff) == 2047 && Signed12(44) == 44
  {
  }

  /** The bits of an instruction that its immediate does not use. */
  function OthersU(insn: Word32): nat {
    insn % 0x1000
  }

  function OthersI(insn: Word32): nat {
    insn % 0x10_0000
  }

  function OthersS(insn: Word32): (nat, nat) {
    (insn % 0x80, insn / 0x1000 % 0x2000)
  }

  /** The instruction with the immediate put in. */
  function PatchU(insn: Word32, value: Word): Word32 {
    value / 0x1000 % 0x10_0000 * 0x1000 + insn % 0x1000
  }

  function PatchI(insn: Word32, value: Word): Word32 {
    value % 0x1000 * 0x10_0000 + insn % 0x10_0000
  }

  function PatchS(insn: Word32, value: Word): Word32 {
    value / 0x20 % 0x80 * 0x200_0000 + insn / 0x1000 % 0x2000 * 0x1000 + value % 0x20 * 0x80 + insn % 0x80
  }

  /** VALID_UTYPE_IMM: encoding and reading back gives the value. */
  predicate ValidU(value: Word) {
    ImmediateU(PatchU(0, value)) == value
  }

  lemma PatchedU(insn: Word32, value: Word)
    ensures OthersU(PatchU(insn, value)) == OthersU(insn)
    ensures ImmediateU(PatchU(insn, value)) == value <==> ValidU(value)
  {
    assert PatchU(insn, value) / 0x1000 == value / 0x1000 % 0x10_0000;
    assert PatchU(0, value) / 0x1000 == value / 0x1000 % 0x10_0000;
  }

  lemma PatchedI(insn: Word32, value: Word)
    ensures OthersI(PatchI(insn, value)) == OthersI(insn)
    ensures ImmediateI(PatchI(insn, value)) == Signed12(value % 0x1000)
  {
  }

  lemma PatchedS(insn: Word32, value: Word)
    ensures OthersS(PatchS(insn, value)) == OthersS(insn)
    ensures ImmediateS(PatchS(insn, value)) == Signed12(value % 0x1000)
  {
    hide Signed12;
    FieldsS(value / 0x20 % 0x80, insn / 0x1000 % 0x2000, value % 0x20, insn % 0x80);
    LowTwelve(value);
  }

  lemma LowTwelve(value: nat)
    ensures value % 0x1000 == value / 0x20 % 0x80 * 0x20 + value % 0x20
  {
    assert value / 0x20 / 0x80 == value / 0x1000;
  }

  lemma FieldsS(a: nat, b: nat, c: nat, d: nat)
    requires a < 0x80 && b < 0x2000 && c < 0x20 && d < 0x80
    ensures var w := a * 0x200_0000 + b * 0x1000 + c * 0x80 + d;
            w / 0x200_0000 == a && w / 0x1000 % 0x2000 == b && w / 0x80 % 0x20 == c && w % 0x80 == d
  {
    var w := a * 0x200_0000 + b * 0x1000 + c * 0x80 + d;
    assert w / 0x1000 == a * 0x2000 + b;
    assert w / 0x80 == (a * 0x2000 + b) * 0x20 + c;
  }

  lemma Recombine(value: Word)
    ensures Plus(HighPart(value), Signed12(value % 0x1000)) == value
  {
  }

  /** The offsets that two instructions can reach: 2^31 - 2^11 up, 2^31 + 2^11 down. */
  lemma Reachable(value: Word)
    ensures ValidU(HighPart(value)) <==> value < 0x8000_0000 - 0x800 || value >= WORD - 0x8000_0000 - 0x800
  {
    hide ValidU;
    ValidIs(HighPart(value));
  }

  lemma ValidIs(high: Word)
    requires high % 0x1000 == 0
    ensures ValidU(high) <==> high < 0x8000_0000 || high >= WORD - 0x8000_0000
  {
    assert PatchU(0, high) / 0x1000 == high / 0x1000 % 0x10_0000;
  }

  /** auipc adds the high part to its address and the instruction after it the low part: that is the
      target, wherever the two are. */
  lemma Arrives(pc: Word, target: Word)
    ensures var value := Minus(target, pc);
            Plus(Plus(pc, HighPart(value)), Signed12(value % 0x1000)) == target
  {
    hide HighPart, Signed12;
    Recombine(Minus(target, pc));
  }
}
