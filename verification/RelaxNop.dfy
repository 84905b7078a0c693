/** What the padding that alignment keeps does when it is executed. Encodings as in the RISC-V
    unprivileged specification: ADDI in section 2.4, C.ADDI in the chapter on compressed instructions;
    fields of bits are taken out by division and remainder. */
module RelaxNops {
  import opened MachineWords
  import opened PcrelWords
  import opened RelaxImages
  import opened RelaxAlignments
  import opened Wrappers

  /** An instruction of `length` bytes that adds an immediate to a register, or any other. */
  datatype Instruction = Addi(rd: nat, rs1: nat, immediate: Word, length: nat) | Other

  /** The first instruction of `code`. */
  function Decoded(code: seq<Byte>): (i: Instruction)
    ensures i.Addi? ==> i.rd < 32 && i.rs1 < 32 && 0 < i.length <= |code|
  {
    if |code| >= 4 && code[0] % 4 == 3 && code[0] / 4 % 8 != 7 then DecodedWord(Word4(code[..4]))
    else if |code| >= 2 && code[0] % 4 != 3 then
      var b0: int, b1: int := code[0], code[1];
      DecodedHalf(b0 + 0x100 * b1)
    else Other
  }

  /** imm[11:0] rs1 000 rd 0010011 is ADDI. */
  function DecodedWord(w: Word32): Instruction {
    if w % 0x80 == 0x13 && w / 0x1000 % 8 == 0 then Addi(w / 0x80 % 0x20, w / 0x8000 % 0x20, ImmediateI(w), 4)
    else Other
  }

  /** 000 imm[5] rd imm[4:0] 01 is C.ADDI, which adds to the register it reads. */
  function DecodedHalf(h: nat): Instruction {
    var low := h / 4 % 0x20;
    if h % 4 == 1 && h / 0x2000 == 0 then
      Addi(h / 0x80 % 0x20, h / 0x80 % 0x20, if h / 0x1000 % 2 == 0 then low else low + WORD - 0x20, 2)
    else Other
  }

  /** Concretely: nop, addi x1, x0, 0, which clears a register, and slli x0, x0, 0, which is not ADDI; c.nop,
      c.addi sp, -16 and c.li x8, 0. */
  lemma KnownInstructions()
    ensures DecodedWord(0x0000_0013) == Addi(0, 0, 0, 4) && DecodedWord(0x0000_0093) == Addi(1, 0, 0, 4)
    ensures DecodedWord(0x0000_1013) == Other && DecodedWord(0x0000_0033) == Other
    ensures DecodedHalf(0x0001) == Addi(0, 0, 0, 2) && DecodedHalf(0x1141) == Addi(2, 2, WORD - 16, 2)
    ensures DecodedHalf(0x4401) == Other
  {
  }

  /** A hardware thread: where it is, and its registers. */
  datatype Hart = Hart(pc: Word, registers: seq<Word>)

  /** Register 0 is always zero. */
  predicate IsHart(h: Hart) {
    |h.registers| == 32 && h.registers[0] == 0
  }

  /** Executes all of `code`. None if it holds something else than additions of immediates. */
  function Executed(code: seq<Byte>, h: Hart): Option<Hart>
    requires IsHart(h)
  {
    if code == [] then Some(h) else
      match Decoded(code)
      case Other => None
      case Addi(rd, rs1, immediate, length) =>
        var written := if rd == 0 then h.registers else h.registers[rd := Plus(h.registers[rs1], immediate)];
        Executed(code[length..], Hart(Plus(h.pc, length), written))
  }

  /** The instructions in an even gap leave all registers as they are, and lead to its end. */
  lemma {:induction false} NopsDoNothing(gap: Word, h: Hart)
    requires gap % 2 == 0 && IsHart(h)
    ensures Executed(Nops(gap), h) == Some(h.(pc := Plus(h.pc, gap)))
    decreases gap
  {
    hide Decoded;
    NopsDecoded();
    if gap == 0 {
    } else if gap < 4 {
      FirstDecoded(COMPRESSED_NOP, []);
      assert COMPRESSED_NOP + [] == COMPRESSED_NOP == Nops(gap) && COMPRESSED_NOP[2..] == [];
    } else {
      FirstDecoded(NOP, Nops(gap - 4));
      assert (NOP + Nops(gap - 4))[4..] == Nops(gap - 4);
      NopsDoNothing(gap - 4, h.(pc := Plus(h.pc, 4)));
    }
  }

  /** Whoever executes `code` at `start` is behind it then, with the registers unchanged. */
  ghost predicate Idle(code: seq<Byte>, start: Word) {
    |code| < WORD &&
    forall h :: IsHart(h) && h.pc == start ==> Executed(code, h) == Some(h.(pc := Plus(start, |code|)))
  }

  /** The padding that an alignment keeps, when it keeps some of it and deletes some. */
  lemma KeptIsIdle(image: Image, index: nat, gap: Word, start: Word)
    requires index < |image.relocs| && |image.bytes| < WORD
    requires image.relocs[index].offset + image.relocs[index].addend <= |image.bytes|
    requires gap <= image.relocs[index].addend
    ensures var r, after := image.relocs[index], AlignedImage(image, index, gap);
            && r.offset + gap <= |after.bytes| && after.bytes[..r.offset] == image.bytes[..r.offset]
            && (gap == r.addend ==> after.bytes == image.bytes)
            && (gap < r.addend && gap % 2 == 0 ==> Idle(after.bytes[r.offset..r.offset + gap], start))
  {
    hide AlignedImage, Executed, Nops;
    CodeFollowsGap(image, index, gap);
    if gap % 2 == 0 {
      NopsTile(gap);
      forall h | IsHart(h) && h.pc == start
        ensures Executed(Nops(gap), h) == Some(h.(pc := Plus(start, gap)))
      {
        NopsDoNothing(gap, h);
      }
    }
  }

  lemma NopsDecoded()
    ensures Decoded(NOP) == Addi(0, 0, 0, 4) && |NOP| == 4
    ensures Decoded(COMPRESSED_NOP) == Addi(0, 0, 0, 2) && |COMPRESSED_NOP| == 2
  {
    assert NOP[..4] == NOP && Word4(NOP) == 0x13;
  }

  /** What is behind an instruction does not matter to it. */
  lemma FirstDecoded(code: seq<Byte>, more: seq<Byte>)
    requires Decoded(code).Addi? && Decoded(code).length == |code|
    ensures Decoded(code + more) == Decoded(code)
  {
    if |code| >= 4 {
      assert (code + more)[..4] == code[..4];
    }
  }
}
