/** The code of the procedure linkage table: the words that the linker writes there, and what a
    call through them does. Encodings as in the RISC-V unprivileged specification, chapter 2; fields
    of bits are taken out by division and remainder. */
module PltCodes {
  import opened GotPlts
  import opened MachineWords
  import opened PcrelWords
  import opened Wrappers

  const T0: nat := 5
  const T1: nat := 6
  const T2: nat := 7
  const T3: nat := 28

  // ---------------------------------------------------------------------------------------
  // Encoding.

  const LW: nat := 0x2003
  const ADDI: nat := 0x13
  const SRLI: nat := 0x5013
  const AUIPC: nat := 0x17
  const JALR: nat := 0x67
  const SUB: nat := 0x4000_0033

  /** The load of a word, as wide as the registers. */
  function LoadOpcode(word: WordSize): nat {
    if word == 4 then LW else 0x3003
  }

  function UType(opcode: nat, rd: nat, value: Word): Word32
    requires opcode < 0x80 && rd < 0x20
  {
    opcode + rd * 0x80 + value / 0x1000 % 0x10_0000 * 0x1000
  }

  function IType(opcode: nat, rd: nat, rs1: nat, value: int): Word32
    requires opcode % 0x1000 < 0x80 && opcode < 0x8000 && rd < 0x20 && rs1 < 0x20
  {
    opcode + rd * 0x80 + rs1 * 0x8000 + value % 0x1000 * 0x10_0000
  }

  function RType(opcode: nat, rd: nat, rs1: nat, rs2: nat): Word32
    requires opcode == SUB && rd < 0x20 && rs1 < 0x20 && rs2 < 0x20
  {
    opcode + rd * 0x80 + rs1 * 0x8000 + rs2 * 0x10_0000
  }

  /** riscv_make_plt_header. */
  function Header(word: WordSize, gotPlt: Word, addr: Word): (entry: seq<Word32>)
    ensures |entry| == 8
  {
    var offset := Minus(gotPlt, addr);
    [ UType(AUIPC, T2, HighPart(offset)),
      RType(SUB, T1, T1, T3),
      IType(LoadOpcode(word), T3, T2, offset),
      IType(ADDI, T1, T1, -(PLT_HEADER_SIZE + 12)),
      IType(ADDI, T0, T2, offset),
      IType(SRLI, T1, T1, if word == 4 then 2 else 1),
      IType(LoadOpcode(word), T0, T0, word),
      IType(JALR, 0, T3, 0) ]
  }

  /** riscv_make_plt_entry. */
  function Entry(word: WordSize, got: Word, addr: Word): (entry: seq<Word32>)
    ensures |entry| == 4
  {
    var offset := Minus(got, addr);
    [ UType(AUIPC, T3, HighPart(offset)),
      IType(LoadOpcode(word), T3, T3, offset),
      IType(JALR, T1, T3, 0),
      IType(ADDI, 0, 0, 0) ]
  }

  /** Concretely, on a 64-bit target, with .plt at 0x1000 and .got.plt at 0x3000: the header, and the
      first entry. */
  lemma KnownCode()
    ensures Header(8, 0x3000, 0x1000) == [0x0000_2397, 0x41c3_0333, 0x0003_be03, 0xfd43_0313,
                                          0x0003_8293, 0x0013_5313, 0x0082_b283, 0x000e_0067]
    ensures Entry(8, 0x3010, 0x1020) == [0x0000_2e17, 0xff0e_3e03, 0x000e_0367, 0x0000_0013]
  {
    KnownEntry();
    hide Entry;
  }

  lemma KnownEntry()
    ensures Entry(8, 0x3010, 0x1020) == [0x0000_2e17, 0xff0e_3e03, 0x000e_0367, 0x0000_0013]
  {
  }

  // ---------------------------------------------------------------------------------------
  // Decoding.

  type Register = r: nat | r < 32

  datatype Instruction =
    | Auipc(rd: Register, high: int)
    | Load(rd: Register, rs1: Register, low: int, size: WordSize)
    | AddImmediate(rd: Register, rs1: Register, low: int)
    | ShiftRight(rd: Register, rs1: Register, shift: nat)
    | Subtract(rd: Register, rs1: Register, rs2: Register)
    | JumpAndLink(rd: Register, rs1: Register, low: int)
    | Other

  /** Bits 31 to 12 over twelve zeros, signed. */
  function Upper(w: Word32): int {
    var high := w / 0x1000 * 0x1000;
    if high < 0x8000_0000 then high else high - 0x1_0000_0000
  }

  /** A signed number of twelve bits. */
  function Signed(low: nat): int
    requires low < 0x1000
  {
    if low < 0x800 then low else low - 0x1000
  }

  function Decoded(w: Word32): Instruction {
    var opcode, rd, funct3, rs1, top := w % 0x80, w / 0x80 % 0x20, w / 0x1000 % 8, w / 0x8000 % 0x20, w / 0x10_0000;
    if opcode == 0x17 then Auipc(rd, Upper(w))
    else if opcode == 0x03 && funct3 == 2 then Load(rd, rs1, Signed(top), 4)
    else if opcode == 0x03 && funct3 == 3 then Load(rd, rs1, Signed(top), 8)
    else if opcode == 0x13 && funct3 == 0 then AddImmediate(rd, rs1, Signed(top))
    else if opcode == 0x13 && funct3 == 5 && top < 0x20 then ShiftRight(rd, rs1, top)
    else if opcode == 0x33 && funct3 == 0 && top / 0x20 == 0x20 then Subtract(rd, rs1, top % 0x20)
    else if opcode == 0x67 && funct3 == 0 then JumpAndLink(rd, rs1, Signed(top))
    else Other
  }

  /** The five fields of a word. */
  ghost predicate Fields(w: Word32, opcode: nat, rd: nat, funct3: nat, rs1: nat, top: nat) {
    && w % 0x80 == opcode && w / 0x80 % 0x20 == rd && w / 0x1000 % 8 == funct3
    && w / 0x8000 % 0x20 == rs1 && w / 0x10_0000 == top
  }

  lemma FieldsAre(w: Word32, opcode: nat, rd: nat, funct3: nat, rs1: nat, top: nat)
    requires w == opcode + rd * 0x80 + funct3 * 0x1000 + rs1 * 0x8000 + top * 0x10_0000
    requires opcode < 0x80 && rd < 0x20 && funct3 < 8 && rs1 < 0x20
    ensures Fields(w, opcode, rd, funct3, rs1, top)
  {
    Digit(opcode, rd + funct3 * 0x20 + rs1 * 0x100 + top * 0x2000, 0x80);
    Digit(rd, funct3 + rs1 * 8 + top * 0x100, 0x20);
    Digit(opcode + rd * 0x80, funct3 + rs1 * 8 + top * 0x100, 0x1000);
    Digit(funct3, rs1 + top * 0x20, 8);
    Digit(opcode + rd * 0x80 + funct3 * 0x1000, rs1 + top * 0x20, 0x8000);
    Digit(rs1, top, 0x20);
    Digit(opcode + rd * 0x80 + funct3 * 0x1000 + rs1 * 0x8000, top, 0x10_0000);
  }

  lemma Digit(low: nat, high: nat, unit: nat)
    requires low < unit
    ensures (low + high * unit) / unit == high && (low + high * unit) % unit == low
  {
    var n := low + high * unit;
    assert n == n / unit * unit + n % unit;
    Unique(high - n / unit, n % unit - low, unit);
  }

  lemma Unique(d: int, r: int, unit: int)
    requires -unit < r < unit && d * unit == r
    ensures d == 0 && r == 0
  {
    Multiples(d, unit);
  }

  lemma Multiples(d: int, unit: int)
    requires unit >= 0
    ensures d >= 1 ==> d * unit >= unit
    ensures d <= -1 ==> d * unit <= -unit
  {
  }

  lemma IFields(opcode: nat, rd: nat, rs1: nat, value: int)
    requires opcode % 0x1000 < 0x80 && opcode < 0x8000 && rd < 0x20 && rs1 < 0x20
    ensures Fields(IType(opcode, rd, rs1, value), opcode % 0x1000, rd, opcode / 0x1000, rs1, value % 0x1000)
  {
    hide Fields;
    FieldsAre(IType(opcode, rd, rs1, value), opcode % 0x1000, rd, opcode / 0x1000, rs1, value % 0x1000);
  }

  /** The signed number whose bits 31 to 12 are those of `value`, and the others zero. */
  function High(value: Word): int {
    var high := value / 0x1000 % 0x10_0000 * 0x1000;
    if high < 0x8000_0000 then high else high - 0x1_0000_0000
  }

  lemma DecodedAuipc(rd: Register, value: Word)
    ensures Decoded(UType(AUIPC, rd, value)) == Auipc(rd, High(value))
  {
    var w := UType(AUIPC, rd, value);
    assert w / 0x80 == rd + value / 0x1000 % 0x10_0000 * 0x20;
    assert w / 0x1000 == value / 0x1000 % 0x10_0000;
  }

  lemma DecodedLoad(word: WordSize, rd: Register, rs1: Register, value: int)
    ensures Decoded(IType(LoadOpcode(word), rd, rs1, value)) == Load(rd, rs1, Signed(value % 0x1000), word)
  {
    hide IType;
    IFields(LoadOpcode(word), rd, rs1, value);
  }

  lemma DecodedAdd(rd: Register, rs1: Register, value: int)
    ensures Decoded(IType(ADDI, rd, rs1, value)) == AddImmediate(rd, rs1, Signed(value % 0x1000))
  {
    hide IType;
    IFields(ADDI, rd, rs1, value);
  }

  lemma DecodedShift(rd: Register, rs1: Register, shift: nat)
    requires shift < 0x20
    ensures Decoded(IType(SRLI, rd, rs1, shift)) == ShiftRight(rd, rs1, shift)
  {
    hide IType;
    IFields(SRLI, rd, rs1, shift);
    assert shift % 0x1000 == shift;
  }

  lemma DecodedJump(rd: Register, rs1: Register)
    ensures Decoded(IType(JALR, rd, rs1, 0)) == JumpAndLink(rd, rs1, 0)
  {
    hide IType;
    IFields(JALR, rd, rs1, 0);
  }

  lemma DecodedSubtract()
    ensures Decoded(RType(SUB, T1, T1, T3)) == Subtract(T1, T1, T3)
  {
    FieldsAre(RType(SUB, T1, T1, T3), 0x33, T1, 0, T1, 0x400 + T3);
  }

  // ---------------------------------------------------------------------------------------
  // Executing.

  type Registers = s: seq<nat> | |s| == 32 witness seq(32, i => 0)

  /** Where a hardware thread is, and its registers. */
  datatype Machine = Machine(pc: nat, registers: Registers)

  /** Registers and addresses have as many bits as a word. */
  function Modulus(word: WordSize): nat {
    if word == 4 then 0x1_0000_0000 else WORD
  }

  function Wrapped(word: WordSize, n: int): (r: nat)
    ensures r < Modulus(word)
  {
    n % Modulus(word)
  }

  function Written(registers: Registers, rd: Register, value: nat): Registers {
    if rd == 0 then registers else registers[rd := value]
  }

  function ShiftedRight(n: nat, shift: nat): nat {
    if shift == 0 then n else ShiftedRight(n / 2, shift - 1)
  }

  function Difference(a: int, b: int): int {
    a - b
  }

  /** What an instruction puts into its register; None if it is not one of those above. */
  function Result(word: WordSize, memory: nat -> nat, i: Instruction, m: Machine): Option<nat> {
    match i
    case Auipc(rd, high) => Some(Wrapped(word, m.pc + high))
    case Load(rd, rs1, low, size) =>
      if size == word then Some(Wrapped(word, memory(Wrapped(word, m.registers[rs1] + low)))) else None
    case AddImmediate(rd, rs1, low) => Some(Wrapped(word, m.registers[rs1] + low))
    case ShiftRight(rd, rs1, shift) => Some(ShiftedRight(m.registers[rs1], shift))
    case Subtract(rd, rs1, rs2) => Some(Wrapped(word, Difference(m.registers[rs1], m.registers[rs2])))
    case JumpAndLink(rd, rs1, low) => Some(Wrapped(word, m.pc + 4))
    case Other => None
  }

  /** Where it goes on. */
  function Next(word: WordSize, i: Instruction, m: Machine): nat {
    if i.JumpAndLink? then Wrapped(word, m.registers[i.rs1] + i.low) / 2 * 2 else Wrapped(word, m.pc + 4)
  }

  function Step(word: WordSize, memory: nat -> nat, i: Instruction, m: Machine): Option<Machine> {
    match Result(word, memory, i, m)
    case None => None
    case Some(value) =>
      if i.Other? then None else Some(Machine(Next(word, i, m), Written(m.registers, i.rd, value)))
  }

  /** Code at `base`, and the words in memory that it may load. */
  datatype Program = Program(word: WordSize, memory: nat -> nat, code: seq<Byte>, base: nat)

  /** Executes `n` instructions. None if that leads out of the code. */
  function Executed(p: Program, m: Machine, n: nat): Option<Machine>
    decreases n
  {
    if n == 0 then Some(m)
    else if p.base <= m.pc && m.pc - p.base + 4 <= |p.code| then
      var at := m.pc - p.base;
      match Step(p.word, p.memory, Decoded(Word4(p.code[at..at + 4])), m)
      case None => None
      case Some(after) => Executed(p, after, n - 1)
    else None
  }

  /** `words` are in the code from `at` on. */
  ghost predicate HasWords(code: seq<Byte>, at: nat, words: seq<Word32>) {
    && at + 4 * |words| <= |code|
    && forall i :: 0 <= i < |words| ==> Word4(code[at + 4 * i..at + 4 * i + 4]) == words[i]
  }

  // ---------------------------------------------------------------------------------------
  // Addresses.

  /** Two instructions reach all addresses of 32 bits, and of 64 bits those that are not farther
      than 2^31 - 2^11 up or 2^31 + 2^11 down. */
  predicate Reaches(word: WordSize, target: Word, pc: Word) {
    var offset := Minus(target, pc);
    word == 4 || offset < 0x8000_0000 - 0x800 || offset >= WORD - 0x8000_0000 - 0x800
  }

  /** The number with the low 32 bits of `value` that two instructions can add. */
  function Near(value: Word): int {
    var low := value % 0x1_0000_0000;
    if low < 0x8000_0000 - 0x800 then low else low - 0x1_0000_0000
  }

  lemma PartsAre(value: Word)
    ensures High(HighPart(value)) + Signed(value % 0x1000) == Near(value)
  {
    HighIs(value);
    Paged(value);
    hide HighPart;
    Pages(value / 0x1000 % 0x10_0000, value % 0x1000);
  }

  lemma Paged(value: Word)
    ensures value % 0x1_0000_0000 == value / 0x1000 % 0x10_0000 * 0x1000 + value % 0x1000
  {
  }

  lemma Pages(page: nat, low: nat)
    requires page < 0x10_0000 && low < 0x1000
    ensures var next := (page + if low < 0x800 then 0 else 1) % 0x10_0000 * 0x1000;
            (if next < 0x8000_0000 then next else next - 0x1_0000_0000) + Signed(low)
            == var all := page * 0x1000 + low;
               if all < 0x8000_0000 - 0x800 then all else all - 0x1_0000_0000
  {
  }

  lemma HighIs(value: Word)
    ensures HighPart(value) / 0x1000 % 0x10_0000
            == (value / 0x1000 % 0x10_0000 + if value % 0x1000 < 0x800 then 0 else 1) % 0x10_0000
  {
    var rounded := Plus(value, 0x800);
    assert HighPart(value) / 0x1000 == rounded / 0x1000;
    Carried(value);
  }

  lemma Carried(value: Word)
    ensures Plus(value, 0x800) / 0x1000
            == (value / 0x1000 + if value % 0x1000 < 0x800 then 0 else 1) % 0x10_0000_0000_0000
  {
  }

  lemma WrapsOnce(word: WordSize, a: int, b: int)
    ensures Wrapped(word, Wrapped(word, a) + b) == Wrapped(word, a + b)
  {
  }

  /** Where auipc at `pc` and the instruction after it look for `target`. */
  function Found(word: WordSize, target: Word, pc: Word): nat {
    var offset := Minus(target, pc);
    Wrapped(word, Wrapped(word, pc + High(HighPart(offset))) + Signed(offset % 0x1000))
  }

  /** auipc and the instruction after it find their target exactly when they can reach it; the
      linker does not look. */
  lemma AddressFound(word: WordSize, target: Word, pc: Word)
    requires target < Modulus(word) && pc < Modulus(word)
    ensures Found(word, target, pc) == target <==> Reaches(word, target, pc)
  {
    hide High, HighPart, Signed;
    var offset := Minus(target, pc);
    PartsAre(offset);
    WrapsOnce(word, pc + High(HighPart(offset)), Signed(offset % 0x1000));
    NearFound(word, target, pc);
  }

  lemma NearFound(word: WordSize, target: Word, pc: Word)
    requires target < Modulus(word) && pc < Modulus(word)
    ensures Wrapped(word, pc + Near(Minus(target, pc))) == target <==> Reaches(word, target, pc)
  {
    if word == 4 {
      NearFound4(target, pc);
    } else {
      NearFound8(target, pc);
    }
  }

  lemma NearFound4(target: nat, pc: nat)
    requires target < 0x1_0000_0000 && pc < 0x1_0000_0000
    ensures (pc + Near(Minus(target, pc))) % 0x1_0000_0000 == target
  {
    var offset := Minus(target, pc);
    assert offset % 0x1_0000_0000 == if target >= pc then target - pc else target - pc + 0x1_0000_0000;
  }

  lemma NearFound8(target: Word, pc: Word)
    ensures (pc + Near(Minus(target, pc))) % WORD == target <==> Reaches(8, target, pc)
  {
    var offset := Minus(target, pc);
    NearIs(offset);
    hide Near;
    var near := Near(offset);
    assert pc + near >= WORD ==> (pc + near) % WORD == pc + near - WORD;
    assert pc + near < 0 ==> (pc + near) % WORD == pc + near + WORD;
  }

  /** As a number of 64 bits, it is the value itself exactly when that is near. */
  lemma NearIs(offset: Word)
    ensures -0x1_0000_0000 <= Near(offset) < 0x1_0000_0000
    ensures Near(offset) == offset || Near(offset) == offset - WORD <==>
            offset < 0x8000_0000 - 0x800 || offset >= WORD - 0x8000_0000 - 0x800
  {
  }

  // ---------------------------------------------------------------------------------------
  // Calls.

  lemma Small(word: WordSize, n: nat)
    ensures n < Modulus(word) ==> Wrapped(word, n) == n
  {
  }

  /** The instruction at `m` leads to `after`. */
  ghost predicate Leads(p: Program, i: Instruction, m: Machine, after: Machine) {
    Step(p.word, p.memory, i, m) == Some(after)
  }

  lemma ExecutedOne(p: Program, at: nat, words: seq<Word32>, i: nat, m: Machine, after: Machine, n: nat)
    requires HasWords(p.code, at, words) && i < |words| && m.pc == p.base + at + 4 * i
    requires n > 0 && Leads(p, Decoded(words[i]), m, after)
    ensures Executed(p, m, n) == Executed(p, after, n - 1)
  {
    hide Step, Decoded, Word4;
    assert m.pc - p.base == at + 4 * i;
  }

  lemma AuipcLeads(p: Program, m: Machine, rd: Register, high: int)
    requires rd != 0 && m.pc + 4 < Modulus(p.word)
    ensures Leads(p, Auipc(rd, high), m, Machine(m.pc + 4, m.registers[rd := Wrapped(p.word, m.pc + high)]))
  {
    hide Wrapped;
    Small(p.word, m.pc + 4);
  }

  lemma LoadLeads(p: Program, m: Machine, rd: Register, rs1: Register, low: int, address: nat)
    requires rd != 0 && m.pc + 4 < Modulus(p.word)
    requires Wrapped(p.word, m.registers[rs1] + low) == address && p.memory(address) < Modulus(p.word)
    ensures Leads(p, Load(rd, rs1, low, p.word), m, Machine(m.pc + 4, m.registers[rd := p.memory(address)]))
  {
    hide Wrapped;
    Small(p.word, m.pc + 4);
    Small(p.word, p.memory(address));
  }

  lemma AddLeads(p: Program, m: Machine, rd: Register, rs1: Register, low: int)
    requires rd != 0 && m.pc + 4 < Modulus(p.word)
    ensures Leads(p, AddImmediate(rd, rs1, low), m,
                  Machine(m.pc + 4, m.registers[rd := Wrapped(p.word, m.registers[rs1] + low)]))
  {
    hide Wrapped;
    Small(p.word, m.pc + 4);
  }

  lemma SubtractLeads(p: Program, m: Machine, rd: Register, rs1: Register, rs2: Register)
    requires rd != 0 && m.pc + 4 < Modulus(p.word)
    ensures Leads(p, Subtract(rd, rs1, rs2), m,
                  Machine(m.pc + 4, m.registers[rd := Wrapped(p.word, Difference(m.registers[rs1], m.registers[rs2]))]))
  {
    hide Wrapped, Difference;
    Small(p.word, m.pc + 4);
  }

  lemma ShiftLeads(p: Program, m: Machine, rd: Register, rs1: Register, shift: nat)
    requires rd != 0 && m.pc + 4 < Modulus(p.word)
    ensures Leads(p, ShiftRight(rd, rs1, shift), m,
                  Machine(m.pc + 4, m.registers[rd := ShiftedRight(m.registers[rs1], shift)]))
  {
    hide Wrapped, ShiftedRight;
    Small(p.word, m.pc + 4);
  }

  lemma JumpLeads(p: Program, m: Machine, rd: Register, rs1: Register)
    requires m.pc + 4 < Modulus(p.word) && m.registers[rs1] < Modulus(p.word)
    ensures Leads(p, JumpAndLink(rd, rs1, 0), m,
                  Machine(m.registers[rs1] / 2 * 2, Written(m.registers, rd, m.pc + 4)))
  {
    hide Wrapped;
    Small(p.word, m.pc + 4);
    Small(p.word, m.registers[rs1]);
  }

  /** A call through an entry: three instructions lead to what the word found holds. */
  lemma EntryRuns(p: Program, at: nat, got: Word, m: Machine, target: nat)
    requires p.base + at + 16 <= Modulus(p.word)
    requires HasWords(p.code, at, Entry(p.word, got, p.base + at))
    requires m.pc == p.base + at
    requires target == p.memory(Found(p.word, got, m.pc)) < Modulus(p.word)
    ensures Executed(p, m, 3) == Some(Machine(target / 2 * 2, m.registers[T3 := target][T1 := m.pc + 12]))
  {
    hide Executed, HasWords, Entry, Decoded, Leads, Wrapped, High, HighPart, Minus, Signed;
    var words, offset := Entry(p.word, got, m.pc), Minus(got, m.pc);
    EntryIs(p.word, got, m.pc);
    var m1 := Machine(m.pc + 4, m.registers[T3 := Wrapped(p.word, m.pc + High(HighPart(offset)))]);
    var m2 := Machine(m.pc + 8, m.registers[T3 := target]);
    var m3 := Machine(target / 2 * 2, m.registers[T3 := target][T1 := m.pc + 12]);
    AuipcLeads(p, m, T3, High(HighPart(offset)));
    LoadLeads(p, m1, T3, T3, Signed(offset % 0x1000), Found(p.word, got, m.pc));
    assert m1.registers[T3 := target] == m2.registers;
    JumpLeads(p, m2, T1, T3);
    ExecutedOne(p, at, words, 0, m, m1, 3);
    ExecutedOne(p, at, words, 1, m1, m2, 2);
    ExecutedOne(p, at, words, 2, m2, m3, 1);
    ExecutedNone(p, m3);
  }

  lemma ExecutedNone(p: Program, m: Machine)
    ensures Executed(p, m, 0) == Some(m)
  {
  }

  lemma EntryIs(word: WordSize, got: Word, addr: Word)
    ensures var words, offset := Entry(word, got, addr), Minus(got, addr);
            && Decoded(words[0]) == Auipc(T3, High(HighPart(offset)))
            && Decoded(words[1]) == Load(T3, T3, Signed(offset % 0x1000), word)
            && Decoded(words[2]) == JumpAndLink(T1, T3, 0)
            && Decoded(words[3]) == AddImmediate(0, 0, 0)
  {
    hide Decoded, IType, UType, Signed, High, HighPart, Minus;
    var offset := Minus(got, addr);
    DecodedAuipc(T3, HighPart(offset));
    DecodedLoad(word, T3, T3, offset);
    DecodedJump(T1, T3);
    DecodedAdd(0, 0, 0);
    SignedIs();
  }

  lemma SignedIs()
    ensures Signed(0) == 0
    ensures Signed(4 % 0x1000) == 4 && Signed(8 % 0x1000) == 8 && Signed(-44 % 0x1000) == -44
  {
  }

  lemma HeaderIs(word: WordSize, gotPlt: Word, addr: Word)
    ensures var words, offset := Header(word, gotPlt, addr), Minus(gotPlt, addr);
            && Decoded(words[0]) == Auipc(T2, High(HighPart(offset)))
            && Decoded(words[1]) == Subtract(T1, T1, T3)
            && Decoded(words[2]) == Load(T3, T2, Signed(offset % 0x1000), word)
            && Decoded(words[3]) == AddImmediate(T1, T1, -44)
            && Decoded(words[4]) == AddImmediate(T0, T2, Signed(offset % 0x1000))
            && Decoded(words[5]) == ShiftRight(T1, T1, if word == 4 then 2 else 1)
            && Decoded(words[6]) == Load(T0, T0, word, word)
            && Decoded(words[7]) == JumpAndLink(0, T3, 0)
  {
    hide Decoded, IType, UType, RType, Signed, High, HighPart, Minus;
    var offset := Minus(gotPlt, addr);
    DecodedAuipc(T2, HighPart(offset));
    DecodedSubtract();
    DecodedLoad(word, T3, T2, offset);
    DecodedAdd(T1, T1, -44);
    DecodedAdd(T0, T2, offset);
    DecodedShift(T1, T1, if word == 4 then 2 else 1);
    DecodedLoad(word, T0, T0, word);
    DecodedJump(0, T3);
    SignedIs();
  }

  /** All registers but the four temporaries that the code uses. */
  ghost predicate OthersSame(before: Registers, after: Registers) {
    forall r :: 0 <= r < 32 && r != T0 && r != T1 && r != T2 && r != T3 ==> after[r] == before[r]
  }

  lemma IndexShifts(word: WordSize, k: nat)
    ensures ShiftedRight(PLT_ENTRY_SIZE * k, if word == 4 then 2 else 1) == word * k
  {
    if word == 4 {
      assert ShiftedRight(16 * k, 2) == ShiftedRight(8 * k, 1) == ShiftedRight(4 * k, 0);
    } else {
      assert ShiftedRight(16 * k, 1) == ShiftedRight(8 * k, 0);
    }
  }

  /** What auipc leaves, and the instruction after it adds to. */
  function Page(word: WordSize, target: Word, pc: Word): nat {
    Wrapped(word, pc + High(HighPart(Minus(target, pc))))
  }

  lemma PageFinds(word: WordSize, target: Word, pc: Word)
    requires target < Modulus(word) && pc < Modulus(word) && Reaches(word, target, pc)
    ensures Wrapped(word, Page(word, target, pc) + Signed(Minus(target, pc) % 0x1000)) == target
  {
    hide Reaches, Wrapped, High, HighPart, Signed, Minus;
    AddressFound(word, target, pc);
  }

  /** The first half of the header: t1 has the distance of the entry from the first one. */
  lemma HeaderStarts(p: Program, gotPlt: Word, k: nat, m: Machine, half: Machine)
    requires p.base + PltOffset(k) + 16 <= Modulus(p.word) && gotPlt + 2 * p.word <= Modulus(p.word)
    requires HasWords(p.code, 0, Header(p.word, gotPlt, p.base)) && Reaches(p.word, gotPlt, p.base)
    requires m.pc == p.base == m.registers[T3] && m.registers[T1] == p.base + PltOffset(k) + 12
    requires p.memory(gotPlt) < Modulus(p.word)
    requires half == Machine(p.base + 16, m.registers[T2 := Page(p.word, gotPlt, p.base)]
                                          [T1 := 44 + PLT_ENTRY_SIZE * k][T3 := p.memory(gotPlt)]
                                          [T1 := PLT_ENTRY_SIZE * k])
    ensures Executed(p, m, 8) == Executed(p, half, 4)
  {
    hide Executed, HasWords, Header, Reaches, Decoded, Leads, Wrapped, Page, High, HighPart, Minus, Signed;
    var words, offset := Header(p.word, gotPlt, m.pc), Minus(gotPlt, m.pc);
    HeaderIs(p.word, gotPlt, m.pc);
    PageFinds(p.word, gotPlt, m.pc);
    var m1 := Machine(m.pc + 4, m.registers[T2 := Page(p.word, gotPlt, m.pc)]);
    var m2 := Machine(m.pc + 8, m1.registers[T1 := 44 + PLT_ENTRY_SIZE * k]);
    var m3 := Machine(m.pc + 12, m2.registers[T3 := p.memory(gotPlt)]);
    PageLeads(p, m, T2, gotPlt);
    SubtractLeads(p, m1, T1, T1, T3);
    Small(p.word, 44 + PLT_ENTRY_SIZE * k);
    LoadLeads(p, m2, T3, T2, Signed(offset % 0x1000), gotPlt);
    AddLeads(p, m3, T1, T1, -44);
    Small(p.word, PLT_ENTRY_SIZE * k);
    ExecutedOne(p, 0, words, 0, m, m1, 8);
    ExecutedOne(p, 0, words, 1, m1, m2, 7);
    ExecutedOne(p, 0, words, 2, m2, m3, 6);
    ExecutedOne(p, 0, words, 3, m3, half, 5);
  }

  lemma PageLeads(p: Program, m: Machine, rd: Register, target: Word)
    requires rd != 0 && m.pc + 4 < Modulus(p.word)
    ensures Leads(p, Auipc(rd, High(HighPart(Minus(target, m.pc)))), m,
                  Machine(m.pc + 4, m.registers[rd := Page(p.word, target, m.pc)]))
  {
    hide Leads, High, HighPart, Minus, Wrapped;
    AuipcLeads(p, m, rd, High(HighPart(Minus(target, m.pc))));
  }

  /** The second half: t1 has that in words of .got.plt. */
  lemma HeaderEnds(p: Program, gotPlt: Word, k: nat, m: Machine)
    requires p.base + 32 < Modulus(p.word) && gotPlt + 2 * p.word <= Modulus(p.word)
    requires HasWords(p.code, 0, Header(p.word, gotPlt, p.base)) && Reaches(p.word, gotPlt, p.base)
    requires m.pc == p.base + 16 && m.registers[T1] == PLT_ENTRY_SIZE * k
    requires m.registers[T2] == Page(p.word, gotPlt, p.base)
    requires m.registers[T3] < Modulus(p.word) && p.memory(gotPlt + p.word) < Modulus(p.word)
    ensures Executed(p, m, 4)
            == Some(Machine(m.registers[T3] / 2 * 2,
                            m.registers[T0 := gotPlt][T1 := p.word * k][T0 := p.memory(gotPlt + p.word)]))
  {
    hide Executed, HasWords, Header, Reaches, Decoded, Leads, Wrapped, Page, Minus, Signed, ShiftedRight;
    var words, offset := Header(p.word, gotPlt, p.base), Minus(gotPlt, p.base);
    HeaderIs(p.word, gotPlt, p.base);
    PageFinds(p.word, gotPlt, p.base);
    var m5 := Machine(p.base + 20, m.registers[T0 := gotPlt]);
    var m6 := Machine(p.base + 24, m5.registers[T1 := p.word * k]);
    AddLeads(p, m, T0, T2, Signed(offset % 0x1000));
    ShiftLeads(p, m5, T1, T1, if p.word == 4 then 2 else 1);
    IndexShifts(p.word, k);
    ExecutedOne(p, 0, words, 4, m, m5, 4);
    ExecutedOne(p, 0, words, 5, m5, m6, 3);
    HeaderJumps(p, gotPlt, m6);
  }

  lemma HeaderJumps(p: Program, gotPlt: Word, m: Machine)
    requires p.base + 32 < Modulus(p.word) && gotPlt + 2 * p.word <= Modulus(p.word)
    requires HasWords(p.code, 0, Header(p.word, gotPlt, p.base))
    requires m.pc == p.base + 24 && m.registers[T0] == gotPlt
    requires m.registers[T3] < Modulus(p.word) && p.memory(gotPlt + p.word) < Modulus(p.word)
    ensures Executed(p, m, 2)
            == Some(Machine(m.registers[T3] / 2 * 2, m.registers[T0 := p.memory(gotPlt + p.word)]))
  {
    hide Executed, HasWords, Header, Decoded, Leads, Wrapped;
    var words := Header(p.word, gotPlt, p.base);
    HeaderIs(p.word, gotPlt, p.base);
    var m7 := Machine(p.base + 28, m.registers[T0 := p.memory(gotPlt + p.word)]);
    var m8 := Machine(m.registers[T3] / 2 * 2, m7.registers);
    Small(p.word, gotPlt + p.word);
    LoadLeads(p, m, T0, T0, p.word, gotPlt + p.word);
    JumpLeads(p, m7, 0, T3);
    ExecutedOne(p, 0, words, 6, m, m7, 2);
    ExecutedOne(p, 0, words, 7, m7, m8, 1);
    ExecutedNone(p, m8);
  }

  /** The header: eight instructions lead to what the first word of .got.plt holds, with the
      second in t0, and in t1 the offset of the word of the entry that was called, counted from
      the first such word. */
  lemma HeaderRuns(p: Program, gotPlt: Word, k: nat, m: Machine)
    requires p.base + PltOffset(k) + 16 <= Modulus(p.word) && gotPlt + 2 * p.word <= Modulus(p.word)
    requires HasWords(p.code, 0, Header(p.word, gotPlt, p.base)) && Reaches(p.word, gotPlt, p.base)
    requires m.pc == p.base == m.registers[T3] && m.registers[T1] == p.base + PltOffset(k) + 12
    requires p.memory(gotPlt) < Modulus(p.word) && p.memory(gotPlt + p.word) < Modulus(p.word)
    ensures Resolves(p, gotPlt, k, m, Executed(p, m, 8))
  {
    hide Executed, HasWords, Header, Reaches, Page;
    var half := Machine(p.base + 16, m.registers[T2 := Page(p.word, gotPlt, p.base)]
                                     [T1 := 44 + PLT_ENTRY_SIZE * k][T3 := p.memory(gotPlt)]
                                     [T1 := PLT_ENTRY_SIZE * k]);
    HeaderStarts(p, gotPlt, k, m, half);
    HeaderEnds(p, gotPlt, k, half);
  }

  /** At what the first word of .got.plt holds, with the second in t0 and the offset of word `k` in
      t1, and no register changed but the temporaries. */
  ghost predicate Resolves(p: Program, gotPlt: Word, k: nat, m: Machine, r: Option<Machine>) {
    && r.Some? && r.value.pc == p.memory(gotPlt) / 2 * 2
    && r.value.registers[T0] == p.memory(gotPlt + p.word) && r.value.registers[T1] == p.word * k
    && OthersSame(m.registers, r.value.registers)
  }

  lemma {:induction false} ExecutedMore(p: Program, m: Machine, first: nat, n: nat)
    requires Executed(p, m, first).Some?
    ensures Executed(p, m, first + n) == Executed(p, Executed(p, m, first).value, n)
    decreases first
  {
    hide Step, Decoded, Word4;
    if first > 0 {
      var at := m.pc - p.base;
      ExecutedMore(p, Step(p.word, p.memory, Decoded(Word4(p.code[at..at + 4])), m).value, first - 1, n);
    }
  }

  // ---------------------------------------------------------------------------------------
  // The section.

  /** The address of the word of .got.plt that belongs to entry `k`, behind two others. */
  function PltWord(word: WordSize, gotPlt: nat, k: nat): nat {
    gotPlt + 2 * word + k * word
  }

  /** The header, and entry `k`, are in the section. */
  ghost predicate HasEntry(word: WordSize, code: seq<Byte>, base: Word, gotPlt: Word, k: nat) {
    && PltOffset(k) + PLT_ENTRY_SIZE <= |code| && base + |code| <= Modulus(word)
    && PltWord(word, gotPlt, k) + word <= Modulus(word)
    && HasWords(code, PltOffset(k), Entry(word, PltWord(word, gotPlt, k), base + PltOffset(k)))
  }

  /** Whoever calls entry `k` gets to where its word points, with all registers unchanged but t3 and,
      so that the header can tell who called, t1. */
  ghost predicate CallArrives(word: WordSize, code: seq<Byte>, base: Word, gotPlt: Word, k: nat) {
    forall memory: nat -> nat, m: Machine ::
      var target := memory(PltWord(word, gotPlt, k));
      m.pc == base + PltOffset(k) && target < Modulus(word) ==>
        Executed(Program(word, memory, code, base), m, 3)
        == Some(Machine(target / 2 * 2, m.registers[T3 := target][T1 := m.pc + 12]))
  }

  /** While the word has what the linker put there, the call gets to the dynamic linker, which is
      told the entry. */
  ghost predicate FirstCallResolves(word: WordSize, code: seq<Byte>, base: Word, gotPlt: Word, k: nat) {
    forall memory: nat -> nat, m: Machine ::
      && m.pc == base + PltOffset(k) && memory(PltWord(word, gotPlt, k)) == base
      && memory(gotPlt) < Modulus(word) && memory(gotPlt + word) < Modulus(word) ==>
        var p := Program(word, memory, code, base);
        Resolves(p, gotPlt, k, m, Executed(p, m, 11))
  }

  /** Calls arrive exactly when the entry reaches its word. */
  lemma CallsArrive(word: WordSize, code: seq<Byte>, base: Word, gotPlt: Word, k: nat)
    requires HasEntry(word, code, base, gotPlt, k)
    ensures CallArrives(word, code, base, gotPlt, k)
            <==> Reaches(word, PltWord(word, gotPlt, k), base + PltOffset(k))
  {
    hide Executed, HasWords, Entry, Reaches, Found;
    var slot, pc := PltWord(word, gotPlt, k), base + PltOffset(k);
    AddressFound(word, slot, pc);
    if Reaches(word, slot, pc) {
      forall memory: nat -> nat, m: Machine | m.pc == pc && memory(slot) < Modulus(word)
        ensures Executed(Program(word, memory, code, base), m, 3)
                == Some(Machine(memory(slot) / 2 * 2, m.registers[T3 := memory(slot)][T1 := m.pc + 12]))
      {
        EntryRuns(Program(word, memory, code, base), PltOffset(k), slot, m, memory(slot));
      }
    } else {
      var memory: nat -> nat := address => if address == slot then 0 else 2;
      var m := Machine(pc, seq(32, i => 0));
      EntryRuns(Program(word, memory, code, base), PltOffset(k), slot, m, 2);
      assert Executed(Program(word, memory, code, base), m, 3).value.pc == 2;
    }
  }

  lemma FirstCallsResolve(word: WordSize, code: seq<Byte>, base: Word, gotPlt: Word, k: nat)
    requires HasEntry(word, code, base, gotPlt, k) && base % 2 == 0
    requires HasWords(code, 0, Header(word, gotPlt, base))
    requires Reaches(word, PltWord(word, gotPlt, k), base + PltOffset(k)) && Reaches(word, gotPlt, base)
    ensures FirstCallResolves(word, code, base, gotPlt, k)
  {
    hide Executed, HasWords, Entry, Header, Reaches, Found;
    AddressFound(word, PltWord(word, gotPlt, k), base + PltOffset(k));
    forall memory: nat -> nat, m: Machine |
        && m.pc == base + PltOffset(k) && memory(PltWord(word, gotPlt, k)) == base
        && memory(gotPlt) < Modulus(word) && memory(gotPlt + word) < Modulus(word)
      ensures var p := Program(word, memory, code, base);
              Resolves(p, gotPlt, k, m, Executed(p, m, 11))
    {
      var p := Program(word, memory, code, base);
      EntryRuns(p, PltOffset(k), PltWord(word, gotPlt, k), m, base);
      var called := Machine(base, m.registers[T3 := base][T1 := m.pc + 12]);
      HeaderRuns(p, gotPlt, k, called);
      ExecutedMore(p, m, 3, 8);
    }
  }
}
