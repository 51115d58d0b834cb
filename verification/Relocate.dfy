/** Moving ARM instructions to a trampoline (relocate.c): what they do there is what they did before. */
module Relocate {
  import opened Arm

  datatype InstructionType = BLX_ARM | BL_ARM | B_ARM | BX_ARM | ADD_ARM | ADR1_ARM
                           | ADR2_ARM | MOV_ARM | LDR_ARM | UNDEFINE

  function GetTypeInArm(instruction: bv32): InstructionType {
    if instruction & 0xFE00_0000 == 0xFA00_0000 then BLX_ARM
    else if instruction & 0xF00_0000 == 0xB00_0000 then BL_ARM
    else if instruction & 0xF00_0000 == 0xA00_0000 then B_ARM
    else if instruction & 0xFF0_00FF == 0x120_001F then BX_ARM
    else if instruction & 0xFEF_0010 == 0x8F_0000 then ADD_ARM
    else if instruction & 0xFFF_0000 == 0x28F_0000 then ADR1_ARM
    else if instruction & 0xFFF_0000 == 0x24F_0000 then ADR2_ARM
    else if instruction & 0xE5F_0000 == 0x41F_0000 then LDR_ARM
    else if instruction & 0xFE0_0FFF == 0x1A0_000F then MOV_ARM
    else UNDEFINE
  }

  /** Sign extension as the relocator does it. */
  function Extended(x: bv32): bv32 { if x >> 25 != 0 then x | (0xFFFF_FFFF << 26) else x }

  /** Where a branch goes: the word that is jumped through. */
  function BranchValue(instruction: bv32, pc: bv32): bv32 {
    match GetTypeInArm(instruction)
    case BLX_ARM => Plus(Plus(pc, Extended(HalfWords(instruction))), 1)
    case BX_ARM => Plus(pc, Extended(0))
    case _ => Plus(pc, Extended((instruction & 0xFF_FFFF) << 2))
  }

  function HalfWords(instruction: bv32): bv32 { ((instruction & 0xFF_FFFF) << 2) | ((instruction & 0x100_0000) >> 23) }

  /** The last of R10, R11 and R12 that the instruction does not use. */
  function Spare(rd: bv32, rm: bv32): (r: bv32)
    ensures r != rd && r != rm && 10 <= r <= 12 && (r < 12 ==> 12 in {rd, rm}) && (r < 11 ==> 11 in {rd, rm})
  {
    if rd != 12 && rm != 12 then 12 else if rd != 11 && rm != 11 then 11 else 10
  }

  function LiteralValue(rom: Words, instruction: bv32, pc: bv32): bv32 {
    var imm32 := instruction & 0xFFF;
    match GetTypeInArm(instruction)
    case ADR1_ARM => Plus(pc, imm32)
    case ADR2_ARM => Minus(pc, imm32)
    case LDR_ARM =>
      if (instruction & 0x80_0000) >> 23 != 0 then Word(rom, Plus(pc, imm32)) else Word(rom, Minus(pc, imm32))
    case _ => pc
  }

  function PushWord(r: bv32): bv32 { 0xE52D_0004 | (r << 12) }                    // PUSH {Rr}
  function PopWord(r: bv32): bv32 { 0xE49D_0004 | (r << 12) }                     // POP {Rr}
  function LoadWord(r: bv32): bv32 { 0xE51F_0000 | (r << 12) }                    // LDR Rr, [PC]
  function LoadWord8(r: bv32): bv32 { 0xE59F_0008 | (r << 12) }                   // LDR Rr, [PC, #8]
  function WithBase(instruction: bv32, r: bv32): bv32 { (instruction & 0xFFF0_FFFF) | (r << 16) }

  /** The words that stand for an instruction in the trampoline; pc is its address plus 8. */
  function Relocated(rom: Words, instruction: bv32, pc: bv32): (words: seq<bv32>)
    ensures 0 < |words| <= 6
  {
    match GetTypeInArm(instruction)
    case BLX_ARM => [0xE28F_E004, 0xE51F_F004, BranchValue(instruction, pc)]
    case BL_ARM => [0xE28F_E004, 0xE51F_F004, BranchValue(instruction, pc)]
    case B_ARM => [0xE51F_F004, BranchValue(instruction, pc)]
    case BX_ARM => [0xE51F_F004, BranchValue(instruction, pc)]
    case ADD_ARM =>
      var r := Spare(Rd(instruction), Rm(instruction));
      [PushWord(r), LoadWord8(r), WithBase(instruction, r), PopWord(r), 0xE28F_F000, pc]
    case UNDEFINE => [instruction]
    case _ => [LoadWord(Rd(instruction)), 0xE28F_F000, LiteralValue(rom, instruction, pc)]
  }

  /** The instructions for which moving is right: they are unconditional, an ADR is not rotated, an ADD keeps
      off the stack pointer and does not set flags, and others do not read the program counter. */
  predicate Movable(ins: bv32) {
    match GetTypeInArm(ins)
    case BLX_ARM => true
    case BL_ARM => ins >> 28 == 0xE
    case B_ARM => ins >> 28 == 0xE
    case BX_ARM => ins == 0xE12F_FF1F
    case ADD_ARM => ins & 0xFFF0_0010 == 0xE080_0000 && Rd(ins) !in {SP, PC} && Rm(ins) !in {SP, PC}
    case ADR1_ARM => ins >> 28 == 0xE && ins & 0xF00 == 0
    case ADR2_ARM => ins >> 28 == 0xE && ins & 0xF00 == 0
    case LDR_ARM => ins >> 16 == 0xE59F || ins >> 16 == 0xE51F
    case MOV_ARM => ins & 0xFFFF_0FFF == 0xE1A0_000F
    case UNDEFINE => !ReadsPc(ins)
  }

  // What can be moved: B, BL and BLX to any place, and BX PC;

  lemma BranchesMovable(imm24: bv32)
    requires imm24 <= 0xFF_FFFF
    ensures Movable(0xEA00_0000 | imm24) && Movable(0xEB00_0000 | imm24)
    ensures Movable(0xFA00_0000 | imm24) && Movable(0xFB00_0000 | imm24) && Movable(0xE12F_FF1F)
  {
    hide ReadsPc;
    assert Movable(0xEA00_0000 | imm24);
    assert Movable(0xEB00_0000 | imm24);
    assert Movable(0xFA00_0000 | imm24);
    assert Movable(0xFB00_0000 | imm24);
  }

  // ADD of the program counter and a register, shifted or not;

  lemma AddMovable(rd: bv32, rm: bv32, shift: bv32)
    requires rd <= 14 && rm <= 14 && SP !in {rd, rm} && shift & 0xFFFF_F01F == 0
    ensures Movable(0xE08F_0000 | (rd << 12) | shift | rm)
  {
    var ins := 0xE08F_0000 | (rd << 12) | shift | rm;
    assert Rd(ins) == rd && Rm(ins) == rm;
  }

  // ADR in both forms with an offset below 256;

  lemma AdrMovable(rd: bv32, imm8: bv32)
    requires rd <= 15 && imm8 <= 0xFF
    ensures Movable(0xE28F_0000 | (rd << 12) | imm8) && Movable(0xE24F_0000 | (rd << 12) | imm8)
  {
  }

  // LDR of a literal on either side, and MOV of the program counter.

  lemma LiteralMovable(rd: bv32, imm12: bv32)
    requires rd <= 15 && imm12 <= 0xFFF
    ensures Movable(0xE59F_0000 | (rd << 12) | imm12) && Movable(0xE51F_0000 | (rd << 12) | imm12)
    ensures Movable(0xE1A0_000F | (rd << 12))
  {
  }

  /** Nothing is kept below the stack pointer where the instruction needs a word there. */
  predicate Quiet(ins: bv32, m: Machine) {
    GetTypeInArm(ins).ADD_ARM? ==>
      Cell(Minus(Reg(m, SP), 4)) !in m.mem
      && Cell(10) in m.regs && Cell(11) in m.regs && Cell(12) in m.regs && Cell(SP) in m.regs
  }

  predicate Links(ins: bv32) { GetTypeInArm(ins).BLX_ARM? || GetTypeInArm(ins).BL_ARM? }

  function After(a: bv32, ins: bv32): bv32 {
    match GetTypeInArm(ins)
    case BLX_ARM => Plus(a, 12)
    case BL_ARM => Plus(a, 12)
    case B_ARM => Plus(a, 8)
    case BX_ARM => Plus(a, 8)
    case ADD_ARM => Plus(a, 24)
    case UNDEFINE => Plus(a, 4)
    case _ => Plus(a, 12)
  }

  /** Where the trampoline is after an instruction's words, if the instruction itself came to `out`. */
  function Arrived(ins: bv32, a: bv32, out: Outcome): State {
    match out
    case Next(m) => State(After(a, ins), m)
    case Jump(target, m) => State(target, if Links(ins) then SetReg(m, LR, After(a, ins)) else m)
  }

  // ----- single instructions of the trampoline

  lemma ExpandSmall(imm12: bv32)
    requires imm12 <= 0xFF
    ensures ExpandImm(imm12) == imm12
  {
  }

  lemma LoadPc(core: Core, rom: Words, a: bv32, m: Machine)
    ensures Execute(core, rom, 0xE51F_F004, a, m) == Jump(Word(rom, Plus(a, 4)), m)
  {
    hide ExpandImm;
  }

  lemma SetLink(core: Core, rom: Words, a: bv32, m: Machine)
    ensures Execute(core, rom, 0xE28F_E004, a, m) == Next(SetReg(m, LR, Plus(a, 12)))
  {
    hide ExpandImm;
    ExpandSmall(4);
  }

  lemma SkipWord(core: Core, rom: Words, a: bv32, m: Machine)
    ensures Execute(core, rom, 0xE28F_F000, a, m) == Jump(Plus(a, 8), m)
  {
    hide ExpandImm;
    ExpandSmall(0);
  }

  lemma LoadReg(core: Core, rom: Words, a: bv32, m: Machine, r: bv32)
    requires r <= 15
    ensures Execute(core, rom, LoadWord(r), a, m) == Write(m, r, Word(rom, Plus(a, 8)))
    ensures Execute(core, rom, LoadWord8(r), a, m) == Write(m, r, Word(rom, Plus(a, 16)))
  {
  }

  function Pushed(m: Machine, r: bv32): Machine {
    SetReg(m, SP, Minus(Reg(m, SP), 4)).(mem := m.mem[Cell(Minus(Reg(m, SP), 4)) := Cell(Reg(m, r))])
  }

  function Popped(m: Machine, r: bv32): Machine {
    SetReg(SetReg(m, SP, Plus(Reg(m, SP), 4)).(mem := m.mem - {Cell(Reg(m, SP))}), r, Word(m.mem, Reg(m, SP)))
  }

  lemma PushPop(core: Core, rom: Words, a: bv32, m: Machine, r: bv32)
    requires r <= 12
    ensures Execute(core, rom, PushWord(r), a, m) == Next(Pushed(m, r))
    ensures Execute(core, rom, PopWord(r), a, m) == Next(Popped(m, r))
  {
  }

  // ----- whole instructions

  lemma ExtendedUp(imm24: bv32)
    requires imm24 < 0x80_0000
    ensures Extended(imm24 << 2) == BranchOffset(imm24, 0)
  {
  }

  lemma ExtendedDown(imm24: bv32)
    requires 0x80_0000 <= imm24 <= 0xFF_FFFF
    ensures Extended(imm24 << 2) == BranchOffset(imm24, 0)
  {
  }

  lemma ExtendedUpHalf(imm24: bv32)
    requires imm24 < 0x80_0000
    ensures Extended((imm24 << 2) | 2) == BranchOffset(imm24, 2)
  {
  }

  lemma ExtendedDownHalf(imm24: bv32)
    requires 0x80_0000 <= imm24 <= 0xFF_FFFF
    ensures Extended((imm24 << 2) | 2) == BranchOffset(imm24, 2)
  {
  }

  lemma Imm24(ins: bv32)
    ensures ins & 0xFF_FFFF <= 0xFF_FFFF
  {
  }

  lemma WordOffset(ins: bv32)
    ensures Extended((ins & 0xFF_FFFF) << 2) == BranchOffset(ins & 0xFF_FFFF, 0)
  {
    hide Extended, BranchOffset;
    Imm24(ins);
    if ins & 0xFF_FFFF < 0x80_0000 {
      ExtendedUp(ins & 0xFF_FFFF);
    } else {
      ExtendedDown(ins & 0xFF_FFFF);
    }
  }

  lemma HalfWordOffset(ins: bv32)
    ensures Extended(((ins & 0xFF_FFFF) << 2) | 2) == BranchOffset(ins & 0xFF_FFFF, 2)
  {
    hide Extended, BranchOffset;
    Imm24(ins);
    if ins & 0xFF_FFFF < 0x80_0000 {
      ExtendedUpHalf(ins & 0xFF_FFFF);
    } else {
      ExtendedDownHalf(ins & 0xFF_FFFF);
    }
  }

  lemma NoHalf(ins: bv32)
    requires ins >> 24 == 0xFA
    ensures HalfWords(ins) == (ins & 0xFF_FFFF) << 2
  {
  }

  lemma OneHalf(ins: bv32)
    requires ins >> 24 == 0xFB
    ensures HalfWords(ins) == ((ins & 0xFF_FFFF) << 2) | 2
  {
  }

  // ----- what the original instructions do

  lemma BranchType(ins: bv32)
    requires GetTypeInArm(ins).B_ARM? && Movable(ins)
    ensures ins >> 24 == 0xEA
  {
  }

  lemma LinkType(ins: bv32)
    requires GetTypeInArm(ins).BL_ARM? && Movable(ins)
    ensures ins >> 24 == 0xEB
  {
  }

  lemma ExchangeType(ins: bv32)
    requires GetTypeInArm(ins).BLX_ARM?
    ensures ins >> 24 == 0xFA || ins >> 24 == 0xFB
  {
  }

  lemma OriginalBranch(core: Core, rom: Words, ins: bv32, addr: bv32, m: Machine)
    requires Movable(ins) && (GetTypeInArm(ins).B_ARM? || GetTypeInArm(ins).BX_ARM?)
    ensures Execute(core, rom, ins, addr, m) == Jump(BranchValue(ins, Plus(addr, 8)), m)
  {
    hide Extended, BranchOffset, Plus, GetTypeInArm;
    WordOffset(ins);
    if GetTypeInArm(ins).B_ARM? {
      BranchType(ins);
    } else {
      NoOffset(Plus(addr, 8));
    }
  }

  lemma NoOffset(pc: bv32)
    ensures Plus(pc, Extended(0)) == pc
  {
  }

  lemma OriginalLink(core: Core, rom: Words, ins: bv32, addr: bv32, m: Machine)
    requires Movable(ins) && (GetTypeInArm(ins).BL_ARM? || GetTypeInArm(ins).BLX_ARM?)
    ensures Execute(core, rom, ins, addr, m) == Jump(BranchValue(ins, Plus(addr, 8)), SetReg(m, LR, Plus(addr, 4)))
  {
    hide Extended, BranchOffset, Plus, GetTypeInArm, HalfWords;
    WordOffset(ins);
    HalfWordOffset(ins);
    if GetTypeInArm(ins).BL_ARM? {
      LinkType(ins);
    } else {
      ExchangeType(ins);
      if ins >> 24 == 0xFA {
        NoHalf(ins);
      } else {
        OneHalf(ins);
      }
    }
  }

  // ----- what the words in the trampoline do

  lemma RunBranch(core: Core, rom: Words, ins: bv32, addr: bv32, a: bv32, m: Machine)
    requires Movable(ins) && (GetTypeInArm(ins).B_ARM? || GetTypeInArm(ins).BX_ARM?)
    requires Placed(rom, a, Relocated(rom, ins, Plus(addr, 8)))
    ensures Steps(core, rom, 1, State(a, m)) == Arrived(ins, a, Execute(core, rom, ins, addr, m))
  {
    hide Execute, BranchValue, GetTypeInArm, Movable, Word, Plus, Offset;
    var words := Relocated(rom, ins, Plus(addr, 8));
    assert Word(rom, Offset(a, 0)) == words[0] && Word(rom, Offset(a, 1)) == words[1];
    Offsets(a);
    LoadPc(core, rom, a, m);
    OriginalBranch(core, rom, ins, addr, m);
    assert Steps(core, rom, 1, State(a, m)) == Steps(core, rom, 0, Step(core, rom, State(a, m)));
  }

  lemma PlacedThree(rom: Words, a: bv32, w: seq<bv32>)
    requires Placed(rom, a, w) && |w| >= 3
    ensures Word(rom, a) == w[0] && Word(rom, Plus(a, 4)) == w[1] && Word(rom, Plus(a, 8)) == w[2]
  {
    hide Word, Offset, Plus;
    Offsets(a);
    assert Word(rom, Offset(a, 0)) == w[0] && Word(rom, Offset(a, 1)) == w[1] && Word(rom, Offset(a, 2)) == w[2];
  }

  lemma PlacedSix(rom: Words, a: bv32, w: seq<bv32>)
    requires Placed(rom, a, w) && |w| == 6
    ensures Word(rom, a) == w[0] && Word(rom, Plus(a, 4)) == w[1] && Word(rom, Plus(a, 8)) == w[2]
    ensures Word(rom, Plus(a, 12)) == w[3] && Word(rom, Plus(a, 16)) == w[4] && Word(rom, Plus(a, 20)) == w[5]
  {
    hide Word, Offset, Plus;
    PlacedThree(rom, a, w);
    Offsets(a);
    assert Word(rom, Offset(a, 3)) == w[3] && Word(rom, Offset(a, 4)) == w[4] && Word(rom, Offset(a, 5)) == w[5];
  }

  lemma OneStep(core: Core, rom: Words, n: nat, s: State)
    ensures Steps(core, rom, n + 1, s) == Steps(core, rom, n, Step(core, rom, s))
    ensures Steps(core, rom, 0, s) == s
  {
  }

  lemma SetTwice(m: Machine, r: bv32, v: bv32, w: bv32)
    ensures SetReg(SetReg(m, r, v), r, w) == SetReg(m, r, w)
  {
    assert m.regs[Cell(r) := Cell(v)][Cell(r) := Cell(w)] == m.regs[Cell(r) := Cell(w)];
  }

  lemma RunLink(core: Core, rom: Words, ins: bv32, addr: bv32, a: bv32, m: Machine)
    requires Movable(ins) && Links(ins)
    requires Placed(rom, a, Relocated(rom, ins, Plus(addr, 8)))
    ensures Steps(core, rom, 2, State(a, m)) == Arrived(ins, a, Execute(core, rom, ins, addr, m))
  {
    hide Execute, BranchValue, GetTypeInArm, Movable, Word, Steps, SetReg, Offset, Plus;
    var words := Relocated(rom, ins, Plus(addr, 8));
    assert Word(rom, Offset(a, 0)) == words[0]
       && Word(rom, Offset(a, 1)) == words[1] && Word(rom, Offset(a, 2)) == words[2];
    Offsets(a);
    SetLink(core, rom, a, m);
    LoadPc(core, rom, Plus(a, 4), SetReg(m, LR, Plus(a, 12)));
    OriginalLink(core, rom, ins, addr, m);
    OneStep(core, rom, 1, State(a, m));
    OneStep(core, rom, 0, State(Plus(a, 4), SetReg(m, LR, Plus(a, 12))));
    OneStep(core, rom, 0, State(words[2], SetReg(m, LR, Plus(a, 12))));
    SetTwice(m, LR, Plus(addr, 4), Plus(a, 12));
  }

  predicate IsLiteral(ins: bv32) {
    GetTypeInArm(ins).ADR1_ARM? || GetTypeInArm(ins).ADR2_ARM?
    || GetTypeInArm(ins).LDR_ARM? || GetTypeInArm(ins).MOV_ARM?
  }

  lemma AdrTypes(ins: bv32)
    requires Movable(ins)
    ensures GetTypeInArm(ins).ADR1_ARM? ==> ins >> 16 == 0xE28F && ins & 0xFFF <= 0xFF
    ensures GetTypeInArm(ins).ADR2_ARM? ==> ins >> 16 == 0xE24F && ins & 0xFFF <= 0xFF
  {
  }

  lemma LdrType(ins: bv32)
    ensures ins >> 16 == 0xE59F ==> (ins & 0x80_0000) >> 23 != 0
    ensures ins >> 16 == 0xE51F ==> (ins & 0x80_0000) >> 23 == 0
  {
  }

  lemma OriginalLiteral(core: Core, rom: Words, ins: bv32, addr: bv32, m: Machine)
    requires Movable(ins) && IsLiteral(ins)
    ensures Execute(core, rom, ins, addr, m) == Write(m, Rd(ins), LiteralValue(rom, ins, Plus(addr, 8)))
  {
    hide ExpandImm, GetTypeInArm;
    AdrTypes(ins);
    LdrType(ins);
    if ins & 0xFFF <= 0xFF {
      ExpandSmall(ins & 0xFFF);
    }
  }

  lemma LiteralWords(rom: Words, ins: bv32, addr: bv32, a: bv32)
    requires IsLiteral(ins)
    ensures Relocated(rom, ins, Plus(addr, 8))
      == [LoadWord(Rd(ins)), 0xE28F_F000, LiteralValue(rom, ins, Plus(addr, 8))]
    ensures After(a, ins) == Plus(a, 12) && !Links(ins)
  {
    hide GetTypeInArm, LiteralValue, LoadWord, Plus, Rd;
  }

  lemma RdSmall(ins: bv32)
    ensures Rd(ins) <= 15
  {
  }

  /** Loading the word that follows, and skipping it. */
  lemma RunLoad(core: Core, rom: Words, ins: bv32, addr: bv32, a: bv32, m: Machine)
    requires IsLiteral(ins) && Rd(ins) != PC && Placed(rom, a, Relocated(rom, ins, Plus(addr, 8)))
    ensures Steps(core, rom, 2, State(a, m))
         == State(Plus(a, 12), SetReg(m, Rd(ins), LiteralValue(rom, ins, Plus(addr, 8))))
  {
    hide Execute, LiteralValue, GetTypeInArm, Word, Steps, SetReg, Rd, Offset, Plus, Placed, LoadWord;
    hide Relocated, After, Links, IsLiteral;
    var words, r := Relocated(rom, ins, Plus(addr, 8)), Rd(ins);
    LiteralWords(rom, ins, addr, a);
    PlacedThree(rom, a, words);
    Offsets(a);
    RdSmall(ins);
    LoadReg(core, rom, a, m, r);
    var m' := SetReg(m, r, words[2]);
    SkipWord(core, rom, Plus(a, 4), m');
    OneStep(core, rom, 1, State(a, m));
    OneStep(core, rom, 0, State(Plus(a, 4), m'));
    OneStep(core, rom, 0, State(Plus(Plus(a, 4), 8), m'));
  }

  lemma RunLiteral(core: Core, rom: Words, ins: bv32, addr: bv32, a: bv32, m: Machine) returns (n: nat)
    requires Movable(ins) && IsLiteral(ins)
    requires Placed(rom, a, Relocated(rom, ins, Plus(addr, 8)))
    ensures n > 0 && Steps(core, rom, n, State(a, m)) == Arrived(ins, a, Execute(core, rom, ins, addr, m))
  {
    hide Execute, LiteralValue, GetTypeInArm, Movable, Word, Steps, SetReg, Rd, Offset, Plus, Placed, LoadWord;
    hide Relocated, After, Links, IsLiteral;
    var words, r := Relocated(rom, ins, Plus(addr, 8)), Rd(ins);
    LiteralWords(rom, ins, addr, a);
    OriginalLiteral(core, rom, ins, addr, m);
    if r == PC {
      n := 1;
      PlacedThree(rom, a, words);
      Offsets(a);
      RdSmall(ins);
      LoadReg(core, rom, a, m, r);
      OneStep(core, rom, 0, State(a, m));
      OneStep(core, rom, 0, State(words[2], m));
    } else {
      n := 2;
      RunLoad(core, rom, ins, addr, a, m);
    }
  }

  lemma OtherSame(core: Core, rom: Words, ins: bv32, addr: bv32, a: bv32, m: Machine)
    requires Sound(core) && Movable(ins) && GetTypeInArm(ins).UNDEFINE?
    ensures Execute(core, rom, ins, addr, m) == Execute(core, rom, ins, a, m)
  {
  }

  lemma RunOther(core: Core, rom: Words, ins: bv32, addr: bv32, a: bv32, m: Machine)
    requires Sound(core) && Movable(ins) && GetTypeInArm(ins).UNDEFINE?
    requires Placed(rom, a, Relocated(rom, ins, Plus(addr, 8)))
    ensures Steps(core, rom, 1, State(a, m)) == Arrived(ins, a, Execute(core, rom, ins, addr, m))
  {
    hide Execute, GetTypeInArm, Movable, Word, Steps, Offset, Plus, Sound;
    var words := Relocated(rom, ins, Plus(addr, 8));
    assert Word(rom, Offset(a, 0)) == words[0];
    Offsets(a);
    OtherSame(core, rom, ins, addr, a, m);
    var s := Step(core, rom, State(a, m));
    OneStep(core, rom, 0, State(a, m));
    OneStep(core, rom, 0, s);
  }

  // ----- ADD Rd, PC, Rm

  lemma OriginalAdd(core: Core, rom: Words, ins: bv32, addr: bv32, m: Machine)
    requires Movable(ins) && GetTypeInArm(ins).ADD_ARM?
    ensures Execute(core, rom, ins, addr, m)
         == Next(SetReg(m, Rd(ins), Plus(Plus(addr, 8), core.shift(ins & 0xFE0, Reg(m, Rm(ins))))))
  {
    hide Plus, Reg, SetReg, ExpandImm;
    AddType(ins);
  }

  lemma AddType(ins: bv32)
    requires Movable(ins) && GetTypeInArm(ins).ADD_ARM?
    ensures ins >> 20 == 0xE08 && Rn(ins) == PC && ins & 0xFFF0_0010 == 0xE080_0000
  {
  }

  /** The same instruction with another register in place of the program counter. */
  lemma AddWith(core: Core, rom: Words, ins: bv32, r: bv32, a: bv32, m: Machine)
    requires Movable(ins) && GetTypeInArm(ins).ADD_ARM? && 10 <= r <= 12
    ensures Execute(core, rom, WithBase(ins, r), a, m)
         == Next(SetReg(m, Rd(ins), Plus(Reg(m, r), core.shift(ins & 0xFE0, Reg(m, Rm(ins))))))
  {
    hide Plus, Reg, SetReg, ExpandImm, WithBase;
    WithFields(ins, r);
  }

  lemma WithFields(ins: bv32, r: bv32)
    requires Movable(ins) && GetTypeInArm(ins).ADD_ARM? && 10 <= r <= 12
    ensures var ins' := WithBase(ins, r);
      && ins' >> 20 == 0xE08 && ins' & 0xFFF0_0010 == 0xE080_0000 && ins' & 0xFE0 == ins & 0xFE0
      && Rn(ins') == r && Rm(ins') == Rm(ins) && Rd(ins') == Rd(ins)
  {
  }

  lemma PlusMinus(a: bv32)
    ensures Plus(Minus(a, 4), 4) == a
  {
  }

  /** What lies between push and pop leaves no trace but in the register it sets. */
  lemma Restored(m: Machine, r: bv32, pc: bv32, rd: bv32, w: bv32)
    requires r != rd && r != SP && rd != SP
    requires Cell(r) in m.regs && Cell(SP) in m.regs && Cell(Minus(Reg(m, SP), 4)) !in m.mem
    ensures Popped(SetReg(SetReg(Pushed(m, r), r, pc), rd, w), r) == SetReg(m, rd, w)
  {
    hide Plus, Minus;
    PlusMinus(Reg(m, SP));
    var sp := Minus(Reg(m, SP), 4);
    assert m.mem[Cell(sp) := Cell(Reg(m, r))] - {Cell(sp)} == m.mem;
    assert m.regs[Cell(SP) := Cell(sp)][Cell(r) := Cell(pc)][Cell(rd) := Cell(w)]
           [Cell(SP) := Cell(Reg(m, SP))][Cell(r) := Cell(Reg(m, r))]
        == m.regs[Cell(rd) := Cell(w)];
  }

  lemma Unused(m: Machine, r: bv32, pc: bv32, rm: bv32)
    requires rm != r && rm != SP
    ensures Reg(SetReg(Pushed(m, r), r, pc), rm) == Reg(m, rm) && Reg(SetReg(Pushed(m, r), r, pc), r) == pc
  {
    hide Plus, Minus;
  }

  lemma RunAdd(core: Core, rom: Words, ins: bv32, addr: bv32, a: bv32, m: Machine)
    requires Movable(ins) && GetTypeInArm(ins).ADD_ARM? && Quiet(ins, m)
    requires Placed(rom, a, Relocated(rom, ins, Plus(addr, 8)))
    ensures Steps(core, rom, 5, State(a, m)) == Arrived(ins, a, Execute(core, rom, ins, addr, m))
  {
    hide Execute, Word, Steps, SetReg, Reg, Rd, Rm, Offset, Plus;
    hide Minus, Spare, Pushed, Popped, GetTypeInArm, Placed, Movable, Quiet;
    hide PushWord, PopWord, LoadWord8, WithBase;
    var words, r := Relocated(rom, ins, Plus(addr, 8)), Spare(Rd(ins), Rm(ins));
    PlacedSix(rom, a, words);
    Offsets(a);
    AddRegisters(ins, m);
    var m1 := Pushed(m, r);
    var m2 := SetReg(m1, r, Plus(addr, 8));
    var w := Plus(Plus(addr, 8), core.shift(ins & 0xFE0, Reg(m, Rm(ins))));
    var m3 := SetReg(m2, Rd(ins), w);
    PushPop(core, rom, a, m, r);
    LoadReg(core, rom, Plus(a, 4), m1, r);
    Unused(m, r, Plus(addr, 8), Rm(ins));
    AddWith(core, rom, ins, r, Plus(a, 8), m2);
    PushPop(core, rom, Plus(a, 12), m3, r);
    Restored(m, r, Plus(addr, 8), Rd(ins), w);
    SkipWord(core, rom, Plus(a, 16), SetReg(m, Rd(ins), w));
    OriginalAdd(core, rom, ins, addr, m);
    FiveSteps(core, rom, State(a, m), State(Plus(a, 4), m1), State(Plus(a, 8), m2), State(Plus(a, 12), m3),
              State(Plus(a, 16), SetReg(m, Rd(ins), w)));
  }

  lemma AddRegisters(ins: bv32, m: Machine)
    requires Movable(ins) && GetTypeInArm(ins).ADD_ARM? && Quiet(ins, m)
    ensures var r := Spare(Rd(ins), Rm(ins));
      && Rd(ins) != SP && Rm(ins) != SP && Cell(r) in m.regs && Cell(SP) in m.regs && r != SP && r != PC
      && Cell(Minus(Reg(m, SP), 4)) !in m.mem
  {
    hide GetTypeInArm, Rd, Rm, Reg, Minus;
  }

  lemma FiveSteps(core: Core, rom: Words, s0: State, s1: State, s2: State, s3: State, s4: State)
    requires Step(core, rom, s0) == s1 && Step(core, rom, s1) == s2
    requires Step(core, rom, s2) == s3 && Step(core, rom, s3) == s4
    ensures Steps(core, rom, 5, s0) == Step(core, rom, s4)
  {
    hide Step, Steps;
    OneStep(core, rom, 4, s0);
    OneStep(core, rom, 3, s1);
    OneStep(core, rom, 2, s2);
    OneStep(core, rom, 1, s3);
    OneStep(core, rom, 0, s4);
    OneStep(core, rom, 0, Step(core, rom, s4));
  }

  // ----- the whole trampoline

  /** Whatever the instruction, its words in the trampoline do what it does, and go on behind them. */
  lemma RunOne(core: Core, rom: Words, ins: bv32, addr: bv32, a: bv32, m: Machine) returns (n: nat)
    requires Sound(core) && Movable(ins) && Quiet(ins, m) && Placed(rom, a, Relocated(rom, ins, Plus(addr, 8)))
    ensures Steps(core, rom, n, State(a, m)) == Arrived(ins, a, Execute(core, rom, ins, addr, m))
  {
    hide GetTypeInArm, Execute, Movable, Quiet, Relocated, Placed, Steps, Arrived, Plus, Sound;
    match GetTypeInArm(ins)
    case BLX_ARM => n := 2; RunLink(core, rom, ins, addr, a, m);
    case BL_ARM => n := 2; RunLink(core, rom, ins, addr, a, m);
    case B_ARM => n := 1; RunBranch(core, rom, ins, addr, a, m);
    case BX_ARM => n := 1; RunBranch(core, rom, ins, addr, a, m);
    case ADD_ARM => n := 5; RunAdd(core, rom, ins, addr, a, m);
    case UNDEFINE => n := 1; RunOther(core, rom, ins, addr, a, m);
    case _ => n := RunLiteral(core, rom, ins, addr, a, m);
  }

  /** The words of the first k instructions. */
  function Body(rom: Words, addr: bv32, code: seq<bv32>, k: nat): seq<bv32>
    requires k <= |code|
  {
    if k == 0 then [] else Body(rom, addr, code, k - 1) + Relocated(rom, code[k - 1], Plus(Offset(addr, k - 1), 8))
  }

  function Trampoline(rom: Words, addr: bv32, code: seq<bv32>): seq<bv32> {
    Body(rom, addr, code, |code|) + [0xE51F_F004, Offset(addr, |code|)]
  }

  /** The address in the trampoline that stands for that of instruction k. */
  function Boundary(rom: Words, addr: bv32, code: seq<bv32>, k: nat, tramp: bv32): bv32
    requires k <= |code|
  {
    Offset(tramp, |Body(rom, addr, code, k)|)
  }

  /** How the original instructions are left when they are entered at number k: where to, with what, and
      behind which of them the called function is to return (if it is a call). */
  datatype Exit = Exit(target: bv32, m: Machine, back: nat, call: bool)

  function RunOriginal(core: Core, rom: Words, addr: bv32, code: seq<bv32>, k: nat, m: Machine): (e: Exit)
    requires k <= |code|
    ensures e.back <= |code|
    decreases |code| - k
  {
    if k == |code| then Exit(Offset(addr, k), m, k, false)
    else match Execute(core, rom, code[k], Offset(addr, k), m)
      case Next(m') => RunOriginal(core, rom, addr, code, k + 1, m')
      case Jump(target, m') => Exit(target, m', k + 1, Links(code[k]))
  }

  predicate QuietRun(core: Core, rom: Words, addr: bv32, code: seq<bv32>, k: nat, m: Machine)
    requires k <= |code|
    decreases |code| - k
  {
    k == |code| || (Quiet(code[k], m) && match Execute(core, rom, code[k], Offset(addr, k), m)
      case Next(m') => QuietRun(core, rom, addr, code, k + 1, m')
      case Jump(_, _) => true)
  }

  /** The same exit out of the trampoline: a call returns into the trampoline. */
  function Moved(rom: Words, addr: bv32, code: seq<bv32>, tramp: bv32, e: Exit): State
    requires e.back <= |code|
  {
    State(e.target, if e.call then SetReg(e.m, LR, Boundary(rom, addr, code, e.back, tramp)) else e.m)
  }

  /** The trampoline simulates the original instructions from any of them on. */
  lemma {:induction false} Simulates(core: Core, rom: Words, addr: bv32, code: seq<bv32>, tramp: bv32,
                                     k: nat, m: Machine)
    returns (n: nat)
    requires Sound(core)
    requires k <= |code| && (forall i :: 0 <= i < |code| ==> Movable(code[i])) && QuietRun(core, rom, addr, code, k, m)
    requires Placed(rom, tramp, Trampoline(rom, addr, code))
    ensures Steps(core, rom, n, State(Boundary(rom, addr, code, k, tramp), m))
         == Moved(rom, addr, code, tramp, RunOriginal(core, rom, addr, code, k, m))
    decreases |code| - k
  {
    hide Execute, Movable, Quiet, Relocated, Placed, Links, After, Word, Step, Steps, SetReg, Plus, Offset, Sound;
    var a := Boundary(rom, addr, code, k, tramp);
    if k == |code| {
      n := 1;
      RunEnd(core, rom, addr, code, tramp, m);
    } else {
      var ins := code[k];
      PlacedAt(rom, addr, code, tramp, k);
      var n0 := RunOne(core, rom, ins, Offset(addr, k), a, m);
      match Execute(core, rom, ins, Offset(addr, k), m)
      case Next(m') =>
        var n1 := Simulates(core, rom, addr, code, tramp, k + 1, m');
        StepsTwice(core, rom, n0, n1, State(a, m));
        n := n0 + n1;
      case Jump(_, _) =>
        n := n0;
    }
  }

  lemma RunEnd(core: Core, rom: Words, addr: bv32, code: seq<bv32>, tramp: bv32, m: Machine)
    requires Placed(rom, tramp, Trampoline(rom, addr, code))
    ensures Steps(core, rom, 1, State(Boundary(rom, addr, code, |code|, tramp), m)) == State(Offset(addr, |code|), m)
  {
    hide Execute, Word, Steps, Plus, Body;
    var body, end := Body(rom, addr, code, |code|), [0xE51F_F004, Offset(addr, |code|)];
    var a := Offset(tramp, |body|);
    assert body + end + [] == Trampoline(rom, addr, code);
    PlacedPart(rom, tramp, body, end, []);
    assert Word(rom, Offset(a, 0)) == end[0] && Word(rom, Offset(a, 1)) == end[1];
    Offsets(a);
    LoadPc(core, rom, a, m);
    OneStep(core, rom, 0, State(a, m));
    OneStep(core, rom, 0, State(end[1], m));
  }

  lemma PlacedAt(rom: Words, addr: bv32, code: seq<bv32>, tramp: bv32, k: nat)
    requires k < |code| && Placed(rom, tramp, Trampoline(rom, addr, code))
    ensures Placed(rom, Boundary(rom, addr, code, k, tramp), Relocated(rom, code[k], Plus(Offset(addr, k), 8)))
    ensures After(Boundary(rom, addr, code, k, tramp), code[k]) == Boundary(rom, addr, code, k + 1, tramp)
  {
    hide Relocated, Plus, After, Body, Placed;
    BodyNext(rom, addr, code);
    var front, words := Body(rom, addr, code, k), Relocated(rom, code[k], Plus(Offset(addr, k), 8));
    var rest := BodyRest(rom, addr, code, k + 1);
    assert front + words + (rest + [0xE51F_F004, Offset(addr, |code|)]) == Trampoline(rom, addr, code);
    PlacedPart(rom, tramp, front, words, rest + [0xE51F_F004, Offset(addr, |code|)]);
    OffsetTwice(tramp, |front|, |words|);
    AfterIsEnd(rom, Offset(tramp, |front|), code[k], Plus(Offset(addr, k), 8));
  }

  lemma {:induction false} BodyRest(rom: Words, addr: bv32, code: seq<bv32>, k: nat) returns (rest: seq<bv32>)
    requires k <= |code|
    ensures Body(rom, addr, code, |code|) == Body(rom, addr, code, k) + rest
    decreases |code| - k
  {
    hide Relocated, Plus;
    if k == |code| {
      rest := [];
    } else {
      rest := BodyRest(rom, addr, code, k + 1);
      rest := Relocated(rom, code[k], Plus(Offset(addr, k), 8)) + rest;
    }
  }

  lemma AfterIsEnd(rom: Words, a: bv32, ins: bv32, pc: bv32)
    ensures After(a, ins) == Offset(a, |Relocated(rom, ins, pc)|)
  {
    hide Plus, Offset, Relocated, GetTypeInArm;
    WordCount(rom, ins, pc);
    Offsets(a);
  }

  lemma WordCount(rom: Words, ins: bv32, pc: bv32)
    ensures |Relocated(rom, ins, pc)| == match GetTypeInArm(ins)
      case BLX_ARM => 3
      case BL_ARM => 3
      case B_ARM => 2
      case BX_ARM => 2
      case ADD_ARM => 6
      case UNDEFINE => 1
      case _ => 3
  {
    hide Plus, LiteralValue, BranchValue, GetTypeInArm;
  }

  // ----- what moving does to a rotated ADR

  /** The relocator takes the lower twelve bits of an ADR for its offset.  They are that if and only if the
      offset is not rotated. */
  lemma ExpandExact(imm12: bv32)
    requires imm12 <= 0xFFF
    ensures ExpandImm(imm12) == imm12 <==> imm12 & 0xF00 == 0
  {
  }

  lemma PlusExact(a: bv32, x: bv32, y: bv32)
    ensures Plus(a, x) == Plus(a, y) <==> x == y
    ensures Minus(a, x) == Minus(a, y) <==> x == y
  {
    hide Plus, Minus;
    TakenBack(a, x);
    TakenBack(a, y);
  }

  lemma TakenBack(a: bv32, x: bv32)
    ensures Minus(Plus(a, x), a) == x && Minus(a, Minus(a, x)) == x
  {
    hide Plus, Minus;
    SumsAre(a, x);
    BackFrom(a, x);
  }

  lemma SumsAre(a: bv32, x: bv32)
    ensures Plus(a, x) == a + x && Minus(a, x) == a - x
  {
  }

  lemma BackFrom(a: bv32, x: bv32)
    ensures Minus(a + x, a) == x && Minus(a, a - x) == x
  {
  }

  lemma SetExact(m: Machine, r: bv32, v: bv32, w: bv32)
    ensures SetReg(m, r, v) == SetReg(m, r, w) <==> v == w
  {
    assert m.regs[Cell(r) := Cell(v)][Cell(r)] == Cell(v) && m.regs[Cell(r) := Cell(w)][Cell(r)] == Cell(w);
  }

  lemma AdrFields(ins: bv32)
    requires ins >> 28 == 0xE
    ensures GetTypeInArm(ins).ADR1_ARM? ==> ins >> 16 == 0xE28F
    ensures GetTypeInArm(ins).ADR2_ARM? ==> ins >> 16 == 0xE24F
    ensures (ins & 0xFFF) & 0xF00 == ins & 0xF00 && ins & 0xFFF <= 0xFFF
  {
  }

  lemma OriginalAdr(core: Core, rom: Words, ins: bv32, addr: bv32, m: Machine)
    requires ins >> 16 == 0xE28F || ins >> 16 == 0xE24F
    ensures Execute(core, rom, ins, addr, m) == Write(m, Rd(ins),
      if ins >> 16 == 0xE28F then Plus(Plus(addr, 8), ExpandImm(ins & 0xFFF))
      else Minus(Plus(addr, 8), ExpandImm(ins & 0xFFF)))
  {
    hide ExpandImm, Plus, Minus, Rd, Write;
  }

  /** So an ADR does in the trampoline what it did before if and only if its offset is not rotated. */
  lemma AdrMovedRight(core: Core, rom: Words, ins: bv32, addr: bv32, a: bv32, m: Machine)
    requires ins >> 28 == 0xE && (GetTypeInArm(ins).ADR1_ARM? || GetTypeInArm(ins).ADR2_ARM?) && Rd(ins) != PC
    requires Placed(rom, a, Relocated(rom, ins, Plus(addr, 8)))
    ensures Steps(core, rom, 2, State(a, m)) == Arrived(ins, a, Execute(core, rom, ins, addr, m)) <==> ins & 0xF00 == 0
  {
    hide Execute, GetTypeInArm, Steps, SetReg, Rd, Plus, Minus, Placed, Relocated, ExpandImm;
    AdrFields(ins);
    RunLoad(core, rom, ins, addr, a, m);
    OriginalAdr(core, rom, ins, addr, m);
    ExpandExact(ins & 0xFFF);
    PlusExact(Plus(addr, 8), ins & 0xFFF, ExpandImm(ins & 0xFFF));
    SetExact(m, Rd(ins), LiteralValue(rom, ins, Plus(addr, 8)),
             if ins >> 16 == 0xE28F then Plus(Plus(addr, 8), ExpandImm(ins & 0xFFF))
             else Minus(Plus(addr, 8), ExpandImm(ins & 0xFFF)));
  }

  /** ADD R0, PC, #256 is moved to something else. */
  lemma RotatedAdrBreaks(core: Core, rom: Words, m: Machine)
    ensures GetTypeInArm(0xE28F_0C01).ADR1_ARM? && !Movable(0xE28F_0C01)
    ensures Execute(core, rom, 0xE28F_0C01, 0, m) == Next(SetReg(m, 0, 0x108))
    ensures LiteralValue(rom, 0xE28F_0C01, Plus(0, 8)) == 0xC09
  {
  }

  // ----- an operand that is the program counter

  lemma SubCopied(core: Core, rom: Words, pc: bv32, a: bv32, m: Machine)
    ensures Relocated(rom, 0xE041_000F, pc) == [0xE041_000F]
    ensures Execute(core, rom, 0xE041_000F, a, m) == core.other(0xE041_000F, a, m)
  {
  }

  lemma Commuted(a: bv32, b: bv32)
    ensures Plus(a, b) == Plus(b, a)
  {
  }

  /** Instructions that read the program counter are copied, too, if the classifier does not know them: SUB R0, R1, PC
      then computes something else. */
  lemma PcOperandBreaks(core: Core, rom: Words, a: bv32, b: bv32, m: Machine)
    requires core.other(0xE041_000F, a, m) == Next(SetReg(m, 0, Minus(Reg(m, 1), Plus(a, 8))))
    requires core.other(0xE041_000F, b, m) == Next(SetReg(m, 0, Minus(Reg(m, 1), Plus(b, 8)))) && a != b
    ensures !Movable(0xE041_000F) && Relocated(rom, 0xE041_000F, Plus(a, 8)) == [0xE041_000F]
    ensures Execute(core, rom, 0xE041_000F, a, m) != Execute(core, rom, 0xE041_000F, b, m)
  {
    hide Execute, Relocated, Plus, Minus, Reg, SetReg;
    SubCopied(core, rom, Plus(a, 8), a, m);
    SubCopied(core, rom, Plus(b, 8), b, m);
    Commuted(a, 8);
    Commuted(b, 8);
    PlusExact(8, a, b);
    PlusExact(Reg(m, 1), Plus(a, 8), Plus(b, 8));
    SetExact(m, 0, Minus(Reg(m, 1), Plus(a, 8)), Minus(Reg(m, 1), Plus(b, 8)));
  }

  // ----- the code

  /** The assignments to trampoline_instructions[trampoline_pos++]. */
  method WriteWords(words: seq<bv32>, trampolineInstructions: array<bv32>, trampolinePos: nat) returns (pos: nat)
    requires trampolinePos + |words| <= trampolineInstructions.Length
    modifies trampolineInstructions
    ensures pos == trampolinePos + |words|
    ensures trampolineInstructions[..pos] == old(trampolineInstructions[..trampolinePos]) + words
  {
    pos := trampolinePos;
    for i := 0 to |words|
      invariant pos == trampolinePos + i
      invariant trampolineInstructions[..pos] == old(trampolineInstructions[..trampolinePos]) + words[..i]
    {
      trampolineInstructions[pos] := words[i];
      pos := pos + 1;
    }
  }

  /** Write the words for one instruction. */
  method RelocateOne(rom: Words, instruction: bv32, pc: bv32, trampolineInstructions: array<bv32>, trampolinePos: nat)
    returns (pos: nat)
    requires trampolinePos + 6 <= trampolineInstructions.Length
    modifies trampolineInstructions
    ensures pos == trampolinePos + |Relocated(rom, instruction, pc)|
    ensures trampolineInstructions[..pos]
      == old(trampolineInstructions[..trampolinePos]) + Relocated(rom, instruction, pc)
  {
    hide Plus, BranchValue, LiteralValue, Rd, Rm, PushWord, PopWord, LoadWord, LoadWord8, WithBase, GetTypeInArm;
    pos := trampolinePos;
    var kind := GetTypeInArm(instruction);
    if kind == BLX_ARM || kind == BL_ARM || kind == B_ARM || kind == BX_ARM {
      var words := [0xE51F_F004, BranchValue(instruction, pc)];  // LDR PC, [PC, #-4]
      if kind == BLX_ARM || kind == BL_ARM {
        words := [0xE28F_E004] + words;                          // ADD LR, PC, #4
      }
      pos := WriteWords(words, trampolineInstructions, pos);
    } else if kind == ADD_ARM {
      var r := Spare(Rd(instruction), Rm(instruction));
      pos := WriteWords([PushWord(r), LoadWord8(r), WithBase(instruction, r), PopWord(r), 0xE28F_F000, pc],
                        trampolineInstructions, pos);            // ADD PC, PC
    } else if kind == ADR1_ARM || kind == ADR2_ARM || kind == LDR_ARM || kind == MOV_ARM {
      pos := WriteWords([LoadWord(Rd(instruction)), 0xE28F_F000, LiteralValue(rom, instruction, pc)],
                        trampolineInstructions, pos);
    } else {
      pos := WriteWords([instruction], trampolineInstructions, pos);
    }
  }

  /** relocateInstructionInArm: write the trampoline, and note where each instruction begins, here and there. */
  method RelocateInstructionInArm(rom: Words, targetAddr: bv32, origInstructions: seq<bv32>, length: bv32,
                                  trampolineInstructions: array<bv32>)
    returns (origBoundaries: seq<nat>, trampolineBoundaries: seq<nat>)
    requires Plus(targetAddr, length) == Offset(targetAddr, |origInstructions|)
    requires trampolineInstructions.Length >= 6 * |origInstructions| + 2
    modifies trampolineInstructions
    ensures |Trampoline(rom, targetAddr, origInstructions)| <= trampolineInstructions.Length
    ensures trampolineInstructions[..|Trampoline(rom, targetAddr, origInstructions)|]
      == Trampoline(rom, targetAddr, origInstructions)
    ensures |origBoundaries| == |trampolineBoundaries| == |origInstructions|
    ensures forall k :: 0 <= k < |origInstructions| ==>
      origBoundaries[k] == 4 * k && trampolineBoundaries[k] == 4 * |Body(rom, targetAddr, origInstructions, k)|
  {
    hide Plus, Relocated, Body;
    var pc, lr := Plus(targetAddr, 8), Plus(targetAddr, length);
    var trampolinePos: nat := 0;
    origBoundaries, trampolineBoundaries := [], [];
    BodyNext(rom, targetAddr, origInstructions);
    for origPos := 0 to |origInstructions|
      invariant pc == Plus(Offset(targetAddr, origPos), 8)
      invariant trampolinePos == |Body(rom, targetAddr, origInstructions, origPos)| <= 6 * origPos
      invariant trampolineInstructions[..trampolinePos] == Body(rom, targetAddr, origInstructions, origPos)
      invariant |origBoundaries| == |trampolineBoundaries| == origPos
      invariant forall k :: 0 <= k < origPos ==>
        origBoundaries[k] == 4 * k && trampolineBoundaries[k] == 4 * |Body(rom, targetAddr, origInstructions, k)|
    {
      origBoundaries := origBoundaries + [4 * origPos];
      trampolineBoundaries := trampolineBoundaries + [4 * trampolinePos];
      trampolinePos := RelocateOne(rom, origInstructions[origPos], pc, trampolineInstructions, trampolinePos);
      NextOffset(targetAddr, origPos);
      PlusEightFour(Offset(targetAddr, origPos));
      pc := Plus(pc, 4);
    }
    trampolineInstructions[trampolinePos] := 0xE51F_F004;  // LDR PC, [PC, #-4]
    trampolineInstructions[trampolinePos + 1] := lr;
    assert trampolineInstructions[..trampolinePos + 2]
        == trampolineInstructions[..trampolinePos] + [0xE51F_F004, Offset(targetAddr, |origInstructions|)];
  }

  lemma BodyNext(rom: Words, addr: bv32, code: seq<bv32>)
    ensures Body(rom, addr, code, 0) == []
    ensures forall k :: 0 <= k < |code| ==>
      Body(rom, addr, code, k + 1) == Body(rom, addr, code, k) + Relocated(rom, code[k], Plus(Offset(addr, k), 8))
  {
    hide Relocated, Plus;
  }

  lemma PlusEightFour(a: bv32)
    ensures Plus(Plus(a, 8), 4) == Plus(Plus(a, 4), 8)
  {
    hide Plus;
    Offsets(a);
  }
}
