/** The ARM instructions that the relocator knows, as the ARM Architecture Reference Manual (DDI 0406C) has
    them, section A8.8.  Only unconditional instructions are modelled. */
module Arm {

  /** A 32-bit word as the content of a map. */
  datatype Cell = Cell(bits: bv32)

  type Words = map<Cell, Cell>

  /** Everything but the program counter.  `mem` holds the words that have a value; what lies below the
      stack pointer has none. */
  datatype Machine = Machine(regs: Words, flags: bv32, mem: Words)

  datatype State = State(pc: bv32, m: Machine)

  /** The program goes on with the next instruction, or somewhere else.  Bit 0 of a target selects Thumb. */
  datatype Outcome = Next(m: Machine) | Jump(target: bv32, m: Machine)

  /** What the model takes as given: the shifter, and all instructions that are not spelt out below, with their
      address. */
  datatype Core = Core(shift: (bv32, bv32) -> bv32, other: (bv32, bv32, Machine) -> Outcome)

  /** Only instructions that read the program counter depend on their address. */
  ghost predicate Sound(core: Core) {
    forall ins, a, b, m :: !ReadsPc(ins) ==> core.other(ins, a, m) == core.other(ins, b, m)
  }

  const SP: bv32 := 13
  const LR: bv32 := 14
  const PC: bv32 := 15

  function Word(mem: Words, a: bv32): bv32 { if Cell(a) in mem then mem[Cell(a)].bits else 0 }

  function Reg(m: Machine, r: bv32): bv32 { if Cell(r) in m.regs then m.regs[Cell(r)].bits else 0 }

  function SetReg(m: Machine, r: bv32, v: bv32): Machine { m.(regs := m.regs[Cell(r) := Cell(v)]) }

  /** The result of an instruction goes to a register, or is jumped to. */
  function Write(m: Machine, r: bv32, v: bv32): Outcome {
    if r == PC then Jump(v, m) else Next(SetReg(m, r, v))
  }

  function Rd(ins: bv32): bv32 { (ins >> 12) & 0xF }
  function Rm(ins: bv32): bv32 { ins & 0xF }
  function Rn(ins: bv32): bv32 { (ins >> 16) & 0xF }

  /** The encodings that name the program counter where it is read (sections A5.1 to A5.7): as an operand, as a base,
      or as a register to be stored; and BLX of a register, which puts it into LR. */
  predicate ReadsPc(ins: bv32) {
    var rn, rd, rs, rm := Rn(ins), Rd(ins), (ins >> 8) & 0xF, Rm(ins);
    var load, op, group := ins & 0x10_0000 != 0, (ins >> 21) & 0xF, (ins >> 25) & 7;
    if ins >> 28 == 0xF then                                       // unconditional: preloads, LDC2, STC2
      rn == PC && group !in {0, 1, 5, 7}
    else if group == 0 && ins & 0xF0 == 0x90 then                  // multiplies, and SWP, LDREX, STREX
      if ins & 0x100_0000 == 0 then rm == PC || rs == PC else rn == PC
    else if group == 0 && ins & 0x90 == 0x90 then                  // other loads and stores
      rn == PC || (ins & 0x40_0000 == 0 && rm == PC) || (!load && rd == PC)
    else if group == 0 && ins & 0x190_0000 == 0x100_0000 then      // BX, BLX, MSR, CLZ and others
      rm == PC || ins & 0xF0 == 0x30
    else if group == 0 then                                        // data processing with a register
      (rn == PC && op != 13 && op != 15) || rm == PC || (ins & 0x10 != 0 && rs == PC)
    else if group == 1 then                                        // and with an immediate; MOVW, MOVT, MSR have no Rn
      rn == PC && op != 13 && op != 15 && ins & 0x190_0000 != 0x100_0000
    else if group == 2 then rn == PC || (!load && rd == PC)        // load and store
    else if group == 3 then                                        // the same with a register; media instructions
      ins & 0x10 == 0 && (rn == PC || rm == PC || (!load && rd == PC))
    else if group == 4 then rn == PC || (!load && ins & 0x8000 != 0)   // LDM, STM
    else if group == 6 then rn == PC                               // LDC, STC
    else group == 7 && ins & 0x110_0010 == 0x10 && rd == PC        // MCR
  }

  /** Addresses wrap around. */
  function Plus(a: bv32, b: bv32): bv32 { a + b }
  function Minus(a: bv32, b: bv32): bv32 { a - b }

  /** SignExtend(imm24:h:'0', 32), where h2 is the bit h in its place. */
  function BranchOffset(imm24: bv32, h2: bv32): bv32 {
    if imm24 < 0x80_0000 then (imm24 << 2) + h2 else (imm24 << 2) + h2 - 0x400_0000
  }

  /** ARMExpandImm: an 8-bit number rotated right by twice the upper four bits. */
  function ExpandImm(imm12: bv32): bv32 {
    var rotation, imm8 := 2 * ((imm12 >> 8) & 0xF), imm12 & 0xFF;
    if rotation == 0 then imm8 else (imm8 >> rotation) | (imm8 << (32 - rotation))
  }

  /** Execute the instruction at address pc.  Code and literals are read from `rom`, which never changes. */
  function Execute(core: Core, rom: Words, ins: bv32, pc: bv32, m: Machine): Outcome {
    if ins >> 24 == 0xEA then                          // B
      Jump(Plus(Plus(pc, 8), BranchOffset(ins & 0xFF_FFFF, 0)), m)
    else if ins >> 24 == 0xEB then                     // BL
      Jump(Plus(Plus(pc, 8), BranchOffset(ins & 0xFF_FFFF, 0)), SetReg(m, LR, Plus(pc, 4)))
    else if ins >> 24 == 0xFA then                     // BLX, to a word of Thumb code
      Jump(Plus(Plus(Plus(pc, 8), BranchOffset(ins & 0xFF_FFFF, 0)), 1), SetReg(m, LR, Plus(pc, 4)))
    else if ins >> 24 == 0xFB then                     // BLX, to the second half of a word
      Jump(Plus(Plus(Plus(pc, 8), BranchOffset(ins & 0xFF_FFFF, 2)), 1), SetReg(m, LR, Plus(pc, 4)))
    else if ins == 0xE12F_FF1F then                    // BX PC
      Jump(Plus(pc, 8), m)
    else if ins >> 16 == 0xE28F then                   // ADD Rd, PC, #imm
      Write(m, Rd(ins), Plus(Plus(pc, 8), ExpandImm(ins & 0xFFF)))
    else if ins >> 16 == 0xE24F then                   // SUB Rd, PC, #imm
      Write(m, Rd(ins), Minus(Plus(pc, 8), ExpandImm(ins & 0xFFF)))
    else if ins >> 16 == 0xE59F then                   // LDR Rt, [PC, #imm]
      Write(m, Rd(ins), Word(rom, Plus(Plus(pc, 8), ins & 0xFFF)))
    else if ins >> 16 == 0xE51F then                   // LDR Rt, [PC, #-imm]
      Write(m, Rd(ins), Word(rom, Minus(Plus(pc, 8), ins & 0xFFF)))
    else if ins & 0xFFFF_0FFF == 0xE1A0_000F then      // MOV Rd, PC
      Write(m, Rd(ins), Plus(pc, 8))
    else if ins & 0xFFF0_0010 == 0xE080_0000 then      // ADD Rd, Rn, Rm, shift
      Write(m, Rd(ins), Plus(if Rn(ins) == PC then Plus(pc, 8) else Reg(m, Rn(ins)),
                             core.shift(ins & 0xFE0, if Rm(ins) == PC then Plus(pc, 8) else Reg(m, Rm(ins)))))
    else if ins & 0xFFFF_0FFF == 0xE52D_0004 then      // PUSH {Rt}
      var sp := Minus(Reg(m, SP), 4);
      Next(SetReg(m, SP, sp).(mem := m.mem[Cell(sp) := Cell(Reg(m, Rd(ins)))]))
    else if ins & 0xFFFF_0FFF == 0xE49D_0004 then      // POP {Rt}
      var sp := Reg(m, SP);
      Write(SetReg(m, SP, Plus(sp, 4)).(mem := m.mem - {Cell(sp)}), Rd(ins), Word(m.mem, sp))
    else
      core.other(ins, pc, m)
  }

  /** One step of a program in `rom`. */
  function Step(core: Core, rom: Words, s: State): State {
    match Execute(core, rom, Word(rom, s.pc), s.pc, s.m)
    case Next(m) => State(Plus(s.pc, 4), m)
    case Jump(target, m) => State(target, m)
  }

  function Steps(core: Core, rom: Words, n: nat, s: State): State {
    if n == 0 then s else Steps(core, rom, n - 1, Step(core, rom, s))
  }

  lemma {:induction false} StepsTwice(core: Core, rom: Words, n: nat, k: nat, s: State)
    ensures Steps(core, rom, n + k, s) == Steps(core, rom, k, Steps(core, rom, n, s))
  {
    if n > 0 {
      StepsTwice(core, rom, n - 1, k, Step(core, rom, s));
    }
  }

  /** The address of the i-th word from a on. */
  function Offset(a: bv32, i: nat): bv32
    decreases i
  {
    if i == 0 then a else Plus(Offset(a, i - 1), 4)
  }

  lemma NextOffset(a: bv32, i: nat)
    ensures Offset(a, 0) == a && Offset(a, i + 1) == Plus(Offset(a, i), 4)
  {
  }

  lemma PlusFour(a: bv32, b: bv32)
    requires b == 4 || b == 8 || b == 12 || b == 16 || b == 20
    ensures Plus(Plus(a, b), 4) == Plus(a, b + 4)
  {
  }

  lemma PlusFourEight(a: bv32)
    ensures Plus(Plus(a, 4), 8) == Plus(a, 12)
  {
  }

  lemma PlusFourSixteen(a: bv32)
    ensures Plus(Plus(a, 4), 16) == Plus(a, 20)
  {
  }

  lemma PlusSixteenEight(a: bv32)
    ensures Plus(Plus(a, 16), 8) == Plus(a, 24)
  {
  }

  lemma Offsets(a: bv32)
    ensures Offset(a, 0) == a && Offset(a, 1) == Plus(a, 4) && Offset(a, 2) == Plus(a, 8) && Offset(a, 3) == Plus(a, 12)
    ensures Offset(a, 4) == Plus(a, 16) && Offset(a, 5) == Plus(a, 20) && Offset(a, 6) == Plus(a, 24)
    ensures Plus(Plus(a, 4), 4) == Plus(a, 8) && Plus(Plus(a, 4), 8) == Plus(a, 12)
    ensures Plus(Plus(a, 4), 16) == Plus(a, 20) && Plus(Plus(a, 16), 8) == Plus(a, 24)
    ensures Plus(Plus(a, 8), 4) == Plus(a, 12) && Plus(Plus(a, 12), 4) == Plus(a, 16)
  {
    hide *;
    NextOffset(a, 0);
    NextOffset(a, 1);
    NextOffset(a, 2);
    NextOffset(a, 3);
    NextOffset(a, 4);
    NextOffset(a, 5);
    PlusFour(a, 4);
    PlusFour(a, 8);
    PlusFour(a, 12);
    PlusFour(a, 16);
    PlusFour(a, 20);
    PlusFourEight(a);
    PlusFourSixteen(a);
    PlusSixteenEight(a);
  }

  lemma {:induction false} OffsetTwice(a: bv32, i: nat, j: nat)
    ensures Offset(Offset(a, i), j) == Offset(a, i + j)
    decreases j
  {
    if j > 0 {
      OffsetTwice(a, i, j - 1);
    }
  }

  /** The words are in memory from address a on. */
  predicate Placed(rom: Words, a: bv32, words: seq<bv32>) {
    forall i :: 0 <= i < |words| ==> Word(rom, Offset(a, i)) == words[i]
  }

  lemma PlacedPart(rom: Words, a: bv32, front: seq<bv32>, words: seq<bv32>, rest: seq<bv32>)
    requires Placed(rom, a, front + words + rest)
    ensures Placed(rom, Offset(a, |front|), words)
  {
    forall i | 0 <= i < |words|
      ensures Word(rom, Offset(Offset(a, |front|), i)) == words[i]
    {
      OffsetTwice(a, |front|, i);
      assert (front + words + rest)[|front| + i] == words[i];
    }
  }
}
