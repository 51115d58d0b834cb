/** Running the unwinding instructions of the ARM EHABI (exidxstep.cpp; section 9.3 of ARM IHI 0038B). */
module Unwind {
  import opened Bits

  const ARM_SP: nat := 13
  const ARM_LR: nat := 14
  const ARM_PC: nat := 15
  const NUM_REGS: nat := 17
  const STEP_PC_LR: int := -2
  const OP_FINISH: byte := 0xb0
  const WORD: nat := 0x1_0000_0000

  datatype Cmd =
    FINISH | DATA_PUSH | DATA_POP | REG_POP | REG_TO_SP | VFP_POP | WREG_POP | WCGR_POP | RESERVED | REFUSED

  /** A decoded instruction, and the index of the one after it. */
  datatype Op = Op(cmd: Cmd, data: nat, next: nat)

  /** Bytes behind the buffer read as zero here. */
  function ByteAt(buf: seq<byte>, i: nat): byte { if i < |buf| then buf[i] else 0 }

  predicate Bit(x: nat, i: nat) { Shr(x, i) % 2 == 1 }

  /** A number in uleb128 at index i, and the index behind it. */
  function Uleb128(buf: seq<byte>, i: nat): (nat, nat)
    decreases |buf| - i
  {
    var b := ByteAt(buf, i);
    if b < 0x80 then (b, i + 1)
    else
      var (rest, next) := Uleb128(buf, i + 1);
      (b % 0x80 + 0x80 * rest, next)
  }

  lemma {:induction false} UlebForward(buf: seq<byte>, i: nat)
    ensures i < Uleb128(buf, i).1
    decreases |buf| - i
  {
    if ByteAt(buf, i) >= 0x80 {
      UlebForward(buf, i + 1);
    }
  }

  /** The instruction at index i, by the table of section 9.3. */
  function DecodeOp(buf: seq<byte>, i: nat): (op: Op)
    requires i < |buf|
    ensures op.next > i
  {
    var b, b2 := buf[i], ByteAt(buf, i + 1);
    if b < 0x40 then Op(DATA_POP, b % 0x40 * 4 + 4, i + 1)
    else if b < 0x80 then Op(DATA_PUSH, b % 0x40 * 4 + 4, i + 1)
    else if b < 0x90 then
      if b == 0x80 && b2 == 0 then Op(REFUSED, 0, i + 2) else Op(REG_POP, (b % 0x10 * 0x100 + b2) * 0x10, i + 2)
    else if b < 0xa0 then
      if b == 0x9d || b == 0x9f then Op(RESERVED, 0, i + 1) else Op(REG_TO_SP, b % 0x10, i + 1)
    else if b < 0xb0 then
      Op(REG_POP, (Pow2(b % 8 + 1) - 1) * 0x10 + (if b / 8 % 2 == 1 then 0x4000 else 0), i + 1)
    else if b == OP_FINISH then Op(FINISH, 0, |buf|)
    else if b == 0xb1 then
      if b2 == 0 || b2 >= 0x10 then Op(RESERVED, 0, i + 2) else Op(REG_POP, b2 % 0x10, i + 2)
    else if b == 0xb2 then
      UlebForward(buf, i + 1);
      Op(DATA_POP, (Uleb128(buf, i + 1).0 * 4 + 0x204) % WORD, Uleb128(buf, i + 1).1)
    else if b == 0xb3 || b == 0xc8 || b == 0xc9 then
      Op(VFP_POP, b2 as nat + (if b == 0xc8 then 0x1_0000 else 0) + (if b != 0xb3 then 0x2_0000 else 0), i + 2)
    else if 0xb8 <= b < 0xc0 || 0xd0 <= b < 0xd8 then
      Op(VFP_POP, 0x80 + b % 8 + (if b >= 0xd0 then 0x2_0000 else 0), i + 1)
    else if 0xc0 <= b <= 0xc5 then Op(WREG_POP, 0xa0 + b % 8, i + 1)
    else if b == 0xc6 then Op(WREG_POP, b2, i + 2)
    else if b == 0xc7 then
      if b2 == 0 || b2 >= 0x10 then Op(RESERVED, 0, i + 2) else Op(WCGR_POP, b2 % 0x10, i + 2)
    else Op(RESERVED, 0, i + 1)
  }

  // ----- what an instruction does

  function Load(mem: map<nat, nat>, a: nat): nat { if a in mem then mem[a] % WORD else 0 }

  function AddSp(regs: seq<nat>, n: int): seq<nat>
    requires |regs| == NUM_REGS
  {
    regs[ARM_SP := (regs[ARM_SP] + n) % WORD]
  }

  /** Pop the registers of the mask, from r[i] on. */
  function PopRegs(mask: nat, i: nat, regs: seq<nat>, mem: map<nat, nat>): (r: seq<nat>)
    requires |regs| == NUM_REGS && i <= 16
    ensures |r| == NUM_REGS
    decreases 16 - i
  {
    if i == 16 then regs
    else if Bit(mask, i) then PopRegs(mask, i + 1, AddSp(regs[i := Load(mem, regs[ARM_SP])], 4), mem)
    else PopRegs(mask, i + 1, regs, mem)
  }

  datatype Cursor = Cursor(regs: seq<nat>, stepStatus: int)

  datatype Outcome = Done(c: Cursor) | Failed(c: Cursor)

  /** arm_exidx_apply_cmd.  Pops of coprocessor registers do nothing. */
  function Apply(op: Op, c: Cursor, mem: map<nat, nat>): (r: Outcome)
    requires |c.regs| == NUM_REGS && (op.cmd == REG_TO_SP ==> op.data < NUM_REGS)
    ensures |r.c.regs| == NUM_REGS
  {
    match op.cmd
    case FINISH =>
      if c.regs[ARM_PC] == c.regs[ARM_LR] then Done(c.(stepStatus := STEP_PC_LR))
      else Done(c.(regs := c.regs[ARM_PC := c.regs[ARM_LR]]))
    case DATA_PUSH => Done(c.(regs := AddSp(c.regs, -(op.data as int))))
    case DATA_POP => Done(c.(regs := AddSp(c.regs, op.data)))
    case REG_POP => Done(c.(regs := PopRegs(op.data, 0, c.regs, mem)))
    case REG_TO_SP => Done(c.(regs := c.regs[ARM_SP := c.regs[op.data]]))
    case RESERVED => Failed(c)
    case REFUSED => Failed(c)
    case _ => Done(c)
  }

  /** arm_exidx_decode from index i on. */
  function Run(buf: seq<byte>, i: nat, c: Cursor, mem: map<nat, nat>): (r: Outcome)
    requires |c.regs| == NUM_REGS
    ensures |r.c.regs| == NUM_REGS
    decreases |buf| - i
  {
    if i >= |buf| then Done(c)
    else match Apply(DecodeOp(buf, i), c, mem)
      case Failed(c') => Failed(c')
      case Done(c') => Run(buf, DecodeOp(buf, i).next, c', mem)
  }

  // ----- frames

  function Words(mask: nat, i: nat): nat
    requires i <= 16
    decreases 16 - i
  {
    if i == 16 then 0 else (if Bit(mask, i) then 1 else 0) + Words(mask, i + 1)
  }

  /** The registers of the mask, from r[i] on, are in memory from address a on. */
  predicate Saved(mask: nat, i: nat, a: nat, regs: seq<nat>, mem: map<nat, nat>)
    requires |regs| == NUM_REGS && i <= 16
    decreases 16 - i
  {
    i == 16 || if Bit(mask, i) then a in mem && mem[a] == regs[i] < WORD && Saved(mask, i + 1, a + 4, regs, mem)
               else Saved(mask, i + 1, a, regs, mem)
  }

  /** The registers that a prologue pushes at once: r4 to r11 and lr, or some of r0 to r3. */
  predicate Pushable(mask: nat) {
    mask < 0x8000 && !Bit(mask, 12) && !Bit(mask, 13) && (mask % 0x10 == 0 || mask < 0x10)
  }

  /** regs' has the values of `saved` in the registers of the mask from r[i] on, and the stack pointer sp; it
      is as regs elsewhere. */
  predicate Restored(mask: nat, i: nat, saved: seq<nat>, sp: nat, regs: seq<nat>, regs': seq<nat>)
    requires |saved| == |regs| == |regs'| == NUM_REGS
  {
    && regs'[ARM_SP] == sp
    && (forall k :: i <= k < 16 && k != ARM_SP && Bit(mask, k) ==> regs'[k] == saved[k])
    && (forall k :: 0 <= k < NUM_REGS && k != ARM_SP && !(i <= k < 16 && Bit(mask, k)) ==> regs'[k] == regs[k])
  }

  lemma {:induction false} PopRestores(mask: nat, i: nat, saved: seq<nat>, regs: seq<nat>, mem: map<nat, nat>)
    requires |saved| == |regs| == NUM_REGS && i <= 16 && !Bit(mask, ARM_SP)
    requires Saved(mask, i, regs[ARM_SP], saved, mem) && regs[ARM_SP] + 4 * Words(mask, i) < WORD
    ensures Restored(mask, i, saved, regs[ARM_SP] + 4 * Words(mask, i), regs, PopRegs(mask, i, regs, mem))
    decreases 16 - i
  {
    hide Bit, Restored, AddSp;
    if i == 16 {
      NoneRestored(mask, saved, regs);
    } else if Bit(mask, i) {
      var regs' := AddSp(regs[i := Load(mem, regs[ARM_SP])], 4);
      OnePopped(regs, i, Load(mem, regs[ARM_SP]));
      PopRestores(mask, i + 1, saved, regs', mem);
      RestoredPop(mask, i, saved, regs[ARM_SP] + 4 * Words(mask, i), regs, regs', PopRegs(mask, i, regs, mem));
    } else {
      PopRestores(mask, i + 1, saved, regs, mem);
      RestoredSkip(mask, i, saved, regs[ARM_SP] + 4 * Words(mask, i), regs, PopRegs(mask, i, regs, mem));
    }
  }

  lemma NoneRestored(mask: nat, saved: seq<nat>, regs: seq<nat>)
    requires |saved| == |regs| == NUM_REGS
    ensures Restored(mask, 16, saved, regs[ARM_SP], regs, regs)
  {
  }

  lemma OnePopped(regs: seq<nat>, i: nat, v: nat)
    requires |regs| == NUM_REGS && i < 16 && i != ARM_SP && regs[ARM_SP] + 4 < WORD
    ensures AddSp(regs[i := v], 4) == regs[i := v][ARM_SP := regs[ARM_SP] + 4]
  {
  }

  lemma RestoredPop(mask: nat, i: nat, saved: seq<nat>, sp: nat, regs: seq<nat>, regs': seq<nat>, r: seq<nat>)
    requires |saved| == |regs| == |r| == NUM_REGS && i < 16 && i != ARM_SP && Bit(mask, i)
    requires regs' == regs[i := saved[i]][ARM_SP := regs[ARM_SP] + 4] && Restored(mask, i + 1, saved, sp, regs', r)
    ensures Restored(mask, i, saved, sp, regs, r)
  {
    hide Bit;
  }

  lemma RestoredSkip(mask: nat, i: nat, saved: seq<nat>, sp: nat, regs: seq<nat>, r: seq<nat>)
    requires |saved| == |regs| == |r| == NUM_REGS && i < 16 && !Bit(mask, i)
    requires Restored(mask, i + 1, saved, sp, regs, r)
    ensures Restored(mask, i, saved, sp, regs, r)
  {
    hide Bit;
  }

  /** What a prologue's push stores from address a on. */
  function Pushed(mask: nat, i: nat, a: nat, regs: seq<nat>, mem: map<nat, nat>): map<nat, nat>
    requires |regs| == NUM_REGS && i <= 16
    decreases 16 - i
  {
    if i == 16 then mem
    else if Bit(mask, i) then Pushed(mask, i + 1, a + 4, regs, mem)[a := regs[i]]
    else Pushed(mask, i + 1, a, regs, mem)
  }

  /** Only the words from a on matter. */
  lemma {:induction false} SavedElsewhere(mask: nat, i: nat, a: nat, regs: seq<nat>,
                                          mem: map<nat, nat>, mem': map<nat, nat>)
    requires |regs| == NUM_REGS && i <= 16 && Saved(mask, i, a, regs, mem)
    requires forall b :: a <= b < a + 4 * Words(mask, i) && b in mem ==> b in mem' && mem'[b] == mem[b]
    ensures Saved(mask, i, a, regs, mem')
    decreases 16 - i
  {
    hide Bit;
    if i < 16 {
      SavedElsewhere(mask, i + 1, if Bit(mask, i) then a + 4 else a, regs, mem, mem');
    }
  }

  lemma {:induction false} PushSaves(mask: nat, i: nat, a: nat, regs: seq<nat>, mem: map<nat, nat>)
    requires |regs| == NUM_REGS && i <= 16 && forall k :: 0 <= k < 16 ==> regs[k] < WORD
    ensures Saved(mask, i, a, regs, Pushed(mask, i, a, regs, mem))
    decreases 16 - i
  {
    hide Bit;
    if i < 16 {
      if Bit(mask, i) {
        PushSaves(mask, i + 1, a + 4, regs, mem);
        var below := Pushed(mask, i + 1, a + 4, regs, mem);
        SavedElsewhere(mask, i + 1, a + 4, regs, below, below[a := regs[i]]);
      } else {
        PushSaves(mask, i + 1, a, regs, mem);
      }
    }
  }

  // ----- the bytes an assembler makes for a frame

  function UlebBytes(x: nat): seq<byte> { if x < 0x80 then [x] else [x % 0x80 + 0x80] + UlebBytes(x / 0x80) }

  /** vsp = vsp + n */
  function AdjustBytes(n: nat): seq<byte>
    requires n % 4 == 0
  {
    if n == 0 then []
    else if n <= 0x100 then [(n - 1) / 4 % 0x40]
    else if n <= 0x200 then [0x3f, (n - 0x101) / 4 % 0x40]
    else [0xb2] + UlebBytes((n - 0x204) / 4)
  }

  function ShortMask(k: nat): nat
    requires k < 16
  {
    (Pow2(k % 8 + 1) - 1) * 0x10 + (if k / 8 == 1 then 0x4000 else 0)
  }

  /** vsp = vsp - n */
  function LowerBytes(n: nat): seq<byte>
    requires n % 4 == 0
  {
    if n == 0 then [] else if n <= 0x100 then [0x40 + (n / 4 - 1)] else [0x7f] + LowerBytes(n - 0x100)
  }

  /** Pop the registers of the mask: r0 to r3, or others, in two bytes; or in one if they are r4 up to some other, with
      or without lr. */
  predicate PopBytes(mask: nat, bytes: seq<byte>) {
    if mask == 0 then bytes == []
    else if mask < 0x10 then bytes == [0xb1, mask]
    else
      || bytes == [0x80 + mask / 0x1000 % 0x10, mask / 0x10 % 0x100]
      || exists k :: 0 <= k < 16 && ShortMask(k) == mask && bytes == [0xa0 + k]
  }

  lemma {:induction false} UlebReads(buf: seq<byte>, i: nat, x: nat)
    requires i + |UlebBytes(x)| <= |buf| && buf[i..i + |UlebBytes(x)|] == UlebBytes(x)
    ensures Uleb128(buf, i) == (x, i + |UlebBytes(x)|)
    decreases x
  {
    assert buf[i] == UlebBytes(x)[0];
    if x >= 0x80 {
      assert buf[i + 1..i + |UlebBytes(x)|] == UlebBytes(x)[1..] == UlebBytes(x / 0x80);
      UlebReads(buf, i + 1, x / 0x80);
    }
  }

  lemma RunStep(buf: seq<byte>, i: nat, c: Cursor, mem: map<nat, nat>)
    requires |c.regs| == NUM_REGS && i < |buf|
    ensures Apply(DecodeOp(buf, i), c, mem).Done? ==>
      Run(buf, i, c, mem) == Run(buf, DecodeOp(buf, i).next, Apply(DecodeOp(buf, i), c, mem).c, mem)
  {
    hide DecodeOp, Apply;
  }

  lemma DecodeAdd(buf: seq<byte>, i: nat)
    requires i < |buf|
    ensures buf[i] < 0x40 ==> DecodeOp(buf, i) == Op(DATA_POP, 4 * buf[i] as nat + 4, i + 1)
    ensures buf[i] == 0xb2 ==>
      DecodeOp(buf, i) == Op(DATA_POP, (Uleb128(buf, i + 1).0 * 4 + 0x204) % WORD, Uleb128(buf, i + 1).1)
  {
  }

  lemma RunAdd(buf: seq<byte>, i: nat, n: nat, c: Cursor, mem: map<nat, nat>)
    requires |c.regs| == NUM_REGS && i < |buf| && DecodeOp(buf, i).cmd == DATA_POP && DecodeOp(buf, i).data == n
    requires c.regs[ARM_SP] + n < WORD
    ensures Run(buf, i, c, mem)
      == Run(buf, DecodeOp(buf, i).next, c.(regs := c.regs[ARM_SP := c.regs[ARM_SP] + n]), mem)
  {
    hide DecodeOp, Run;
    RunStep(buf, i, c, mem);
  }

  lemma RunAdjust(buf: seq<byte>, i: nat, n: nat, c: Cursor, mem: map<nat, nat>)
    requires |c.regs| == NUM_REGS && n % 4 == 0 && c.regs[ARM_SP] + n < WORD
    requires i + |AdjustBytes(n)| <= |buf| && buf[i..i + |AdjustBytes(n)|] == AdjustBytes(n)
    ensures Run(buf, i, c, mem) == Run(buf, i + |AdjustBytes(n)|, c.(regs := c.regs[ARM_SP := c.regs[ARM_SP] + n]), mem)
  {
    hide Run, DecodeOp, Uleb128, UlebBytes;
    if n == 0 {
      assert c.regs[ARM_SP := c.regs[ARM_SP]] == c.regs;
    } else {
      assert buf[i] == AdjustBytes(n)[0];
      DecodeAdd(buf, i);
      if n <= 0x100 {
        RunAdd(buf, i, n, c, mem);
      } else if n <= 0x200 {
        var c' := c.(regs := c.regs[ARM_SP := c.regs[ARM_SP] + 0x100]);
        assert buf[i + 1] == AdjustBytes(n)[1];
        DecodeAdd(buf, i + 1);
        RunAdd(buf, i, 0x100, c, mem);
        RunAdd(buf, i + 1, n - 0x100, c', mem);
        assert c'.regs[ARM_SP := c.regs[ARM_SP] + n] == c.regs[ARM_SP := c.regs[ARM_SP] + n];
      } else {
        assert buf[i + 1..i + |AdjustBytes(n)|] == UlebBytes((n - 0x204) / 4);
        UlebReads(buf, i + 1, (n - 0x204) / 4);
        RunAdd(buf, i, n, c, mem);
      }
    }
  }

  lemma LowerFirst(n: nat)
    requires n % 4 == 0
    ensures n == 0 ==> LowerBytes(n) == []
    ensures 0 < n <= 0x100 ==> |LowerBytes(n)| == 1 && 0x40 <= LowerBytes(n)[0] == 0x40 + n / 4 - 1 < 0x80
    ensures n > 0x100 ==> LowerBytes(n) == [0x7f] + LowerBytes(n - 0x100)
  {
  }

  lemma {:induction false} RunLower(buf: seq<byte>, i: nat, n: nat, c: Cursor, mem: map<nat, nat>)
    requires |c.regs| == NUM_REGS && n % 4 == 0 && n <= c.regs[ARM_SP] < WORD
    requires i + |LowerBytes(n)| <= |buf| && buf[i..i + |LowerBytes(n)|] == LowerBytes(n)
    ensures Run(buf, i, c, mem) == Run(buf, i + |LowerBytes(n)|, c.(regs := c.regs[ARM_SP := c.regs[ARM_SP] - n]), mem)
    decreases n
  {
    hide Run, DecodeOp, LowerBytes;
    LowerFirst(n);
    if n == 0 {
      assert c.regs[ARM_SP := c.regs[ARM_SP]] == c.regs;
    } else {
      assert buf[i] == LowerBytes(n)[0];
      DecodeLower(buf, i);
      RunStep(buf, i, c, mem);
      if n > 0x100 {
        var c' := c.(regs := c.regs[ARM_SP := c.regs[ARM_SP] - 0x100]);
        assert buf[i + 1..i + |LowerBytes(n)|] == LowerBytes(n)[1..] == LowerBytes(n - 0x100);
        RunLower(buf, i + 1, n - 0x100, c', mem);
        assert c'.regs[ARM_SP := c.regs[ARM_SP] - n] == c.regs[ARM_SP := c.regs[ARM_SP] - n];
      }
    }
  }

  lemma DecodeLower(buf: seq<byte>, i: nat)
    requires i < |buf| && 0x40 <= buf[i] < 0x80
    ensures DecodeOp(buf, i) == Op(DATA_PUSH, 4 * (buf[i] - 0x40) as nat + 4, i + 1)
  {
  }

  lemma DecodeToSp(buf: seq<byte>, i: nat, n: nat)
    requires i < |buf| && n < 16 && n != ARM_SP && n != ARM_PC && buf[i] == 0x90 + n
    ensures DecodeOp(buf, i) == Op(REG_TO_SP, n, i + 1)
  {
  }

  lemma DecodePopLow(buf: seq<byte>, i: nat, mask: nat)
    requires i + 1 < |buf| && buf[i] == 0xb1 && 0 < mask < 0x10 && buf[i + 1] == mask
    ensures DecodeOp(buf, i) == Op(REG_POP, mask, i + 2)
  {
  }

  lemma DecodePopPair(buf: seq<byte>, i: nat)
    requires i + 1 < |buf| && 0x80 <= buf[i] < 0x90 && !(buf[i] == 0x80 && buf[i + 1] == 0)
    ensures DecodeOp(buf, i) == Op(REG_POP, ((buf[i] - 0x80) as nat * 0x100 + buf[i + 1] as nat) * 0x10, i + 2)
  {
  }

  lemma DecodePopRow(buf: seq<byte>, i: nat, k: nat)
    requires i < |buf| && k < 16 && buf[i] == 0xa0 + k
    ensures DecodeOp(buf, i) == Op(REG_POP, ShortMask(k), i + 1)
  {
    assert (0xa0 + k) % 8 == k % 8 && (0xa0 + k) / 8 % 2 == k / 8;
  }

  lemma PopDecodes(buf: seq<byte>, i: nat, mask: nat, bytes: seq<byte>)
    requires Pushable(mask) && mask != 0 && PopBytes(mask, bytes)
    requires i + |bytes| <= |buf| && buf[i..i + |bytes|] == bytes
    ensures DecodeOp(buf, i) == Op(REG_POP, mask, i + |bytes|)
  {
    hide DecodeOp, ShortMask, Bit;
    assert buf[i] == bytes[0];
    if mask < 0x10 {
      assert buf[i + 1] == bytes[1];
      DecodePopLow(buf, i, mask);
    } else if |bytes| == 2 {
      assert buf[i + 1] == bytes[1];
      DecodePopPair(buf, i);
    } else {
      var k :| 0 <= k < 16 && ShortMask(k) == mask && bytes == [0xa0 + k];
      DecodePopRow(buf, i, k);
    }
  }

  // ----- prologues

  /** What a prologue does: push registers, or lower the stack pointer. */
  datatype Step = Push(mask: nat) | Lower(n: nat)

  /** The bytes that undo a step. */
  predicate Undoes(step: Step, bytes: seq<byte>) {
    match step
    case Push(mask) => Pushable(mask) && PopBytes(mask, bytes)
    case Lower(n) => n % 4 == 0 && bytes == AdjustBytes(n)
  }

  /** And those that undo all of them, the last one first. */
  predicate AllUndone(steps: seq<Step>, undos: seq<seq<byte>>) {
    |steps| == |undos| && forall k :: 0 <= k < |steps| ==> Undoes(steps[k], undos[k])
  }

  function Backwards(undos: seq<seq<byte>>): seq<byte> {
    if undos == [] then [] else undos[|undos| - 1] + Backwards(undos[..|undos| - 1])
  }

  /** How far a step lowers the stack pointer, */
  function Depth(step: Step): nat {
    match step
    case Push(mask) => 4 * Words(mask, 0)
    case Lower(n) => n
  }

  /** and all of them. */
  function Depths(steps: seq<Step>): nat {
    if steps == [] then 0 else Depths(steps[..|steps| - 1]) + Depth(steps[|steps| - 1])
  }

  /** The memory after a prologue that begins with the stack pointer sp. */
  function Entered(steps: seq<Step>, sp: nat, caller: seq<nat>, mem: map<nat, nat>): map<nat, nat>
    requires |caller| == NUM_REGS && Depths(steps) <= sp
  {
    if steps == [] then mem
    else
      var n := |steps| - 1;
      var before := Entered(steps[..n], sp, caller, mem);
      match steps[n]
      case Push(mask) => Pushed(mask, 0, sp - Depths(steps), caller, before)
      case Lower(_) => before
  }

  predicate Pushes(steps: seq<Step>, r: nat) {
    exists k :: 0 <= k < |steps| && steps[k].Push? && Bit(steps[k].mask, r)
  }

  /** All registers that have been pushed are where they have been pushed to. */
  predicate Kept(steps: seq<Step>, sp: nat, caller: seq<nat>, mem: map<nat, nat>)
    requires |caller| == NUM_REGS && Depths(steps) <= sp
  {
    steps == [] ||
    var n := |steps| - 1;
    && Kept(steps[..n], sp, caller, mem)
    && (steps[n].Push? ==> Saved(steps[n].mask, 0, sp - Depths(steps), caller, mem))
  }

  lemma {:induction false} PushedElsewhere(mask: nat, i: nat, a: nat, regs: seq<nat>, mem: map<nat, nat>, b: nat)
    requires |regs| == NUM_REGS && i <= 16 && !(a <= b < a + 4 * Words(mask, i))
    ensures var mem' := Pushed(mask, i, a, regs, mem); (b in mem' <==> b in mem) && (b in mem ==> mem'[b] == mem[b])
    decreases 16 - i
  {
    hide Bit;
    if i < 16 {
      PushedElsewhere(mask, i + 1, if Bit(mask, i) then a + 4 else a, regs, mem, b);
    }
  }

  /** A prologue keeps the registers it pushes, and so does what comes after, if it leaves the frame alone. */
  lemma {:induction false} EnteredKept(steps: seq<Step>, sp: nat, caller: seq<nat>, mem0: map<nat, nat>,
                                       mem: map<nat, nat>)
    requires |caller| == NUM_REGS && Depths(steps) <= sp && forall k :: 0 <= k < 16 ==> caller[k] < WORD
    requires var mem1 := Entered(steps, sp, caller, mem0);
      forall b :: sp - Depths(steps) <= b < sp && b in mem1 ==> b in mem && mem[b] == mem1[b]
    ensures Kept(steps, sp, caller, mem)
    decreases |steps|
  {
    hide Pushed, Saved, Words;
    if steps != [] {
      var n := |steps| - 1;
      var before, after := Entered(steps[..n], sp, caller, mem0), Entered(steps, sp, caller, mem0);
      var a := sp - Depths(steps);
      if steps[n].Push? {
        forall b | sp - Depths(steps[..n]) <= b < sp && b in before
          ensures b in mem && mem[b] == before[b]
        {
          PushedElsewhere(steps[n].mask, 0, a, caller, before, b);
        }
        PushSaves(steps[n].mask, 0, a, caller, before);
        SavedElsewhere(steps[n].mask, 0, a, caller, after, mem);
      }
      EnteredKept(steps[..n], sp, caller, mem0, mem);
    }
  }

  /** Undoing one step. */
  lemma UndoStep(buf: seq<byte>, i: nat, step: Step, bytes: seq<byte>, caller: seq<nat>, c: Cursor, mem: map<nat, nat>)
    returns (c': Cursor)
    requires |caller| == |c.regs| == NUM_REGS && Undoes(step, bytes) && c.regs[ARM_SP] + Depth(step) < WORD
    requires i + |bytes| <= |buf| && buf[i..i + |bytes|] == bytes
    requires step.Push? ==> Saved(step.mask, 0, c.regs[ARM_SP], caller, mem)
    ensures |c'.regs| == NUM_REGS && c'.stepStatus == c.stepStatus
    ensures Run(buf, i, c, mem) == Run(buf, i + |bytes|, c', mem)
    ensures c'.regs[ARM_SP] == c.regs[ARM_SP] + Depth(step)
    ensures forall r :: 0 <= r < NUM_REGS && r != ARM_SP ==>
      c'.regs[r] == if r < 16 && step.Push? && Bit(step.mask, r) then caller[r] else c.regs[r]
  {
    hide Run, DecodeOp, PopBytes, Bit, Saved, Words, Apply;
    match step
    case Lower(n) =>
      RunAdjust(buf, i, n, c, mem);
      c' := c.(regs := c.regs[ARM_SP := c.regs[ARM_SP] + n]);
    case Push(mask) =>
      PopRestores(mask, 0, caller, c.regs, mem);
      c' := c.(regs := PopRegs(mask, 0, c.regs, mem));
      if mask == 0 {
        NothingPopped(bytes, c.regs, mem);
      } else {
        PopDecodes(buf, i, mask, bytes);
        RunPop(buf, i, mask, i + |bytes|, c, mem);
      }
  }

  lemma RunPop(buf: seq<byte>, i: nat, mask: nat, next: nat, c: Cursor, mem: map<nat, nat>)
    requires |c.regs| == NUM_REGS && i < |buf| && DecodeOp(buf, i) == Op(REG_POP, mask, next)
    ensures Run(buf, i, c, mem) == Run(buf, next, c.(regs := PopRegs(mask, 0, c.regs, mem)), mem)
  {
    hide Run, DecodeOp, PopRegs;
    RunStep(buf, i, c, mem);
  }

  /** Undoing a whole prologue. */
  lemma {:induction false} UndoSteps(buf: seq<byte>, i: nat, steps: seq<Step>, undos: seq<seq<byte>>, caller: seq<nat>,
                                     c: Cursor, mem: map<nat, nat>)
    returns (c': Cursor)
    requires |caller| == |c.regs| == NUM_REGS && AllUndone(steps, undos)
    requires c.regs[ARM_SP] + Depths(steps) == caller[ARM_SP] < WORD && Kept(steps, caller[ARM_SP], caller, mem)
    requires i + |Backwards(undos)| <= |buf| && buf[i..i + |Backwards(undos)|] == Backwards(undos)
    ensures |c'.regs| == NUM_REGS && c'.stepStatus == c.stepStatus
    ensures Run(buf, i, c, mem) == Run(buf, i + |Backwards(undos)|, c', mem)
    ensures c'.regs[ARM_SP] == caller[ARM_SP]
    ensures forall r :: 0 <= r < NUM_REGS && r != ARM_SP ==>
      c'.regs[r] == if r < 16 && Pushes(steps, r) then caller[r] else c.regs[r]
    decreases |steps|
  {
    hide Run, Undoes, Bit, Saved, Depth;
    if steps == [] {
      c' := c;
    } else {
      var n := |steps| - 1;
      var bytes, rest := undos[n], Backwards(undos[..n]);
      assert buf[i..i + |bytes|] == bytes && buf[i + |bytes|..i + |bytes| + |rest|] == rest by {
        assert Backwards(undos) == bytes + rest;
        assert buf[i..i + |bytes|] == buf[i..i + |Backwards(undos)|][..|bytes|];
        assert buf[i + |bytes|..i + |bytes| + |rest|] == buf[i..i + |Backwards(undos)|][|bytes|..];
      }
      var c1 := UndoStep(buf, i, steps[n], bytes, caller, c, mem);
      c' := UndoSteps(buf, i + |bytes|, steps[..n], undos[..n], caller, c1, mem);
      forall r | 0 <= r < 16
        ensures Pushes(steps, r) <==> Pushes(steps[..n], r) || (steps[n].Push? && Bit(steps[n].mask, r))
      {
        PushesMore(steps, r);
      }
    }
  }

  lemma PushesMore(steps: seq<Step>, r: nat)
    requires steps != []
    ensures var n := |steps| - 1;
      Pushes(steps, r) <==> Pushes(steps[..n], r) || (steps[n].Push? && Bit(steps[n].mask, r))
  {
    hide Bit;
    var n := |steps| - 1;
    if Pushes(steps[..n], r) {
      var k :| 0 <= k < n && steps[..n][k].Push? && Bit(steps[..n][k].mask, r);
      assert steps[k] == steps[..n][k];
    }
    if Pushes(steps, r) && !(steps[n].Push? && Bit(steps[n].mask, r)) {
      var k :| 0 <= k < |steps| && steps[k].Push? && Bit(steps[k].mask, r);
      assert steps[..n][k] == steps[k];
    }
  }

  /** The caller's registers are back, and the program counter is lr; the others are as before. */
  predicate Returned(steps: seq<Step>, caller: seq<nat>, c: Cursor, r: Outcome)
    requires |caller| == |c.regs| == |r.c.regs| == NUM_REGS
  {
    && r.Done? && r.c.regs[ARM_SP] == caller[ARM_SP] && r.c.regs[ARM_PC] == r.c.regs[ARM_LR]
    && (forall k :: 0 <= k < 15 && k != ARM_SP ==> r.c.regs[k] == if Pushes(steps, k) then caller[k] else c.regs[k])
    && r.c.stepStatus == if c.regs[ARM_PC] == r.c.regs[ARM_LR] then -2 else c.stepStatus
  }

  lemma UndoAndFinish(buf: seq<byte>, i: nat, steps: seq<Step>, undos: seq<seq<byte>>, caller: seq<nat>,
                      c: Cursor, mem: map<nat, nat>)
    requires |caller| == |c.regs| == NUM_REGS && AllUndone(steps, undos)
    requires c.regs[ARM_SP] + Depths(steps) == caller[ARM_SP] < WORD && Kept(steps, caller[ARM_SP], caller, mem)
    requires i <= |buf| && buf[i..] == Backwards(undos) + [OP_FINISH]
    ensures Returned(steps, caller, c, Run(buf, i, c, mem))
  {
    hide Run, Kept, Depths, Pushes, AllUndone;
    var n := |Backwards(undos)|;
    assert buf[i..i + n] == buf[i..][..n] && buf[|buf| - 1] == buf[i..][n];
    var c' := UndoSteps(buf, i, steps, undos, caller, c, mem);
    NoPc(steps, undos);
    RunFinish(buf, c', mem);
  }

  lemma NoPc(steps: seq<Step>, undos: seq<seq<byte>>)
    requires AllUndone(steps, undos)
    ensures !Pushes(steps, ARM_PC)
  {
    hide PopBytes;
    forall k | 0 <= k < |steps| && steps[k].Push?
      ensures !Bit(steps[k].mask, ARM_PC)
    {
      assert Undoes(steps[k], undos[k]);
      SmallPowers();
      ShrBound(steps[k].mask, 15, 0);
    }
  }

  /** Whatever a prologue has pushed, and however far it has lowered the stack pointer, before, between and after: the
      matching instructions, backwards, bring the stack pointer and the pushed registers back to what they were before,
      and the program counter to the saved lr. */
  lemma UnwindingUndoesPrologue(steps: seq<Step>, undos: seq<seq<byte>>, caller: seq<nat>, mem0: map<nat, nat>,
                                c: Cursor, mem: map<nat, nat>)
    requires |caller| == |c.regs| == NUM_REGS && forall k :: 0 <= k < 16 ==> caller[k] < WORD
    requires AllUndone(steps, undos) && c.regs[ARM_SP] + Depths(steps) == caller[ARM_SP]
    requires var mem1 := Entered(steps, caller[ARM_SP], caller, mem0);
      forall b :: c.regs[ARM_SP] <= b < caller[ARM_SP] && b in mem1 ==> b in mem && mem[b] == mem1[b]
    ensures Returned(steps, caller, c, Run(Backwards(undos) + [OP_FINISH], 0, c, mem))
  {
    hide Run, Kept, Entered, AllUndone, Pushes;
    EnteredKept(steps, caller[ARM_SP], caller, mem0, mem);
    var buf := Backwards(undos) + [OP_FINISH];
    assert buf[0..] == buf;
    UndoAndFinish(buf, 0, steps, undos, caller, c, mem);
  }

  /** The same with a frame pointer: after the prologue, rN is the stack pointer plus k, which may be negative, and then
      the stack pointer may be moved anywhere. */
  lemma UnwindingUndoesFrame(steps: seq<Step>, undos: seq<seq<byte>>, n: nat, k: int, caller: seq<nat>,
                             mem0: map<nat, nat>, c: Cursor, mem: map<nat, nat>)
    requires |caller| == |c.regs| == NUM_REGS && forall k :: 0 <= k < 16 ==> caller[k] < WORD
    requires AllUndone(steps, undos) && Depths(steps) <= caller[ARM_SP]
    requires n < 16 && n != ARM_SP && n != ARM_PC && k % 4 == 0
    requires c.regs[n] == caller[ARM_SP] - Depths(steps) + k < WORD
    requires var mem1 := Entered(steps, caller[ARM_SP], caller, mem0);
      forall b :: caller[ARM_SP] - Depths(steps) <= b < caller[ARM_SP] && b in mem1 ==> b in mem && mem[b] == mem1[b]
    ensures var adjust := if k >= 0 then LowerBytes(k) else AdjustBytes(-k);
      Returned(steps, caller, c, Run([0x90 + n] + adjust + Backwards(undos) + [OP_FINISH], 0, c, mem))
  {
    hide Run, Kept, Entered, AllUndone, Pushes, DecodeOp, Depths, LowerBytes, AdjustBytes;
    EnteredKept(steps, caller[ARM_SP], caller, mem0, mem);
    var adjust := if k >= 0 then LowerBytes(k) else AdjustBytes(-k);
    var buf, m := [0x90 + n] + adjust + Backwards(undos) + [OP_FINISH], 1 + |adjust|;
    assert buf[1..m] == adjust && buf[m..] == Backwards(undos) + [OP_FINISH];
    RunToFrame(buf, n, k, c, mem);
    UndoAndFinish(buf, m, steps, undos, caller, c.(regs := c.regs[ARM_SP := c.regs[n] - k]), mem);
  }

  /** The instructions that take the stack pointer from the frame pointer. */
  lemma RunToFrame(buf: seq<byte>, n: nat, k: int, c: Cursor, mem: map<nat, nat>)
    requires |c.regs| == NUM_REGS && n < 16 && n != ARM_SP && n != ARM_PC && k % 4 == 0
    requires c.regs[n] < WORD && 0 <= c.regs[n] - k < WORD && buf != [] && buf[0] == 0x90 + n
    requires var adjust := if k >= 0 then LowerBytes(k) else AdjustBytes(-k);
      1 + |adjust| <= |buf| && buf[1..1 + |adjust|] == adjust
    ensures var adjust := if k >= 0 then LowerBytes(k) else AdjustBytes(-k);
      Run(buf, 0, c, mem) == Run(buf, 1 + |adjust|, c.(regs := c.regs[ARM_SP := c.regs[n] - k]), mem)
  {
    hide Run, DecodeOp, LowerBytes, AdjustBytes;
    DecodeToSp(buf, 0, n);
    RunStep(buf, 0, c, mem);
    var c1 := c.(regs := c.regs[ARM_SP := c.regs[n]]);
    assert c1.regs[ARM_SP := c.regs[n] - k] == c.regs[ARM_SP := c.regs[n] - k];
    if k >= 0 {
      RunLower(buf, 1, k, c1, mem);
    } else {
      RunAdjust(buf, 1, -k, c1, mem);
    }
  }

  // ----- what the bytes of a pop stand for, and those that pop nothing

  /** The bits of a number, by division. */
  lemma {:induction false} BitOf(x: nat, i: nat)
    ensures Bit(x, i) <==> x / Pow2(i) % 2 == 1
    decreases i
  {
    if i > 0 {
      BitOf(x / 2, i - 1);
      HalfFirst(x, Pow2(i - 1));
    }
  }

  lemma HalfFirst(x: nat, n: nat)
    requires n > 0
    ensures x / (2 * n) == x / 2 / n
  {
    var q, r := x / 2 / n, x / 2 % n;
    assert x / 2 == n * q + r;
    assert x == (2 * n) * q + (2 * r + x % 2);
    Quotient(x, 2 * n, q, 2 * r + x % 2);
  }

  lemma Quotient(x: nat, n: nat, q: nat, r: nat)
    requires n > 0 && x == n * q + r && r < n
    ensures x / n == q
  {
    var p := x / n;
    assert n * p <= x < n * p + n;
    MoreTimes(n, p, q);
    MoreTimes(n, q, p);
  }

  lemma MoreTimes(n: nat, a: nat, b: nat)
    ensures a < b ==> n * a + n <= n * b
  {
    if a < b {
      var d := b - a - 1;
      assert n * (a + 1 + d) == n * a + n + n * d;
      assert n * d >= 0;
    }
  }

  /** Which registers the pop instructions name (section 9.3): 0x80 to 0x8f and the byte behind it, r4 to r15; 0xb1 and
      the byte behind it, r0 to r3; 0xa0 to 0xaf, r4 up to another one, and lr from 0xa8 on. */
  lemma PopNames(buf: seq<byte>, i: nat, r: nat)
    requires i + 1 < |buf| && r < 16
    ensures 0x80 <= buf[i] < 0x90 && !(buf[i] == 0x80 && buf[i + 1] == 0) ==>
      && DecodeOp(buf, i).cmd == REG_POP && DecodeOp(buf, i).next == i + 2
      && (Bit(DecodeOp(buf, i).data, r) <==>
           r >= 4 && ((buf[i] - 0x80) as nat * 0x100 + buf[i + 1] as nat) / Pow2(r - 4) % 2 == 1)
    ensures buf[i] == 0xb1 && 0 < buf[i + 1] < 0x10 ==>
      && DecodeOp(buf, i).cmd == REG_POP && DecodeOp(buf, i).next == i + 2
      && (Bit(DecodeOp(buf, i).data, r) <==> r < 4 && buf[i + 1] as nat / Pow2(r) % 2 == 1)
    ensures 0xa0 <= buf[i] < 0xb0 ==>
      && DecodeOp(buf, i).cmd == REG_POP && DecodeOp(buf, i).next == i + 1
      && (Bit(DecodeOp(buf, i).data, r) <==> 4 <= r <= 4 + buf[i] as nat % 8 || (r == 14 && buf[i] >= 0xa8))
  {
    hide DecodeOp, Bit;
    if 0x80 <= buf[i] < 0x90 && !(buf[i] == 0x80 && buf[i + 1] == 0) {
      DecodePopPair(buf, i);
      var x := (buf[i] - 0x80) as nat * 0x100 + buf[i + 1] as nat;
      BitUp(x, r);
      if r >= 4 {
        BitOf(x, r - 4);
      }
    } else if buf[i] == 0xb1 && 0 < buf[i + 1] < 0x10 {
      DecodePopLow(buf, i, buf[i + 1]);
      BitOf(buf[i + 1], r);
      LowBits(buf[i + 1], r);
    } else if 0xa0 <= buf[i] < 0xb0 {
      DecodePopRow(buf, i, buf[i] as nat - 0xa0);
      RowBits(buf[i] as nat - 0xa0, r);
    }
  }

  lemma BitUp(x: nat, r: nat)
    ensures Bit(x * 0x10, r) <==> r >= 4 && Bit(x, r - 4)
  {
    hide Bit;
    DoubleBit(8 * x, r);
    DoubleBit(4 * x, if r >= 1 then r - 1 else 0);
    DoubleBit(2 * x, if r >= 2 then r - 2 else 0);
    DoubleBit(x, if r >= 3 then r - 3 else 0);
  }

  lemma DoubleBit(x: nat, r: nat)
    ensures Bit(2 * x, r) <==> r >= 1 && Bit(x, r - 1)
  {
    assert 2 * x / 2 == x;
  }

  lemma LowBits(x: nat, r: nat)
    requires x < 0x10 && r < 16
    ensures r >= 4 ==> !Bit(x, r)
  {
    if r >= 4 {
      SmallPowers();
      ShrBound(x, 4, 0);
      ShrAfter(x, 4, r - 4);
      ShrZero(r - 4);
    }
  }

  lemma RowBits(k: nat, r: nat)
    requires k < 16 && r < 16
    ensures Bit(ShortMask(k), r) <==> 4 <= r <= 4 + k % 8 || (r == 14 && k >= 8)
  {
    hide Bit;
    SmallPowers();
    var n, lr := k % 8 + 1, if k / 8 == 1 then 1 else 0;
    var ones := Pow2(n) - 1;
    Pow2Grows(n, 10);
    BitUp(ones + 0x400 * lr, r);
    if r >= 4 {
      BitSplit(ones, lr, 10, r - 4);
      ShlTen(lr);
      Ones(n, r - 4);
      OneBit(lr, if r >= 14 then r - 14 else 0);
    }
  }

  lemma ShlTen(x: nat)
    ensures Shl(x, 10) == 0x400 * x
  {
    assert Shl(x, 1) == 2 * x;
    assert Shl(x, 3) == 8 * x;
    assert Shl(x, 5) == 32 * x;
    assert Shl(x, 7) == 128 * x;
    assert Shl(x, 9) == 512 * x;
  }

  lemma {:induction false} BitSplit(a: nat, b: nat, s: nat, j: nat)
    requires a < Pow2(s)
    ensures Bit(a + Shl(b, s), j) <==> if j < s then Bit(a, j) else Bit(b, j - s)
  {
    if s > 0 {
      assert (a + Shl(b, s)) / 2 == a / 2 + Shl(b, s - 1) && (a + Shl(b, s)) % 2 == a % 2;
      if j > 0 {
        BitSplit(a / 2, b, s - 1, j - 1);
      }
    }
  }

  lemma {:induction false} Ones(n: nat, j: nat)
    ensures Bit(Pow2(n) - 1, j) <==> j < n
  {
    if n == 0 {
      ShrZero(j);
    } else if j > 0 {
      assert (Pow2(n) - 1) / 2 == Pow2(n - 1) - 1;
      Ones(n - 1, j - 1);
    }
  }

  lemma OneBit(b: nat, j: nat)
    requires b < 2 && j < 2
    ensures Bit(b, j) <==> b == 1 && j == 0
  {
  }

  predicate FailsAt(buf: seq<byte>, i: nat)
    requires i + 1 < |buf|
  {
    || (buf[i] == 0x80 && buf[i + 1] == 0) || buf[i] == 0x9d || buf[i] == 0x9f
    || 0xb4 <= buf[i] < 0xb8 || 0xca <= buf[i] < 0xd0 || buf[i] >= 0xd8
    || (buf[i] in [0xb1, 0xc7] && (buf[i + 1] == 0 || buf[i + 1] >= 0x10))
  }

  lemma DecodeFailing(buf: seq<byte>, i: nat)
    requires i + 1 < |buf| && FailsAt(buf, i)
    ensures DecodeOp(buf, i).cmd in {REFUSED, RESERVED}
  {
    hide Pow2, Uleb128;
  }

  lemma DecodeCoprocessor(buf: seq<byte>, i: nat)
    requires i + 1 < |buf|
    ensures buf[i] in [0xb3, 0xc6, 0xc8, 0xc9] || (buf[i] == 0xc7 && 0 < buf[i + 1] < 0x10) ==>
      DecodeOp(buf, i).cmd in {VFP_POP, WREG_POP, WCGR_POP} && DecodeOp(buf, i).next == i + 2
    ensures 0xb8 <= buf[i] < 0xc6 || 0xd0 <= buf[i] < 0xd8 ==>
      DecodeOp(buf, i).cmd in {VFP_POP, WREG_POP} && DecodeOp(buf, i).next == i + 1
  {
    hide Pow2, Uleb128;
  }

  /** Popping nothing: the instructions that are refused or reserved end the run, those for coprocessor registers do not
      change anything. */
  lemma NoPop(buf: seq<byte>, i: nat, c: Cursor, mem: map<nat, nat>)
    requires |c.regs| == NUM_REGS && i + 1 < |buf|
    ensures FailsAt(buf, i) ==> Run(buf, i, c, mem) == Failed(c)
    ensures buf[i] in [0xb3, 0xc6, 0xc8, 0xc9] || (buf[i] == 0xc7 && 0 < buf[i + 1] < 0x10) ==>
      Run(buf, i, c, mem) == Run(buf, i + 2, c, mem)
    ensures 0xb8 <= buf[i] < 0xc6 || 0xd0 <= buf[i] < 0xd8 ==> Run(buf, i, c, mem) == Run(buf, i + 1, c, mem)
  {
    hide DecodeOp, FailsAt, PopRegs;
    if FailsAt(buf, i) {
      DecodeFailing(buf, i);
    }
    DecodeCoprocessor(buf, i);
  }

  lemma NothingPopped(pops: seq<byte>, regs: seq<nat>, mem: map<nat, nat>)
    requires PopBytes(0, pops) && |regs| == NUM_REGS
    ensures pops == [] && PopRegs(0, 0, regs, mem) == regs && Words(0, 0) == 0
  {
    NoBits(0, regs, mem);
  }

  lemma {:induction false} NoBits(i: nat, regs: seq<nat>, mem: map<nat, nat>)
    requires i <= 16 && |regs| == NUM_REGS
    ensures PopRegs(0, i, regs, mem) == regs && Words(0, i) == 0
    decreases 16 - i
  {
    if i < 16 {
      ShrZero(i);
      NoBits(i + 1, regs, mem);
    }
  }

  lemma RunFinish(buf: seq<byte>, c: Cursor, mem: map<nat, nat>)
    requires |c.regs| == NUM_REGS && buf != [] && buf[|buf| - 1] == OP_FINISH
    ensures var r := Run(buf, |buf| - 1, c, mem);
      && r.Done? && r.c.regs == c.regs[ARM_PC := c.regs[ARM_LR]]
      && r.c.stepStatus == if c.regs[ARM_PC] == c.regs[ARM_LR] then STEP_PC_LR else c.stepStatus
  {
    if c.regs[ARM_PC] == c.regs[ARM_LR] {
      assert c.regs[ARM_PC := c.regs[ARM_LR]] == c.regs;
    }
  }

  // ----- the code

  lemma {:induction false} ShlSum(x: nat, y: nat, n: nat)
    ensures Shl(x + y, n) == Shl(x, n) + Shl(y, n) && Shl(2 * x, n) == 2 * Shl(x, n)
  {
    if n > 0 {
      ShlSum(x, y, n - 1);
    }
  }

  lemma ShlSeven(x: nat, n: nat)
    ensures Shl(0x80 * x, n) == Shl(x, n + 7)
  {
    ShlSum(x, 0, n);
    ShlSum(2 * x, 0, n);
    ShlSum(4 * x, 0, n);
    ShlSum(8 * x, 0, n);
    ShlSum(0x10 * x, 0, n);
    ShlSum(0x20 * x, 0, n);
    ShlSum(0x40 * x, 0, n);
    assert Shl(x, n + 4) == 0x10 * Shl(x, n) by {
      assert Shl(x, n + 2) == 4 * Shl(x, n);
    }
    assert Shl(x, n + 7) == 8 * Shl(x, n + 4) by {
      assert Shl(x, n + 6) == 4 * Shl(x, n + 4);
    }
  }

  /** Seven more bits of a number. */
  lemma UlebMore(offset: nat, shift: nat, b: byte, rest: nat)
    requires offset < Pow2(shift)
    ensures Or(offset, Shl(b % 0x80, shift)) < Pow2(shift + 7)
    ensures Or(offset, Shl(b % 0x80, shift)) == offset + Shl(b % 0x80, shift)
    ensures offset + Shl(b % 0x80 + 0x80 * rest, shift) == Or(offset, Shl(b % 0x80, shift)) + Shl(rest, shift + 7)
  {
    SmallPowers();
    OrShifted(offset, b % 0x80, shift);
    StackBound(offset, shift, b % 0x80, 7);
    ShlSum(b % 0x80, 0x80 * rest, shift);
    ShlSeven(rest, shift);
  }

  /** The loop that reads a uleb128 number. */
  method ReadUleb(buf: seq<byte>, start: nat) returns (offset: nat, pos: nat)
    ensures (offset, pos) == Uleb128(buf, start)
  {
    hide Or, Shl, Pow2;
    var shift: nat := 0;
    offset, pos := 0, start;
    var b := 0x80;
    UlebStart(Uleb128(buf, start).0);
    while b >= 0x80
      invariant offset < Pow2(shift)
      invariant b >= 0x80 ==> Uleb128(buf, start) == (offset + Shl(Uleb128(buf, pos).0, shift), Uleb128(buf, pos).1)
      invariant b < 0x80 ==> Uleb128(buf, start) == (offset, pos)
      decreases b >= 0x80, |buf| - pos
    {
      b := ByteAt(buf, pos);
      UlebMore(offset, shift, b, if b >= 0x80 then Uleb128(buf, pos + 1).0 else 0);
      UlebEnd(shift);
      offset := Or(offset, Shl(b % 0x80, shift));
      shift := shift + 7;
      pos := pos + 1;
    }
  }

  lemma UlebStart(x: nat)
    ensures 0 + Shl(x, 0) == x && 0 < Pow2(0)
  {
  }

  lemma UlebEnd(shift: nat)
    ensures Shl(0, shift + 7) == 0
  {
    ShlZero(shift + 7);
  }

  class TCursor {
    const regs: array<nat>
    var stepStatus: int

    constructor (regs: array<nat>)
      requires regs.Length == NUM_REGS
      ensures this.regs == regs && stepStatus == 0
    {
      this.regs := regs;
      stepStatus := 0;
    }

    ghost function State(): Cursor
      reads this, regs
    {
      Cursor(regs[..], stepStatus)
    }

    /** arm_exidx_apply_cmd */
    method ApplyCmd(cmd: Cmd, data: nat, mem: map<nat, nat>) returns (ret: int)
      requires regs.Length == NUM_REGS && (cmd == REG_TO_SP ==> data < NUM_REGS)
      modifies this, regs
      ensures ret == 0 || ret == -1
      ensures forall next ::
        Apply(Op(cmd, data, next), old(State()), mem) == if ret == 0 then Done(State()) else Failed(State())
    {
      ret := 0;
      match cmd
      case FINISH =>
        if regs[ARM_PC] == regs[ARM_LR] {
          stepStatus := STEP_PC_LR;
          return 0;
        }
        regs[ARM_PC] := regs[ARM_LR];
      case DATA_PUSH =>
        regs[ARM_SP] := (regs[ARM_SP] - data) % WORD;
      case DATA_POP =>
        regs[ARM_SP] := (regs[ARM_SP] + data) % WORD;
      case REG_POP =>
        PopLoop(data, mem);
      case REG_TO_SP =>
        regs[ARM_SP] := regs[data];
      case VFP_POP =>
      case WREG_POP =>
      case WCGR_POP =>
      case REFUSED =>
        ret := -1;
      case RESERVED =>
        ret := -1;
    }

    /** The loop that pops registers. */
    method PopLoop(data: nat, mem: map<nat, nat>)
      requires regs.Length == NUM_REGS
      modifies regs
      ensures regs[..] == PopRegs(data, 0, old(regs[..]), mem)
    {
      hide Bit;
      for i := 0 to 16
        invariant PopRegs(data, 0, old(regs[..]), mem) == PopRegs(data, i, regs[..], mem)
      {
        ghost var before := regs[..];
        if Bit(data, i) {
          regs[i] := Load(mem, regs[ARM_SP]);
          regs[ARM_SP] := (regs[ARM_SP] + 4) % WORD;
          assert regs[..] == AddSp(before[i := Load(mem, before[ARM_SP])], 4);
        }
      }
    }

    /** arm_exidx_decode */
    method Decode(buf: seq<byte>, mem: map<nat, nat>) returns (ret: int)
      requires regs.Length == NUM_REGS
      modifies this, regs
      ensures Run(buf, 0, old(State()), mem) == if ret == 0 then Done(State()) else Failed(State())
      ensures ret == 0 || ret == -1
    {
      hide DecodeOp, Apply;
      var pos := 0;
      while pos < |buf|
        invariant Run(buf, 0, old(State()), mem) == Run(buf, pos, State(), mem)
        decreases |buf| - pos
      {
        var op := ReadOp(buf, pos);
        ToSpSmall(buf, pos);
        ret := ApplyCmd(op.cmd, op.data, mem);
        if ret < 0 {
          return;
        }
        pos := op.next;
      }
      ret := 0;
    }

    /** The part of arm_exidx_decode that reads one instruction. */
    method ReadOp(buf: seq<byte>, start: nat) returns (op: Op)
      requires start < |buf|
      ensures op == DecodeOp(buf, start)
    {
      hide Uleb128;
      var b: nat, pos: nat := buf[start], start + 1;
      if b / 0x40 == 0 {
        op := Op(DATA_POP, b % 0x40 * 4 + 4, pos);
      } else if b / 0x40 == 1 {
        op := Op(DATA_PUSH, b % 0x40 * 4 + 4, pos);
      } else if b / 0x10 == 8 {
        var op2: nat := ByteAt(buf, pos);
        pos := pos + 1;
        if b == 0x80 && op2 == 0 {
          op := Op(REFUSED, 0, pos);
        } else {
          op := Op(REG_POP, (b % 0x10 * 0x100 + op2) * 0x10, pos);
        }
      } else if b / 0x10 == 9 {
        if b == 0x9d || b == 0x9f {
          op := Op(RESERVED, 0, pos);
        } else {
          op := Op(REG_TO_SP, b % 0x10, pos);
        }
      } else if b / 0x10 == 10 {
        ShlOne(b % 8 + 1);
        op := Op(REG_POP, (Shl(1, b % 8 + 1) - 1) * 0x10 + (if b / 8 % 2 == 1 then 0x4000 else 0), pos);
      } else if b == OP_FINISH {
        op := Op(FINISH, 0, |buf|);
      } else if b == 0xb1 {
        var op2: nat := ByteAt(buf, pos);
        pos := pos + 1;
        if op2 == 0 || op2 / 0x10 != 0 {
          op := Op(RESERVED, 0, pos);
        } else {
          op := Op(REG_POP, op2 % 0x10, pos);
        }
      } else if b == 0xb2 {
        var offset;
        offset, pos := ReadUleb(buf, pos);
        op := Op(DATA_POP, (offset * 4 + 0x204) % WORD, pos);
      } else if b == 0xb3 || b == 0xc8 || b == 0xc9 {
        var data: nat := ByteAt(buf, pos);
        pos := pos + 1;
        if b == 0xc8 {
          data := data + 0x1_0000;
        }
        if b != 0xb3 {
          data := data + 0x2_0000;
        }
        op := Op(VFP_POP, data, pos);
      } else if b / 8 == 0x17 || b / 8 == 0x1a {
        op := Op(VFP_POP, 0x80 + b % 8 + (if b / 8 == 0x1a then 0x2_0000 else 0), pos);
      } else if 0xc0 <= b <= 0xc5 {
        op := Op(WREG_POP, 0xa0 + b % 8, pos);
      } else if b == 0xc6 {
        op := Op(WREG_POP, ByteAt(buf, pos), pos + 1);
      } else if b == 0xc7 {
        var op2: nat := ByteAt(buf, pos);
        pos := pos + 1;
        if op2 == 0 || op2 / 0x10 != 0 {
          op := Op(RESERVED, 0, pos);
        } else {
          op := Op(WCGR_POP, op2 % 0x10, pos);
        }
      } else {
        op := Op(RESERVED, 0, pos);
      }
    }
  }

  lemma ToSpSmall(buf: seq<byte>, i: nat)
    requires i < |buf|
    ensures DecodeOp(buf, i).cmd == REG_TO_SP ==> DecodeOp(buf, i).data < NUM_REGS
  {
  }
}
