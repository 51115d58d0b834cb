/** The table of inline hooks, and what it does to the code in memory (inlineHook.c). */
module HookRegistry {
  import Arm
  import opened Bits
  import Relocate

  const MAX_ITEMS: nat := 1024

  datatype Status = REGISTERED | HOOKED

  /** An entry of the table.  An odd target address means Thumb code. */
  datatype Item = Item(targetAddr: nat, newAddr: nat, origInstructions: seq<byte>, status: Status)

  datatype Answer = OK | NOT_EXECUTABLE | ALREADY_REGISTERED | ALREADY_HOOKED | NOT_REGISTERED | NOT_HOOKED

  function ClearBit0(addr: nat): (a: nat)
    ensures a <= addr <= a + 1 && a % 2 == 0
  {
    addr - addr % 2
  }

  /** How many bytes of the target are saved. */
  function Length(targetAddr: nat): nat { if targetAddr % 2 == 1 then 12 else 8 }

  function Start(it: Item): nat { ClearBit0(it.targetAddr) }
  function End(it: Item): nat { Start(it) + |it.origInstructions| }

  function HalfWord(x: nat): seq<byte> { [x % 0x100, x / 0x100 % 0x100] }
  function FullWord(x: nat): seq<byte> { HalfWord(x % 0x1_0000) + HalfWord(x / 0x1_0000 % 0x1_0000) }

  /** The jump that is written over a target: LDR PC, or for Thumb code LDR.W PC at a word boundary. */
  function Patch(targetAddr: nat, newAddr: nat): (s: seq<byte>)
    ensures |s| <= Length(targetAddr)
  {
    if targetAddr % 2 == 1 then
      (if ClearBit0(targetAddr) % 4 != 0 then HalfWord(0xBF00) else [])
      + HalfWord(0xF8DF) + HalfWord(0xF000) + HalfWord(newAddr % 0x1_0000) + HalfWord(newAddr / 0x1_0000 % 0x1_0000)
    else FullWord(0xe51f_f004) + FullWord(newAddr)
  }

  /** memcpy: s written over mem at an address. */
  function Written(mem: seq<byte>, at: nat, s: seq<byte>): (r: seq<byte>)
    requires at + |s| <= |mem|
    ensures |r| == |mem| && forall a :: 0 <= a < |mem| ==> r[a] == if at <= a < at + |s| then s[a - at] else mem[a]
  {
    mem[..at] + s + mem[at + |s|..]
  }

  predicate Sized(it: Item) { |it.origInstructions| == Length(it.targetAddr) }

  /** The saved bytes with the patch over them. */
  function Patched(it: Item): (s: seq<byte>)
    requires Sized(it)
    ensures |s| == |it.origInstructions|
  {
    Written(it.origInstructions, 0, Patch(it.targetAddr, it.newAddr))
  }

  predicate Apart(a: Item, b: Item) { End(a) <= Start(b) || End(b) <= Start(a) }

  predicate Covers(it: Item, a: nat) { Start(it) <= a < End(it) }

  /** An item saved what was originally at its target. */
  ghost predicate Saved(it: Item, original: seq<byte>) {
    Sized(it) && End(it) <= |original| && it.origInstructions == original[Start(it)..End(it)]
  }

  /** What an item's target looks like now. */
  function Now(it: Item): (s: seq<byte>)
    requires Sized(it)
    ensures |s| == |it.origInstructions|
  {
    if it.status == HOOKED then Patched(it) else it.origInstructions
  }

  /** Targets do not overlap; each is patched if it is hooked; all other bytes are the original ones. */
  ghost predicate Consistent(mem: seq<byte>, original: seq<byte>, items: seq<Item>) {
    && |mem| == |original|
    && (forall i :: 0 <= i < |items| ==> Saved(items[i], original))
    && (forall i, j :: 0 <= i < j < |items| ==> Apart(items[i], items[j]))
    && (forall i :: 0 <= i < |items| ==> mem[Start(items[i])..End(items[i])] == Now(items[i]))
    && (forall a :: 0 <= a < |mem| && (forall i :: 0 <= i < |items| ==> !Covers(items[i], a)) ==> mem[a] == original[a])
  }

  /** A byte of the original code with the patches of the hooked items over it, */
  ghost function Overlaid(original: seq<byte>, items: seq<Item>, a: nat): byte
    requires a < |original| && forall i :: 0 <= i < |items| ==> Sized(items[i])
  {
    if items == [] then original[a]
    else
      var last := items[|items| - 1];
      if last.status == HOOKED && Covers(last, a) then Patched(last)[a - Start(last)]
      else Overlaid(original, items[..|items| - 1], a)
  }

  /** and all of it. */
  ghost function Overlay(original: seq<byte>, items: seq<Item>): seq<byte>
    requires forall i :: 0 <= i < |items| ==> Sized(items[i])
  {
    seq(|original|, a requires 0 <= a < |original| => Overlaid(original, items, a))
  }

  lemma {:induction false} OutsideAll(original: seq<byte>, items: seq<Item>, a: nat)
    requires a < |original| && forall i :: 0 <= i < |items| ==> Sized(items[i]) && !Covers(items[i], a)
    ensures Overlaid(original, items, a) == original[a]
  {
    hide Covers, Patched;
    if items != [] {
      assert !Covers(items[|items| - 1], a);
      OutsideAll(original, items[..|items| - 1], a);
    }
  }

  lemma {:induction false} InsideOne(original: seq<byte>, items: seq<Item>, a: nat, k: nat)
    requires a < |original| && forall i :: 0 <= i < |items| ==> Sized(items[i]) && Saved(items[i], original)
    requires k < |items| && Covers(items[k], a) && forall i :: 0 <= i < |items| && i != k ==> !Covers(items[i], a)
    ensures Overlaid(original, items, a) == Now(items[k])[a - Start(items[k])]
  {
    hide Patched, Start;
    var n := |items| - 1;
    if k < n {
      assert !Covers(items[n], a);
      InsideOne(original, items[..n], a, k);
    } else if items[n].status == REGISTERED {
      OutsideAll(original, items[..n], a);
    }
  }

  lemma OnlyOne(items: seq<Item>, a: nat, k: nat)
    requires k < |items| && Covers(items[k], a) && forall i, j :: 0 <= i < j < |items| ==> Apart(items[i], items[j])
    ensures forall i :: 0 <= i < |items| && i != k ==> !Covers(items[i], a)
  {
    forall i | 0 <= i < |items| && i != k
      ensures !Covers(items[i], a)
    {
      assert if i < k then Apart(items[i], items[k]) else Apart(items[k], items[i]);
    }
  }

  lemma ByteNow(mem: seq<byte>, it: Item, a: nat)
    requires Sized(it) && End(it) <= |mem| && mem[Start(it)..End(it)] == Now(it) && Covers(it, a)
    ensures mem[a] == Now(it)[a - Start(it)]
  {
    hide Now, Start;
    assert mem[a] == mem[Start(it)..End(it)][a - Start(it)];
  }

  /** Whatever happened before, the code in memory is the original code overlaid with the patches of exactly
      the hooked items. */
  lemma MemoryIsOverlay(mem: seq<byte>, original: seq<byte>, items: seq<Item>)
    requires Consistent(mem, original, items)
    ensures mem == Overlay(original, items)
  {
    hide Overlaid, Covers, Now, Start, End;
    forall a | 0 <= a < |mem|
      ensures mem[a] == Overlaid(original, items, a)
    {
      if k :| 0 <= k < |items| && Covers(items[k], a) {
        OnlyOne(items, a, k);
        InsideOne(original, items, a, k);
        ByteNow(mem, items[k], a);
      } else {
        OutsideAll(original, items, a);
      }
    }
  }

  lemma TargetsUnique(mem: seq<byte>, original: seq<byte>, items: seq<Item>, i: nat, j: nat)
    requires Consistent(mem, original, items) && i < j < |items|
    ensures items[i].targetAddr != items[j].targetAddr
  {
    assert Apart(items[i], items[j]) && Saved(items[i], original) && Saved(items[j], original);
  }

  // ----- what the operations do to the table

  /** Item k has been patched or restored. */
  lemma ItemChanged(mem: seq<byte>, mem': seq<byte>, original: seq<byte>, items: seq<Item>, k: nat, status: Status)
    requires Consistent(mem, original, items) && k < |items|
    requires mem' == Written(mem, Start(items[k]), Now(items[k].(status := status)))
    ensures Consistent(mem', original, items[k := items[k].(status := status)])
  {
    hide Written, Start, End, Patched, Covers, Now, Apart;
    var it := items[k].(status := status);
    var items' := items[k := it];
    SameRange(items[k], status);
    RangeEnd(it);
    WrittenAt(mem, Start(it), Now(it));
    forall i | 0 <= i < |items'|
      ensures Start(items'[i]) <= End(items'[i]) <= |mem'|
    {
      RangeEnd(items'[i]);
      assert Saved(items[i], original);
    }
    forall i | 0 <= i < |items'|
      ensures mem'[Start(items'[i])..End(items'[i])] == Now(items'[i])
    {
      if i != k {
        assert if i < k then Apart(items[i], items[k]) else Apart(items[k], items[i]);
        NotPatched(mem, it, items[i]);
      }
    }
    forall a | 0 <= a < |mem'| && forall i :: 0 <= i < |items'| ==> !Covers(items'[i], a)
      ensures mem'[a] == original[a]
    {
      assert !Covers(items'[k], a);
      forall i | 0 <= i < |items|
        ensures !Covers(items[i], a)
      {
        assert !Covers(items'[i], a);
        SameCover(items[k], status, a);
      }
      WrittenElsewhere(mem, it, a);
    }
  }

  lemma SameRange(it: Item, status: Status)
    ensures var it' := it.(status := status);
      && Start(it') == Start(it) && End(it') == End(it) && (Sized(it') <==> Sized(it))
      && forall o :: Apart(it', o) == Apart(it, o) && Apart(o, it') == Apart(o, it)
  {
  }

  lemma SameCover(it: Item, status: Status, a: nat)
    ensures Covers(it.(status := status), a) == Covers(it, a)
  {
  }

  lemma RangeEnd(it: Item)
    ensures End(it) == Start(it) + |it.origInstructions|
  {
  }

  lemma NotPatched(mem: seq<byte>, it: Item, other: Item)
    requires Sized(it) && End(it) <= |mem| && End(other) <= |mem| && (Apart(it, other) || Apart(other, it))
    ensures Start(it) + |Now(it)| <= |mem|
    ensures Written(mem, Start(it), Now(it))[Start(other)..End(other)] == mem[Start(other)..End(other)]
  {
    hide Written, Now;
    NotWritten(mem, Start(it), Now(it), Start(other), End(other));
  }

  lemma WrittenElsewhere(mem: seq<byte>, it: Item, a: nat)
    requires Sized(it) && End(it) <= |mem| && a < |mem| && !Covers(it, a)
    ensures Start(it) + |Now(it)| <= |mem|
    ensures Written(mem, Start(it), Now(it))[a] == mem[a]
  {
  }

  lemma WrittenAt(mem: seq<byte>, at: nat, s: seq<byte>)
    requires at + |s| <= |mem|
    ensures Written(mem, at, s)[at..at + |s|] == s
  {
  }

  lemma NotWritten(mem: seq<byte>, at: nat, s: seq<byte>, from: nat, to: nat)
    requires at + |s| <= |mem| && from <= to <= |mem| && (to <= at || at + |s| <= from)
    ensures Written(mem, at, s)[from..to] == mem[from..to]
  {
  }

  /** deleteInlineHookItem: the last item takes the place of the deleted one. */
  function SwapDelete(items: seq<Item>, k: nat): seq<Item>
    requires k < |items|
  {
    items[k := items[|items| - 1]][..|items| - 1]
  }

  lemma SwapDeleteKeeps(items: seq<Item>, k: nat)
    requires k < |items|
    ensures |SwapDelete(items, k)| == |items| - 1
    ensures forall i :: 0 <= i < |items| - 1 ==>
      SwapDelete(items, k)[i] == if i == k then items[|items| - 1] else items[i]
  {
  }

  lemma StillApart(items: seq<Item>, k: nat)
    requires k < |items| && forall i, j :: 0 <= i < j < |items| ==> Apart(items[i], items[j])
    ensures forall i, j :: 0 <= i < j < |items| - 1 ==> Apart(SwapDelete(items, k)[i], SwapDelete(items, k)[j])
  {
    hide SwapDelete, Apart;
    var n, items' := |items| - 1, SwapDelete(items, k);
    SwapDeleteKeeps(items, k);
    forall i, j | 0 <= i < j < n
      ensures Apart(items'[i], items'[j])
    {
      if i == k {
        ApartTurned(items[j], items[n]);
      }
    }
  }

  /** A byte that only the item covered, which is not hooked, is the original one. */
  lemma Uncovered(mem: seq<byte>, original: seq<byte>, items: seq<Item>, k: nat, a: nat)
    requires Consistent(mem, original, items) && k < |items| && items[k].status == REGISTERED && a < |mem|
    requires forall i :: 0 <= i < |items| - 1 ==> !Covers(SwapDelete(items, k)[i], a)
    ensures mem[a] == original[a]
  {
    hide Start, Covers, Patched, SwapDelete, Apart;
    if Covers(items[k], a) {
      ByteNow(mem, items[k], a);
      SavedByte(original, items[k], a);
    } else {
      SwapDeleteKeeps(items, k);
      NoneCovers(items, SwapDelete(items, k), k, a);
    }
  }

  /** An item that is not hooked may go. */
  lemma ItemRemoved(mem: seq<byte>, original: seq<byte>, items: seq<Item>, k: nat)
    requires Consistent(mem, original, items) && k < |items| && items[k].status == REGISTERED
    ensures Consistent(mem, original, SwapDelete(items, k))
  {
    hide Start, Covers, Now, Saved, SwapDelete, Apart;
    SwapDeleteKeeps(items, k);
    StillApart(items, k);
    forall a | 0 <= a < |mem| && forall i :: 0 <= i < |items| - 1 ==> !Covers(SwapDelete(items, k)[i], a)
      ensures mem[a] == original[a]
    {
      Uncovered(mem, original, items, k, a);
    }
  }

  lemma NoneCovers(items: seq<Item>, items': seq<Item>, k: nat, a: nat)
    requires k < |items| == |items'| + 1 && !Covers(items[k], a)
    requires forall i :: 0 <= i < |items'| ==> items'[i] == if i == k then items[|items'|] else items[i]
    requires forall i :: 0 <= i < |items'| ==> !Covers(items'[i], a)
    ensures forall i :: 0 <= i < |items| ==> !Covers(items[i], a)
  {
    hide Covers;
    forall i | 0 <= i < |items|
      ensures !Covers(items[i], a)
    {
      assert i < |items'| ==> !Covers(items'[i], a);
      assert k < |items'| ==> !Covers(items'[k], a);
    }
  }

  lemma ApartTurned(a: Item, b: Item)
    ensures Apart(a, b) <==> Apart(b, a)
  {
  }

  lemma SavedByte(original: seq<byte>, it: Item, a: nat)
    requires Saved(it, original) && Covers(it, a)
    ensures it.origInstructions[a - Start(it)] == original[a]
  {
  }

  /** A new item is not hooked yet. */
  lemma ItemAdded(mem: seq<byte>, original: seq<byte>, items: seq<Item>, it: Item)
    requires Consistent(mem, original, items) && Sized(it) && it.status == REGISTERED && End(it) <= |mem|
    requires it.origInstructions == mem[Start(it)..End(it)] && forall i :: 0 <= i < |items| ==> Apart(items[i], it)
    ensures Consistent(mem, original, items + [it])
  {
    hide Start, Patched;
    forall a | Start(it) <= a < End(it)
      ensures mem[a] == original[a]
    {
      forall i | 0 <= i < |items|
        ensures !Covers(items[i], a)
      {
        assert Apart(items[i], it);
      }
    }
    assert mem[Start(it)..End(it)] == original[Start(it)..End(it)];
    forall a | 0 <= a < |mem| && forall i :: 0 <= i < |items + [it]| ==> !Covers((items + [it])[i], a)
      ensures mem[a] == original[a]
    {
      forall i | 0 <= i < |items|
        ensures !Covers(items[i], a)
      {
        assert !Covers((items + [it])[i], a);
      }
    }
  }

  lemma NoneHooked(mem: seq<byte>, original: seq<byte>, items: seq<Item>)
    requires Consistent(mem, original, items) && forall i :: 0 <= i < |items| ==> items[i].status == REGISTERED
    ensures mem == original
  {
    hide Start, Covers, Patched;
    forall a | 0 <= a < |mem|
      ensures mem[a] == original[a]
    {
      if k :| 0 <= k < |items| && Covers(items[k], a) {
        ByteNow(mem, items[k], a);
        SavedByte(original, items[k], a);
      }
    }
  }

  // ----- what a patch does

  function HalfAt(mem: seq<byte>, a: nat): nat
    requires a + 2 <= |mem|
  {
    mem[a] as nat + 0x100 * mem[a + 1] as nat
  }

  function WordAt(mem: seq<byte>, a: nat): nat
    requires a + 4 <= |mem|
  {
    HalfAt(mem, a) + 0x1_0000 * HalfAt(mem, a + 2)
  }

  /** The instructions of `rom` are what is in memory, word by word from address 0 on. */
  ghost predicate Loaded(rom: Arm.Words, mem: seq<byte>) {
    forall k: nat :: 4 * k + 4 <= |mem| ==> Arm.Word(rom, Arm.Offset(0, k)) as int == WordAt(mem, 4 * k)
  }

  /** An ARM function at a word boundary that is entered goes on at newAddr at once, and leaves everything else as it
      is. */
  ghost predicate ArmReaches(mem: seq<byte>, addr: nat, newAddr: nat) {
    forall core, rom, m :: Loaded(rom, mem) ==>
      var s := Arm.Step(core, rom, Arm.State(Arm.Offset(0, addr / 4), m));
      s.m == m && s.pc as int == newAddr
  }

  /** A Thumb function does so by LDR.W PC, [PC] at a word boundary, behind a NOP if need be; the PC that it reads is
      four more, so that the literal comes right behind it. */
  predicate ThumbReaches(mem: seq<byte>, addr: nat, newAddr: nat) {
    var at := if addr % 4 == 0 then addr else addr + 2;
    && at % 4 == 0 && at + 8 <= |mem| && (at != addr ==> HalfAt(mem, addr) == 0xBF00)
    && HalfAt(mem, at) == 0xF8DF && HalfAt(mem, at + 2) == 0xF000 && WordAt(mem, at + 4) == newAddr
  }

  ghost predicate Reaches(mem: seq<byte>, targetAddr: nat, newAddr: nat) {
    && (targetAddr % 4 == 0 ==> ArmReaches(mem, targetAddr, newAddr))
    && (targetAddr % 2 == 1 ==> ThumbReaches(mem, targetAddr - 1, newAddr))
  }

  /** LDR PC, [PC, #-4] and its literal. */
  lemma LoadReaches(mem: seq<byte>, addr: nat, newAddr: nat)
    requires addr % 4 == 0 && addr + 8 <= |mem| && WordAt(mem, addr) == 0xE51F_F004 && WordAt(mem, addr + 4) == newAddr
    ensures ArmReaches(mem, addr, newAddr)
  {
    hide Arm.Execute, WordAt, Arm.Word, Arm.Offset, Arm.Plus;
    var k := addr / 4;
    forall core, rom, m | Loaded(rom, mem)
      ensures var s := Arm.Step(core, rom, Arm.State(Arm.Offset(0, k), m)); s.m == m && s.pc as int == newAddr
    {
      var a := Arm.Offset(0, k);
      Arm.NextOffset(0, k);
      assert Arm.Word(rom, a) as int == WordAt(mem, 4 * k);
      assert Arm.Word(rom, Arm.Offset(0, k + 1)) as int == WordAt(mem, 4 * (k + 1));
      LoadWordIs(Arm.Word(rom, a));
      Relocate.LoadPc(core, rom, a, m);
    }
  }

  lemma LoadWordIs(w: bv32)
    requires w as int == 0xE51F_F004
    ensures w == 0xE51F_F004
  {
  }

  lemma HalfWordReads(x: nat)
    requires x < 0x1_0000
    ensures |HalfWord(x)| == 2 && HalfAt(HalfWord(x), 0) == x
  {
  }

  lemma FullWordReads(x: nat)
    requires x < 0x1_0000_0000
    ensures |FullWord(x)| == 4 && WordAt(FullWord(x), 0) == x
  {
    hide HalfWord;
    HalfWordReads(x % 0x1_0000);
    HalfWordReads(x / 0x1_0000 % 0x1_0000);
  }

  lemma HalfInside(mem: seq<byte>, s: seq<byte>, at: nat, i: nat)
    requires at + |s| <= |mem| && mem[at..at + |s|] == s && i + 2 <= |s|
    ensures HalfAt(mem, at + i) == HalfAt(s, i)
  {
    assert mem[at + i] == mem[at..at + |s|][i] && mem[at + i + 1] == mem[at..at + |s|][i + 1];
  }

  /** A patch in memory makes the jump. */
  lemma PatchReaches(mem: seq<byte>, targetAddr: nat, newAddr: nat)
    requires newAddr < 0x1_0000_0000
    requires var patch, at := Patch(targetAddr, newAddr), ClearBit0(targetAddr);
      at + |patch| <= |mem| && mem[at..at + |patch|] == patch
    ensures Reaches(mem, targetAddr, newAddr)
  {
    hide HalfAt, ArmReaches, HalfWord;
    var patch, at := Patch(targetAddr, newAddr), ClearBit0(targetAddr);
    if targetAddr % 2 == 1 {
      ThumbPatch(targetAddr, newAddr);
      var i := if at % 4 == 0 then 0 else 2;
      if i == 2 {
        HalfInside(mem, patch, at, 0);
      }
      HalfInside(mem, patch, at, i);
      HalfInside(mem, patch, at, i + 2);
      HalfInside(mem, patch, at, i + 4);
      HalfInside(mem, patch, at, i + 6);
    } else if targetAddr % 4 == 0 {
      ArmPatch(targetAddr, newAddr);
      HalfInside(mem, patch, at, 0);
      HalfInside(mem, patch, at, 2);
      HalfInside(mem, patch, at, 4);
      HalfInside(mem, patch, at, 6);
      LoadReaches(mem, at, newAddr);
    }
  }

  lemma ArmPatch(targetAddr: nat, newAddr: nat)
    requires targetAddr % 2 == 0 && newAddr < 0x1_0000_0000
    ensures var s := Patch(targetAddr, newAddr);
      |s| == 8 && WordAt(s, 0) == 0xE51F_F004 && WordAt(s, 4) == newAddr
  {
    hide FullWord;
    FullWordReads(0xE51F_F004);
    FullWordReads(newAddr);
  }

  lemma ThumbPatch(targetAddr: nat, newAddr: nat)
    requires targetAddr % 2 == 1 && newAddr < 0x1_0000_0000
    ensures var s, i := Patch(targetAddr, newAddr), if ClearBit0(targetAddr) % 4 == 0 then 0 else 2;
      && |s| == i + 8 && (i == 2 ==> HalfAt(s, 0) == 0xBF00)
      && HalfAt(s, i) == 0xF8DF && HalfAt(s, i + 2) == 0xF000 && WordAt(s, i + 4) == newAddr
  {
    hide HalfWord;
    HalfWordReads(0xBF00);
    HalfWordReads(0xF8DF);
    HalfWordReads(0xF000);
    HalfWordReads(newAddr % 0x1_0000);
    HalfWordReads(newAddr / 0x1_0000 % 0x1_0000);
  }

  /** So every hooked function reaches its replacement. */
  lemma HookedReaches(mem: seq<byte>, original: seq<byte>, items: seq<Item>, k: nat)
    requires Consistent(mem, original, items) && k < |items| && items[k].status == HOOKED
    requires items[k].newAddr < 0x1_0000_0000
    ensures Reaches(mem, items[k].targetAddr, items[k].newAddr)
  {
    hide Patch, Reaches;
    var it := items[k];
    CodeFits(mem, original, items, k);
    var patch, at := Patch(it.targetAddr, it.newAddr), ClearBit0(it.targetAddr);
    assert mem[at..at + |patch|] == mem[Start(it)..End(it)][..|patch|];
    assert Now(it)[..|patch|] == patch;
    PatchReaches(mem, it.targetAddr, it.newAddr);
  }

  // ----- the code

  class Registry {
    const item: array<Item>
    var size: nat
    const mem: array<byte>          // the code in memory
    ghost const original: seq<byte> // and what it was at first

    constructor (mem: array<byte>)
      ensures Valid() && this.mem == mem && original == mem[..] && Items() == [] && fresh(item)
    {
      item := new Item[MAX_ITEMS](_ => Item(0, 0, [], REGISTERED));
      size := 0;
      this.mem := mem;
      original := mem[..];
    }

    ghost function Items(): seq<Item>
      requires size <= item.Length
      reads this`size, item
    {
      item[..size]
    }

    ghost predicate Valid()
      reads this`size, item, mem
    {
      item.Length == MAX_ITEMS && size <= MAX_ITEMS && Consistent(mem[..], original, Items())
    }

    /** findInlineHookItem */
    method Find(targetAddr: nat) returns (pos: int)
      requires Valid()
      ensures -1 <= pos < size
      ensures if pos >= 0 then item[pos].targetAddr == targetAddr
              else forall i :: 0 <= i < size ==> item[i].targetAddr != targetAddr
    {
      for i := 0 to size
        invariant forall k :: 0 <= k < i ==> item[k].targetAddr != targetAddr
      {
        if item[i].targetAddr == targetAddr {
          return i;
        }
      }
      return -1;
    }

    /** registerInlineHook */
    method RegisterInlineHook(
        targetAddr: nat, newAddr: nat, targetExecutable: bool, newExecutable: bool)
      returns (answer: Answer)
      requires Valid() && size < 1024 && ClearBit0(targetAddr) + Length(targetAddr) <= mem.Length
      requires (forall i :: 0 <= i < size ==> item[i].targetAddr != targetAddr) ==>
        forall i :: 0 <= i < size ==>
          || End(item[i]) <= ClearBit0(targetAddr)
          || ClearBit0(targetAddr) + Length(targetAddr) <= Start(item[i])
      modifies this`size, item
      ensures Valid() && mem[..] == old(mem[..])
      ensures answer == NOT_EXECUTABLE <==> !targetExecutable || !newExecutable
      ensures answer == OK ==>
        && Items() == old(Items())
           + [Item(targetAddr, newAddr,
                   original[ClearBit0(targetAddr)..ClearBit0(targetAddr) + (if targetAddr % 2 == 1 then 12 else 8)],
                   REGISTERED)]
        && forall i :: 0 <= i < |old(Items())| ==> old(Items())[i].targetAddr != targetAddr
      ensures answer != OK ==> Items() == old(Items())
      ensures answer == ALREADY_REGISTERED ==>
        exists i :: 0 <= i < size && item[i].targetAddr == targetAddr && item[i].status == REGISTERED
      ensures answer == ALREADY_HOOKED ==>
        exists i :: 0 <= i < size && item[i].targetAddr == targetAddr && item[i].status == HOOKED
      ensures answer in {OK, NOT_EXECUTABLE, ALREADY_REGISTERED, ALREADY_HOOKED}
    {
      hide Consistent;
      if !targetExecutable || !newExecutable {
        return NOT_EXECUTABLE;
      }
      var pos := Find(targetAddr);
      if pos >= 0 {
        return if item[pos].status == REGISTERED then ALREADY_REGISTERED else ALREADY_HOOKED;
      }
      var from, to := ClearBit0(targetAddr), ClearBit0(targetAddr) + Length(targetAddr);
      var it := Item(targetAddr, newAddr, mem[from..to], REGISTERED);
      ItemAdded(mem[..], original, item[..size], it);
      AddedSaved(mem[..], original, item[..size], it);
      assert mem[from..to] == mem[..][from..to];
      item[size] := it;
      size := size + 1;
      assert item[..size] == old(item[..size]) + [it];
      answer := OK;
    }

    /** memcpy into the code. */
    method WriteCode(at: nat, s: seq<byte>)
      requires at + |s| <= mem.Length
      modifies mem
      ensures mem[..] == Written(old(mem[..]), at, s)
    {
      for i := 0 to |s|
        invariant forall a :: 0 <= a < mem.Length ==> mem[a] == if at <= a < at + i then s[a - at] else old(mem[a])
      {
        mem[at + i] := s[i];
      }
    }

    /** doInlineHook */
    method DoInlineHook(pos: nat)
      requires Valid() && pos < size && item[pos].status == REGISTERED
      modifies item, mem
      ensures Valid() && Items() == old(Items())[pos := old(Items())[pos].(status := HOOKED)]
      ensures var it := old(Items())[pos]; it.newAddr < 0x1_0000_0000 ==> Reaches(mem[..], it.targetAddr, it.newAddr)
    {
      hide Consistent, Written, Reaches;
      var it := item[pos];
      CodeFits(mem[..], original, item[..size], pos);
      HookWritten(mem[..], it);
      ItemChanged(mem[..], Written(mem[..], Start(it), Now(it.(status := HOOKED))),
                  original, item[..size], pos, HOOKED);
      WriteCode(ClearBit0(it.targetAddr), Patch(it.targetAddr, it.newAddr));
      item[pos] := it.(status := HOOKED);
      assert item[..size] == old(item[..size])[pos := it.(status := HOOKED)];
      if it.newAddr < 0x1_0000_0000 {
        HookedReaches(mem[..], original, item[..size], pos);
      }
    }

    /** doInlineUnHook: restore the code, and delete the item. */
    method DoInlineUnHook(pos: nat)
      requires Valid() && pos < size && item[pos].status == HOOKED
      modifies this`size, item, mem
      ensures Valid() && Items() == SwapDelete(old(Items()), pos)
    {
      hide Consistent, Written;
      var it := item[pos];
      ghost var items := item[..size];
      CodeFits(mem[..], original, items, pos);
      ItemChanged(mem[..], Written(mem[..], Start(it), it.origInstructions), original, items, pos, REGISTERED);
      WriteCode(ClearBit0(it.targetAddr), it.origInstructions);
      ItemRemoved(mem[..], original, items[pos := it.(status := REGISTERED)], pos);
      item[pos] := item[size - 1];
      size := size - 1;
      assert item[..size] == SwapDelete(items, pos);
      assert SwapDelete(items[pos := it.(status := REGISTERED)], pos) == SwapDelete(items, pos);
    }

    /** inlineHook */
    method InlineHook(targetAddr: nat) returns (answer: Answer)
      requires Valid()
      modifies item, mem
      ensures Valid() && answer in {OK, NOT_REGISTERED, ALREADY_HOOKED}
      ensures answer == NOT_REGISTERED <==>
        forall i :: 0 <= i < |old(Items())| ==> old(Items())[i].targetAddr != targetAddr
      ensures answer == OK ==> exists k :: (
        && 0 <= k < |old(Items())| && old(Items())[k].targetAddr == targetAddr && old(Items())[k].status == REGISTERED
        && Items() == old(Items())[k := old(Items())[k].(status := HOOKED)]
        && (Items()[k].newAddr < 0x1_0000_0000 ==> Reaches(mem[..], targetAddr, Items()[k].newAddr)))
      ensures answer == ALREADY_HOOKED ==>
        exists k :: 0 <= k < size && item[k].targetAddr == targetAddr && item[k].status == HOOKED
      ensures answer != OK ==> Items() == old(Items()) && mem[..] == old(mem[..])
    {
      hide Consistent, Reaches;
      var pos := Find(targetAddr);
      if pos < 0 {
        return NOT_REGISTERED;
      }
      assert Items()[pos] == item[pos];
      if item[pos].status == REGISTERED {
        DoInlineHook(pos);
        answer := OK;
      } else {
        answer := ALREADY_HOOKED;
      }
    }

    /** inlineUnHook */
    method InlineUnHook(targetAddr: nat) returns (answer: Answer)
      requires Valid()
      modifies this`size, item, mem
      ensures Valid() && answer in {OK, NOT_HOOKED}
      ensures answer == OK ==> exists k :: (
        && 0 <= k < |old(Items())| && old(Items())[k].targetAddr == targetAddr && old(Items())[k].status == HOOKED
        && Items() == SwapDelete(old(Items()), k))
      ensures answer == NOT_HOOKED ==>
        && Items() == old(Items()) && mem[..] == old(mem[..])
        && forall i :: 0 <= i < size ==> item[i].targetAddr != targetAddr || item[i].status == REGISTERED
    {
      hide Consistent, SwapDelete;
      for i := 0 to size
        invariant Valid() && size == old(size) && item[..] == old(item[..]) && mem[..] == old(mem[..])
        invariant forall k :: 0 <= k < i ==> item[k].targetAddr != targetAddr || item[k].status == REGISTERED
      {
        if item[i].targetAddr == targetAddr && item[i].status == HOOKED {
          assert Items()[i] == item[i];
          DoInlineUnHook(i);
          return OK;
        }
      }
      return NOT_HOOKED;
    }

    /** inlineHookAll: afterwards every item is hooked. */
    method InlineHookAll()
      requires Valid()
      modifies item, mem
      ensures Valid() && |Items()| == |old(Items())|
      ensures forall i :: 0 <= i < |Items()| ==> Items()[i] == old(Items())[i].(status := HOOKED)
      ensures forall i :: 0 <= i < |Items()| && Items()[i].newAddr < 0x1_0000_0000 ==>
        Reaches(mem[..], Items()[i].targetAddr, Items()[i].newAddr)
    {
      hide Consistent, Reaches;
      for i := 0 to size
        invariant Valid() && |Items()| == |old(Items())|
        invariant forall k :: 0 <= k < size ==>
          Items()[k] == if k < i then old(Items())[k].(status := HOOKED) else old(Items())[k]
      {
        assert Items()[i] == item[i];
        if item[i].status == REGISTERED {
          DoInlineHook(i);
        }
      }
      forall i | 0 <= i < |Items()| && Items()[i].newAddr < 0x1_0000_0000
        ensures Reaches(mem[..], Items()[i].targetAddr, Items()[i].newAddr)
      {
        HookedReaches(mem[..], original, Items(), i);
      }
    }

    /** inlineUnHookAll: afterwards no item is hooked, those that were not are still there, and the code is as
        it was at first.  A deleted item's place is looked at again. */
    method InlineUnHookAll()
      requires Valid()
      modifies this`size, item, mem
      ensures Valid() && mem[..] == original
      ensures forall it: Item :: it in Items() <==> it in old(Items()) && it.status == REGISTERED
    {
      hide Consistent, SwapDelete;
      var i := 0;
      while i < size
        invariant 0 <= i <= size && Valid()
        invariant forall k :: 0 <= k < i ==> Items()[k].status == REGISTERED
        invariant forall it: Item :: it.status == REGISTERED ==> (it in Items() <==> it in old(Items()))
        decreases size - i
      {
        assert Items()[i] == item[i];
        if item[i].status == HOOKED {
          SwapDeleteMembers(Items(), i);
          SwapDeleteKeeps(Items(), i);
          DoInlineUnHook(i);
          i := i - 1;
        }
        i := i + 1;
      }
      NoneHooked(mem[..], original, Items());
    }
  }

  lemma AddedSaved(mem: seq<byte>, original: seq<byte>, items: seq<Item>, it: Item)
    requires Consistent(mem, original, items + [it])
    ensures End(it) <= |original| && it.origInstructions == original[Start(it)..End(it)]
  {
    assert Saved((items + [it])[|items|], original);
  }

  lemma CodeFits(mem: seq<byte>, original: seq<byte>, items: seq<Item>, k: nat)
    requires Consistent(mem, original, items) && k < |items|
    ensures Sized(items[k]) && Start(items[k]) <= End(items[k]) <= |mem| == |original|
    ensures mem[Start(items[k])..End(items[k])] == Now(items[k])
  {
    assert Saved(items[k], original);
  }

  /** Writing the patch alone leaves the rest of the saved bytes where they were. */
  lemma HookWritten(mem: seq<byte>, it: Item)
    requires Sized(it) && End(it) <= |mem| && mem[Start(it)..End(it)] == it.origInstructions && it.status == REGISTERED
    ensures Start(it) + |Now(it.(status := HOOKED))| <= |mem|
    ensures Written(mem, Start(it), Patch(it.targetAddr, it.newAddr))
      == Written(mem, Start(it), Now(it.(status := HOOKED)))
  {
    var patch, s := Patch(it.targetAddr, it.newAddr), Now(it.(status := HOOKED));
    var w, w' := Written(mem, Start(it), patch), Written(mem, Start(it), s);
    forall a | 0 <= a < |mem|
      ensures w[a] == w'[a]
    {
      if Start(it) + |patch| <= a < End(it) {
        assert mem[a] == mem[Start(it)..End(it)][a - Start(it)];
      }
    }
    assert w == w';
  }

  lemma SwapDeleteMembers(items: seq<Item>, k: nat)
    requires k < |items| && items[k].status == HOOKED
    ensures forall it: Item :: it.status == REGISTERED ==> (it in SwapDelete(items, k) <==> it in items)
  {
    forall it: Item | it.status == REGISTERED
      ensures it in SwapDelete(items, k) <==> it in items
    {
      SwapDeleteKeeps(items, k);
      if i :| 0 <= i < |items| && items[i] == it {
        assert SwapDelete(items, k)[if i == |items| - 1 then k else i] == it;
      }
    }
  }
}
