/** Data sub-blocks, section 15 of GIF89a: length bytes 1..255 with that much data, then a zero. */
module SubBlocks {
  import opened Bits

  /** The data cut into blocks of 255 bytes and a last shorter one, with the empty block at the end. */
  function Frame(data: seq<byte>): (s: seq<byte>)
    ensures |s| > 0
  {
    if data == [] then [0]
    else if |data| <= 255 then [|data|] + data + [0]
    else [255] + data[..255] + Frame(data[255..])
  }

  /** The first n blocks of 255 bytes, without an end mark. */
  function FullBlocks(data: seq<byte>, n: nat): seq<byte>
    requires |data| == 255 * n
  {
    if n == 0 then [] else FullBlocks(data[..255 * (n - 1)], n - 1) + [255] + data[255 * (n - 1)..]
  }

  /** Full blocks followed by one more block and the end mark are the framing of all their data. */
  lemma FrameFromFull(data: seq<byte>, n: nat, rest: seq<byte>)
    requires |data| == 255 * n && 0 < |rest| <= 255
    ensures Frame(data + rest) == FullBlocks(data, n) + [|rest|] + rest + [0]
  {
    FrameSplit(data, n, rest);
  }

  lemma {:induction false} FrameSplit(data: seq<byte>, n: nat, rest: seq<byte>)
    requires |data| == 255 * n && rest != []
    ensures Frame(data + rest) == FullBlocks(data, n) + Frame(rest)
  {
    hide Frame;
    if n == 0 {
      assert data + rest == rest;
      assert [] + Frame(rest) == Frame(rest);
    } else {
      var front, block := data[..255 * (n - 1)], data[255 * (n - 1)..];
      FrameSplit(front, n - 1, block + rest);
      FrameBlock(block, rest);
      assert data + rest == front + (block + rest);
      Associate(FullBlocks(front, n - 1), [255] + block, Frame(rest));
      Associate(FullBlocks(front, n - 1), [255], block);
    }
  }

  lemma FrameBlock(block: seq<byte>, rest: seq<byte>)
    requires |block| == 255 && rest != []
    ensures Frame(block + rest) == [255] + block + Frame(rest)
  {
    assert (block + rest)[..255] == block && (block + rest)[255..] == rest;
  }

  /** What a writer that fills one block at a time has to say: `packed` went out in `full` blocks
      after `base`, `held` waits. */
  ghost predicate Blocked(written: seq<byte>, base: seq<byte>, packed: seq<byte>, full: nat, held: seq<byte>) {
    && |packed| == 255 * full && |held| <= 255
    && written == base + FullBlocks(packed, full)
    && (held == [] ==> full == 0)
  }

  lemma DumpFull(written: seq<byte>, base: seq<byte>, packed: seq<byte>, full: nat, held: seq<byte>, c: byte)
    requires Blocked(written, base, packed, full, held) && |held| == 255
    ensures Blocked(written + ([255] + held), base, packed + held, full + 1, [c])
    ensures packed + held + [c] == packed + (held + [c])
  {
    assert (packed + held)[..255 * full] == packed && (packed + held)[255 * full..] == held;
    assert base + FullBlocks(packed, full) + ([255] + held) == base + (FullBlocks(packed, full) + [255] + held);
  }

  lemma DumpLast(written: seq<byte>, base: seq<byte>, packed: seq<byte>, full: nat, held: seq<byte>)
    requires Blocked(written, base, packed, full, held)
    ensures held != [] ==> written + ([|held|] + held) + [0] == base + Frame(packed + held)
    ensures held == [] ==> written + [0] == base + Frame(packed + held)
  {
    if held != [] {
      FrameFromFull(packed, full, held);
      assert base + (FullBlocks(packed, full) + [|held|] + held + [0])
          == base + FullBlocks(packed, full) + ([|held|] + held) + [0];
    }
  }

  /** The data of the sub-blocks at the front of s, up to the empty block or to the first block that
      is cut short. */
  function Data(s: seq<byte>): seq<byte> {
    if |s| == 0 || s[0] == 0 || |s| <= s[0] then []
    else s[1..1 + s[0]] + Data(s[1 + s[0]..])
  }

  /** What comes after the empty block, if the sub-blocks at the front of s end in one. */
  datatype Tail = Missing | Found(rest: seq<byte>)

  function After(s: seq<byte>): Tail {
    if |s| == 0 then Missing
    else if s[0] == 0 then Found(s[1..])
    else if |s| <= s[0] then Missing
    else After(s[1 + s[0]..])
  }

  lemma DataBlock(block: seq<byte>, rest: seq<byte>)
    requires 0 < |block| <= 255
    ensures Data([|block|] + block + rest) == block + Data(rest)
    ensures After([|block|] + block + rest) == After(rest)
  {
    var s := [|block|] + block + rest;
    assert s[1..1 + s[0] as int] == block && s[1 + s[0] as int..] == rest;
  }

  lemma NoBlockAhead(s: seq<byte>)
    ensures Data(s) == [] <==> |s| == 0 || s[0] == 0 || |s| <= s[0] as int
  {
  }

  /** Cutting data into sub-blocks loses nothing and marks where it ends. */
  lemma {:induction false} FrameData(data: seq<byte>, tail: seq<byte>)
    ensures Data(Frame(data) + tail) == data
    ensures After(Frame(data) + tail) == Found(tail)
    decreases |data|
  {
    hide Data, After;
    EndData(tail);
    if data != [] {
      var block, rest := (if |data| <= 255 then data else data[..255]), (if |data| <= 255 then [] else data[255..]);
      FrameData(rest, tail);
      DataBlock(block, Frame(rest) + tail);
      assert Frame(data) == [|block|] + block + Frame(rest);
      Associate([|block|] + block, Frame(rest), tail);
      assert data == block + rest;
    }
  }

  lemma EndData(tail: seq<byte>)
    ensures Data([0] + tail) == [] && After([0] + tail) == Found(tail)
  {
    assert ([0] + tail)[1..] == tail;
  }
}
