/** The byte side of the second LZW encoder (Gifflen.cpp): append_code, write_code and the final dump. */
module GifflenOutput {
  import opened Bits
  import opened ShiftRegister
  import opened SubBlocks

  /** The fields stat_bits, code_in_progress, LZWpos and LZW, and the bytes written to the file. */
  class CodeFile {
    var statBits: nat
    var codeInProgress: nat
    var lzwPos: nat
    var written: seq<byte>
    const lzw: array<byte>

    ghost var bits: seq<bool>    // the bits of the codes since Begin
    ghost var base: seq<byte>    // written before the data blocks
    ghost var data: seq<byte>    // all bytes appended,
    ghost var packed: seq<byte>  // those of the `full` blocks already written
    ghost var full: nat

    constructor ()
      ensures fresh(lzw) && lzw.Length == 256 && written == []
    {
      lzw := new byte[256](_ => 0);
      statBits, codeInProgress, lzwPos, written := 0, 0, 1, [];
    }

    ghost predicate Blocks()
      reads this`written, this`lzwPos, this`base, this`data, this`packed, this`full, lzw
    {
      && lzw.Length == 256 && 1 <= lzwPos <= 255 && |packed| == 255 * full
      && written == base + FullBlocks(packed, full) && data == packed + lzw[1..lzwPos]
    }

    ghost predicate Shift()
      reads this`bits, this`data, this`codeInProgress, this`statBits
    {
      Shifted(bits, data, codeInProgress, statBits)
    }

    ghost predicate Valid()
      reads this, lzw
    {
      Blocks() && Shift() && statBits < 8
    }

    /** Start the codes of an image after its first byte. */
    method Begin(first: byte)
      requires lzw.Length == 256
      modifies this
      ensures Valid() && bits == [] && base == written == old(written) + [first]
    {
      statBits := 0;
      codeInProgress := 0;
      lzwPos := 1;
      written := written + [first];
      bits, base, data, packed, full := [], written, [], [], 0;
    }

    method AppendCode(code: byte)
      requires Blocks()
      modifies this`written, this`lzwPos, this`data, this`packed, this`full, lzw
      ensures Blocks() && data == old(data) + [code]
    {
      hide FullBlocks;
      ghost var held := lzw[1..lzwPos];
      lzw[lzwPos] := code;
      lzwPos := lzwPos + 1;
      data := data + [code];
      assert lzw[1..lzwPos] == held + [code];
      assert data == packed + (held + [code]);
      if lzwPos == 256 {
        lzw[0] := 255;
        BlockFilled(packed, full, held + [code]);
        assert lzw[..] == [255] + (held + [code]);
        written := written + lzw[..];
        packed, full := data, full + 1;
        lzwPos := 1;
        assert base + FullBlocks(old(packed), old(full)) + ([255] + (held + [code])) == base + FullBlocks(packed, full);
        assert data + [] == data;
      }
    }

    /** Append one code of the given width to the bit stream. */
    method WriteCode(noBits: nat, code: nat)
      requires Valid() && code < Pow2(noBits) && noBits <= 12
      modifies this`statBits, this`codeInProgress, this`bits, this`written, this`lzwPos
      modifies this`data, this`packed, this`full, lzw
      ensures Valid() && bits == old(bits) + ToBits(code, noBits) && statBits == (old(statBits) + noBits) % 8
    {
      hide ToBits, ByteBits, FullBlocks, Mask, Shr, Or, Shl, Pow2;
      ShiftIn(bits, data, codeInProgress, statBits, code, noBits);
      OrShifted(codeInProgress, code, statBits);
      codeInProgress := codeInProgress + Shl(code, statBits);
      statBits := statBits + noBits;
      assert statBits <= 19;  // so code_in_progress never needs more than 32 bits
      bits := bits + ToBits(code, noBits);
      ghost var out: nat := 0;
      while statBits > 7
        invariant Blocks() && Shift() && statBits + 8 * out == old(statBits) + noBits
        invariant bits == old(bits) + ToBits(code, noBits)
      {
        ShiftOutByte();
        out := out + 1;
      }
      BlockRemainder(statBits, out);
    }

    /** One turn of the loop in write_code. */
    method ShiftOutByte()
      requires Blocks() && Shift() && statBits >= 8
      modifies this`statBits, this`codeInProgress, this`written, this`lzwPos, this`data, this`packed, this`full, lzw
      ensures Blocks() && Shift() && statBits == old(statBits) - 8
    {
      hide ToBits, ByteBits, FullBlocks, Mask, Shr, Pow2;
      ShiftOut(bits, data, codeInProgress, statBits);
      AppendCode(Mask(codeInProgress, 8));
      codeInProgress := Shr(codeInProgress, 8);
      statBits := statBits - 8;
    }

    /** Write the last block and the one that ends the data. */
    method Dump()
      requires Blocks()
      modifies this`written, lzw
      ensures written == base + Frame(data) + (if |data| % 255 == 0 then [0] else [])
    {
      hide Frame, FullBlocks;
      ghost var held := lzw[1..lzwPos];
      lzw[0] := lzwPos - 1;
      assert lzw[..lzwPos] == [|held|] + held;
      written := written + lzw[..lzwPos];
      written := written + [0];
      Dumped(base, packed, full, held);
    }
  }

  lemma BlockFilled(packed: seq<byte>, full: nat, held: seq<byte>)
    requires |packed| == 255 * full && |held| == 255
    ensures |packed + held| == 255 * (full + 1)
    ensures FullBlocks(packed + held, full + 1) == FullBlocks(packed, full) + [255] + held
  {
    assert (packed + held)[..255 * full] == packed && (packed + held)[255 * full..] == held;
  }

  /** Full blocks and the empty one are a frame. */
  lemma FrameFull(data: seq<byte>, n: nat)
    requires |data| == 255 * n
    ensures Frame(data) == FullBlocks(data, n) + [0]
  {
    hide Frame, FullBlocks;
    if n == 0 {
      NoBlock(data);
    } else {
      var front, block := data[..255 * (n - 1)], data[255 * (n - 1)..];
      FrameSplit(front, n - 1, block);
      assert front + block == data;
      LastBlock(data, n);
      WholeBlock(block);
      Regroup(FullBlocks(front, n - 1), [255], block, [0]);
    }
  }

  lemma NoBlock(data: seq<byte>)
    requires data == []
    ensures Frame(data) == [0] && FullBlocks(data, 0) == []
  {
  }

  lemma LastBlock(data: seq<byte>, n: nat)
    requires |data| == 255 * n && n > 0
    ensures FullBlocks(data, n) == FullBlocks(data[..255 * (n - 1)], n - 1) + [255] + data[255 * (n - 1)..]
  {
  }

  lemma WholeBlock(block: seq<byte>)
    requires |block| == 255
    ensures Frame(block) == [255] + block + [0]
  {
  }

  lemma Regroup(a: seq<byte>, b: seq<byte>, c: seq<byte>, d: seq<byte>)
    ensures a + (b + c + d) == a + b + c + d
  {
  }

  lemma BlockRemainder(n: nat, bytes: nat)
    requires n < 8
    ensures (n + 8 * bytes) % 8 == n
  {
  }

  lemma BlockRest(full: nat, n: nat)
    requires n < 255
    ensures (255 * full + n) % 255 == n
  {
  }

  /** When the data fills its blocks exactly, the last block is written empty and another empty one follows. */
  lemma Dumped(base: seq<byte>, packed: seq<byte>, full: nat, held: seq<byte>)
    requires |packed| == 255 * full && |held| < 255
    ensures base + FullBlocks(packed, full) + ([|held|] + held) + [0]
         == base + Frame(packed + held) + (if |packed + held| % 255 == 0 then [0] else [])
  {
    hide Frame, FullBlocks;
    BlockRest(full, |held|);
    if held == [] {
      FrameFull(packed, full);
      assert packed + [] == packed;
      assert base + FullBlocks(packed, full) + ([0] + []) + [0] == base + (FullBlocks(packed, full) + [0]) + [0];
    } else {
      FrameFromFull(packed, full, held);
      assert base + FullBlocks(packed, full) + ([|held|] + held) + [0]
          == base + (FullBlocks(packed, full) + [|held|] + held + [0]) + [];
    }
  }
}
