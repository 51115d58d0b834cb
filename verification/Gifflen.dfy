/** The second LZW encoder (Gifflen.cpp): one pass over a raster of at least two pixels. */
module Gifflen {
  import opened Bits
  import opened EncoderTable
  import opened GifFormat
  import opened GifflenOutput
  import opened GreedyParse
  import opened HashTree
  import opened Lzw
  import opened ShiftRegister
  import opened SubBlocks

  /** max_bits: the least number of bits that can tell num things apart. */
  method MaxBits(num: nat) returns (b: nat)
    ensures num <= 8192 ==> Pow2(b) >= num && forall c: nat :: c < b ==> Pow2(c) < num
    ensures num > 8192 ==> b == 0
  {
    SmallPowers();
    for i := 0 to 14
      invariant forall c: nat :: c < i ==> Pow2(c) < num
    {
      ShlOne(i);
      if Shl(1, i) >= num {
        Pow2Grows(i, 13);
        return i;
      }
    }
    Pow2Grows(13, 13);
    return 0;
  }

  /** The pixel at (x, y) comes next, n of them having come before; if `done` there is none. */
  ghost predicate At(n: nat, x: nat, y: nat, done: bool, xdim: nat, ydim: nat) {
    if done then n == RowStart(ydim, xdim)
    else x < xdim && y < ydim && n == RowStart(y, xdim) + x
  }

  lemma AtNext(n: nat, x: nat, y: nat, xdim: nat, ydim: nat)
    requires At(n, x, y, false, xdim, ydim)
    ensures n < RowStart(ydim, xdim)
    ensures if x + 1 < xdim then At(n + 1, x + 1, y, false, xdim, ydim)
            else At(n + 1, 0, y + 1, y + 1 >= ydim, xdim, ydim)
  {
    RowFits(y, ydim, xdim);
  }

  class Gifflen {
    const out: CodeFile
    const tree: HashTree

    ghost var codes: seq<nat>    // the codes written,
    ghost var dict: Dict         // a decoder that has read them,
    ghost var pixels: seq<byte>  // the pixels it has seen,
    ghost var pending: seq<byte> // those that the code not yet written stands for,
    ghost var strings: map<nat, seq<byte>> // and the strings that have got a code

    constructor ()
      ensures fresh(out) && fresh(out.lzw) && fresh(tree) && fresh(tree.hashtree)
      ensures out.lzw.Length == 256 && tree.hashtree.Length == HASH && out.written == []
    {
      out := new CodeFile();
      tree := new HashTree();
    }

    /** A decoder in state `dict` has read what was written. */
    ghost predicate Stream(bpp: nat)
      reads this`codes, this`dict, this`pixels, out, out.lzw
    {
      out.Valid() && 2 <= bpp <= 8 && dict.bpp == bpp && Play(bpp, codes) == Told(dict, out.bits, pixels, true)
    }

    /** Between pixels. */
    ghost predicate Coding(bpp: nat, pre: nat, code: nat, bits: nat, max: nat)
      reads this, out, out.lzw, tree, tree.hashtree
    {
      && Stream(bpp) && tree.Valid()
      && code == EofCode(bpp) + 1 + dict.seen <= max == Pow2(bits) && bits == Width(dict) <= LZ_BITS
      && Agree(dict, strings, tree.codes, pre, pending)
    }

    ghost function Consumed(): seq<byte>
      reads this`pixels, this`pending
    {
      pixels + pending
    }

    /** The table and the number of bits written are those of a parse of the image. */
    ghost predicate Parsing(bpp: nat, p: Parse)
      reads this`strings, this`pending, this`dict, tree`codes, out`bits
    {
      Keeps(bpp, strings, tree.codes, pending, dict.seen, |out.bits|, p)
    }

    /** Write a code that the decoder will understand. */
    method Emit(ghost bpp: nat, bits: nat, pre: nat)
      requires Stream(bpp) && bits == Width(dict) <= LZ_BITS && Legal(dict, pre) && pre < Pow2(bits)
      modifies this`codes, this`dict, this`pixels
      modifies out`statBits, out`codeInProgress, out`bits, out`written, out`lzwPos, out`data, out`packed, out`full
      modifies out.lzw
      ensures Stream(bpp) && dict == Learn(old(dict), pre) && pixels == old(pixels) + StringOf(old(dict), pre)
      ensures out.bits == old(out.bits) + ToBits(pre, bits) && out.statBits == (old(out.statBits) + bits) % 8
    {
      hide Play, Tell, ByteBits, ToBits, FullBlocks;
      PlayCode(bpp, codes, dict, out.bits, pixels, pre);
      out.WriteCode(bits, pre);
      codes := codes + [pre];
      pixels := pixels + StringOf(dict, pre);
      dict := Learn(dict, pre);
    }

    /** Write the clear code: the decoder starts again. */
    method EmitClear(ghost bpp: nat, bits: nat, clear: nat)
      requires Stream(bpp) && bits == Width(dict) <= LZ_BITS && clear == ClearCode(bpp) < Pow2(bits)
      modifies this`codes, this`dict
      modifies out`statBits, out`codeInProgress, out`bits, out`written, out`lzwPos, out`data, out`packed, out`full
      modifies out.lzw
      ensures Stream(bpp) && dict == Start(bpp) && out.bits == old(out.bits) + ToBits(clear, bits)
    {
      hide Play, Tell, ByteBits, ToBits, FullBlocks;
      PlayClear(bpp, codes, dict, out.bits, pixels);
      out.WriteCode(bits, clear);
      codes := codes + [clear];
      dict := Start(bpp);
    }

    /** The code parameters for a new table, from the bits of a colour index. */
    method NewTable(colorBits: nat) returns (clear: nat, eoi: nat, code: nat, bits: nat, max: nat)
      requires 1 <= colorBits <= 8
      ensures var bpp := CodeSize(colorBits);
        && clear == ClearCode(bpp) && eoi == EofCode(bpp) && code == eoi + 1 && bits == bpp + 1 && max == Pow2(bits)
        && code <= max && clear <= 256
    {
      var bitsColor := colorBits - 1;
      ShlOne(bitsColor + 1);
      ShlOne(bitsColor + 2);
      SmallPowers();
      Pow2Grows(colorBits, 8);
      if colorBits >= 2 {
        Pow2Grows(2, colorBits);
      }
      clear := Shl(1, bitsColor + 1);
      eoi := clear + 1;
      code := eoi + 1;
      bits := bitsColor + 2;
      max := Shl(1, bits);
      if code == max {
        clear := 4;
        eoi := 5;
        code := 6;
        bits := bits + 1;
        max := 2 * max;
      }
    }

    /** Write the code of the string so far, and give the longer string the next code. */
    method PutPair(ghost bpp: nat, i: nat, pre: nat, suf: byte, code: nat, bits: nat, ghost max: nat)
      requires Coding(bpp, pre, code, bits, max) && suf < ClearCode(bpp)
      requires i < HASH && tree.PlaceFor(NewKey(pre, suf), i) && NewKey(pre, suf) !in tree.codes
      modifies this`codes, this`dict, this`pixels, this`strings, this`pending, tree`codes, tree.hashtree
      modifies out`statBits, out`codeInProgress, out`bits, out`written, out`lzwPos, out`data, out`packed, out`full
      modifies out.lzw
      ensures Stream(bpp) && tree.Valid() && dict.seen == old(dict.seen) + 1
      ensures Width(dict) == if code == max && bits < LZ_BITS then bits + 1 else bits
      ensures Pow2(bits + 1) == 2 * max && max >= 2 && max <= 4096 && (bits < LZ_BITS ==> 2 * max <= 4096)
      ensures strings == old(strings)[code := old(pending) + [suf]] && pending == [suf]
      ensures tree.codes == old(tree.codes)[NewKey(pre, suf) := code]
      ensures code < max || bits < LZ_BITS ==> Agree(dict, strings, tree.codes, suf, pending)
      ensures Consumed() == old(Consumed()) + [suf] && |out.bits| == |old(out.bits)| + bits
    {
      hide Play, Tell, ByteBits, ToBits, FullBlocks, Stores, Learn, Agree, StringOf, Legal, Width;
      CanWrite(dict, strings, tree.codes, pre, pending);
      NextTable(dict, strings, tree.codes, pre, pending, suf, bits, max);
      Emit(bpp, bits, pre);
      tree.Put(i, pre, suf, code);
      strings, pending := strings[code := pending + [suf]], [suf];
    }

    /** What follows a failed search: write the code of the string so far, give the longer string the next
        code, and widen the codes or start a new table when it is time. */
    method DefineNext(colorBits: nat, i: nat, pre: nat, suf: byte, code: nat, bits: nat, max: nat, clear: nat)
      returns (code': nat, bits': nat, max': nat)
      requires clear == ClearCode(CodeSize(colorBits))
      requires 1 <= colorBits <= 8 && Coding(CodeSize(colorBits), pre, code, bits, max)
      requires suf < ClearCode(CodeSize(colorBits))
      requires i < HASH && tree.PlaceFor(NewKey(pre, suf), i) && NewKey(pre, suf) !in tree.codes
      modifies this, tree, tree.hashtree
      modifies out`statBits, out`codeInProgress, out`bits, out`written, out`lzwPos, out`data, out`packed, out`full
      modifies out.lzw
      ensures Coding(CodeSize(colorBits), suf, code', bits', max') && Consumed() == old(Consumed()) + [suf]
      ensures pending == [suf]
      ensures code < 4096 ==>
        && strings == old(strings)[code := old(pending) + [suf]]
        && tree.codes == old(tree.codes)[NewKey(pre, suf) := code]
        && dict.seen == old(dict.seen) + 1 && |out.bits| == |old(out.bits)| + bits
      ensures code >= 4096 ==>
        strings == map[] && tree.codes == map[] && dict.seen == 0
          && |out.bits| == |old(out.bits)| + bits + LZ_BITS && bits == LZ_BITS
    {
      hide Play, Tell, ByteBits, ToBits, FullBlocks, Stores, Learn, Agree, StringOf, Legal, Width;
      PutPair(CodeSize(colorBits), i, pre, suf, code, bits, max);
      code', bits', max' := code + 1, bits, max;
      if code' == max + 1 {
        max' := 2 * max;
        if bits == 12 {
          code', bits', max' := Restart(colorBits, suf, clear);
        } else {
          bits' := bits + 1;
        }
      }
    }

    /** The table is full. */
    method Restart(colorBits: nat, suf: byte, clear: nat) returns (code: nat, bits: nat, max: nat)
      requires clear == ClearCode(CodeSize(colorBits))
      requires 1 <= colorBits <= 8 && Stream(CodeSize(colorBits)) && tree.hashtree.Length == HASH
      requires suf < ClearCode(CodeSize(colorBits)) && pending == [suf] && Width(dict) == 12
      modifies this`codes, this`dict, this`strings, tree, tree.hashtree
      modifies out`statBits, out`codeInProgress, out`bits, out`written, out`lzwPos, out`data, out`packed, out`full
      modifies out.lzw
      ensures Coding(CodeSize(colorBits), suf, code, bits, max) && strings == map[] && tree.codes == map[]
      ensures dict.seen == 0 && |out.bits| == |old(out.bits)| + LZ_BITS
    {
      hide Play, Tell, ByteBits, ToBits, FullBlocks, Stores;
      SmallPowers();
      Pow2Grows(CodeSize(colorBits), 8);
      EmitClear(CodeSize(colorBits), 12, clear);
      tree.Clear();
      var _, _, code', bits', max' := NewTable(colorBits);
      code, bits, max := code', bits', max';
      strings := map[];
      AgreeAtStart(CodeSize(colorBits), suf);
    }

    /** The end code, zero bits to fill the last byte, and the last block. */
    method WriteEnd(bits: nat, eoi: nat) returns (ghost left: nat)
      requires out.Valid() && eoi < Pow2(bits) && bits <= LZ_BITS
      modifies out`statBits, out`codeInProgress, out`bits, out`written, out`lzwPos, out`data, out`packed, out`full
      modifies out.lzw
      ensures out.written == out.base + Frame(out.data) + (if |out.data| % 255 == 0 then [0] else [])
      ensures left == (old(out.statBits) + bits) % 8 && out.statBits == if left == 0 then 0 else (left + bits) % 8
      ensures old(out.bits) + ToBits(eoi, bits) + (if left == 0 then [] else ToBits(0, bits))
           == ByteBits(out.data) + ToBits(out.codeInProgress, out.statBits)
    {
      hide ToBits, ByteBits, FullBlocks, Frame;
      out.WriteCode(bits, eoi);
      left := out.statBits;
      ghost var all := out.bits;
      if out.statBits != 0 {
        ZeroFits(bits);
        out.WriteCode(bits, 0);
      }
      assert all + [] == all;
      out.Dump();
    }

    /** The end of the image: the last code and the end code.  The zero bits after them may be too few to fill
        a byte, which is then lost. */
    method FinishImage(ghost bpp: nat, pre: nat, ghost code: nat, bits: nat, ghost max: nat, eoi: nat)
      requires Coding(bpp, pre, code, bits, max) && eoi == EofCode(bpp)
      modifies this`codes, this`dict, this`pixels
      modifies out`statBits, out`codeInProgress, out`bits, out`written, out`lzwPos, out`data, out`packed, out`full
      modifies out.lzw
      ensures out.written == out.base + Frame(out.data) + (if |out.data| % 255 == 0 then [0] else [])
      ensures Decode(Start(bpp), ByteBits(out.data)).end != Malformed
      ensures Decode(Start(bpp), ByteBits(out.data)).pixels
        == if LostIn(|old(out.bits)|, bits) <= 2 * bits then old(Consumed()) else old(pixels)
    {
      hide Play, Tell, ByteBits, ToBits, FullBlocks, Frame, Stores, Decode, Agree, Legal, StringOf, LostIn;
      WaitingBits(out.bits, out.data, out.codeInProgress, out.statBits);
      CanWrite(dict, strings, tree.codes, pre, pending);
      EndFits(dict, strings, tree.codes, pre, pending);
      ghost var codes0, d, start, seen := codes, dict, out.bits, pixels;
      ghost var n := |out.bits|;
      Emit(bpp, bits, pre);
      ghost var state := out.statBits;
      ghost var left := WriteEnd(bits, eoi);
      LostModulo(n, bits, state, left, out.statBits);
      Ending(bpp, codes0, d, start, seen, pre, bits, ByteBits(out.data), left, out.codeInProgress, out.statBits);
    }

    /** The rows in the order in which they are compressed. */
    method RowList(ydim: nat) returns (rasters: array<nat>)
      requires ydim <= 768
      ensures fresh(rasters) && rasters.Length == 768 && forall k :: 0 <= k < ydim ==> rasters[k] == k
    {
      rasters := new nat[768];
      var rasterlen := 0;
      for e := 1 to ydim + 1
        invariant rasterlen == e - 1 && forall k :: 0 <= k < rasterlen ==> rasters[k] == k
      {
        rasters[rasterlen] := e - 1;
        rasterlen := rasterlen + 1;
      }
    }

    /** Up to the first pixel. */
    method BeginImage(colorBits: nat, first: byte) returns (clear: nat, eoi: nat, code: nat, bits: nat, max: nat)
      requires 1 <= colorBits <= 8 && first < ClearCode(CodeSize(colorBits))
      requires out.lzw.Length == 256 && tree.hashtree.Length == HASH
      modifies this, tree, tree.hashtree, out, out.lzw
      ensures Coding(CodeSize(colorBits), first, code, bits, max) && Consumed() == [first]
      ensures Parsing(CodeSize(colorBits), GreedyParse.FirstPixel(first))
      ensures clear == ClearCode(CodeSize(colorBits)) && eoi == EofCode(CodeSize(colorBits))
      ensures 2 <= CodeSize(colorBits) <= 8 && out.base == old(out.written) + [CodeSize(colorBits)]
    {
      hide Play, Tell, ByteBits, ToBits, FullBlocks, Stores, Agree, Mirrors, BitsBefore, TableSize;
      hide CodeFile.Valid, HashTree.Valid;
      tree.Clear();
      clear, eoi, code, bits, max := NewTable(colorBits);
      out.Begin(bits - 1);
      codes, dict, strings, pixels, pending := [], Start(CodeSize(colorBits)), map[], [], [first];
      NothingPlayed(CodeSize(colorBits));
      EmitClear(CodeSize(colorBits), bits, clear);
      AgreeAtStart(CodeSize(colorBits), first);
      NothingKnown();
      NextBits(CodeSize(colorBits), 0, 0);
      TableRoom(CodeSize(colorBits));
    }

    /** Look for the string so far and one more pixel. */
    method Lookup(ghost bpp: nat, pre: nat, suf: byte, ghost code: nat, ghost bits: nat, ghost max: nat, ghost p: Parse)
      returns (i: nat)
      requires Coding(bpp, pre, code, bits, max) && Parsing(bpp, p)
      modifies this`pending
      ensures i < HASH
      ensures tree.hashtree[i].code == -1 ==>
        && Coding(bpp, pre, code, bits, max) && Consumed() == old(Consumed())
        && NewKey(pre, suf) !in tree.codes && tree.PlaceFor(NewKey(pre, suf), i)
        && Parsing(bpp, p) && p.pending + [suf] !in p.known
      ensures tree.hashtree[i].code != -1 ==>
        && Parsing(bpp, NextPixel(bpp, TableSize(bpp), p, suf))
        && tree.hashtree[i].code >= 0 && Coding(bpp, tree.hashtree[i].code, code, bits, max)
        && Consumed() == old(Consumed()) + [suf]
    {
      hide Play, Tell, ByteBits, ToBits, FullBlocks, Stores, Agree, Mirrors, BitsBefore;
      CanWrite(dict, strings, tree.codes, pre, pending);
      TableSmall(dict, strings, tree.codes, pre, pending);
      KnownPair(dict, strings, tree.codes, pre, pending, suf, p.known);
      i := tree.FindHash(pre, suf);
      if tree.hashtree[i].code != -1 {
        Follow(dict, strings, tree.codes, pre, pending, suf);
        pending := pending + [suf];
      }
    }

    /** GIF_LZW_compressor, without interlacing: compress the palette indices of an image.  A decoder gets exactly
        these back, unless the parse is spoiled: then it gets all but those of the last code. */
    method Compress(image: array<byte>, xdim: nat, ydim: nat, numColors: nat) returns (ghost codeSize: byte)
      requires out.lzw.Length == 256 && tree.hashtree.Length == HASH && image != out.lzw
      requires 2 <= numColors <= 256 && 0 < xdim && 0 < ydim <= 768 && image.Length == RowStart(ydim, xdim) >= 2
      requires forall k :: 0 <= k < image.Length ==> image[k] < numColors
      modifies this, tree, tree.hashtree, out, out.lzw
      ensures IsCodeSize(codeSize, numColors) && out.base == old(out.written) + [codeSize]
      ensures out.written == out.base + Frame(out.data) + (if |out.data| % 255 == 0 then [0] else [])
      ensures Decode(Start(codeSize), ByteBits(out.data)).end != Malformed
      ensures var p := ParseOf(codeSize, TableSize(codeSize), old(image[..]));
        Decode(Start(codeSize), ByteBits(out.data)).pixels
          == if Spoiled(codeSize, p) then old(image[..])[..image.Length - |p.pending|] else old(image[..])
      ensures numColors > 4 ==> Decode(Start(codeSize), ByteBits(out.data)).pixels == old(image[..])
    {
      hide Coding, Consumed, ByteBits, Frame, Decode, RowStart, Pow2, At, Parsing, ParseOf, NextPixel;
      var colorBits := MaxBits(numColors);
      ColorsFit(numColors, colorBits);
      codeSize := CodeSize(colorBits);
      RowFits(0, ydim, xdim);
      var rasters := RowList(ydim);
      FirstRow(xdim);
      var pre: nat := image[RowStart(rasters[0], xdim)];
      var clear, eoi, code, bits, max;
      clear, eoi, code, bits, max := BeginImage(colorBits, pre);
      var x: nat, y: nat, done := 1, 0, false;
      ghost var n: nat := 1;
      if x >= xdim {
        y := y + 1;
        x := 0;
      }
      FirstAt(xdim, ydim);
      assert image[..1] == [image[0]];
      ParseFirst(codeSize, TableSize(codeSize), image[0]);
      while true
        invariant 1 <= n <= image.Length && At(n, x, y, done, xdim, ydim)
        invariant Coding(codeSize, pre, code, bits, max) && Consumed() == image[..n]
        invariant Parsing(codeSize, ParseOf(codeSize, TableSize(codeSize), image[..n]))
        invariant out.base == old(out.written) + [codeSize] && forall k :: 0 <= k < ydim ==> rasters[k] == k
        decreases image.Length - n
      {
        var i, suf;
        pre, i, suf, x, y, done, n :=
          Search(codeSize, pre, code, bits, max, clear, image, rasters, xdim, ydim, x, y, done, n);
        if i == HASH {
          assert image[..n] == image[..];
          FinishParsed(codeSize, pre, code, bits, max, eoi, image[..]);
          return;
        }
        assert image[..n] == image[..n - 1] + [suf];
        ghost var p := ParseOf(codeSize, TableSize(codeSize), image[..n - 1]);
        ParseSnoc(codeSize, TableSize(codeSize), image[..n - 1], suf);
        code, bits, max := DefineParsed(colorBits, i, pre, suf, code, bits, max, clear, p);
        pre := suf;
      }
    }

    /** What is lost at the end, in terms of the image. */
    method FinishParsed(ghost bpp: nat, pre: nat, ghost code: nat, bits: nat, ghost max: nat, eoi: nat,
                        ghost image: seq<byte>)
      requires Coding(bpp, pre, code, bits, max) && eoi == EofCode(bpp)
      requires image != [] && Consumed() == image && Parsing(bpp, ParseOf(bpp, TableSize(bpp), image))
      modifies this`codes, this`dict, this`pixels
      modifies out`statBits, out`codeInProgress, out`bits, out`written, out`lzwPos, out`data, out`packed, out`full
      modifies out.lzw
      ensures out.written == out.base + Frame(out.data) + (if |out.data| % 255 == 0 then [0] else [])
      ensures Decode(Start(bpp), ByteBits(out.data)).end != Malformed
      ensures var p := ParseOf(bpp, TableSize(bpp), image);
        Decode(Start(bpp), ByteBits(out.data)).pixels
          == if Spoiled(bpp, p) then image[..|image| - |p.pending|] else image
    {
      hide Play, Tell, ByteBits, ToBits, FullBlocks, Frame, Stores, Decode, Agree, ParseOf, Mirrors, BitsBefore;
      ghost var p := ParseOf(bpp, TableSize(bpp), image);
      SpoiledIfLost(bpp, p);
      assert image[..|image| - |p.pending|] == pixels;
      FinishImage(bpp, pre, code, bits, max, eoi);
    }

    /** The inner loop of GIF_LZW_compressor: go on as long as the string so far is in the table.  It ends at a
        place i for a longer string, or with HASH when there are no more pixels. */
    method Search(ghost bpp: nat, pre: nat, ghost code: nat, ghost bits: nat, ghost max: nat, clear: nat,
                  image: array<byte>, rasters: array<nat>, xdim: nat, ydim: nat, x: nat, y: nat,
                  done: bool, ghost n: nat)
      returns (pre': nat, i: nat, suf: byte, x': nat, y': nat, done': bool, ghost n': nat)
      requires image.Length == RowStart(ydim, xdim) && 0 < n <= image.Length && At(n, x, y, done, xdim, ydim)
      requires ydim <= rasters.Length && forall k :: 0 <= k < ydim ==> rasters[k] == k
      requires Coding(bpp, pre, code, bits, max) && Consumed() == image[..n]
      requires Parsing(bpp, ParseOf(bpp, TableSize(bpp), image[..n]))
      requires clear == ClearCode(bpp) && forall k :: 0 <= k < image.Length ==> image[k] < clear
      modifies this`pending
      ensures n <= n' <= image.Length && At(n', x', y', done', xdim, ydim) && Coding(bpp, pre', code, bits, max)
      ensures i == HASH ==>
        n' == image.Length && Consumed() == image[..n'] && Parsing(bpp, ParseOf(bpp, TableSize(bpp), image[..n']))
      ensures i < HASH ==>
        && n < n' && suf == image[n' - 1] < clear && Consumed() == image[..n' - 1]
        && NewKey(pre', suf) !in tree.codes && tree.PlaceFor(NewKey(pre', suf), i)
        && var p := ParseOf(bpp, TableSize(bpp), image[..n' - 1]);
        Parsing(bpp, p) && p.pending + [suf] !in p.known
      ensures i <= HASH
    {
      hide Play, Tell, ByteBits, ToBits, FullBlocks, Stores, Agree, RowStart, Gifflen.Parsing, ParseOf, NextPixel;
      pre', suf, x', y', done', n' := pre, 0, x, y, done, n;
      while true
        invariant n <= n' <= image.Length && At(n', x', y', done', xdim, ydim)
        invariant Coding(bpp, pre', code, bits, max) && Consumed() == image[..n']
        invariant Parsing(bpp, ParseOf(bpp, TableSize(bpp), image[..n']))
        decreases image.Length - n'
      {
        if !done' {
          AtNext(n', x', y', xdim, ydim);
          suf := image[RowStart(rasters[y'], xdim) + x'];
          x' := x' + 1;
          if x' >= xdim {
            y' := y' + 1;
            x' := 0;
            if y' >= ydim {
              done' := true;
            }
          }
          n' := n' + 1;
          assert image[..n'] == image[..n' - 1] + [suf];
          ParseSnoc(bpp, TableSize(bpp), image[..n' - 1], suf);
          i := Lookup(bpp, pre', suf, code, bits, max, ParseOf(bpp, TableSize(bpp), image[..n' - 1]));
          if tree.hashtree[i].code == -1 {
            return;
          } else {
            pre' := tree.hashtree[i].code;
          }
        } else {
          i := HASH;
          return;
        }
      }
    }

    /** DefineNext goes on as the parse does. */
    method DefineParsed(colorBits: nat, i: nat, pre: nat, suf: byte, code: nat, bits: nat, max: nat, clear: nat,
                        ghost p: Parse)
      returns (code': nat, bits': nat, max': nat)
      requires clear == ClearCode(CodeSize(colorBits)) && suf < clear
      requires 1 <= colorBits <= 8 && Coding(CodeSize(colorBits), pre, code, bits, max)
      requires i < HASH && tree.PlaceFor(NewKey(pre, suf), i) && NewKey(pre, suf) !in tree.codes
      requires Parsing(CodeSize(colorBits), p) && p.pending + [suf] !in p.known
      modifies this, tree, tree.hashtree
      modifies out`statBits, out`codeInProgress, out`bits, out`written, out`lzwPos, out`data, out`packed, out`full
      modifies out.lzw
      ensures Coding(CodeSize(colorBits), suf, code', bits', max') && Consumed() == old(Consumed()) + [suf]
      ensures Parsing(CodeSize(colorBits), NextPixel(CodeSize(colorBits), TableSize(CodeSize(colorBits)), p, suf))
    {
      hide Play, Tell, ByteBits, ToBits, FullBlocks, Stores, Agree, Keeps, NextPixel;
      KeepsOn(dict, strings, tree.codes, pre, pending, suf, |out.bits|, p, code);
      code', bits', max' := DefineNext(colorBits, i, pre, suf, code, bits, max, clear);
    }
  }

  /** A picture of two pixels that the compressor spoils: a decoder gets only the first one. */
  method SecondPixelLost() returns (g: Gifflen, ghost codeSize: byte)
    ensures fresh(g) && codeSize == 2 && Decode(Start(codeSize), ByteBits(g.out.data)).pixels == [0]
  {
    hide Decode, ByteBits, Frame, RowStart, Pow2;
    SmallPowers();
    TwoPixels();
    FirstRow(2);
    RowFits(0, 1, 2);
    g := new Gifflen();
    var image := new byte[2];
    image[0], image[1] := 0, 1;
    assert image[..] == [0, 1];
    codeSize := g.Compress(image, 2, 1, 4);
  }

  lemma WaitingBits(bits: seq<bool>, data: seq<byte>, dword: nat, state: nat)
    requires Shifted(bits, data, dword, state) && state < 8
    ensures state == |bits| % 8
  {
    assert |bits| == 8 * |data| + state;
  }

  lemma NothingPlayed(bpp: nat)
    ensures Play(bpp, []) == Told(Start(bpp), [], [], true)
  {
  }

  lemma TableSmall(d: Dict, strings: map<nat, seq<byte>>, codes: map<nat, nat>, pre: nat, pending: seq<byte>)
    requires Agree(d, strings, codes, pre, pending)
    ensures |codes| < HASH && NextCode(d) < 0x1000
  {
  }

  /** The second pixel. */
  lemma FirstAt(xdim: nat, ydim: nat)
    requires 0 < xdim && 0 < ydim && RowStart(ydim, xdim) >= 2
    ensures if 1 >= xdim then At(1, 0, 1, false, xdim, ydim) else At(1, 1, 0, false, xdim, ydim)
  {
  }

  lemma FirstRow(xdim: nat)
    ensures RowStart(0, xdim) == 0
  {
  }

  /** The code size for so many colours: the bits that tell them apart, but at least 2. */
  ghost predicate IsCodeSize(bpp: nat, numColors: nat) {
    2 <= bpp <= 8 && numColors <= Pow2(bpp) && (bpp > 2 ==> numColors > Pow2(bpp - 1))
  }

  /** Every colour has a code of its own. */
  lemma ColorsFit(numColors: nat, colorBits: nat)
    requires 2 <= numColors <= 256
    requires Pow2(colorBits) >= numColors && forall c: nat :: c < colorBits ==> Pow2(c) < numColors
    ensures 1 <= colorBits <= 8 && numColors <= ClearCode(CodeSize(colorBits))
    ensures IsCodeSize(CodeSize(colorBits), numColors) && (numColors > 4 ==> CodeSize(colorBits) > 2)
  {
    SmallPowers();
    assert Pow2(0) == 1;
    assert Pow2(8) >= numColors;
  }

  lemma EndFits(d: Dict, strings: map<nat, seq<byte>>, codes: map<nat, nat>, pre: nat, pending: seq<byte>)
    requires Agree(d, strings, codes, pre, pending)
    ensures EofCode(d.bpp) < Pow2(Width(d)) && Width(d) >= 3 && pending != []
  {
    WidthFits(d);
  }

  lemma ZeroFits(w: nat)
    ensures 0 < Pow2(w)
  {
  }

  /** What is in the bytes when `left` bits of the stream, padding included, are still waiting. */
  lemma Filled(all: seq<bool>, bytes: seq<bool>, padding: seq<bool>, dword: nat, left: nat)
    requires all + padding == bytes + ToBits(dword, left)
    ensures left <= |padding| ==> bytes == all + padding[..|padding| - left]
    ensures |padding| <= left <= |padding| + |all| ==> bytes == all[..|all| + |padding| - left]
  {
    assert bytes == (all + padding)[..|bytes|];
  }

  lemma {:induction false} NoBitSet(w: nat)
    ensures forall i :: 0 <= i < w ==> !ToBits(0, w)[i]
  {
    if w > 0 {
      NoBitSet(w - 1);
    }
  }

  lemma {:induction false} OneMoreBit(v: nat, w: nat)
    requires v < Pow2(w)
    ensures ToBits(v, w + 1) == ToBits(v, w) + [false]
  {
    if w > 0 {
      OneMoreBit(v / 2, w - 1);
    }
  }

  /** The end code is written at the width of the last pixel code, though the decoder may expect one bit
      more; a zero bit after it makes up for that. */
  lemma EndingPadded(bpp: nat, codes: seq<nat>, d: Dict, bits: seq<bool>, pixels: seq<byte>, pre: nat,
                     w: nat, zeros: seq<bool>)
    requires 2 <= bpp <= 8 && Play(bpp, codes) == Told(d, bits, pixels, true) && d.bpp == bpp
    requires Legal(d, pre) && w == Width(d) && pre < Pow2(w) && EofCode(bpp) < Pow2(w)
    requires forall i :: 0 <= i < |zeros| ==> !zeros[i]
    ensures var r := Decode(Start(bpp), bits + ToBits(pre, w) + ToBits(EofCode(bpp), w) + zeros);
      r.pixels == pixels + StringOf(d, pre) && r.end != Malformed
  {
    hide Decode, ToBits, Play, Tell, Legal, Learn, StringOf, Width;
    var b, e, d' := bits + ToBits(pre, w), ToBits(EofCode(bpp), w), Learn(d, pre);
    LearnWidth(d, pre);
    PlayCode(bpp, codes, d, bits, pixels, pre);
    PlayReads(bpp, codes + [pre]);
    Associate(b, e, zeros);
    assert Decode(Start(bpp), b + (e + zeros)) == Prepend(pixels + StringOf(d, pre), Decode(d', e + zeros));
    if Width(d') == w {
      DecodeEnd(d', zeros);
    } else if zeros == [] {
      DecodeNoData(d', e + zeros);
    } else {
      OneMoreBit(EofCode(bpp), w);
      assert zeros == [false] + zeros[1..];
      Associate(e, [false], zeros[1..]);
      assert EofCode(bpp) < Pow2(w + 1) by {
        Pow2Grows(w, w + 1);
      }
      DecodeEnd(d', zeros[1..]);
    }
    PrependLength(pixels + StringOf(d, pre), Decode(d', e + zeros));
  }

  /** If the last bits are lost, so is the end code, and more bits than it has cost the last pixels too. */
  lemma EndingCut(bpp: nat, codes: seq<nat>, d: Dict, bits: seq<bool>, pixels: seq<byte>, pre: nat, w: nat, lost: nat)
    requires 2 <= bpp <= 8 && Play(bpp, codes) == Told(d, bits, pixels, true) && d.bpp == bpp
    requires Legal(d, pre) && w == Width(d) && pre < Pow2(w) && 0 < lost <= 2 * w
    ensures var all := bits + ToBits(pre, w) + ToBits(EofCode(bpp), w);
      var r := Decode(Start(bpp), all[..|all| - lost]);
      r == Decoded(if lost <= w then pixels + StringOf(d, pre) else pixels, OutOfData)
  {
    hide Decode, ToBits, Play, Tell, Legal, Learn, StringOf, Width;
    var p, e, d' := ToBits(pre, w), ToBits(EofCode(bpp), w), Learn(d, pre);
    var all := bits + p + e;
    if lost <= w {
      LearnWidth(d, pre);
      PlayCode(bpp, codes, d, bits, pixels, pre);
      PlayReads(bpp, codes + [pre]);
      assert all[..|all| - lost] == bits + p + e[..w - lost];
      DecodeNoData(d', e[..w - lost]);
    } else {
      PlayReads(bpp, codes);
      assert all[..|all| - lost] == bits + p[..2 * w - lost];
      DecodeNoData(d, p[..2 * w - lost]);
    }
  }

  /** How the stream ends, from the bits `left` after the end code to those that never got into a byte. */
  lemma Ending(bpp: nat, codes: seq<nat>, d: Dict, bits: seq<bool>, pixels: seq<byte>, pre: nat, w: nat,
               bytes: seq<bool>, left: nat, dword: nat, lost: nat)
    requires 2 <= bpp <= 8 && Play(bpp, codes) == Told(d, bits, pixels, true) && d.bpp == bpp
    requires Legal(d, pre) && w == Width(d) && pre < Pow2(w) && EofCode(bpp) < Pow2(w) && StringOf(d, pre) != []
    requires 3 <= w && left < 8 && lost == if left == 0 then 0 else (left + w) % 8
    requires bits + ToBits(pre, w) + ToBits(EofCode(bpp), w) + (if left == 0 then [] else ToBits(0, w))
      == bytes + ToBits(dword, lost)
    ensures Decode(Start(bpp), bytes).end != Malformed
    ensures Decode(Start(bpp), bytes).pixels == if lost <= 2 * w then pixels + StringOf(d, pre) else pixels
  {
    hide Decode, ToBits, Play, Tell, Legal, Learn, StringOf, Width, Pow2;
    var all, padding := bits + ToBits(pre, w) + ToBits(EofCode(bpp), w), if left == 0 then [] else ToBits(0, w);
    Filled(all, bytes, padding, dword, lost);
    if left == 0 || left + w >= 8 {
      NoBitSet(w);
      EndingPadded(bpp, codes, d, bits, pixels, pre, w, padding[..|padding| - lost]);
    } else {
      EndingCut(bpp, codes, d, bits, pixels, pre, w, left);
    }
  }

  /** Writing the code of the string so far leads to the next state of table and decoder; the width grows
      when the decoder's does. */
  lemma NextTable(d: Dict, strings: map<nat, seq<byte>>, codes: map<nat, nat>, pre: nat, pending: seq<byte>, suf: byte,
                  bits: nat, max: nat)
    requires Agree(d, strings, codes, pre, pending) && Legal(d, pre) && StringOf(d, pre) == pending
    requires suf < ClearCode(d.bpp) && NewKey(pre, suf) !in codes
    requires NextCode(d) + 1 <= max == Pow2(bits) && bits == Width(d) <= LZ_BITS
    ensures Learn(d, pre).bpp == d.bpp && Learn(d, pre).seen == d.seen + 1
    ensures NextCode(d) + 1 < max || bits < LZ_BITS ==>
      Agree(Learn(d, pre), strings[NextCode(d) + 1 := pending + [suf]], codes[NewKey(pre, suf) := NextCode(d) + 1],
            suf, [suf])
    ensures Width(Learn(d, pre)) == if NextCode(d) + 1 == max && bits < LZ_BITS then bits + 1 else bits
    ensures Pow2(bits + 1) == 2 * max && max >= 2 && max <= 4096 && (bits < LZ_BITS ==> 2 * max <= 4096)
  {
    hide Agree;
    LearnWidth(d, pre);
    SmallPowers();
    Pow2Grows(bits, LZ_BITS);
    if bits < LZ_BITS {
      Pow2Grows(bits + 1, LZ_BITS);
    }
    if NextCode(d) < LZ_MAX_CODE {
      Extend(d, strings, codes, pre, pending, suf);
    }
  }

  /** A GIF file has no code size below 2. */
  function CodeSize(colorBits: nat): nat { if colorBits < 2 then 2 else colorBits }
}
