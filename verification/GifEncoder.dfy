/** The LZW compressor of giflib (egif_lib.c). */
module GifEncoder {
  import opened Bits
  import opened EncoderTable
  import opened GifHash
  import opened GifOutput
  import opened GreedyParse
  import opened Lzw
  import opened SubBlocks

  const FIRST_CODE: nat := 4097

  /** The codes giflib gives out before it clears its table. */
  function LibTable(bpp: nat): nat { if Pow2(bpp) <= 4094 then 4094 - Pow2(bpp) else 0 }

  /** The codes written for `image`, and the string whose code is still to come, are those of the greedy parse: a code
      always stands for the longest string of pixels that has one. */
  ghost predicate Follows(bpp: nat, strings: map<nat, seq<byte>>, codes: map<nat, nat>, pending: seq<byte>, seen: nat,
                          written: seq<nat>, image: seq<byte>) {
    && image != [] && written == CodesOf(bpp, LibTable(bpp), image)
    && var p := ParseOf(bpp, LibTable(bpp), image);
    && Mirrors(strings, codes, p.known) && p.pending == pending && p.inTable == seen
  }

  lemma FollowsFirst(bpp: nat, pixel: byte)
    ensures Follows(bpp, map[], map[], [pixel], 0, [ClearCode(bpp)], [pixel])
  {
    ParseFirst(bpp, LibTable(bpp), pixel);
    NothingKnown();
  }

  /** A pixel whose pair is in the table: nothing is written. */
  lemma FollowsHit(d: Dict, strings: map<nat, seq<byte>>, codes: map<nat, nat>, code: nat, pending: seq<byte>,
                   pixel: byte, written: seq<nat>, image: seq<byte>)
    requires Agree(d, strings, codes, code, pending) && NewKey(code, pixel) in codes
    requires Follows(d.bpp, strings, codes, pending, d.seen, written, image)
    ensures Follows(d.bpp, strings, codes, pending + [pixel], d.seen, written, image + [pixel])
  {
    hide Agree, Mirrors, CodesOf, ParseOf, NewKey, CodeOf, LibTable;
    var p := ParseOf(d.bpp, LibTable(d.bpp), image);
    KnownPair(d, strings, codes, code, pending, pixel, p.known);
    ParseSnoc(d.bpp, LibTable(d.bpp), image, pixel);
    CodesSnoc(d.bpp, LibTable(d.bpp), image, pixel);
  }

  /** A pixel whose pair has no code: the pending code is written, and the pair gets the next code unless this is the
      last one, which is never given out. */
  lemma FollowsMiss(d: Dict, strings: map<nat, seq<byte>>, codes: map<nat, nat>, code: nat, pending: seq<byte>,
                    pixel: byte, written: seq<nat>, image: seq<byte>)
    requires Agree(d, strings, codes, code, pending) && NewKey(code, pixel) !in codes
    requires Follows(d.bpp, strings, codes, pending, d.seen, written, image)
    ensures var next := EofCode(d.bpp) + 1 + d.seen;
      if next == LZ_MAX_CODE then
        Follows(d.bpp, map[], map[], [pixel], 0, written + [code] + [ClearCode(d.bpp)], image + [pixel])
      else
        Follows(d.bpp, strings[next := pending + [pixel]], codes[NewKey(code, pixel) := next], [pixel], d.seen + 1,
                written + [code], image + [pixel])
  {
    hide Mirrors, CodesOf, ParseOf, NewKey, CodeOf, LibTable, Spells, Pow2, EofCode;
    var p, next := ParseOf(d.bpp, LibTable(d.bpp), image), EofCode(d.bpp) + 1 + d.seen;
    KnownPair(d, strings, codes, code, pending, pixel, p.known);
    PendingKnown(d, strings, codes, code, pending, p.known);
    NewCode(d, strings, codes, code, pending, next);
    MirrorsMore(strings, codes, p.known, code, pending, pixel, next);
    NothingKnown();
    LastCode(d.bpp, d.seen);
    ParseSnoc(d.bpp, LibTable(d.bpp), image, pixel);
    CodesSnoc(d.bpp, LibTable(d.bpp), image, pixel);
  }

  lemma LastCode(bpp: nat, seen: nat)
    requires 2 <= bpp <= 8
    ensures seen + 1 == LibTable(bpp) <==> EofCode(bpp) + 1 + seen == LZ_MAX_CODE
  {
    Pow2Grows(bpp, 8);
    SmallPowers();
  }

  /** The pending code completes the codes of the image. */
  lemma FollowsEnd(d: Dict, strings: map<nat, seq<byte>>, codes: map<nat, nat>, code: nat, pending: seq<byte>,
                   written: seq<nat>, image: seq<byte>)
    requires Agree(d, strings, codes, code, pending)
    requires Follows(d.bpp, strings, codes, pending, d.seen, written, image)
    ensures written + [code] == AllCodes(d.bpp, LibTable(d.bpp), image)
  {
    hide Agree, Mirrors, CodesOf, ParseOf, CodeOf, LibTable;
    PendingKnown(d, strings, codes, code, pending, ParseOf(d.bpp, LibTable(d.bpp), image).known);
  }

  /** The data hold the codes, each at the width a decoder expects, and then the end code. */
  ghost predicate Carries(bpp: nat, codes: seq<nat>, data: seq<byte>) {
    var t := Play(bpp, codes);
    t.ok && t.bits + ToBits(EofCode(bpp), Width(t.dict)) <= ByteBits(data)
  }

  class EGif {
    var bitsPerPixel: nat
    var clearCode: nat
    var eofCode: nat
    var runningCode: nat
    var runningBits: nat
    var maxCode1: nat
    var crntCode: nat
    var pixelCount: nat
    var imageWidth: nat
    const out: GifOutput
    const hashTable: GifHashTable

    ghost var codes: seq<nat>    // the codes output since SetupCompress
    ghost var dict: Dict         // a decoder that has read them,
    ghost var pixels: seq<byte>  // the pixels it has seen,
    ghost var pending: seq<byte> // those that the current code still has to tell it,
    ghost var strings: map<nat, seq<byte>> // and the strings that have got a code

    constructor ()
      ensures fresh(out) && fresh(out.buf) && fresh(hashTable) && fresh(hashTable.table)
      ensures out.buf.Length == 256 && hashTable.Valid() && out.written == [] && pixelCount == 0
    {
      out := new GifOutput();
      hashTable := new GifHashTable();
      pixelCount := 0;
    }

    /** Output a code at the current width, and raise the width when the next code to be given out
        would not fit. */
    method CompressOutput(code: nat)
      requires out.Valid() && runningBits <= LZ_BITS
      requires code == FLUSH_OUTPUT || (code <= LZ_MAX_CODE && code < Pow2(runningBits))
      modifies this`runningBits, this`maxCode1, out, out.buf
      ensures out.base == old(out.base)
      ensures code != FLUSH_OUTPUT ==>
        && out.Valid() && out.bits == old(out.bits) + ToBits(code, old(runningBits))
        && (if runningCode >= old(maxCode1)
            then runningBits == old(runningBits) + 1 && maxCode1 == Pow2(runningBits)
            else runningBits == old(runningBits) && maxCode1 == old(maxCode1))
      ensures code == FLUSH_OUTPUT ==>
        && out.bits == old(out.bits) <= ByteBits(out.data) && |ByteBits(out.data)| < |out.bits| + 8
        && out.written == out.base + Frame(out.data)
        && runningBits == old(runningBits) && maxCode1 == old(maxCode1)
    {
      if code == FLUSH_OUTPUT {
        out.Flush();
      } else {
        out.Put(code, runningBits);
      }
      if runningCode >= maxCode1 && code <= 4095 {
        runningBits := runningBits + 1;
        ShlOne(runningBits);
        maxCode1 := Shl(1, runningBits);
      }
    }

    /** A decoder in state `dict` has read the codes output so far and expects the next one at the
        width that will be used. */
    ghost predicate Stream()
      reads this`bitsPerPixel, this`clearCode, this`eofCode, this`runningBits, this`maxCode1
      reads this`codes, this`dict, this`pixels, out, out.buf
    {
      && out.Valid()
      && 2 <= bitsPerPixel <= 8 && dict.bpp == bitsPerPixel
      && clearCode == ClearCode(bitsPerPixel) && eofCode == EofCode(bitsPerPixel)
      && runningBits == Width(dict) && maxCode1 == Pow2(runningBits)
      && Play(bitsPerPixel, codes) == Told(dict, out.bits, pixels, true)
    }

    /** Output one code that the decoder will understand. */
    method WriteCode(code: nat)
      requires Stream() && Legal(dict, code) && code <= LZ_MAX_CODE && code < Pow2(runningBits)
      requires runningCode == eofCode + 1 + dict.seen && runningCode <= LZ_MAX_CODE
      modifies this`runningBits, this`maxCode1, this`codes, this`dict, this`pixels, out, out.buf
      ensures Stream() && dict == Learn(old(dict), code) && pixels == old(pixels) + StringOf(old(dict), code)
      ensures codes == old(codes) + [code] && out.base == old(out.base)
    {
      hide Play, Tell, ByteBits, ToBits, FullBlocks, Frame;
      assert runningBits <= LZ_BITS && (runningBits == LZ_BITS ==> runningCode < maxCode1) by {
        WidthLimit(bitsPerPixel, dict.seen);
        SmallPowers();
      }
      PlayCode(bitsPerPixel, codes, dict, out.bits, pixels, code);
      LearnWidth(dict, code);
      CompressOutput(code);
      codes := codes + [code];
      pixels := pixels + StringOf(dict, code);
      dict := Learn(dict, code);
    }

    /** Tell the decoder to forget its table, and start again at the first width. */
    method WriteClear()
      requires Stream() && eofCode + dict.seen <= LZ_MAX_CODE
      modifies this`runningCode, this`runningBits, this`maxCode1, this`codes, this`dict, out, out.buf
      ensures Stream() && dict == Start(bitsPerPixel) && runningCode == eofCode + 1
      ensures codes == old(codes) + [clearCode] && out.base == old(out.base)
    {
      hide Play, Tell, ByteBits, ToBits, FullBlocks, Frame;
      WidthFits(dict);
      PlayClear(bitsPerPixel, codes, dict, out.bits, pixels);
      CompressOutput(clearCode);
      runningCode := eofCode + 1;
      runningBits := bitsPerPixel + 1;
      ShlOne(runningBits);
      maxCode1 := Shl(1, runningBits);
      codes := codes + [clearCode];
      dict := Start(bitsPerPixel);
    }

    /** The stream and the table agree, and `code` stands for the pixels the decoder has not been told yet. */
    ghost predicate InStep(code: nat)
      reads this`bitsPerPixel, this`clearCode, this`eofCode, this`runningBits, this`maxCode1, this`runningCode
      reads this`codes, this`dict, this`pixels, this`strings, this`pending, out, out.buf, hashTable, hashTable.table
    {
      && Stream() && hashTable.Valid()
      && runningCode == eofCode + 1 + dict.seen <= LZ_MAX_CODE
      && (if code == FIRST_CODE
          then dict == Start(bitsPerPixel) && strings == map[] && hashTable.codes == map[] && pixels == pending == []
          else Agree(dict, strings, hashTable.codes, code, pending))
    }

    /** The pixels compressed so far. */
    ghost function Consumed(): seq<byte>
      reads this`pixels, this`pending
    {
      pixels + pending
    }

    /** Between pixels: besides, the codes written are those of the greedy parse of the pixels. */
    ghost predicate Coding(code: nat)
      reads this`bitsPerPixel, this`clearCode, this`eofCode, this`runningBits, this`maxCode1, this`runningCode
      reads this`codes, this`dict, this`pixels, this`strings, this`pending, out, out.buf, hashTable, hashTable.table
    {
      && InStep(code)
      && (if code == FIRST_CODE then codes == [clearCode]
          else Follows(bitsPerPixel, strings, hashTable.codes, pending, dict.seen, codes, Consumed()))
    }

    /** Set the code parameters for a new image. */
    method ResetCodes(bpp: nat)
      requires 2 <= bpp <= 8
      modifies this`bitsPerPixel, this`clearCode, this`eofCode, this`runningCode, this`runningBits, this`maxCode1
      modifies this`crntCode, this`codes, this`dict, this`strings, this`pixels, this`pending
      ensures bitsPerPixel == bpp && clearCode == ClearCode(bpp) && eofCode == EofCode(bpp)
      ensures runningCode == eofCode + 1 && runningBits == bpp + 1 && maxCode1 == Pow2(bpp + 1)
      ensures crntCode == FIRST_CODE
      ensures Play(bpp, codes) == Told(dict, [], pixels, true) && dict == Start(bpp)
      ensures strings == map[] && pixels == [] && pending == [] && codes == []
    {
      ShlOne(bpp);
      ShlOne(bpp + 1);
      bitsPerPixel := bpp;
      clearCode := Shl(1, bpp);
      eofCode := clearCode + 1;
      runningCode := eofCode + 1;
      runningBits := bpp + 1;
      maxCode1 := Shl(1, runningBits);
      crntCode := FIRST_CODE;
      codes, dict, strings, pixels, pending := [], Start(bpp), map[], [], [];
    }

    /** The clear code that every image starts with. */
    method FirstClear()
      requires out.Valid() && 2 <= bitsPerPixel <= 8 && dict == Start(bitsPerPixel)
      requires clearCode == ClearCode(bitsPerPixel) && eofCode == EofCode(bitsPerPixel)
      requires runningCode == eofCode + 1 && runningBits == bitsPerPixel + 1 && maxCode1 == Pow2(runningBits)
      requires Play(bitsPerPixel, codes) == Told(dict, out.bits, pixels, true)
      modifies this`codes, this`runningBits, this`maxCode1, out, out.buf
      ensures Stream() && codes == old(codes) + [clearCode] && out.base == old(out.base)
    {
      hide Play, Tell, ByteBits, ToBits, FullBlocks, Frame;
      FirstRoom(bitsPerPixel);
      PlayClear(bitsPerPixel, codes, dict, out.bits, pixels);
      CompressOutput(clearCode);
      codes := codes + [clearCode];
    }

    /** Start an image: `mapBits` is the size in bits of the colour map in force. */
    method SetupCompress(mapBits: nat)
      requires mapBits <= 8 && out.buf.Length == 256 && hashTable.Valid()
      modifies this`bitsPerPixel, this`clearCode, this`eofCode, this`runningCode, this`runningBits, this`maxCode1
      modifies this`crntCode, this`codes, this`dict, this`strings, this`pixels, this`pending
      modifies out, out.buf, hashTable, hashTable.table
      ensures bitsPerPixel == (if mapBits < 2 then 2 else mapBits)
      ensures out.base == old(out.written) + [bitsPerPixel]
      ensures Coding(FIRST_CODE) && crntCode == FIRST_CODE && Consumed() == []
    {
      hide Play, Tell, ByteBits, ToBits, FullBlocks, Frame, Agree, Stores, Blocked, Follows, EGif.Stream;
      var bpp: nat := if mapBits < 2 then 2 else mapBits;
      out.Write([bpp]);
      out.Begin();
      ResetCodes(bpp);
      hashTable.Clear();
      FirstRoom(bpp);
      FirstClear();
    }

    /** The table is full: send a clear code, and let the pixel start a new string. */
    method ClearTable(pixel: byte)
      requires Stream() && NextCode(dict) <= LZ_MAX_CODE && hashTable.Valid() && pixel < clearCode
      modifies this`runningCode, this`runningBits, this`maxCode1, out, out.buf, hashTable, hashTable.table
      modifies this`codes, this`dict, this`strings, this`pending
      ensures InStep(pixel) && pending == [pixel] && out.base == old(out.base)
      ensures codes == old(codes) + [clearCode] && strings == map[] && hashTable.codes == map[] && dict.seen == 0
    {
      hide Play, Tell, ByteBits, ToBits, FullBlocks, Frame;
      WriteClear();
      hashTable.Clear();
      AgreeAtStart(bitsPerPixel, pixel);
      strings, pending := map[], [pixel];
    }

    /** Give the next code to the pair (code, pixel), whose prefix code has just been written by a
        decoder's state `before`. */
    method Define(code: nat, pixel: byte, ghost before: Dict)
      requires hashTable.Valid() && Stream() && runningCode == NextCode(before) + 1 < LZ_MAX_CODE
      requires Agree(before, strings, hashTable.codes, code, pending)
      requires Legal(before, code) && StringOf(before, code) == pending && dict == Learn(before, code)
      requires NewKey(code, pixel) !in hashTable.codes && pixel < ClearCode(before.bpp)
      modifies this`runningCode, this`strings, this`pending, hashTable, hashTable.table
      ensures InStep(pixel) && pending == [pixel]
      ensures strings == old(strings)[old(runningCode) := old(pending) + [pixel]]
      ensures hashTable.codes == old(hashTable.codes)[NewKey(code, pixel) := old(runningCode)]
    {
      hide Play, Tell, ByteBits, ToBits, FullBlocks, Frame, Spells, Spelt, StringOf, Legal;
      KeyInRange(before, strings, hashTable.codes, code, pending, pixel);
      Extend(before, strings, hashTable.codes, code, pending, pixel);
      hashTable.Insert(NewKey(code, pixel), runningCode);
      strings, pending := strings[runningCode := pending + [pixel]], [pixel];
      runningCode := runningCode + 1;
    }

    /** The branch of CompressLine for a (prefix, pixel) pair that has no code: write the prefix code
        and give the pair the next code, or clear the table when it is full. */
    method WriteAndDefine(code: nat, pixel: byte)
      requires Coding(code) && code != FIRST_CODE && pixel < clearCode
      requires NewKey(code, pixel) !in hashTable.codes
      modifies this`runningCode, this`runningBits, this`maxCode1, out, out.buf, hashTable, hashTable.table
      modifies this`codes, this`dict, this`strings, this`pixels, this`pending
      ensures Coding(pixel) && Consumed() == old(Consumed()) + [pixel] && out.base == old(out.base)
    {
      hide Play, Tell, ByteBits, ToBits, FullBlocks, Frame, Follows, Agree, Legal, StringOf, NewKey, Width, Pow2;
      CanWrite(dict, strings, hashTable.codes, code, pending);
      FollowsMiss(dict, strings, hashTable.codes, code, pending, pixel, codes, Consumed());
      ghost var before := dict;
      WriteCode(code);
      assert Consumed() + [pixel] == pixels + pending + [pixel];
      if runningCode >= LZ_MAX_CODE {
        ClearTable(pixel);
      } else {
        Define(code, pixel, before);
      }
    }

    /** The data blocks of the image are all written, a decoder gets `image` out of them, and their codes are those
        of its greedy parse, each at the width the decoder expects, and the end code. */
    ghost predicate Finished(image: seq<byte>)
      reads this`bitsPerPixel, out
    {
      && out.written == out.base + Frame(out.data)
      && Decode(Start(bitsPerPixel), ByteBits(out.data)) == Decoded(image, EndOfInformation)
      && image != [] && Carries(bitsPerPixel, AllCodes(bitsPerPixel, LibTable(bitsPerPixel), image), out.data)
    }

    /** Write the end code and flush. */
    method WriteEnd()
      requires Stream() && NextCode(dict) <= LZ_MAX_CODE && runningCode <= NextCode(dict)
      requires pixels != [] && codes == AllCodes(bitsPerPixel, LibTable(bitsPerPixel), pixels)
      modifies this`runningBits, this`maxCode1, out, out.buf
      ensures Finished(pixels) && out.base == old(out.base)
    {
      hide Tell, ByteBits, ToBits, FullBlocks, Frame, AllCodes, LibTable;
      WidthFits(dict);
      CompressOutput(eofCode);
      CompressOutput(FLUSH_OUTPUT);
      ghost var padding := ByteBits(out.data)[|out.bits|..];
      assert ByteBits(out.data) == out.bits + padding;
      PlayEnds(bitsPerPixel, codes, padding);
    }

    /** The end of CompressLine after the last pixel: write the pending code and the end code. */
    method FinishImage(code: nat)
      requires Coding(code) && code != FIRST_CODE
      modifies this`runningBits, this`maxCode1, this`codes, this`dict, this`pixels, out, out.buf
      ensures hashTable.Valid() && Finished(old(Consumed())) && out.base == old(out.base)
    {
      hide Play, Tell, ByteBits, ToBits, FullBlocks, Frame, Follows, AllCodes, LibTable;
      CanWrite(dict, strings, hashTable.codes, code, pending);
      FollowsEnd(dict, strings, hashTable.codes, code, pending, codes, Consumed());
      WriteCode(code);
      WriteEnd();
    }

    /** The body of CompressLine's loop: `code` becomes the code that stands for the pixels not yet
        written, the new one included. */
    method CompressPixel(code: nat, pixel: byte) returns (code': nat)
      requires Coding(code) && code != FIRST_CODE && pixel < clearCode
      modifies this`runningCode, this`runningBits, this`maxCode1, out, out.buf, hashTable, hashTable.table
      modifies this`codes, this`dict, this`strings, this`pixels, this`pending
      ensures Coding(code') && code' != FIRST_CODE
      ensures Consumed() == old(Consumed()) + [pixel] && out.base == old(out.base)
    {
      hide Play, Tell, ByteBits, ToBits, FullBlocks, Frame, Follows, AllCodes, LibTable;
      CanWrite(dict, strings, hashTable.codes, code, pending);
      var newCode := hashTable.Exists(NewKey(code, pixel));
      if newCode >= 0 {
        Follow(dict, strings, hashTable.codes, code, pending, pixel);
        FollowsHit(dict, strings, hashTable.codes, code, pending, pixel, codes, Consumed());
        assert Consumed() + [pixel] == pixels + (pending + [pixel]);
        pending := pending + [pixel];
        code' := newCode;
      } else {
        WriteAndDefine(code, pixel);
        code' := pixel;
      }
    }

    /** The image's first pixel is its own code. */
    method BeginImage(pixel: byte) returns (code: nat)
      requires Coding(FIRST_CODE) && pixel < clearCode
      modifies this`pending
      ensures code == pixel && Coding(code) && Consumed() == old(Consumed()) + [pixel]
    {
      hide Play, Tell, ByteBits, ToBits, FullBlocks, Frame, Follows;
      AgreeAtStart(bitsPerPixel, pixel);
      FollowsFirst(bitsPerPixel, pixel);
      assert [] + [pixel] == [pixel];
      code, pending := pixel, [pixel];
    }

    /** Compress `len` pixels of `line` from index `from`; after the image's last pixel, end it. */
    method CompressLine(line: array<byte>, from: nat, len: nat)
      requires Coding(crntCode) && (crntCode == FIRST_CODE ==> 0 < len) && from + len <= line.Length && line != out.buf
      requires forall k :: from <= k < from + len ==> line[k] < clearCode
      modifies this`runningCode, this`runningBits, this`maxCode1, this`crntCode
      modifies this`codes, this`dict, this`strings, this`pixels, this`pending
      modifies out, out.buf, hashTable, hashTable.table
      ensures out.base == old(out.base)
      ensures pixelCount > 0 ==> Coding(crntCode) && Consumed() == old(Consumed() + line[from..from + len])
      ensures pixelCount == 0 ==> hashTable.Valid() && Finished(old(Consumed() + line[from..from + len]))
    {
      hide Play, Tell, ByteBits, ToBits, FullBlocks, Frame, Agree, Stores, Blocked, Decode;
      hide EGif.Coding, EGif.InStep, EGif.Stream, EGif.Consumed, EGif.Finished;
      ghost var all := line[from..from + len];
      var i: nat, code: nat := 0, crntCode;
      assert all[..0] == [] && (0 < len ==> all[..1] == [line[from]]);
      assert Consumed() + [] == Consumed();
      if crntCode == FIRST_CODE {
        code := BeginImage(line[from]);
        i := 1;
      }
      while i < len
        invariant i <= len && Coding(code) && code != FIRST_CODE
        invariant Consumed() == old(Consumed()) + all[..i]
        invariant out.base == old(out.base) && line[from..from + len] == all
      {
        var pixel := line[from + i];
        assert pixel == all[i] && all[..i + 1] == all[..i] + [pixel];
        code := CompressPixel(code, pixel);
        i := i + 1;
      }
      assert all[..len] == all;
      crntCode := code;
      if pixelCount == 0 {
        FinishImage(code);
      }
    }

    /** The length of a line: zero asks for the width of the image. */
    function LineLength(lineLen: nat): nat
      reads this`imageWidth
    {
      if lineLen == 0 then imageWidth else lineLen
    }

    lemma BppOfCoding()
      requires Coding(crntCode)
      ensures 2 <= bitsPerPixel <= 8 && clearCode == Pow2(bitsPerPixel)
    {
    }

    /** Compress one line of the image, which may be any stretch of its pixels.  The line is masked in
        place to the bits of a pixel.  A line longer than what is left of the image is refused. */
    method PutLine(line: array<byte>, from: nat, lineLen: nat) returns (ok: bool)
      requires Coding(crntCode) && line != out.buf
      requires (crntCode == FIRST_CODE ==> 0 < LineLength(lineLen)) && from + LineLength(lineLen) <= line.Length
      modifies this`runningCode, this`runningBits, this`maxCode1, this`crntCode, this`pixelCount
      modifies this`codes, this`dict, this`strings, this`pixels, this`pending
      modifies out, out.buf, hashTable, hashTable.table, line
      ensures ok <==> old(pixelCount) >= LineLength(lineLen)
      ensures !ok ==> Coding(crntCode) && Consumed() == old(Consumed())
      ensures !ok ==> pixelCount == old(pixelCount) && line[..] == old(line[..])
      ensures ok ==>
        pixelCount == old(pixelCount) - (if lineLen == 0 then imageWidth else lineLen) && out.base == old(out.base)
      ensures ok ==> var to := from + LineLength(lineLen);
        && line[..from] == old(line[..from]) && line[to..] == old(line[to..])
        && line[from..to] == Masked(old(line[from..to]), bitsPerPixel)
        && (pixelCount > 0 ==> Coding(crntCode) && Consumed() == old(Consumed()) + line[from..to])
        && (pixelCount == 0 ==> hashTable.Valid() && Finished(old(Consumed()) + line[from..to]))
    {
      hide Play, Tell, ByteBits, ToBits, FullBlocks, Frame, Agree, Stores, Blocked, Decode, Follows;
      hide EGif.Coding, EGif.InStep, EGif.Consumed, EGif.Finished;
      BppOfCoding();
      var len := LineLength(lineLen);
      if pixelCount < len {
        return false;
      }
      pixelCount := pixelCount - len;
      MaskLine(line, from, len);
      CompressLine(line, from, len);
      return true;
    }

    /** PutLine's loop over the line. */
    method MaskLine(line: array<byte>, from: nat, len: nat)
      requires from + len <= line.Length && bitsPerPixel <= 8
      modifies line
      ensures line[..from] == old(line[..from]) && line[from + len..] == old(line[from + len..])
      ensures line[from..from + len] == Masked(old(line[from..from + len]), bitsPerPixel)
      ensures forall k :: from <= k < from + len ==> line[k] < Pow2(bitsPerPixel)
    {
      for i := from to from + len
        invariant forall k :: from <= k < i ==> line[k] == Mask(old(line[k]), bitsPerPixel)
        invariant forall k :: 0 <= k < from || i <= k < line.Length ==> line[k] == old(line[k])
      {
        MaskByte(bitsPerPixel);
        line[i] := Mask(line[i], bitsPerPixel);
      }
    }
  }

  lemma MaskByte(bpp: nat)
    requires bpp <= 8
    ensures Pow2(bpp) <= 256
  {
    Pow2Grows(bpp, 8);
    SmallPowers();
  }

  /** Every pixel cut down to its low bits. */
  ghost function Masked(s: seq<byte>, bpp: nat): (r: seq<byte>)
    requires bpp <= 8
    ensures |r| == |s| && forall k :: 0 <= k < |s| ==> r[k] == Mask(s[k], bpp)
  {
    MaskByte(bpp);
    seq(|s|, k requires 0 <= k < |s| => Mask(s[k], bpp))
  }

  lemma MaskedPiece(s: seq<byte>, bpp: nat, i: nat, j: nat)
    requires bpp <= 8 && i <= j <= |s|
    ensures Masked(s, bpp)[..i] + Masked(s[i..j], bpp) == Masked(s, bpp)[..j]
  {
  }

  /** Pixels in range are not changed by masking. */
  lemma MaskedInRange(s: seq<byte>, bpp: nat)
    requires bpp <= 8 && forall k :: 0 <= k < |s| ==> s[k] < Pow2(bpp)
    ensures Masked(s, bpp) == s
  {
    forall k | 0 <= k < |s|
      ensures Mask(s[k], bpp) == s[k]
    {
      MaskSmall(s[k], bpp);
    }
  }

  /** At the first width there is room for the end code and one more: why the code size is at least 2. */
  lemma FirstRoom(bpp: nat)
    requires 2 <= bpp <= 8
    ensures EofCode(bpp) + 1 < Pow2(bpp + 1) && ClearCode(bpp) <= 256
  {
    SmallPowers();
    Pow2Grows(2, bpp);
    Pow2Grows(bpp, 8);
  }

  /** No key of the table is the empty marker: prefix codes stay below 4095. */
  lemma KeyInRange(d: Dict, strings: map<nat, seq<byte>>, codes: map<nat, nat>, code: nat, pending: seq<byte>,
                   pixel: byte)
    requires Agree(d, strings, codes, code, pending) && NextCode(d) < LZ_MAX_CODE
    ensures InRange(NewKey(code, pixel), NextCode(d) + 1) && |codes| < HT_SIZE
  {
    Pow2Grows(d.bpp, 8);
    SmallPowers();
  }
}
