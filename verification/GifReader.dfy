/** Reading a whole GIF file into memory: DGifOpen and DGifSlurp (dgif_lib.c). */
module GifReader {
  import opened Bits
  import opened GifDecoder
  import opened GifFormat
  import opened GifGrammar
  import opened Lzw
  import opened SubBlocks

  /** What there is to read of an image: rows in this order, out of this pixel stream, and then `rest`. */
  datatype Plan = Plan(w: nat, h: nat, order: seq<nat>, stream: seq<byte>, rest: seq<byte>)

  ghost predicate PlanFits(p: Plan, size: nat) {
    && 0 < p.w && |p.order| == p.h && size == RowStart(p.h, p.w) <= |p.stream| && InRaster(size, p.w, p.order)
    && (forall i, j :: 0 <= i < j < p.h ==> p.order[i] != p.order[j])
  }

  class GifReader {
    const d: DGif
    var screen: Screen
    var images: seq<Image>
    var extensions: seq<Extension>

    constructor (input: seq<byte>)
      ensures Open() && fresh(d) && fresh(d.inp) && fresh(d.inp.buf)
      ensures fresh(d.stack) && fresh(d.suffix) && fresh(d.prefix)
      ensures d.inp.Ahead() == input && images == [] && extensions == []
    {
      d := new DGif(input);
      screen := Screen(0, 0, 1, 0, 0, None);
      images, extensions := [], [];
    }

    ghost predicate Open()
      reads d.inp`pos
    {
      && d.stack.Length == LZ_MAX_CODE && d.suffix.Length == d.prefix.Length == LZ_MAX_CODE + 1
      && d.inp.pos <= |d.inp.input| && d.inp.buf.Length == 256 && d.stack != d.inp.buf && d.suffix != d.inp.buf
    }

    method ReadByte() returns (ok: bool, b: byte)
      requires Open()
      modifies d.inp`pos
      ensures Open() && old(d.inp.pos) <= d.inp.pos && (ok <==> old(d.inp.Ahead()) != [])
      ensures ok ==> b == old(d.inp.Ahead())[0] && d.inp.Ahead() == old(d.inp.Ahead())[1..]
    {
      var s := d.inp.Read(1);
      if |s| < 1 {
        return false, 0;
      }
      return true, s[0];
    }

    method GetWord() returns (ok: bool, w: nat)
      requires Open()
      modifies d.inp`pos
      ensures Open() && old(d.inp.pos) <= d.inp.pos && (ok <==> |old(d.inp.Ahead())| >= 2)
      ensures ok ==> w == Word(old(d.inp.Ahead())[0], old(d.inp.Ahead())[1]) && d.inp.Ahead() == old(d.inp.Ahead())[2..]
    {
      var s := d.inp.Read(2);
      if |s| != 2 {
        return false, 0;
      }
      return true, Word(s[0], s[1]);
    }

    /** Read the colour table that a descriptor announces. */
    method GetTable(present: bool, bits: nat, sort: bool) returns (ok: bool, colorMap: Option<ColorMap>)
      requires Open() && bits <= 8
      modifies d.inp`pos
      ensures Open() && old(d.inp.pos) <= d.inp.pos
      ensures ok <==> ParseTable(old(d.inp.Ahead()), present, bits, sort).SomeTable?
      ensures ok ==> ParseTable(old(d.inp.Ahead()), present, bits, sort) == SomeTable(colorMap, d.inp.Ahead())
    {
      if !present {
        return true, None;
      }
      ghost var ahead := d.inp.Ahead();
      var count, colors := Shl(1, bits), [];
      ShlOne(bits);
      for i := 0 to count
        invariant Open() && old(d.inp.pos) <= d.inp.pos
        invariant 3 * i <= |ahead| && d.inp.Ahead() == ahead[3 * i..]
        invariant colors == Colors(ahead, i)
      {
        var s := d.inp.Read(3);
        if |s| != 3 {
          return false, None;
        }
        assert s == ahead[3 * i..3 * i + 3];
        colors := colors + [Color(s[0], s[1], s[2])];
      }
      return true, Some(ColorMap(colors, sort));
    }

    /** The six bytes that a GIF file starts with, of which the first three are checked. */
    method GetStamp() returns (ok: bool)
      requires Open()
      modifies d.inp`pos
      ensures Open() && (ok <==> |old(d.inp.Ahead())| >= 6 && old(d.inp.Ahead())[..3] == STAMP)
      ensures ok ==> d.inp.Ahead() == old(d.inp.Ahead())[6..]
    {
      ghost var ahead := d.inp.Ahead();
      var stamp := d.inp.Read(6);
      if |stamp| != 6 {
        return false;
      }
      assert stamp[..3] == ahead[..3];
      return stamp[..3] == STAMP;
    }

    /** DGifGetScreenDesc. */
    method GetScreenDesc() returns (ok: bool)
      requires Open()
      modifies this`screen, d.inp`pos
      ensures Open()
      ensures ok <==> ParseScreen(old(d.inp.Ahead())).SomeHeader?
      ensures ok ==> ParseScreen(old(d.inp.Ahead())) == SomeHeader(screen, d.inp.Ahead())
    {
      hide ParseTable;
      ghost var ahead := d.inp.Ahead();
      var ok1, width := GetWord();
      if !ok1 {
        return false;
      }
      var ok2, height := GetWord();
      if !ok2 {
        return false;
      }
      assert d.inp.Ahead() == ahead[4..];
      var packed := d.inp.Read(3);
      if |packed| != 3 {
        return false;
      }
      assert packed == ahead[4..7] && d.inp.Ahead() == ahead[7..];
      var ok3, colorMap := GetTable(packed[0] >= 0x80, packed[0] % 8 + 1, packed[0] / 8 % 2 == 1);
      if !ok3 {
        return false;
      }
      screen := Screen(width, height, (packed[0] / 0x10 % 8 * 0x10 + 1) / 0x10 + 1, packed[1], packed[2], colorMap);
      return true;
    }

    /** DGifOpen. */
    method GetHeader() returns (ok: bool)
      requires Open()
      modifies this`screen, d.inp`pos
      ensures Open() && (ok <==> ParseHeader(old(d.inp.Ahead())).SomeHeader?)
      ensures ok ==> ParseHeader(old(d.inp.Ahead())) == SomeHeader(screen, d.inp.Ahead())
    {
      ok := GetStamp();
      if ok {
        ok := GetScreenDesc();
      }
    }

    /** DGifGetImageDesc, up to the code size. */
    method GetDesc() returns (ok: bool, desc: ImageDesc)
      requires Open()
      modifies d.inp`pos
      ensures Open() && old(d.inp.pos) <= d.inp.pos && (ok <==> ParseHead(old(d.inp.Ahead())).SomeHead?)
      ensures ok ==> ParseHead(old(d.inp.Ahead())) == SomeHead(desc, d.inp.Ahead())
      ensures ok ==> desc.width < 0x1_0000 && desc.height < 0x1_0000
    {
      hide ParseTable;
      ghost var ahead := d.inp.Ahead();
      desc := ImageDesc(0, 0, 0, 0, false, None);
      var ok1, left := GetWord();
      if !ok1 {
        return false, desc;
      }
      var ok2, top := GetWord();
      if !ok2 {
        return false, desc;
      }
      var ok3, width := GetWord();
      if !ok3 {
        return false, desc;
      }
      var ok4, height := GetWord();
      if !ok4 {
        return false, desc;
      }
      assert d.inp.Ahead() == ahead[8..];
      var ok5, flags := ReadByte();
      if !ok5 {
        return false, desc;
      }
      assert d.inp.Ahead() == ahead[9..] && flags == ahead[8];
      var ok6, colorMap := GetTable(flags >= 0x80, flags % 8 + 1, false);
      return ok6, ImageDesc(left, top, width, height, flags / 0x40 % 2 == 1, colorMap);
    }

    /** The first n rows of the plan are in the raster, and the decoder is ready for the others. */
    ghost predicate Reading(raster: array<byte>, p: Plan, n: nat)
      requires PlanFits(p, raster.Length) && n <= p.h
      requires d.stackPtr <= d.stack.Length && d.inp.Buffered()
      reads raster, d, d.prefix, d.suffix, d.stack, d.inp, d.inp.buf
    {
      && d.pixelCount == RowStart(p.h, p.w) - RowStart(n, p.w)
      && RowStart(n, p.w) <= |p.stream| && InRaster(raster.Length, p.w, p.order[..n])
      && Rows(raster[..], p.w, p.order[..n]) == p.stream[..RowStart(n, p.w)]
      && (n < p.h ==> d.Tracks() && d.Future().pixels == p.stream[RowStart(n, p.w)..])
      && (n < p.h ==> After(d.inp.Ahead()) == Found(p.rest))
      && (n == p.h ==> d.inp.Ahead() == p.rest)
    }

    /** One line of an interlaced image. */
    method GetRow(raster: array<byte>, j: nat, w: nat, h: nat, ghost good: bool, ghost p: Plan, ghost n: nat)
      returns (ok: bool)
      requires d.Safe() && Open() && d.Distinct(raster) && d.pixelCount < ULONG
      requires w == d.imageWidth < 0x1_0000 && j < h && raster.Length == RowStart(h, w) <= MAX_PIXELS
      requires good ==>
        PlanFits(p, raster.Length) && p.w == w && p.h == h && n < h && p.order[n] == j && Reading(raster, p, n)
      modifies d, d.stack, d.suffix, d.prefix, d.inp, d.inp.buf, raster
      ensures Open() && old(d.inp.pos) <= d.inp.pos && d.imageWidth == old(d.imageWidth) && d.pixelCount < ULONG
      ensures ok ==> d.Safe()
      ensures good ==> ok && Reading(raster, p, n + 1)
    {
      hide Rows, Data, After, Decode, DGif.Tracks, DGif.Tables, DGif.Future, RowStart, RowOrder;
      RowFits(j, h, w);
      if good {
        RowFits(n, h, w);
        LeastRow(n, h, w);
        StreamPiece(p.stream, RowStart(n, w), w);
      }
      ghost var was, from := raster[..], RowStart(j, w);
      ok := d.GetLine(raster, RowStart(j, w), w);
      if good {
        RowsUnaffected(was, raster[..], w, p.order[..n], j);
        RowsSnoc(raster[..], w, p.order, n);
      }
    }

    /** The four passes over an interlaced image. */
    method GetInterlaced(raster: array<byte>, w: nat, h: nat, ghost good: bool, ghost p: Plan) returns (ok: bool)
      requires d.Safe() && Open() && d.Distinct(raster) && d.pixelCount < ULONG
      requires w == d.imageWidth < 0x1_0000 && raster.Length == RowStart(h, w) <= MAX_PIXELS
      requires good ==>
        PlanFits(p, raster.Length) && p.w == w && p.h == h && p.order == RowOrder(true, h) && Reading(raster, p, 0)
      modifies d, d.stack, d.suffix, d.prefix, d.inp, d.inp.buf, raster
      ensures Open() && old(d.inp.pos) <= d.inp.pos && (ok ==> d.Safe())
      ensures good ==> ok && Reading(raster, p, h)
    {
      hide Rows, Data, After, Decode, DGif.Tracks, DGif.Tables;
      hide DGif.Future, RowStart, RowOrder, Pass, GifReader.Reading;
      PassesAreOrder(h);
      ghost var n: nat := 0;
      for i := 0 to 4
        invariant Open() && old(d.inp.pos) <= d.inp.pos && d.Safe() && w == d.imageWidth && d.pixelCount < ULONG
        invariant good ==> n <= h && p.order[n..] == PassesFrom(i, h) && Reading(raster, p, n)
      {
        var j: nat := INTERLACED_OFFSET[i];
        assert good ==> p.order[n..] == Pass(j, INTERLACED_JUMPS[i], h) + PassesFrom(i + 1, h);
        while j < h
          invariant Open() && old(d.inp.pos) <= d.inp.pos && d.Safe() && w == d.imageWidth && d.pixelCount < ULONG
          invariant good ==>
            n <= h && p.order[n..] == Pass(j, INTERLACED_JUMPS[i], h) + PassesFrom(i + 1, h) && Reading(raster, p, n)
          decreases h - j
        {
          if good {
            FirstOfPass(p.order, n, j, INTERLACED_JUMPS[i], h, PassesFrom(i + 1, h));
          }
          ok := GetRow(raster, j, w, h, good, p, n);
          if !ok {
            return;
          }
          n := n + 1;
          j := j + INTERLACED_JUMPS[i];
        }
        EndOfPass(j, INTERLACED_JUMPS[i], h, PassesFrom(i + 1, h));
      }
      ok := true;
    }

    /** The pixels of an image, once its code size is read. */
    method GetRaster(desc: ImageDesc, ghost good: bool, ghost image: Image, ghost p: Plan)
      returns (ok: bool, raster: array<byte>)
      requires d.Safe() && Open() && desc.width == d.imageWidth < 0x1_0000 && desc.height < 0x1_0000
      requires d.pixelCount == RowStart(desc.height, desc.width) <= MAX_PIXELS
      requires good ==>
        && PlanFits(p, RowStart(desc.height, desc.width)) && desc == image.desc && desc.height > 0
        && p.order == RowOrder(desc.interlace, desc.height) && p.w == desc.width && p.h == desc.height
        && d.Tracks() && d.Future().pixels == p.stream && After(d.inp.Ahead()) == Found(p.rest)
        && |image.raster| == RowStart(p.h, p.w) && InRaster(|image.raster|, p.w, p.order)
        && Rows(image.raster, p.w, p.order) <= p.stream
      modifies d, d.stack, d.suffix, d.prefix, d.inp, d.inp.buf
      ensures Open() && old(d.inp.pos) <= d.inp.pos && fresh(raster)
      ensures raster.Length == RowStart(desc.height, desc.width)
      ensures good ==> ok && raster[..] == image.raster && d.inp.Ahead() == p.rest
      ensures good ==> InPlace(raster[..], p.stream, desc.interlace, desc.width, desc.height)
    {
      hide Rows, Data, After, Decode, DGif.Tracks, DGif.Tables, DGif.Future, RowStart, RowOrder, Pass, InPlace;
      var w, h := desc.width, desc.height;
      raster := new byte[RowStart(h, w)];
      if good {
        NoRows(raster[..], p);
        RowsLength(image.raster, w, p.order);
        RowsInPlace(image.raster, p.stream, desc.interlace, w, h);
        StreamPiece(p.stream, 0, 0);
      }
      if desc.interlace {
        ok := GetInterlaced(raster, w, h, good, p);
        if good {
          assert p.order[..h] == p.order;
          RowsDetermine(raster[..], image.raster, w, h, true);
        }
      } else {
        if good {
          LeastRow(0, h, w);
          NoRowStart(w);
        }
        ok := d.GetLine(raster, 0, RowStart(h, w));
        if good {
          RowsInSequence(image.raster, w, h, h);
          assert p.order[..h] == p.order;
          assert raster[..] == raster[0..RowStart(h, w)] && image.raster[..RowStart(h, w)] == image.raster;
        }
      }
    }

    /** DGifGetImageDesc, and what DGifSlurp does with an image. */
    method GetImage(ghost good: bool, ghost image: Image) returns (ok: bool)
      requires Open()
      requires good ==> ImageAt(d.inp.Ahead(), image) && extensions == image.extensions
      modifies this`images, this`extensions, d, d.stack, d.suffix, d.prefix, d.inp, d.inp.buf
      ensures Open() && old(d.inp.pos) <= d.inp.pos
      ensures !ok ==> images == old(images) && extensions == old(extensions)
      ensures ok ==>
        && |images| == |old(images)| + 1 && images[..|old(images)|] == old(images) && extensions == []
        && HasRaster(images[|old(images)|]) && images[|old(images)|].extensions == old(extensions)
      ensures good ==>
        ok && images == old(images) + [image] && d.inp.Ahead() == old(AfterImage(d.inp.Ahead()))
    {
      hide Rows, Data, After, Decode, DGif.Tracks, DGif.Tables, RowOrder, ParseHead, RowStart, Pass;
      ghost var ahead := d.inp.Ahead();
      var desc;
      ok, desc := GetDesc();
      if !ok {
        return;
      }
      AreaFits(desc.width, desc.height);
      d.imageWidth := desc.width;
      d.pixelCount := RowStart(desc.height, desc.width);
      ghost var t := d.inp.Ahead();
      ok := d.SetupDecompress();
      if !ok {
        return;
      }
      ghost var order := RowOrder(desc.interlace, desc.height);
      ghost var p := Plan(desc.width, desc.height, order, d.Future().pixels, if good then AfterImage(ahead) else []);
      if good {
        OrderInRange(desc.interlace, desc.height);
        OrderAllDistinct(desc.interlace, desc.height);
        RowsLength(image.raster, p.w, order);
      }
      var raster;
      ok, raster := GetRaster(desc, good, image, p);
      if ok {
        images := images + [Image(desc, raster[..], extensions)];
        extensions := [];
      }
    }

    /** DGifGetExtensionNext: the next sub-block, or None at the empty block that ends the extension. */
    method GetExtensionNext() returns (ok: bool, block: Option<seq<byte>>)
      requires Open()
      modifies d.inp`pos, d.inp.buf
      ensures Open() && old(d.inp.pos) <= d.inp.pos
      ensures !ok ==> ParseBlocks(old(d.inp.Ahead())).NoBlocks?
      ensures ok && block.None? ==> ParseBlocks(old(d.inp.Ahead())) == SomeBlocks([], d.inp.Ahead())
      ensures ok && block.Some? ==>
        && d.inp.pos > old(d.inp.pos) && 0 < |block.value| < 256
        && old(d.inp.Ahead()) == [|block.value|] + block.value + d.inp.Ahead()
    {
      ghost var ahead := d.inp.Ahead();
      block := None;
      var k := d.inp.Read(1);
      if |k| != 1 {
        return false, block;
      }
      if k[0] > 0 {
        d.inp.buf[0] := k[0];
        var s := d.inp.Read(k[0]);
        if |s| != k[0] as int {
          return false, block;
        }
        assert ahead == [|s|] + s + d.inp.Ahead();
        d.inp.Store(s);
        block := Some(d.inp.buf[1..1 + d.inp.buf[0] as int]);
      } else {
        assert ahead[1..] == d.inp.Ahead();
      }
      return true, block;
    }

    /** What DGifSlurp does with an extension: keep all its sub-blocks. */
    method GetExtension() returns (ok: bool)
      requires Open()
      modifies this`extensions, d.inp`pos, d.inp.buf
      ensures Open() && old(d.inp.pos) <= d.inp.pos
      ensures ok <==> old(d.inp.Ahead()) != [] && ParseBlocks(old(d.inp.Ahead())[1..]).SomeBlocks?
      ensures ok ==>
        && ParseBlocks(old(d.inp.Ahead())[1..]).rest == d.inp.Ahead()
        && extensions == old(extensions) + Tagged(old(d.inp.Ahead())[0], ParseBlocks(old(d.inp.Ahead())[1..]).blocks)
    {
      hide ParseBlocks, Tagged, Continued, Preceded;
      var code;
      ok, code := ReadByte();
      if !ok {
        return;
      }
      ghost var all, got := ParseBlocks(d.inp.Ahead()), [];
      NothingPreceded(code, all);
      var block;
      ok, block := GetExtensionNext();
      if !ok {
        return;
      }
      if block.Some? {
        extensions := extensions + [Extension(code, block.value)];
        FirstBlock(code, block.value, d.inp.Ahead());
        got := [block.value];
      }
      while block.Some?
        invariant Open() && old(d.inp.pos) <= d.inp.pos
        invariant block.Some? ==> got != [] && all == Preceded(got, ParseBlocks(d.inp.Ahead()))
        invariant block.None? ==> all == SomeBlocks(got, d.inp.Ahead())
        invariant extensions == old(extensions) + Tagged(code, got)
        decreases block.Some?, |d.inp.input| - d.inp.pos
      {
        ok, block := GetExtensionNext();
        if !ok {
          return;
        }
        if block.Some? {
          NextBlock(got, block.value, d.inp.Ahead());
          TaggedSnoc(code, got, block.value);
          extensions := extensions + [Extension(CONTINUE_EXT, block.value)];
          got := got + [block.value];
        }
      }
    }

    /** DGifSlurp: read all records up to the terminator. */
    method Slurp(ghost good: bool, ghost gif: Gif) returns (ok: bool)
      requires Open() && images == []
      requires good ==> gif.images != [] && Body([], d.inp.Ahead(), gif.images, gif.trailing)
      modifies this`images, this`extensions, d, d.stack, d.suffix, d.prefix, d.inp, d.inp.buf
      ensures ok ==> images != [] && forall i :: 0 <= i < |images| ==> HasRaster(images[i])
      ensures good ==> ok && images == gif.images && extensions == gif.trailing
    {
      hide ParseExtensions, ImageAt, Body, ParseBlocks, Tagged, HasRaster;
      extensions, ok := [], true;
      var more := true;
      while more
        invariant ok && Open() && (good ==> |images| <= |gif.images| && images == gif.images[..|images|])
        invariant forall i :: 0 <= i < |images| ==> HasRaster(images[i])
        invariant good && more ==> Body(extensions, d.inp.Ahead(), gif.images[|images|..], gif.trailing)
        invariant good && !more ==> images == gif.images && extensions == gif.trailing
        decreases more, |d.inp.input| - d.inp.pos
      {
        ghost var left := if good then gif.images[|images|..] else [];
        if good {
          BodyStep(extensions, d.inp.Ahead(), left, gif.trailing);
        }
        var record;
        ok, record := ReadByte();
        if !ok {
          return;
        }
        if record == DESCRIPTOR_INTRODUCER {
          ghost var before := images;
          ok := GetImage(good, if good then left[0] else Image(ImageDesc(0, 0, 0, 0, false, None), [], []));
          assert forall i :: 0 <= i < |before| && ok ==> images[i] == images[..|before|][i];
        } else if record == EXTENSION_INTRODUCER {
          ok := GetExtension();
        } else if record == TERMINATOR_INTRODUCER {
          more := false;
        } else {
          ok := false;
        }
        if !ok {
          return;
        }
      }
      if |images| == 0 {
        ok := false;
      }
    }
  }

  /** Reading one record brings the file's remaining records one step closer to their end. */
  lemma BodyStep(pending: seq<Extension>, s: seq<byte>, images: seq<Image>, trailing: seq<Extension>)
    requires Body(pending, s, images, trailing)
    ensures s != [] && (s[0] == DESCRIPTOR_INTRODUCER || s[0] == EXTENSION_INTRODUCER || s[0] == TERMINATOR_INTRODUCER)
    ensures s[0] == DESCRIPTOR_INTRODUCER ==>
      && images != [] && pending == images[0].extensions && ImageAt(s[1..], images[0])
      && Body([], AfterImage(s[1..]), images[1..], trailing)
    ensures s[0] == EXTENSION_INTRODUCER ==>
      && |s| >= 2 && ParseBlocks(s[2..]).SomeBlocks?
      && Body(pending + Tagged(s[1], ParseBlocks(s[2..]).blocks), ParseBlocks(s[2..]).rest, images, trailing)
    ensures s[0] == TERMINATOR_INTRODUCER ==> images == [] && pending == trailing
  {
    hide ImageAt, ParseBlocks, Tagged;
    if s[0] == EXTENSION_INTRODUCER {
      var tagged, rest := Tagged(s[1], ParseBlocks(s[2..]).blocks), ParseBlocks(s[2..]).rest;
      assert pending + (tagged + ParseExtensions(rest).list) == pending + tagged + ParseExtensions(rest).list;
    } else {
      assert pending + [] == pending;
    }
  }

  lemma FirstBlock(code: byte, b: seq<byte>, rest: seq<byte>)
    requires 0 < |b| < 256
    ensures ParseBlocks([|b|] + b + rest) == Preceded([b], ParseBlocks(rest))
    ensures Tagged(code, []) == [] && Tagged(code, [b]) == [Extension(code, b)]
  {
    ParseOneBlock(b, rest);
    assert [b][1..] == [];
  }

  lemma NextBlock(got: seq<seq<byte>>, b: seq<byte>, rest: seq<byte>)
    requires 0 < |b| < 256
    ensures Preceded(got, ParseBlocks([|b|] + b + rest)) == Preceded(got + [b], ParseBlocks(rest))
  {
    hide ParseBlocks;
    ParseOneBlock(b, rest);
    match ParseBlocks(rest)
    case NoBlocks =>
    case SomeBlocks(blocks, _) =>
      assert got + ([b] + blocks) == got + [b] + blocks;
  }

  lemma TaggedSnoc(code: byte, blocks: seq<seq<byte>>, b: seq<byte>)
    requires blocks != []
    ensures Tagged(code, blocks + [b]) == Tagged(code, blocks) + [Extension(CONTINUE_EXT, b)]
  {
    ContinuedSnoc(blocks[1..], b);
    assert (blocks + [b])[1..] == blocks[1..] + [b];
  }

  lemma {:induction false} ContinuedSnoc(blocks: seq<seq<byte>>, b: seq<byte>)
    ensures Continued(blocks + [b]) == Continued(blocks) + [Extension(CONTINUE_EXT, b)]
  {
    if blocks != [] {
      ContinuedSnoc(blocks[1..], b);
      assert (blocks + [b])[1..] == blocks[1..] + [b];
    }
  }

  lemma NothingPreceded(code: byte, more: Blocks)
    ensures Preceded([], more) == more && Tagged(code, []) == []
    ensures forall got, rest :: Preceded(got, SomeBlocks([], rest)) == SomeBlocks(got, rest)
    ensures forall got :: Preceded(got, NoBlocks) == NoBlocks
  {
  }

  /** What parsing gives after the blocks `got`. */
  function Preceded(got: seq<seq<byte>>, more: Blocks): Blocks {
    match more
    case NoBlocks => NoBlocks
    case SomeBlocks(blocks, rest) => SomeBlocks(got + blocks, rest)
  }

  lemma NoRowStart(w: nat)
    ensures RowStart(0, w) == 0
  {
  }

  lemma NoRows(raster: seq<byte>, p: Plan)
    requires PlanFits(p, |raster|)
    ensures RowStart(0, p.w) == 0 && InRaster(|raster|, p.w, p.order[..0]) && Rows(raster, p.w, p.order[..0]) == []
  {
  }

  lemma {:induction false} ProductBounded(h: nat, w: nat, n: nat)
    requires h <= n
    ensures h * w <= n * w
    decreases n - h
  {
    if h < n {
      ProductBounded(h + 1, w, n);
      assert (h + 1) * w == h * w + w;
    }
  }

  lemma AreaFits(w: nat, h: nat)
    requires w < 0x1_0000 && h < 0x1_0000
    ensures RowStart(h, w) <= MAX_PIXELS
  {
    ProductBounded(h, w, 0xFFFF);
    assert 0xFFFF * w <= 0xFFFF * 0xFFFF;
  }

  lemma OrderAllDistinct(interlace: bool, h: nat)
    ensures var order := RowOrder(interlace, h);
      |order| == h && forall i, j :: 0 <= i < j < h ==> order[i] != order[j]
  {
    OrderInRange(interlace, h);
    forall i, j | 0 <= i < j < h
      ensures RowOrder(interlace, h)[i] != RowOrder(interlace, h)[j]
    {
      OrderDistinct(interlace, h, i, j);
    }
  }

  lemma StreamPiece(s: seq<byte>, i: nat, w: nat)
    requires i + w <= |s|
    ensures s[i..][..w] == s[i..i + w] && s[i..][w..] == s[i + w..] && s[..i] + s[i..i + w] == s[..i + w]
  {
  }
}
