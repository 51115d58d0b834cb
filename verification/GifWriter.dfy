/** Writing a GIF file that is held in memory: EGifSpew (egif_lib.c). */
module GifWriter {
  import opened Bits
  import opened GifEncoder
  import opened GifFormat
  import opened GifGrammar
  import opened Lzw
  import opened SubBlocks

  /** An image in memory; its raster is gone if it is deleted. */
  datatype Saved = Saved(image: Image, deleted: bool)

  // ----- what the writer prints

  /** EGifGetGifVersion asks for GIF89 if there is an extension of one of four kinds: comment, graphics control, plain
      text or application (sections 23 to 26). */
  predicate NeedsGif89(list: seq<Extension>) {
    exists j :: 0 <= j < |list| && list[j].code as int in {0xfe, 0xf9, 0x01, 0xff}
  }

  function Stamp(gif89: bool): seq<byte> { STAMP + [0x38, if gif89 then 0x39 else 0x37, 0x61] }

  ghost predicate ScreenFits(s: Screen) {
    s.width < 0x1_0000 && s.height < 0x1_0000 && 1 <= s.colorResolution <= 8
  }

  function ScreenFlags(s: Screen): byte
    requires 1 <= s.colorResolution <= 8
  {
    (if s.colorMap.Some? then 0x80 else 0) + (s.colorResolution - 1) * 0x10
    + (if s.colorMap.Some? then (BitSize(|s.colorMap.value.colors|) - 1) % 8 else 7)
    + (if s.colorMap.Some? && s.colorMap.value.sortFlag then 8 else 0)
  }

  function PrintScreen(s: Screen): seq<byte>
    requires 1 <= s.colorResolution <= 8
  {
    PrintWord(s.width) + PrintWord(s.height) + [ScreenFlags(s), s.background, s.aspect] + PrintTable(s.colorMap)
  }

  lemma ScreenFlagsRead(s: Screen)
    requires ScreenFits(s) && TableFits(s.colorMap)
    ensures var f := ScreenFlags(s);
      && (f >= 0x80 <==> s.colorMap.Some?) && f / 0x10 % 8 + 1 == s.colorResolution
      && (s.colorMap.None? ==> f % 0x10 == 7)
      && (s.colorMap.Some? ==> f % 8 + 1 == MapBits(s.colorMap, 0) && (f / 8 % 2 == 1 <==> s.colorMap.value.sortFlag))
  {
    hide BitSizeFrom, Pow2;
    var m := s.colorMap;
    var bits := if m.Some? then (BitSize(|m.value.colors|) - 1) % 8 else 7;
    FlagBits(if m.Some? then 1 else 0, s.colorResolution - 1, if m.Some? && m.value.sortFlag then 1 else 0, bits);
  }

  /** The four fields of the flags byte. */
  lemma FlagBits(global: nat, resolution: nat, sort: nat, bits: nat)
    requires global < 2 && resolution < 8 && sort < 2 && bits < 8
    ensures var f := global * 0x80 + resolution * 0x10 + bits + sort * 8;
      && (f >= 0x80 <==> global == 1) && f / 0x10 % 8 == resolution && f % 8 == bits && f / 8 % 2 == sort
  {
    var f := global * 0x80 + resolution * 0x10 + bits + sort * 8;
    assert f / 0x10 == global * 8 + resolution;
    assert f / 8 == global * 16 + resolution * 2 + sort;
  }

  lemma ScreenPrinted(s: Screen, gif89: bool, tail: seq<byte>)
    requires ScreenFits(s) && TableFits(s.colorMap)
    ensures ParseHeader(Stamp(gif89) + PrintScreen(s) + tail) == SomeHeader(s, tail)
  {
    hide ParseTable, PrintTable, ScreenFlags, MapBits, Word, LoByte, HiByte;
    var p := PrintScreen(s) + tail;
    Associate(Stamp(gif89), PrintScreen(s), tail);
    assert (Stamp(gif89) + p)[6..] == p && (Stamp(gif89) + p)[..3] == STAMP;
    assert p[7..] == PrintTable(s.colorMap) + tail;
    ScreenFlagsRead(s);
    if s.colorMap.Some? {
      TablePrinted(s.colorMap, tail, s.colorMap.value.sortFlag);
    } else {
      NoTableParsed(tail, p[4] % 8 + 1, p[4] / 8 % 2 == 1);
      assert [] + tail == tail;
    }
  }

  /** An image as written: with its code size and the data bytes of its pixels. */
  datatype Part = Part(image: Image, codeSize: byte, data: seq<byte>)

  function PrintPixels(p: Part): seq<byte> { PrintHead(p.image.desc) + [p.codeSize] + Frame(p.data) }

  /** An image that a GIF file can hold. */
  ghost predicate ImageFits(image: Image) {
    && DescFits(image.desc) && Printable(image.extensions)
    && HasRaster(image)
  }

  ghost predicate PartFits(p: Part) {
    && ImageFits(p.image) && p.codeSize <= 8
    && InRaster(|p.image.raster|, p.image.desc.width, RowOrder(p.image.desc.interlace, p.image.desc.height))
    && Decode(Start(p.codeSize), ByteBits(p.data))
       == Decoded(
            Rows(p.image.raster, p.image.desc.width, RowOrder(p.image.desc.interlace, p.image.desc.height)),
            EndOfInformation)
  }

  ghost function PrintPart(p: Part): seq<byte>
    requires PartFits(p)
  {
    PrintFrom(p.image.extensions, 0) + [DESCRIPTOR_INTRODUCER] + PrintPixels(p)
  }

  /** The image that is read back. */
  function ReadBack(image: Image): Image { image.(desc := Unsorted(image.desc)) }

  lemma PixelsPrinted(p: Part, tail: seq<byte>)
    requires PartFits(p)
    ensures ImageAt(PrintPixels(p) + tail, ReadBack(p.image)) && AfterImage(PrintPixels(p) + tail) == tail
  {
    hide Frame, Data, After, Decode, ByteBits, ParseHead, PrintHead, Rows, RowOrder, TableFits, InRaster;
    var t := [p.codeSize] + (Frame(p.data) + tail);
    assert PrintPixels(p) + tail == PrintHead(p.image.desc) + t;
    HeadPrinted(p.image.desc, t);
    assert t[1..] == Frame(p.data) + tail;
    FrameData(p.data, tail);
  }

  ghost predicate PartsFit(parts: seq<Part>) { forall i :: 0 <= i < |parts| ==> PartFits(parts[i]) }

  ghost function PrintParts(parts: seq<Part>): seq<byte>
    requires PartsFit(parts)
  {
    if parts == [] then [] else PrintPart(parts[0]) + PrintParts(parts[1..])
  }

  lemma PrintNoParts()
    ensures PrintParts([]) == []
  {
  }

  lemma PrintFirstPart(parts: seq<Part>)
    requires PartsFit(parts) && parts != []
    ensures PrintParts(parts) == PrintPart(parts[0]) + PrintParts(parts[1..])
  {
  }

  lemma {:induction false} PartsSnoc(parts: seq<Part>, p: Part)
    requires PartsFit(parts) && PartFits(p)
    ensures PartsFit(parts + [p]) && PrintParts(parts + [p]) == PrintParts(parts) + PrintPart(p)
  {
    hide PartFits, PrintPart, PrintParts;
    assert PartFits(p) && PartsFit([p]);
    if parts == [] {
      PrintNoParts();
      PrintFirstPart([p]);
      assert [] + [p] == [p] && [p][1..] == [] && [] + PrintPart(p) == PrintPart(p) + [];
    } else {
      PartsSnoc(parts[1..], p);
      PrintFirstPart(parts);
      PrintFirstPart(parts + [p]);
      assert (parts + [p])[1..] == parts[1..] + [p];
      assert PrintPart(parts[0]) + (PrintParts(parts[1..]) + PrintPart(p)) == PrintParts(parts) + PrintPart(p);
    }
  }

  ghost function ReadBacks(parts: seq<Part>): (images: seq<Image>)
    ensures |images| == |parts|
  {
    seq(|parts|, i requires 0 <= i < |parts| => ReadBack(parts[i].image))
  }

  /** What has been printed reads back as the same images and extensions. */
  lemma {:induction false} BodyPrinted(parts: seq<Part>, trailing: seq<Extension>)
    requires PartsFit(parts) && Printable(trailing)
    ensures Body([], PrintParts(parts) + PrintFrom(trailing, 0) + [TERMINATOR_INTRODUCER], ReadBacks(parts), trailing)
  {
    hide ParseExtensions, PrintFrom, ImageAt, AfterImage, PrintPart, PartFits;
    hide PrintParts, Frame, Decode, ByteBits, ImageFits, InRaster;
    if parts == [] {
      ExtensionsPrinted(trailing, 0, [TERMINATOR_INTRODUCER]);
      PrintNoParts();
      assert [] + PrintFrom(trailing, 0) == PrintFrom(trailing, 0)
         && [] + trailing == trailing && trailing[0..] == trailing;
    } else {
      BodyPrinted(parts[1..], trailing);
      var tail := PrintParts(parts[1..]) + PrintFrom(trailing, 0) + [TERMINATOR_INTRODUCER];
      PartPrinted(parts[0], tail);
      PrintFirstPart(parts);
      assert PrintParts(parts) + PrintFrom(trailing, 0) + [TERMINATOR_INTRODUCER] == PrintPart(parts[0]) + tail;
      assert ReadBacks(parts)[1..] == ReadBacks(parts[1..]);
      assert [] + parts[0].image.extensions == parts[0].image.extensions;
    }
  }

  lemma PartPrinted(p: Part, tail: seq<byte>)
    requires PartFits(p)
    ensures var s := PrintPart(p) + tail;
      && ParseExtensions(s).SomeExtensions? && ParseExtensions(s).list == p.image.extensions
      && var rest := ParseExtensions(s).rest;
      && rest != [] && rest[0] == DESCRIPTOR_INTRODUCER && ImageAt(rest[1..], ReadBack(p.image))
      && AfterImage(rest[1..]) == tail
  {
    hide ParseExtensions, PrintFrom, ImageAt, AfterImage, PrintPixels, Frame, Decode, ByteBits, InRaster;
    var rest := [DESCRIPTOR_INTRODUCER] + (PrintPixels(p) + tail);
    assert PrintPart(p) + tail == PrintFrom(p.image.extensions, 0) + rest;
    ExtensionsPrinted(p.image.extensions, 0, rest);
    assert rest[1..] == PrintPixels(p) + tail;
    PixelsPrinted(p, tail);
  }

  // ----- what is asked of the caller, and what comes back

  predicate MapAccepted(m: Option<ColorMap>) { m.Some? ==> |m.value.colors| == Pow2(BitSize(|m.value.colors|)) }

  /** The code size: the bits of the image's colour map, or else the screen's, but at least 2. */
  function CodeSize(own: Option<ColorMap>, screenMap: Option<ColorMap>): nat {
    if MapBits(own, MapBits(screenMap, 0)) < 2 then 2 else MapBits(own, MapBits(screenMap, 0))
  }

  /** The sizes of colour maps that are written. */
  lemma MapSizes(m: ColorMap)
    requires |m.colors| <= 256
    ensures MapAccepted(Some(m)) <==> |m.colors| in {2, 4, 8, 16, 32, 64, 128, 256}
  {
    hide BitSizeFrom;
    BitSizeLeast(|m.colors|);
    SmallPowers();
    PowersOnly(BitSize(|m.colors|), |m.colors|);
  }

  lemma PowersOnly(b: nat, n: nat)
    requires 1 <= b <= 8 && n <= Pow2(b) && (b > 1 ==> n > Pow2(b - 1))
    ensures n == Pow2(b) <==> n in {2, 4, 8, 16, 32, 64, 128, 256}
  {
    SmallPowers();
    assert Pow2(0) == 1;
  }

  /** The code size is the least one, from 2 on, that gives every colour of the map in force a code. */
  ghost predicate LeastSize(b: nat, own: Option<ColorMap>, screenMap: Option<ColorMap>) {
    var colors := if own.Some? then |own.value.colors| else if screenMap.Some? then |screenMap.value.colors| else 0;
    2 <= b && colors <= Pow2(b) && (b > 2 ==> colors > Pow2(b - 1))
  }

  lemma CodeSizeLeast(own: Option<ColorMap>, screenMap: Option<ColorMap>)
    requires Countable(own) && Countable(screenMap)
    ensures LeastSize(CodeSize(own, screenMap), own, screenMap)
  {
    hide BitSizeFrom;
    SmallPowers();
    if own.Some? {
      BitSizeLeast(|own.value.colors|);
    } else if screenMap.Some? {
      BitSizeLeast(|screenMap.value.colors|);
    }
  }

  /** A GIF file in memory. */
  datatype Memory = Memory(screen: Screen, images: seq<Saved>, trailing: seq<Extension>)

  predicate Countable(m: Option<ColorMap>) { m.Some? ==> |m.value.colors| <= 256 }

  /** Sizes that fit their fields; the colour maps may still be of any size up to 256. */
  ghost predicate Storable(g: Memory) {
    && ScreenFits(g.screen) && Countable(g.screen.colorMap) && Printable(g.trailing)
    && forall i :: 0 <= i < |g.images| ==> !g.images[i].deleted ==> ImageStorable(g.images[i].image)
  }

  ghost predicate ImageStorable(image: Image) {
    var d := image.desc;
    && d.left < 0x1_0000 && d.top < 0x1_0000 && 0 < d.width < 0x1_0000 && 0 < d.height < 0x1_0000
    && Countable(d.colorMap) && Printable(image.extensions) && HasRaster(image)
  }

  /** Every colour map has a size that the format knows, and every image has a map to be shown with. */
  predicate MapsSuit(g: Memory) {
    && MapAccepted(g.screen.colorMap)
    && forall i :: 0 <= i < |g.images| ==> !g.images[i].deleted ==> MapSuits(g.images[i].image, g.screen.colorMap)
  }

  predicate MapSuits(image: Image, screenMap: Option<ColorMap>) {
    MapAccepted(image.desc.colorMap) && (image.desc.colorMap.Some? || screenMap.Some?)
  }

  /** An image as it is written: its pixels cut down to the code size. */
  ghost function Cut(image: Image, screenMap: Option<ColorMap>): Image
    requires CodeSize(image.desc.colorMap, screenMap) <= 8
  {
    image.(raster := Masked(image.raster, CodeSize(image.desc.colorMap, screenMap)))
  }

  predicate CodeSizesFit(images: seq<Saved>, screenMap: Option<ColorMap>) {
    forall i :: 0 <= i < |images| ==> !images[i].deleted ==> CodeSize(images[i].image.desc.colorMap, screenMap) <= 8
  }

  /** The images that come back: those that were not deleted. */
  ghost function Kept(images: seq<Saved>, screenMap: Option<ColorMap>): seq<Image>
    requires CodeSizesFit(images, screenMap)
  {
    if images == [] then []
    else
      var n := |images| - 1;
      Kept(images[..n], screenMap) + (if images[n].deleted then [] else [ReadBack(Cut(images[n].image, screenMap))])
  }

  // ----- the writer

  /** What there is to write of an image: the rows of these pixels in this order. */
  datatype Plan = Plan(w: nat, h: nat, order: seq<nat>, pixels: seq<byte>)

  ghost predicate PlanFits(p: Plan, size: nat) {
    0 < p.w && |p.order| == p.h && |p.pixels| == size == RowStart(p.h, p.w) && InRaster(size, p.w, p.order)
  }

  class GifWriter {
    const e: EGif
    var gif89: bool
    var imageState: bool

    constructor ()
      ensures Open() && fresh(e) && fresh(e.out) && fresh(e.out.buf) && fresh(e.hashTable) && fresh(e.hashTable.table)
      ensures e.out.written == [] && !gif89 && !imageState && e.pixelCount == 0
    {
      e := new EGif();
      gif89, imageState := false, false;
    }

    ghost predicate Open()
      reads e.hashTable, e.hashTable.table
    {
      e.out.buf.Length == 256 && e.hashTable.Valid()
    }

    method PutWord(w: nat)
      modifies e.out`written
      ensures e.out.written == old(e.out.written) + PrintWord(w)
    {
      e.out.Write([LoByte(w), HiByte(w)]);
    }

    method PutColors(colors: seq<Color>)
      modifies e.out`written
      ensures e.out.written == old(e.out.written) + PrintColors(colors)
    {
      for i := 0 to |colors|
        invariant e.out.written == old(e.out.written) + PrintColors(colors[..i])
      {
        e.out.Write([colors[i].red, colors[i].green, colors[i].blue]);
        assert colors[..i + 1][..i] == colors[..i];
      }
      assert colors[..|colors|] == colors;
    }

    /** EGifGetGifVersion, for one list of extensions. */
    method CheckVersion(list: seq<Extension>)
      modifies this`gif89
      ensures gif89 <==> old(gif89) || NeedsGif89(list)
    {
      for j := 0 to |list|
        invariant gif89 <==> old(gif89) || NeedsGif89(list[..j])
      {
        var code := list[j].code;
        if code == COMMENT_EXT || code == GRAPHICS_EXT || code == PLAINTEXT_EXT || code == APPLICATION_EXT {
          gif89 := true;
          assert list[..j + 1][j].code == code;
        }
        assert forall k :: 0 <= k < j ==> list[..j + 1][k] == list[..j][k];
      }
      assert list[..|list|] == list;
    }

    /** EGifPutScreenDesc, once the version is known. */
    method PutScreenDesc(s: Screen) returns (ok: bool)
      requires 1 <= s.colorResolution <= 8 && Countable(s.colorMap)
      modifies e.out`written
      ensures ok <==> MapAccepted(s.colorMap)
      ensures ok ==> e.out.written == old(e.out.written) + (Stamp(gif89) + PrintScreen(s))
    {
      e.out.Write(Stamp(gif89));
      if !MapAccepted(s.colorMap) {
        return false;
      }
      PutWord(s.width);
      PutWord(s.height);
      e.out.Write([ScreenFlags(s), s.background, s.aspect]);
      if s.colorMap.Some? {
        PutColors(s.colorMap.value.colors);
      }
      return true;
    }

    /** EGifWriteExtensions. */
    method WriteExtensions(list: seq<Extension>)
      requires forall k :: 0 <= k < |list| ==> |list[k].bytes| < 256
      modifies e.out`written
      ensures e.out.written == old(e.out.written) + PrintFrom(list, 0)
    {
      hide PrintExtension;
      for j := 0 to |list|
        invariant e.out.written + PrintFrom(list, j) == old(e.out.written) + PrintFrom(list, 0)
      {
        PutExtension(list, j);
      }
    }

    /** One turn of EGifWriteExtensions' loop. */
    method PutExtension(list: seq<Extension>, j: nat)
      requires j < |list| && |list[j].bytes| < 256
      modifies e.out`written
      ensures e.out.written == old(e.out.written) + PrintExtension(list, j)
    {
      if list[j].code != CONTINUE_EXT {
        e.out.Write([EXTENSION_INTRODUCER, list[j].code]);
      }
      e.out.Write([|list[j].bytes|]);
      e.out.Write(list[j].bytes);
      if j == |list| - 1 || list[j + 1].code != CONTINUE_EXT {
        e.out.Write([0]);
      }
    }

    /** The bytes of an image descriptor. */
    method PutHead(desc: ImageDesc)
      modifies e.out`written
      ensures e.out.written == old(e.out.written) + [DESCRIPTOR_INTRODUCER] + PrintHead(desc)
    {
      e.out.Write([DESCRIPTOR_INTRODUCER]);
      PutWord(desc.left);
      PutWord(desc.top);
      PutWord(desc.width);
      PutWord(desc.height);
      e.out.Write([Flags(desc)]);
      if desc.colorMap.Some? {
        PutColors(desc.colorMap.value.colors);
      }
    }

    /** EGifPutImageDesc: the descriptor, the colour table, and the code size. */
    method PutImageDesc(desc: ImageDesc, screenMap: Option<ColorMap>) returns (ok: bool)
      requires Open() && desc.width < 0x1_0000 && desc.height < 0x1_0000
      requires Countable(desc.colorMap) && MapAccepted(screenMap) && Countable(screenMap)
      modifies this`imageState, e, e.out, e.out.buf, e.hashTable, e.hashTable.table
      ensures ok <==>
        && !(old(imageState) && old(e.pixelCount) > 0xffff_0000)
        && MapAccepted(desc.colorMap) && (desc.colorMap.Some? || screenMap.Some?)
      ensures ok ==>
        && e.bitsPerPixel == CodeSize(desc.colorMap, screenMap) && LeastSize(e.bitsPerPixel, desc.colorMap, screenMap)
        && e.out.base == old(e.out.written) + [DESCRIPTOR_INTRODUCER] + PrintHead(desc) + [e.bitsPerPixel]
        && e.Coding(FIRST_CODE) && e.crntCode == FIRST_CODE && e.Consumed() == [] && e.imageWidth == desc.width
        && e.pixelCount == RowStart(desc.height, desc.width)
    {
      hide EGif.Coding, EGif.Consumed, PrintHead, BitSize, LeastSize;
      CodeSizeLeast(desc.colorMap, screenMap);
      if imageState && e.pixelCount > MAX_PIXELS {
        return false;
      }
      e.imageWidth := desc.width;
      if !MapAccepted(desc.colorMap) {
        return false;
      }
      PutHead(desc);
      if screenMap.None? && desc.colorMap.None? {
        return false;
      }
      imageState := true;
      e.pixelCount := RowStart(desc.height, desc.width);
      BitsFit(desc.colorMap);
      BitsFit(screenMap);
      e.SetupCompress(MapBits(desc.colorMap, MapBits(screenMap, 0)));
      return true;
    }

    /** The first n rows of the plan are compressed. */
    ghost predicate Writing(raster: array<byte>, p: Plan, n: nat)
      requires PlanFits(p, raster.Length) && n <= p.h && e.bitsPerPixel <= 8
      reads raster, e, e.out, e.out.buf, e.hashTable, e.hashTable.table
    {
      && e.pixelCount == RowStart(p.h, p.w) - RowStart(n, p.w) && InRaster(raster.Length, p.w, p.order[..n])
      && Masked(raster[..], e.bitsPerPixel) == p.pixels
      && (n < p.h ==> e.Coding(e.crntCode) && e.Consumed() == Rows(p.pixels, p.w, p.order[..n]))
      && (n == p.h ==> e.hashTable.Valid() && e.Finished(Rows(p.pixels, p.w, p.order)))
    }

    /** One row of an image. */
    method PutRow(raster: array<byte>, j: nat, w: nat, ghost p: Plan, ghost n: nat) returns (ok: bool)
      requires PlanFits(p, raster.Length) && n < p.h && p.order[n] == j && p.w == w && e.bitsPerPixel <= 8
      requires j < p.h && Writing(raster, p, n) && raster != e.out.buf
      modifies e, e.out, e.out.buf, e.hashTable, e.hashTable.table, raster
      ensures e.bitsPerPixel == old(e.bitsPerPixel) && e.out.base == old(e.out.base)
      ensures ok && Writing(raster, p, n + 1)
    {
      hide EGif.Coding, EGif.Consumed, EGif.Finished, Rows, RowStart, Masked;
      RowFits(j, p.h, w);
      RowFits(n, p.h, w);
      LeastRow(n, p.h, w);
      RowsSnoc(p.pixels, w, p.order, n);
      ghost var was, from := raster[..], RowStart(j, w);
      ok := e.PutLine(raster, RowStart(j, w), w);
      MaskedAgain(was, raster[..], e.bitsPerPixel, from, from + w);
      assert p.order[..p.h] == p.order;
    }

    /** The rows of an image, as EGifSpew puts them. */
    method PutRows(raster: array<byte>, interlace: bool, w: nat, h: nat, ghost p: Plan) returns (ok: bool)
      requires PlanFits(p, raster.Length) && p.w == w && p.h == h && p.order == RowOrder(interlace, h)
      requires e.bitsPerPixel <= 8 && raster != e.out.buf && Writing(raster, p, 0)
      modifies e, e.out, e.out.buf, e.hashTable, e.hashTable.table, raster
      ensures e.bitsPerPixel == old(e.bitsPerPixel) && e.out.base == old(e.out.base)
      ensures ok && Writing(raster, p, h)
      ensures InPlace(p.pixels, Rows(p.pixels, w, p.order), interlace, w, h)
    {
      hide Rows, RowStart, Pass, RowOrder, GifWriter.Writing, InPlace;
      RowsInPlace(p.pixels, Rows(p.pixels, w, p.order), interlace, w, h);
      ok := true;
      if interlace {
        PassesAreOrder(h);
        ghost var n: nat := 0;
        for i := 0 to 4
          invariant e.bitsPerPixel == old(e.bitsPerPixel) && e.out.base == old(e.out.base) && ok
          invariant n <= h && p.order[n..] == PassesFrom(i, h) && Writing(raster, p, n)
        {
          var j: nat := INTERLACED_OFFSET[i];
          assert p.order[n..] == Pass(j, INTERLACED_JUMPS[i], h) + PassesFrom(i + 1, h);
          while j < h
            invariant e.bitsPerPixel == old(e.bitsPerPixel) && e.out.base == old(e.out.base) && ok
            invariant n <= h && p.order[n..] == Pass(j, INTERLACED_JUMPS[i], h) + PassesFrom(i + 1, h)
            invariant Writing(raster, p, n)
            decreases h - j
          {
            FirstOfPass(p.order, n, j, INTERLACED_JUMPS[i], h, PassesFrom(i + 1, h));
            ok := PutRow(raster, j, w, p, n);
            if !ok {
              return;
            }
            n := n + 1;
            j := j + INTERLACED_JUMPS[i];
          }
          EndOfPass(j, INTERLACED_JUMPS[i], h, PassesFrom(i + 1, h));
        }
      } else {
        PlainOrder(h);
        for j := 0 to h
          invariant e.bitsPerPixel == old(e.bitsPerPixel) && e.out.base == old(e.out.base) && ok
          invariant Writing(raster, p, j)
        {
          ok := PutRow(raster, j, w, p, j);
          if !ok {
            return;
          }
        }
      }
    }

    /** One image of EGifSpew's loop. */
    method PutImage(image: Image, screenMap: Option<ColorMap>) returns (ok: bool, ghost part: Part)
      requires Open() && e.pixelCount == 0 && ImageStorable(image)
      requires MapAccepted(screenMap) && Countable(screenMap)
      modifies this`imageState, e, e.out, e.out.buf, e.hashTable, e.hashTable.table
      ensures ok <==> MapSuits(image, screenMap)
      ensures ok ==>
        && Open() && e.pixelCount == 0 && CodeSize(image.desc.colorMap, screenMap) <= 8
        && PartFits(part) && part.image == Cut(image, screenMap)
        && e.out.written == old(e.out.written) + PrintPart(part)
    {
      hide EGif.Coding, EGif.Consumed, Frame, ByteBits, Decode, Masked, Carries, LibTable, LeastSize;
      hide Rows, RowStart, RowOrder, PrintHead, PrintFrom, InRaster, InPlace, MapBits, PrintPart;
      ghost var start := e.out.written;
      part := Part(image, 0, []);
      WriteExtensions(image.extensions);
      ok := PutImageDesc(image.desc, screenMap);
      if !ok {
        return;
      }
      CodeSizeFits(image.desc.colorMap, screenMap);
      var w, h := image.desc.width, image.desc.height;
      var raster := new byte[|image.raster|](i requires 0 <= i < |image.raster| => image.raster[i]);
      assert raster[..] == image.raster;
      ghost var order, pixels := RowOrder(image.desc.interlace, h), Masked(image.raster, e.bitsPerPixel);
      ghost var p := Plan(w, h, order, pixels);
      OrderInRange(image.desc.interlace, h);
      OrderInRaster(image.desc.interlace, h, w);
      NothingWritten(p);
      ok := PutRows(raster, image.desc.interlace, w, h, p);
      part := Part(Cut(image, screenMap), e.bitsPerPixel, e.out.data);
      Assembled(start, part);
    }

    /** EGifGetGifVersion. */
    method SetVersion(g: Memory)
      modifies this`gif89
      ensures gif89 <==> old(gif89) || NeedsGif89(g.trailing)
                         || exists i :: 0 <= i < |g.images| && NeedsGif89(g.images[i].image.extensions)
    {
      hide NeedsGif89;
      for i := 0 to |g.images|
        invariant gif89 <==> old(gif89) || exists k :: 0 <= k < i && NeedsGif89(g.images[k].image.extensions)
      {
        CheckVersion(g.images[i].image.extensions);
      }
      CheckVersion(g.trailing);
    }

    /** EGifSpew's loop over the images. */
    method PutImages(images: seq<Saved>, screenMap: Option<ColorMap>) returns (ok: bool, ghost parts: seq<Part>)
      requires Open() && e.pixelCount == 0 && MapAccepted(screenMap) && Countable(screenMap)
      requires forall i :: 0 <= i < |images| ==> !images[i].deleted ==> ImageStorable(images[i].image)
      modifies this`imageState, e, e.out, e.out.buf, e.hashTable, e.hashTable.table
      ensures ok <==> forall i :: 0 <= i < |images| ==> !images[i].deleted ==> MapSuits(images[i].image, screenMap)
      ensures ok ==>
        && PartsFit(parts) && e.out.written == old(e.out.written) + PrintParts(parts)
        && CodeSizesFit(images, screenMap) && ReadBacks(parts) == Kept(images, screenMap)
    {
      hide PartFits, PrintPart, PrintParts, MapSuits, ImageStorable, CodeSize, Kept, Open;
      parts, ok := [], true;
      PrintNoParts();
      KeptNone(screenMap);
      for i := 0 to |images|
        invariant ok && Open() && e.pixelCount == 0
        invariant forall k :: 0 <= k < i ==> !images[k].deleted ==> MapSuits(images[k].image, screenMap)
        invariant PartsFit(parts) && e.out.written == old(e.out.written) + PrintParts(parts)
        invariant CodeSizesFit(images[..i], screenMap) && ReadBacks(parts) == Kept(images[..i], screenMap)
      {
        assert images[..i + 1][..i] == images[..i];
        if !images[i].deleted {
          ghost var part;
          ok, part := PutImage(images[i].image, screenMap);
          if !ok {
            return;
          }
          PartsSnoc(parts, part);
          assert ReadBacks(parts + [part]) == ReadBacks(parts) + [ReadBack(part.image)];
          parts := parts + [part];
        }
        KeptNext(images, screenMap, i);
      }
      assert images[..|images|] == images;
    }

    /** EGifSpew. */
    method Spew(g: Memory) returns (ok: bool)
      requires Open() && e.pixelCount == 0 && e.out.written == [] && Storable(g)
      modifies this, e, e.out, e.out.buf, e.hashTable, e.hashTable.table
      ensures ok <==> MapsSuit(g)
      ensures ok ==> CodeSizesFit(g.images, g.screen.colorMap)
      ensures ok ==> [0x47, 0x49, 0x46, 0x38, if gif89 then 0x39 else 0x37, 0x61] <= e.out.written
      ensures ok && Kept(g.images, g.screen.colorMap) != [] ==>
        Describes(e.out.written, Gif(g.screen, Kept(g.images, g.screen.colorMap), g.trailing))
      ensures gif89 <==> old(gif89) || NeedsGif89(g.trailing)
                         || exists i :: 0 <= i < |g.images| && NeedsGif89(g.images[i].image.extensions)
    {
      hide NeedsGif89, PartsFit, MapSuits, ImageStorable, CodeSizesFit;
      hide Kept, PrintParts, PrintFrom, PrintScreen, Describes;
      SetVersion(g);
      ok := PutScreenDesc(g.screen);
      if !ok {
        return;
      }
      ghost var parts;
      ok, parts := PutImages(g.images, g.screen.colorMap);
      if !ok {
        return;
      }
      WriteExtensions(g.trailing);
      e.out.Write([TERMINATOR_INTRODUCER]);
      FilePrinted(g, gif89, parts);
      assert [] + (Stamp(gif89) + PrintScreen(g.screen)) == Stamp(gif89) + PrintScreen(g.screen);
    }
  }

  lemma FilePrinted(g: Memory, gif89: bool, parts: seq<Part>)
    requires Storable(g) && MapAccepted(g.screen.colorMap) && PartsFit(parts)
    ensures var written :=
        Stamp(gif89) + PrintScreen(g.screen) + PrintParts(parts) + PrintFrom(g.trailing, 0) + [TERMINATOR_INTRODUCER];
      parts != [] ==> Describes(written, Gif(g.screen, ReadBacks(parts), g.trailing))
  {
    hide PartsFit, PrintParts, PrintFrom, PrintScreen, Body, Stamp, ParseHeader, ReadBacks;
    BitsFit(g.screen.colorMap);
    BodyPrinted(parts, g.trailing);
    var body := PrintParts(parts) + PrintFrom(g.trailing, 0) + [TERMINATOR_INTRODUCER];
    ScreenPrinted(g.screen, gif89, body);
    assert Stamp(gif89) + PrintScreen(g.screen) + PrintParts(parts) + PrintFrom(g.trailing, 0) + [TERMINATOR_INTRODUCER]
        == Stamp(gif89) + PrintScreen(g.screen) + body;
  }

  lemma KeptNone(screenMap: Option<ColorMap>)
    ensures Kept([], screenMap) == []
  {
  }

  lemma KeptNext(images: seq<Saved>, screenMap: Option<ColorMap>, i: nat)
    requires i < |images| && CodeSizesFit(images[..i], screenMap)
    requires !images[i].deleted ==> CodeSize(images[i].image.desc.colorMap, screenMap) <= 8
    ensures CodeSizesFit(images[..i + 1], screenMap)
    ensures Kept(images[..i + 1], screenMap)
         == Kept(images[..i], screenMap)
            + (if images[i].deleted then [] else [ReadBack(Cut(images[i].image, screenMap))])
  {
    assert images[..i + 1][..i] == images[..i];
    forall k | 0 <= k < i
      ensures images[..i + 1][k] == images[..i][k]
    {
    }
  }

  lemma NothingWritten(p: Plan)
    requires PlanFits(p, |p.pixels|)
    ensures RowStart(0, p.w) == 0 && InRaster(|p.pixels|, p.w, p.order[..0]) && Rows(p.pixels, p.w, p.order[..0]) == []
  {
  }

  lemma Assembled(start: seq<byte>, p: Part)
    requires PartFits(p)
    ensures start + PrintFrom(p.image.extensions, 0) + [DESCRIPTOR_INTRODUCER] + PrintHead(p.image.desc)
      + [p.codeSize] + Frame(p.data)
         == start + PrintPart(p)
  {
    hide PrintFrom, PrintHead, Frame, PartFits;
  }

  lemma CodeSizeFits(own: Option<ColorMap>, screenMap: Option<ColorMap>)
    requires MapAccepted(own) && Countable(own) && MapAccepted(screenMap) && Countable(screenMap)
    ensures 2 <= CodeSize(own, screenMap) <= 8 && TableFits(own) && TableFits(screenMap)
  {
    BitsFit(own);
    BitsFit(screenMap);
  }

  lemma BitsFit(m: Option<ColorMap>)
    requires MapAccepted(m) && Countable(m)
    ensures MapBits(m, 0) <= 8 && TableFits(m)
  {
    SmallPowers();
  }

  /** Masking a stretch of a line does not change what masking all of it gives. */
  lemma MaskedAgain(a: seq<byte>, b: seq<byte>, bpp: nat, i: nat, j: nat)
    requires bpp <= 8 && i <= j <= |a| == |b| && a[..i] == b[..i] && a[j..] == b[j..] && b[i..j] == Masked(a[i..j], bpp)
    ensures Masked(a, bpp) == Masked(b, bpp) && b[i..j] == Masked(a, bpp)[i..j]
  {
    forall k | 0 <= k < |a|
      ensures Mask(a[k], bpp) == Mask(b[k], bpp)
    {
      if i <= k < j {
        assert b[k] == b[i..j][k - i] == Mask(a[i..j][k - i], bpp);
        MaskSmall(b[k], bpp);
      } else if k < i {
        assert a[k] == a[..i][k] && b[k] == b[..i][k];
      } else {
        assert a[k] == a[j..][k - j] && b[k] == b[j..][k - j];
      }
    }
  }
}
