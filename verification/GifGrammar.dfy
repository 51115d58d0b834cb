/** When a byte string is a GIF file, and what it then describes (section 17 on, of GIF89a). */
module GifGrammar {
  import opened Bits
  import opened GifFormat
  import opened Lzw
  import opened SubBlocks

  // ----- extensions

  datatype Blocks = NoBlocks | SomeBlocks(blocks: seq<seq<byte>>, rest: seq<byte>)

  function ParseBlocks(s: seq<byte>): Blocks {
    if s == [] then NoBlocks
    else if s[0] == 0 then SomeBlocks([], s[1..])
    else if |s| <= s[0] as int then NoBlocks
    else match ParseBlocks(s[1 + s[0] as int..])
      case NoBlocks => NoBlocks
      case SomeBlocks(blocks, rest) => SomeBlocks([s[1..1 + s[0] as int]] + blocks, rest)
  }

  function Continued(blocks: seq<seq<byte>>): seq<Extension> {
    if blocks == [] then [] else [Extension(CONTINUE_EXT, blocks[0])] + Continued(blocks[1..])
  }

  /** The sub-blocks of one extension: the first carries its code. */
  function Tagged(code: byte, blocks: seq<seq<byte>>): seq<Extension> {
    if blocks == [] then [] else [Extension(code, blocks[0])] + Continued(blocks[1..])
  }

  datatype Extensions = NoExtensions | SomeExtensions(list: seq<Extension>, rest: seq<byte>)

  lemma {:induction false} BlocksShorten(s: seq<byte>)
    ensures ParseBlocks(s).SomeBlocks? ==> |ParseBlocks(s).rest| < |s|
  {
    if s != [] && s[0] != 0 && |s| > s[0] as int {
      BlocksShorten(s[1 + s[0] as int..]);
    }
  }

  /** All extensions at the front of s. */
  function ParseExtensions(s: seq<byte>): Extensions
    decreases |s|
  {
    if s == [] || s[0] != EXTENSION_INTRODUCER then SomeExtensions([], s)
    else if |s| < 2 then NoExtensions
    else
      BlocksShorten(s[2..]);
      match ParseBlocks(s[2..])
      case NoBlocks => NoExtensions
      case SomeBlocks(blocks, rest) =>
        match ParseExtensions(rest)
        case NoExtensions => NoExtensions
        case SomeExtensions(list, rest') => SomeExtensions(Tagged(s[1], blocks) + list, rest')
  }

  /** What the writer makes of the sub-block at index j: its extension begins with it if it has a code
      of its own, and ends after it unless the next one continues it. */
  function PrintExtension(list: seq<Extension>, j: nat): seq<byte>
    requires j < |list| && |list[j].bytes| < 256
  {
    (if list[j].code != CONTINUE_EXT then [EXTENSION_INTRODUCER, list[j].code] else [])
    + PrintBlock(list, j)
  }

  function PrintBlock(list: seq<Extension>, j: nat): seq<byte>
    requires j < |list| && |list[j].bytes| < 256
  {
    [|list[j].bytes|] + list[j].bytes
    + (if j == |list| - 1 || list[j + 1].code != CONTINUE_EXT then [0] else [])
  }

  /** Sub-blocks that a GIF file can hold, the first with a code of its own. */
  ghost predicate Printable(list: seq<Extension>) {
    && (forall j :: 0 <= j < |list| ==> 0 < |list[j].bytes| < 256)
    && (list != [] ==> list[0].code != CONTINUE_EXT)
  }

  function PrintFrom(list: seq<Extension>, j: nat): seq<byte>
    requires j <= |list| && forall k :: 0 <= k < |list| ==> |list[k].bytes| < 256
    decreases |list| - j
  {
    if j == |list| then [] else PrintExtension(list, j) + PrintFrom(list, j + 1)
  }

  /** The end of the extension that the sub-block at index j belongs to. */
  function GroupEnd(list: seq<Extension>, j: nat): (e: nat)
    requires j < |list|
    ensures j < e <= |list|
    decreases |list| - j
  {
    if j == |list| - 1 || list[j + 1].code != CONTINUE_EXT then j + 1 else GroupEnd(list, j + 1)
  }

  /** The contents of the sub-blocks from index j to e. */
  function Bodies(list: seq<Extension>, j: nat, e: nat): seq<seq<byte>>
    requires e <= |list|
    decreases e - j
  {
    if j >= e then [] else [list[j].bytes] + Bodies(list, j + 1, e)
  }

  lemma ParseOneBlock(b: seq<byte>, rest: seq<byte>)
    requires 0 < |b| < 256
    ensures ParseBlocks([|b|] + b + rest) == match ParseBlocks(rest)
      case NoBlocks => NoBlocks
      case SomeBlocks(blocks, rest') => SomeBlocks([b] + blocks, rest')
  {
    var s := [|b|] + b + rest;
    assert s[1..1 + s[0] as int] == b && s[1 + s[0] as int..] == rest;
  }

  lemma ParseLastBlock(rest: seq<byte>)
    ensures ParseBlocks([0] + rest) == SomeBlocks([], rest)
  {
    assert ([0] + rest)[1..] == rest;
  }

  lemma {:induction false} BlocksPrinted(list: seq<Extension>, j: nat, tail: seq<byte>)
    requires j < |list| && Printable(list)
    ensures var e := GroupEnd(list, j);
      ParseBlocks(PrintBlock(list, j) + PrintFrom(list, j + 1) + tail)
        == SomeBlocks(Bodies(list, j, e), PrintFrom(list, e) + tail)
    decreases |list| - j
  {
    hide ParseBlocks, PrintFrom;
    var b := list[j].bytes;
    var more := PrintFrom(list, j + 1) + tail;
    Associate(PrintBlock(list, j), PrintFrom(list, j + 1), tail);
    if GroupEnd(list, j) == j + 1 {
      ParseLastBlock(more);
      ParseOneBlock(b, [0] + more);
      assert PrintBlock(list, j) + more == [|b|] + b + ([0] + more);
    } else {
      BlocksPrinted(list, j + 1, tail);
      PrintedGoesOn(list, j);
      var next := PrintBlock(list, j + 1) + PrintFrom(list, j + 2) + tail;
      ParseOneBlock(b, next);
      assert PrintBlock(list, j) + more == [|b|] + b + next;
    }
  }

  lemma PrintedGoesOn(list: seq<Extension>, j: nat)
    requires j + 1 < |list| && Printable(list) && list[j + 1].code == CONTINUE_EXT
    ensures PrintFrom(list, j + 1) == PrintBlock(list, j + 1) + PrintFrom(list, j + 2)
  {
    assert [] + PrintBlock(list, j + 1) == PrintBlock(list, j + 1);
  }

  lemma PrintedStarts(list: seq<Extension>, j: nat, tail: seq<byte>)
    requires j < |list| && Printable(list) && list[j].code != CONTINUE_EXT
    ensures PrintFrom(list, j) + tail
      == [EXTENSION_INTRODUCER, list[j].code] + (PrintBlock(list, j) + PrintFrom(list, j + 1) + tail)
  {
    var intro := [EXTENSION_INTRODUCER, list[j].code];
    Associate(intro, PrintBlock(list, j), PrintFrom(list, j + 1));
    Associate(intro, PrintBlock(list, j) + PrintFrom(list, j + 1), tail);
  }

  lemma {:induction false} ContinuedBodies(list: seq<Extension>, j: nat, e: nat)
    requires j <= e <= |list| && forall k :: j <= k < e ==> list[k].code == CONTINUE_EXT
    ensures Continued(Bodies(list, j, e)) == list[j..e]
    decreases e - j
  {
    if j < e {
      ContinuedBodies(list, j + 1, e);
      assert Bodies(list, j, e)[1..] == Bodies(list, j + 1, e);
      assert list[j..e] == [list[j]] + list[j + 1..e];
    }
  }

  lemma {:induction false} GroupContinues(list: seq<Extension>, j: nat)
    requires j < |list|
    ensures forall k :: j < k < GroupEnd(list, j) ==> list[k].code == CONTINUE_EXT
    ensures GroupEnd(list, j) < |list| ==> list[GroupEnd(list, j)].code != CONTINUE_EXT
    decreases |list| - j
  {
    if j < |list| - 1 && list[j + 1].code == CONTINUE_EXT {
      GroupContinues(list, j + 1);
    }
  }

  lemma GroupTagged(list: seq<Extension>, j: nat)
    requires j < |list|
    ensures Tagged(list[j].code, Bodies(list, j, GroupEnd(list, j))) == list[j..GroupEnd(list, j)]
  {
    hide GroupEnd, Continued;
    var e := GroupEnd(list, j);
    GroupContinues(list, j);
    ContinuedBodies(list, j + 1, e);
    assert Bodies(list, j, e)[1..] == Bodies(list, j + 1, e);
    assert list[j..e] == [list[j]] + list[j + 1..e];
  }

  lemma ParseOneExtension(code: byte, body: seq<byte>)
    ensures ParseExtensions([EXTENSION_INTRODUCER, code] + body) == match ParseBlocks(body)
      case NoBlocks => NoExtensions
      case SomeBlocks(blocks, rest) =>
        match ParseExtensions(rest)
        case NoExtensions => NoExtensions
        case SomeExtensions(list, rest') => SomeExtensions(Tagged(code, blocks) + list, rest')
  {
    assert ([EXTENSION_INTRODUCER, code] + body)[2..] == body;
  }

  lemma NothingPrinted(list: seq<Extension>, tail: seq<byte>)
    requires Printable(list) && tail != [] && tail[0] != EXTENSION_INTRODUCER
    ensures ParseExtensions(PrintFrom(list, |list|) + tail) == SomeExtensions([], tail)
  {
    assert [] + tail == tail;
  }

  /** Reading back the extensions that were written. */
  lemma {:induction false} ExtensionsPrinted(list: seq<Extension>, j: nat, tail: seq<byte>)
    requires j <= |list| && Printable(list) && (j < |list| ==> list[j].code != CONTINUE_EXT)
    requires tail != [] && tail[0] != EXTENSION_INTRODUCER
    ensures ParseExtensions(PrintFrom(list, j) + tail) == SomeExtensions(list[j..], tail)
    decreases |list| - j
  {
    hide ParseExtensions, ParseBlocks, Tagged, PrintFrom, PrintBlock;
    if j == |list| {
      NothingPrinted(list, tail);
    } else {
      var e := GroupEnd(list, j);
      PrintedStarts(list, j, tail);
      ParseOneExtension(list[j].code, PrintBlock(list, j) + PrintFrom(list, j + 1) + tail);
      BlocksPrinted(list, j, tail);
      GroupContinues(list, j);
      GroupTagged(list, j);
      ExtensionsPrinted(list, e, tail);
      assert list[j..e] + list[e..] == list[j..];
    }
  }

  lemma NoExtension(s: seq<byte>)
    requires s != [] ==> s[0] != 0x21
    ensures ParseExtensions(s) == SomeExtensions([], s)
  {
  }

  lemma NoneContinued()
    ensures Continued([]) == []
  {
  }

  /** Extensions of one and of two sub-blocks byte by byte (section 15). */
  lemma ExtensionOfOne(code: byte, a: seq<byte>, tail: seq<byte>)
    requires 0 < |a| < 256 && (tail != [] ==> tail[0] != 0x21)
    ensures ParseExtensions([0x21, code, |a|] + a + [0] + tail) == SomeExtensions([Extension(code, a)], tail)
  {
    hide ParseBlocks, ParseExtensions, Tagged;
    ParseLastBlock(tail);
    ParseOneBlock(a, [0] + tail);
    ParseOneExtension(code, [|a|] + a + ([0] + tail));
    NoExtension(tail);
    TaggedBlocks(code, a, a);
    JoinOne([0x21, code], [|a|], a, [0] + tail);
    assert [0x21, code, |a|] + a + [0] + tail == [0x21, code] + [|a|] + a + ([0] + tail);
  }

  lemma ExtensionOfTwo(code: byte, a: seq<byte>, b: seq<byte>, tail: seq<byte>)
    requires 0 < |a| < 256 && 0 < |b| < 256 && (tail != [] ==> tail[0] != 0x21)
    ensures ParseExtensions([0x21, code, |a|] + a + [|b|] + b + [0] + tail)
         == SomeExtensions([Extension(code, a), Extension(0, b)], tail)
  {
    hide ParseBlocks, ParseExtensions, Tagged;
    var rest := [|b|] + b + ([0] + tail);
    ParseLastBlock(tail);
    ParseOneBlock(b, [0] + tail);
    ParseOneBlock(a, rest);
    ParseOneExtension(code, [|a|] + a + rest);
    NoExtension(tail);
    TaggedBlocks(code, a, b);
    JoinOne([0x21, code], [|a|], a, rest);
    JoinTwo([0x21, code, |a|] + a, [|b|], b, tail);
    assert [0x21, code] + [|a|] == [0x21, code, |a|];
    assert [a] + ([b] + []) == [a, b];
  }

  lemma TaggedBlocks(code: byte, a: seq<byte>, b: seq<byte>)
    ensures Tagged(code, [a] + []) == [Extension(code, a)]
    ensures Tagged(code, [a, b]) == [Extension(code, a), Extension(0, b)]
    ensures [Extension(code, a)] + [] == [Extension(code, a)]
    ensures [Extension(code, a), Extension(0, b)] + [] == [Extension(code, a), Extension(0, b)]
  {
    assert [a][1..] == [] && [a, b][1..] == [b] && [b][1..] == [];
    assert Continued([b]) == [Extension(0, b)] + Continued([]);
  }

  lemma JoinOne(front: seq<byte>, size: seq<byte>, a: seq<byte>, rest: seq<byte>)
    ensures front + (size + a + rest) == front + size + a + rest
  {
  }

  lemma JoinTwo(front: seq<byte>, size: seq<byte>, b: seq<byte>, tail: seq<byte>)
    ensures front + (size + b + ([0] + tail)) == front + size + b + [0] + tail
  {
  }

  // ----- colour tables

  function Colors(s: seq<byte>, n: nat): (colors: seq<Color>)
    requires 3 * n <= |s|
    ensures |colors| == n
  {
    if n == 0 then [] else Colors(s, n - 1) + [ColorAt(s, n - 1)]
  }

  lemma {:induction false} ColorsPrinted(colors: seq<Color>, tail: seq<byte>, n: nat)
    requires n <= |colors|
    ensures Colors(PrintColors(colors) + tail, n) == colors[..n]
  {
    if n > 0 {
      ColorsPrinted(colors, tail, n - 1);
      PrintedColor(colors, tail, n - 1);
    }
  }

  datatype Table = NoTable | SomeTable(colorMap: Option<ColorMap>, rest: seq<byte>)

  /** The colour table of 2^bits colours that a flag may announce. */
  function ParseTable(s: seq<byte>, present: bool, bits: nat, sort: bool): Table {
    if !present then SomeTable(None, s)
    else if |s| < 3 * Pow2(bits) then NoTable
    else SomeTable(Some(ColorMap(Colors(s, Pow2(bits)), sort)), s[3 * Pow2(bits)..])
  }

  function PrintTable(m: Option<ColorMap>): seq<byte> {
    if m.Some? then PrintColors(m.value.colors) else []
  }

  /** The n colours at index `at`: red, green and blue of each. */
  ghost predicate HasColors(s: seq<byte>, at: nat, n: nat, colors: seq<Color>) {
    && |colors| == n && at + 3 * n <= |s|
    && forall i {:trigger colors[i]} :: 0 <= i < n ==>
      colors[i].red == s[at + 3 * i] && colors[i].green == s[at + 3 * i + 1] && colors[i].blue == s[at + 3 * i + 2]
  }

  lemma {:induction false} ColorsInOrder(s: seq<byte>, at: nat, n: nat)
    requires at + 3 * n <= |s|
    ensures HasColors(s, at, n, Colors(s[at..], n))
  {
    if n > 0 {
      ColorsInOrder(s, at, n - 1);
    }
  }

  lemma TableBytes(s: seq<byte>, at: nat, present: bool, bits: nat, sort: bool)
    requires at <= |s|
    ensures var t := ParseTable(s[at..], present, bits, sort);
      && (t.SomeTable? <==> present ==> at + 3 * Pow2(bits) <= |s|)
      && (t.SomeTable? ==>
        && (t.colorMap.Some? <==> present) && t.rest == s[if present then at + 3 * Pow2(bits) else at..]
        && (present ==> t.colorMap.value.sortFlag == sort && HasColors(s, at, Pow2(bits), t.colorMap.value.colors)))
  {
    hide Colors, HasColors, Pow2;
    if present && at + 3 * Pow2(bits) <= |s| {
      ColorsInOrder(s, at, Pow2(bits));
      assert s[at..][3 * Pow2(bits)..] == s[at + 3 * Pow2(bits)..];
    }
  }

  ghost predicate TableFits(m: Option<ColorMap>) { m.Some? ==> MapFits(m.value) }

  lemma TablePrinted(m: Option<ColorMap>, tail: seq<byte>, sort: bool)
    requires TableFits(m)
    ensures ParseTable(PrintTable(m) + tail, m.Some?, MapBits(m, 0), sort)
         == SomeTable(if m.Some? then Some(m.value.(sortFlag := sort)) else None, tail)
  {
    if m.Some? {
      var colors := m.value.colors;
      ColorsPrinted(colors, tail, |colors|);
      assert (PrintColors(colors) + tail)[3 * |colors|..] == tail;
      assert colors[..|colors|] == colors;
    } else {
      assert [] + tail == tail;
    }
  }

  // ----- images

  datatype Head = NoHead | SomeHead(desc: ImageDesc, rest: seq<byte>)

  /** An image descriptor, after its separator. */
  function ParseHead(s: seq<byte>): Head {
    if |s| < 9 then NoHead
    else match ParseTable(s[9..], s[8] >= 0x80, s[8] % 8 + 1, false)
      case NoTable => NoHead
      case SomeTable(colorMap, rest) =>
        SomeHead(ImageDesc(Word(s[0], s[1]), Word(s[2], s[3]), Word(s[4], s[5]), Word(s[6], s[7]),
                           s[8] / 0x40 % 2 == 1, colorMap), rest)
  }

  function Flags(d: ImageDesc): byte {
    (if d.colorMap.Some? then 0x80 else 0) + (if d.interlace then 0x40 else 0)
    + (if d.colorMap.Some? then (BitSize(|d.colorMap.value.colors|) - 1) % 8 else 0)
  }

  function PrintHead(d: ImageDesc): seq<byte> {
    PrintWord(d.left) + PrintWord(d.top) + PrintWord(d.width) + PrintWord(d.height) + [Flags(d)]
    + PrintTable(d.colorMap)
  }

  /** Sizes that fit a descriptor. */
  ghost predicate DescFits(d: ImageDesc) {
    && d.left < 0x1_0000 && d.top < 0x1_0000 && 0 < d.width < 0x1_0000 && 0 < d.height < 0x1_0000
    && TableFits(d.colorMap)
  }

  /** What is read back: an image's own table does not keep its sort flag. */
  function Unsorted(d: ImageDesc): ImageDesc {
    if d.colorMap.Some? then d.(colorMap := Some(d.colorMap.value.(sortFlag := false))) else d
  }

  lemma FlagsRead(d: ImageDesc)
    requires TableFits(d.colorMap)
    ensures Flags(d) >= 0x80 <==> d.colorMap.Some?
    ensures d.colorMap.Some? ==> Flags(d) % 8 + 1 == MapBits(d.colorMap, 0)
    ensures Flags(d) / 0x40 % 2 == 1 <==> d.interlace
    ensures Flags(d) / 8 % 8 == 0 && (d.colorMap.None? ==> Flags(d) % 8 == 0)
  {
    hide BitSizeFrom, Pow2;
  }

  lemma HeadPrinted(d: ImageDesc, tail: seq<byte>)
    requires DescFits(d)
    ensures ParseHead(PrintHead(d) + tail) == SomeHead(Unsorted(d), tail)
  {
    hide ParseTable, PrintTable, Flags, MapBits, Word, LoByte, HiByte;
    var s := PrintHead(d) + tail;
    FlagsRead(d);
    assert s[9..] == PrintTable(d.colorMap) + tail;
    TablePrinted(d.colorMap, tail, false);
    NoTableParsed(tail, s[8] % 8 + 1, false);
    assert [] + tail == tail;
  }

  lemma NoTableParsed(s: seq<byte>, bits: nat, sort: bool)
    ensures ParseTable(s, false, bits, sort) == SomeTable(None, s)
    ensures PrintTable(None) == []
  {
  }

  /** The image whose descriptor s begins with, after the separator, is `image`: its pixel stream begins
      with the rows of the raster in their order. */
  ghost predicate ImageAt(s: seq<byte>, image: Image) {
    var d := image.desc;
    && InRaster(|image.raster|, d.width, RowOrder(d.interlace, d.height))
    && HasRaster(image) && d.width > 0 && d.height > 0
    && ParseHead(s).SomeHead? && ParseHead(s).desc == d
    && var t := ParseHead(s).rest;
    && t != [] && t[0] <= 8 && After(t[1..]).Found?
    && Rows(image.raster, d.width, RowOrder(d.interlace, d.height))
         <= Decode(Start(t[0]), ByteBits(Data(t[1..]))).pixels
  }

  /** So every pixel of an image is at its place in the stream. */
  lemma PixelsInPlace(s: seq<byte>, image: Image)
    requires ImageAt(s, image)
    ensures var t := ParseHead(s).rest;
      InPlace(image.raster, Decode(Start(t[0]), ByteBits(Data(t[1..]))).pixels, image.desc.interlace,
              image.desc.width, image.desc.height)
  {
    hide Decode, Data, After, Rows, RowOrder, InPlace;
    var t := ParseHead(s).rest;
    RowsInPlace(image.raster, Decode(Start(t[0]), ByteBits(Data(t[1..]))).pixels, image.desc.interlace,
                image.desc.width, image.desc.height);
  }

  /** An image descriptor byte by byte (section 20): four little-endian words, a byte of flags, and three bytes for each
      colour of a table. */
  lemma HeadBytes(s: seq<byte>)
    ensures ParseHead(s).SomeHead? <==> |s| >= 9 && (s[8] >= 0x80 ==> |s| >= 9 + 3 * Pow2(s[8] % 8 + 1))
    ensures ParseHead(s).SomeHead? ==>
      var d, n := ParseHead(s).desc, Pow2(s[8] % 8 + 1);
      && d.left == s[0] + 0x100 * s[1] as nat && d.top == s[2] + 0x100 * s[3] as nat
      && d.width == s[4] + 0x100 * s[5] as nat && d.height == s[6] + 0x100 * s[7] as nat
      && (d.interlace <==> s[8] / 0x40 % 2 == 1) && (d.colorMap.Some? <==> s[8] >= 0x80)
      && (d.colorMap.Some? ==> HasColors(s, 9, n, d.colorMap.value.colors))
      && ParseHead(s).rest == s[if s[8] >= 0x80 then 9 + 3 * n else 9..]
  {
    hide ParseTable, HasColors, Pow2;
    if |s| >= 9 {
      TableBytes(s, 9, s[8] >= 0x80, s[8] % 8 + 1, false);
    }
  }

  function AfterImage(s: seq<byte>): seq<byte>
    requires ParseHead(s).SomeHead? && ParseHead(s).rest != [] && After(ParseHead(s).rest[1..]).Found?
  {
    After(ParseHead(s).rest[1..]).rest
  }

  /** s is the rest of a file in which `images` are to come, `pending` extensions having been read for
      the first of them, and `trailing` extensions come after the last. */
  ghost predicate Body(pending: seq<Extension>, s: seq<byte>, images: seq<Image>, trailing: seq<Extension>)
    decreases |images|
  {
    && ParseExtensions(s).SomeExtensions?
    && var list, rest := pending + ParseExtensions(s).list, ParseExtensions(s).rest;
    && rest != []
    && if images == [] then rest[0] == TERMINATOR_INTRODUCER && list == trailing
       else
         && rest[0] == DESCRIPTOR_INTRODUCER && list == images[0].extensions && ImageAt(rest[1..], images[0])
         && Body([], AfterImage(rest[1..]), images[1..], trailing)
  }

  // ----- the file

  datatype Header = NoHeader | SomeHeader(screen: Screen, rest: seq<byte>)

  const STAMP: seq<byte> := [0x47, 0x49, 0x46]  // "GIF"

  /** The screen descriptor, after the six bytes of the stamp. */
  function ParseScreen(s: seq<byte>): Header {
    if |s| < 7 then NoHeader
    else match ParseTable(s[7..], s[4] >= 0x80, s[4] % 8 + 1, s[4] / 8 % 2 == 1)
      case NoTable => NoHeader
      case SomeTable(colorMap, rest) =>
        SomeHeader(Screen(Word(s[0], s[1]), Word(s[2], s[3]), s[4] / 0x10 % 8 + 1, s[5], s[6], colorMap), rest)
  }

  function ParseHeader(s: seq<byte>): Header {
    if |s| < 6 || s[..3] != STAMP then NoHeader else ParseScreen(s[6..])
  }

  /** The header of a file byte by byte (sections 17 to 19). */
  lemma HeaderBytes(s: seq<byte>)
    ensures ParseHeader(s).SomeHeader? <==>
      && |s| >= 13 && s[0] == 0x47 && s[1] == 0x49 && s[2] == 0x46
      && (s[10] >= 0x80 ==> |s| >= 13 + 3 * Pow2(s[10] % 8 + 1))
    ensures ParseHeader(s).SomeHeader? ==>
      var screen, n := ParseHeader(s).screen, Pow2(s[10] % 8 + 1);
      && screen.width == s[6] + 0x100 * s[7] as nat && screen.height == s[8] + 0x100 * s[9] as nat
      && screen.colorResolution == s[10] / 0x10 % 8 + 1 && screen.background == s[11] && screen.aspect == s[12]
      && (screen.colorMap.Some? <==> s[10] >= 0x80)
      && (screen.colorMap.Some? ==>
        && (screen.colorMap.value.sortFlag <==> s[10] / 8 % 2 == 1)
        && HasColors(s, 13, n, screen.colorMap.value.colors))
      && ParseHeader(s).rest == s[if s[10] >= 0x80 then 13 + 3 * n else 13..]
  {
    hide ParseTable, HasColors, Pow2;
    if |s| >= 13 {
      TableBytes(s, 13, s[10] >= 0x80, s[10] % 8 + 1, s[10] / 8 % 2 == 1);
      assert s[6..][7..] == s[13..];
    }
    if |s| >= 3 {
      assert s[..3] == [s[0], s[1], s[2]];
    }
  }

  /** What follows the extensions: 0x2c and an image, or 0x3b, which ends the file. */
  lemma BodyBytes(pending: seq<Extension>, s: seq<byte>, images: seq<Image>, trailing: seq<Extension>)
    requires s != [] && s[0] != 0x21
    ensures Body(pending, s, [], trailing) <==> s[0] == 0x3b && trailing == pending
    ensures images != [] ==>
      (Body(pending, s, images, trailing) <==>
        && s[0] == 0x2c && images[0].extensions == pending && ImageAt(s[1..], images[0])
        && Body([], AfterImage(s[1..]), images[1..], trailing))
  {
    hide ImageAt, AfterImage;
    NoExtension(s);
    assert pending + [] == pending;
  }

  /** The byte string is a GIF file of this content. */
  ghost predicate Describes(s: seq<byte>, gif: Gif) {
    && ParseHeader(s).SomeHeader? && ParseHeader(s).screen == gif.screen
    && gif.images != [] && Body([], ParseHeader(s).rest, gif.images, gif.trailing)
  }
}
