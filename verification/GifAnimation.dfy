/** Playing a GIF animation (FrameSequence_gif.cpp): drawing any frame on top of an earlier one. */
module GifAnimation {
  import opened Bits
  import opened GifFormat

  const DISPOSE_BACKGROUND: nat := 2
  const DISPOSE_PREVIOUS: nat := 3
  const NO_TRANSPARENT_COLOR: int := -1
  const TRANSPARENT: nat := 0

  // ----- frames

  /** A graphics control block. */
  datatype Control = Control(disposal: nat, delay: nat, transparent: int)

  const UNSPECIFIED := Control(0, 0, NO_TRANSPARENT_COLOR)

  /** DGifExtensionToGCB */
  function ToControl(bytes: seq<byte>): Control {
    if |bytes| != 4 then UNSPECIFIED
    else Control(bytes[0] / 4 % 8, Word(bytes[1], bytes[2]),
                 if bytes[0] % 2 == 1 then bytes[3] as int else NO_TRANSPARENT_COLOR)
  }

  /** EGifGCBToExtension */
  function FromControl(c: Control, userInput: bool): seq<byte>
    requires c.disposal < 8 && c.delay < 0x1_0000 && -1 <= c.transparent < 0x100
  {
    [(if c.transparent == NO_TRANSPARENT_COLOR then 0 else 1) + (if userInput then 2 else 0) + c.disposal * 4,
     LoByte(c.delay), HiByte(c.delay), if c.transparent < 0 then 0xff else c.transparent]
  }

  /** A graphics control block is read back, whatever it says. */
  lemma ControlPrinted(c: Control, userInput: bool)
    requires c.disposal < 8 && c.delay < 0x1_0000 && -1 <= c.transparent < 0x100
    ensures ToControl(FromControl(c, userInput)) == c
  {
    hide LoByte, HiByte, Word;
    assert PrintWord(c.delay) == [LoByte(c.delay), HiByte(c.delay)];
    FlagsApart(c.disposal, if userInput then 1 else 0, if c.transparent == NO_TRANSPARENT_COLOR then 0 else 1);
  }

  lemma FlagsApart(disposal: nat, input: nat, transparent: nat)
    requires disposal < 8 && input < 2 && transparent < 2
    ensures var b := transparent + 2 * input + disposal * 4; b / 4 % 8 == disposal && b % 2 == transparent
  {
    var b := transparent + 2 * input + disposal * 4;
    assert b / 4 == disposal;
    assert b == 2 * (input + disposal * 2) + transparent;
  }

  /** The four fields of a graphics control extension (section 23 of GIF89a), and what any other length is taken for. */
  lemma ControlFields(flags: byte, lo: byte, hi: byte, index: byte, rest: seq<byte>)
    ensures var c := ToControl([flags, lo, hi, index]);
      && c.disposal == flags / 4 % 8 && c.delay == lo as nat + 0x100 * hi as nat
      && c.transparent == if flags % 2 == 1 then index as int else -1
    ensures |rest| != 4 ==> ToControl(rest) == Control(0, 0, -1)
  {
  }

  /** DGifSavedExtensionToGCB: the first graphics control extension counts. */
  function ControlOf(list: seq<Extension>): Control {
    if list == [] then UNSPECIFIED
    else if list[0].code == GRAPHICS_EXT then ToControl(list[0].bytes)
    else ControlOf(list[1..])
  }

  lemma {:induction false} FirstControlCounts(before: seq<Extension>, bytes: seq<byte>, after: seq<Extension>)
    requires forall j :: 0 <= j < |before| ==> before[j].code != 0xf9
    ensures ControlOf(before + [Extension(0xf9, bytes)] + after) == ToControl(bytes)
    ensures ControlOf(before) == Control(0, 0, -1)
  {
    hide ToControl;
    var list := before + [Extension(0xf9, bytes)] + after;
    if before != [] {
      FirstControlCounts(before[1..], bytes, after);
      assert list[1..] == before[1..] + [Extension(0xf9, bytes)] + after;
    }
  }

  predicate WillBeCleared(c: Control) { c.disposal == DISPOSE_BACKGROUND || c.disposal == DISPOSE_PREVIOUS }

  /** Whether the area of `target` covers the area of `covered`. */
  predicate CheckIfCover(target: ImageDesc, covered: ImageDesc) {
    && target.left <= covered.left && covered.left + covered.width <= target.left + target.width
    && target.top <= covered.top && covered.top + covered.height <= target.top + target.height
  }

  /** That is so exactly if every pixel of the one is in the other. */
  lemma CoverHasAll(target: ImageDesc, covered: ImageDesc)
    requires covered.width > 0 && covered.height > 0
    ensures CheckIfCover(target, covered) <==> forall x, y :: InArea(covered, x, y) ==> InArea(target, x, y)
  {
    var right, bottom := covered.left + covered.width - 1, covered.top + covered.height - 1;
    assert InArea(covered, covered.left, covered.top) && InArea(covered, right, bottom);
  }

  predicate InArea(d: ImageDesc, x: int, y: int) {
    d.left <= x < d.left + d.width && d.top <= y < d.top + d.height
  }

  /** How much of an extent is left on a canvas of size max; it may be negative. */
  function CopySize(start: nat, size: nat, max: nat): int {
    if start + size > max then max - start else size
  }

  /** ARGB_TO_COLOR8888 with full alpha. */
  function Opaque(c: Color): nat { 0xff00_0000 + c.blue as nat * 0x1_0000 + c.green as nat * 0x100 + c.red as nat }

  /** The four bytes of a pixel that a colour has been drawn on. */
  predicate HasColor(v: nat, c: Color) {
    && v % 0x100 == c.red as nat && v / 0x100 % 0x100 == c.green as nat
    && v / 0x1_0000 % 0x100 == c.blue as nat && v / 0x100_0000 == 0xff
  }

  lemma OpaqueBytes(c: Color)
    ensures HasColor(Opaque(c), c)
  {
    var v := Opaque(c);
    assert v / 0x100 == 0xff_0000 + c.blue as nat * 0x100 + c.green as nat;
    assert v / 0x1_0000 == 0xff00 + c.blue as nat;
    assert v / 0x100_0000 == 0xff;
  }

  // ----- what is shown: one pixel at a time

  /** A file as DGifSlurp leaves it. */
  ghost predicate Playable(g: Gif) {
    && g.images != []
    && forall i :: 0 <= i < |g.images| ==> HasRaster(g.images[i])
  }

  function ControlAt(g: Gif, i: nat): Control
    requires i < |g.images|
  {
    ControlOf(g.images[i].extensions)
  }

  predicate Cleared(g: Gif, i: nat)
    requires i < |g.images|
  {
    WillBeCleared(ControlAt(g, i))
  }

  /** Frame i hides all of the frame before it. */
  predicate Covers(g: Gif, i: nat)
    requires 0 < i < |g.images|
  {
    ControlAt(g, i).transparent == NO_TRANSPARENT_COLOR && CheckIfCover(g.images[i].desc, g.images[i - 1].desc)
  }

  predicate OnCanvas(g: Gif, x: int, y: int) { 0 <= x < g.screen.width && 0 <= y < g.screen.height }

  /** The pixel is in the part of the frame that lies on the canvas. */
  predicate InFrame(g: Gif, i: nat, x: int, y: int)
    requires i < |g.images|
  {
    var d := g.images[i].desc;
    OnCanvas(g, x, y) && d.left <= x < d.left + d.width && d.top <= y < d.top + d.height
  }

  function MapOf(g: Gif, i: nat): Option<ColorMap>
    requires i < |g.images|
  {
    if g.images[i].desc.colorMap.Some? then g.images[i].desc.colorMap else g.screen.colorMap
  }

  function ColorOf(m: ColorMap, index: byte, transparent: int): Option<nat> {
    if index as int != transparent && index as int < |m.colors| then Some(Opaque(m.colors[index])) else None
  }

  lemma InRasterAt(d: ImageDesc, x: int, y: int)
    requires d.left <= x < d.left + d.width && d.top <= y < d.top + d.height
    ensures RowStart(y - d.top, d.width) + (x - d.left) < RowStart(d.height, d.width)
  {
    RowFits(y - d.top, d.height, d.width);
  }

  /** What frame i paints on a pixel: nothing where it is transparent, or has no colour for it. */
  function Paint(g: Gif, i: nat, x: int, y: int): Option<nat>
    requires i < |g.images| && Playable(g)
  {
    if !InFrame(g, i, x, y) || MapOf(g, i).None? then None
    else
      var d := g.images[i].desc;
      InRasterAt(d, x, y);
      ColorOf(MapOf(g, i).value, g.images[i].raster[RowStart(y - d.top, d.width) + (x - d.left)],
              ControlAt(g, i).transparent)
  }

  /** A pixel in the area of frame i has the colour that the frame's map, or else the screen's, gives the index there,
      if that is in the map and not the transparent one. */
  ghost predicate HasIndexColor(g: Gif, i: nat, x: int, y: int, v: nat)
    requires i < |g.images| && InArea(g.images[i].desc, x, y)
  {
    var image := g.images[i];
    var colors := if image.desc.colorMap.Some? then image.desc.colorMap else g.screen.colorMap;
    var at := (y - image.desc.top) * image.desc.width + (x - image.desc.left);
    0 <= at < |image.raster| && colors.Some? && image.raster[at] as int < |colors.value.colors|
    && image.raster[at] as int != ControlAt(g, i).transparent ==>
      HasColor(v, colors.value.colors[image.raster[at]])
  }

  lemma PaintHasIndexColor(g: Gif, i: nat, x: int, y: int, below: nat)
    requires i < |g.images| && Playable(g) && InArea(g.images[i].desc, x, y) && OnCanvas(g, x, y)
    ensures HasIndexColor(g, i, x, y, Over(Paint(g, i, x, y), below))
  {
    hide Opaque, HasColor, ControlOf;
    var m, d := MapOf(g, i), g.images[i].desc;
    var at := (y - d.top) * d.width + (x - d.left);
    if m.Some? && 0 <= at < |g.images[i].raster| && g.images[i].raster[at] as int < |m.value.colors| {
      OpaqueBytes(m.value.colors[g.images[i].raster[at]]);
    }
  }

  function Over(p: Option<nat>, below: nat): nat {
    match p
    case Some(c) => c
    case None => below
  }

  /** The last frame before i that stays, or -1. */
  function LastUncleared(g: Gif, i: nat): (k: int)
    requires i <= |g.images|
    ensures -1 <= k < i && (k >= 0 ==> !Cleared(g, k)) && forall j: nat :: k < j < i ==> Cleared(g, j)
  {
    if i == 0 then -1 else if !Cleared(g, i - 1) then i - 1 else LastUncleared(g, i - 1)
  }

  /** The frame whose canvas comes back when frame i is disposed of, or -1. */
  function Restoring(g: Gif, i: nat): (k: int)
    requires i < |g.images|
    ensures -1 <= k < i
  {
    if ControlAt(g, i).disposal == DISPOSE_PREVIOUS then LastUncleared(g, i) else -1
  }

  function BackgroundColor(g: Gif): nat
    requires g.images != []
    requires g.screen.colorMap.Some? ==> g.screen.background as int < |g.screen.colorMap.value.colors|
  {
    if g.screen.colorMap.Some? && ControlAt(g, 0).transparent == NO_TRANSPARENT_COLOR
    then Opaque(g.screen.colorMap.value.colors[g.screen.background]) else TRANSPARENT
  }

  /** The pixel after frame i has been drawn, if every frame from the first on is drawn, */
  ghost function Shown(g: Gif, bg: nat, i: nat, x: int, y: int): nat
    requires i < |g.images| && Playable(g)
    decreases i, 1
  {
    Over(Paint(g, i, x, y), Before(g, bg, i, x, y))
  }

  /** and just before that, when the frame before has been disposed of. */
  ghost function Before(g: Gif, bg: nat, i: nat, x: int, y: int): nat
    requires i < |g.images| && Playable(g)
    decreases i, 0
  {
    if i == 0 then bg
    else if Cleared(g, i - 1) && !Covers(g, i) then
      if ControlAt(g, i - 1).disposal == DISPOSE_BACKGROUND then
        if InFrame(g, i - 1, x, y) then TRANSPARENT else Shown(g, bg, i - 1, x, y)
      else if Restoring(g, i - 1) >= 0 then Shown(g, bg, Restoring(g, i - 1), x, y)
      else Shown(g, bg, i - 1, x, y)
    else Shown(g, bg, i - 1, x, y)
  }

  ghost predicate LastStaying(g: Gif, i: nat, k: nat)
    requires i <= |g.images|
  {
    && k < i && ControlAt(g, k).disposal !in {2, 3}
    && forall j :: k < j < i ==> ControlAt(g, j).disposal in {2, 3}
  }

  lemma LastStayingIs(g: Gif, i: nat)
    requires i <= |g.images|
    ensures var k := LastUncleared(g, i);
      (k >= 0 ==> LastStaying(g, i, k)) && forall j :: LastStaying(g, i, j) ==> k == j
  {
    hide ControlAt;
    var k := LastUncleared(g, i);
    assert forall j :: 0 <= j < i ==> (Cleared(g, j) <==> ControlAt(g, j).disposal in {2, 3});
  }

  /** What frame i leaves behind: its own canvas if it is covered by the next one; else nothing in its area for disposal
      2, the canvas of the last frame that stays for disposal 3, and its own canvas for any other. */
  lemma LeftBehind(g: Gif, bg: nat, i: nat, x: int, y: int)
    requires i + 1 < |g.images| && Playable(g) && OnCanvas(g, x, y)
    ensures Covers(g, i + 1) ==> Before(g, bg, i + 1, x, y) == Shown(g, bg, i, x, y)
    ensures var disposal, left := ControlAt(g, i).disposal, Before(g, bg, i + 1, x, y);
      !Covers(g, i + 1) ==>
      && (disposal == 2 ==> left == if InArea(g.images[i].desc, x, y) then 0 else Shown(g, bg, i, x, y))
      && (disposal == 3 ==> forall k :: LastStaying(g, i, k) ==> left == Shown(g, bg, k, x, y))
      && (disposal == 3 && !(exists k :: LastStaying(g, i, k)) ==> left == Shown(g, bg, i, x, y))
      && (disposal !in {2, 3} ==> left == Shown(g, bg, i, x, y))
  {
    hide Paint, ControlOf, LastUncleared, LastStaying, Playable, Shown, Covers;
    LastStayingIs(g, i);
  }

  /** What is enough for path independence: there is a canvas to restore wherever one is restored, and a frame that
      counts as covering the one before it does paint all of it. */
  ghost predicate WellMade(g: Gif)
    requires Playable(g)
  {
    forall i :: 0 < i < |g.images| && Cleared(g, i - 1) ==>
      if Covers(g, i) then CoversReally(g, i)
      else ControlAt(g, i - 1).disposal == DISPOSE_PREVIOUS ==> Restoring(g, i - 1) >= 0
  }

  ghost predicate CoversReally(g: Gif, i: nat)
    requires 0 < i < |g.images| && Playable(g)
  {
    forall x, y :: InFrame(g, i - 1, x, y) ==> Paint(g, i, x, y).Some?
  }

  lemma PaintedOver(g: Gif, i: nat, x: int, y: int)
    requires Playable(g) && WellMade(g) && 0 < i < |g.images|
    ensures Cleared(g, i - 1) && Covers(g, i) && InFrame(g, i - 1, x, y) ==> Paint(g, i, x, y).Some?
  {
    hide Paint, ControlOf, LastUncleared, Covers;
    assert Covers(g, i) && Cleared(g, i - 1) ==> CoversReally(g, i);
  }

  /** The last uncleared frame before m is also that of all cleared frames between. */
  lemma RestoringIsLast(g: Gif, m: nat, k: nat)
    requires k < m < |g.images| && Restoring(g, m) >= 0 && !Cleared(g, k)
    ensures Restoring(g, m) >= k
  {
  }

  // ----- the standard

  /** The pixel after frame i has been drawn as section 23 of GIF89a has it: "restore to previous" goes back to
      what was there before the frame, whatever that was, and nothing is skipped. */
  ghost function Standard(g: Gif, bg: nat, i: nat, x: int, y: int): nat
    requires i < |g.images| && Playable(g)
    decreases i, 1
  {
    Over(Paint(g, i, x, y), StandardBefore(g, bg, i, x, y))
  }

  ghost function StandardBefore(g: Gif, bg: nat, i: nat, x: int, y: int): nat
    requires i < |g.images| && Playable(g)
    decreases i, 0
  {
    if i == 0 then bg
    else if ControlAt(g, i - 1).disposal == DISPOSE_BACKGROUND && InFrame(g, i - 1, x, y) then TRANSPARENT
    else if ControlAt(g, i - 1).disposal == DISPOSE_PREVIOUS then StandardBefore(g, bg, i - 1, x, y)
    else Standard(g, bg, i - 1, x, y)
  }

  /** Whether some frame between has been disposed of to the background at the pixel. */
  ghost predicate BackgroundBetween(g: Gif, from: int, to: nat, x: int, y: int)
    requires to <= |g.images|
  {
    exists j: nat :: from < j < to && ControlAt(g, j).disposal == DISPOSE_BACKGROUND && InFrame(g, j, x, y)
  }

  /** What the standard restores before frame i, if it has shown the same until then: the canvas of the last frame that
      stays, or the background where one has been left behind since. */
  ghost function Canvas(g: Gif, bg: nat, i: nat, x: int, y: int): nat
    requires i < |g.images| && Playable(g)
  {
    var k := LastUncleared(g, i);
    if BackgroundBetween(g, k, i, x, y) then TRANSPARENT else if k >= 0 then Shown(g, bg, k, x, y) else bg
  }

  /** Where frame m + 1 lets the pixel through, what the disposal of frame m has left there is what the standard has. */
  ghost predicate AgreesAt(g: Gif, bg: nat, m: nat, x: int, y: int)
    requires m < |g.images| && Playable(g)
  {
    m + 1 < |g.images| && Paint(g, m + 1, x, y).None? ==>
      if ControlAt(g, m).disposal == DISPOSE_PREVIOUS then
        if Covers(g, m + 1) || Restoring(g, m) < 0 then Shown(g, bg, m, x, y) == Canvas(g, bg, m, x, y)
        else BackgroundBetween(g, Restoring(g, m), m, x, y) ==> Shown(g, bg, Restoring(g, m), x, y) == TRANSPARENT
      else ControlAt(g, m).disposal == DISPOSE_BACKGROUND && InFrame(g, m, x, y) && Covers(g, m + 1) ==>
        Shown(g, bg, m, x, y) == TRANSPARENT
  }

  /** In the standard, the canvas before a frame is that of the last frame that stays, or transparent. */
  lemma {:induction false} StandardBetween(g: Gif, bg: nat, i: nat, x: int, y: int)
    requires i < |g.images| && Playable(g)
    ensures var k := LastUncleared(g, i);
      StandardBefore(g, bg, i, x, y) == if BackgroundBetween(g, k, i, x, y) then TRANSPARENT
        else if k >= 0 then Standard(g, bg, k, x, y) else bg
  {
    hide BackgroundBetween, Paint, ControlOf;
    var k := LastUncleared(g, i);
    if i == 0 {
      NoFrameBetween(g, x, y);
    } else {
      OneMoreBetween(g, k, i - 1, x, y);
      NotPainted(g, i - 1, x, y);
      if k < i - 1 {
        StandardBetween(g, bg, i - 1, x, y);
      }
    }
  }

  lemma NoFrameBetween(g: Gif, x: int, y: int)
    ensures !BackgroundBetween(g, -1, 0, x, y)
  {
  }

  lemma OneMoreBetween(g: Gif, k: int, i: nat, x: int, y: int)
    requires -1 <= k <= i < |g.images|
    ensures BackgroundBetween(g, k, i + 1, x, y) <==>
      || (i > k && BackgroundBetween(g, k, i, x, y))
      || (i > k && ControlAt(g, i).disposal == DISPOSE_BACKGROUND && InFrame(g, i, x, y))
  {
  }

  lemma NotPainted(g: Gif, i: nat, x: int, y: int)
    requires i < |g.images| && Playable(g)
    ensures !InFrame(g, i, x, y) ==> Paint(g, i, x, y).None?
  {
  }

  ghost predicate AsStandard(g: Gif, bg: nat, n: nat, x: int, y: int)
    requires n <= |g.images| && Playable(g)
  {
    forall i :: 0 <= i < n ==> Standard(g, bg, i, x, y) == Shown(g, bg, i, x, y)
  }

  ghost predicate AgreesBefore(g: Gif, bg: nat, n: nat, x: int, y: int)
    requires n <= |g.images| && Playable(g)
  {
    forall m :: 0 <= m < n ==> AgreesAt(g, bg, m, x, y)
  }

  /** One more frame is as the standard says. */
  lemma StandardNext(g: Gif, bg: nat, i: nat, x: int, y: int)
    requires 0 < i < |g.images| && Playable(g) && AsStandard(g, bg, i, x, y)
    ensures Standard(g, bg, i, x, y) == Shown(g, bg, i, x, y) <==> AgreesAt(g, bg, i - 1, x, y)
  {
    hide BackgroundBetween, Paint, ControlOf, InFrame, Covers;
    assert Standard(g, bg, i - 1, x, y) == Over(Paint(g, i - 1, x, y), StandardBefore(g, bg, i - 1, x, y));
    NotPainted(g, i - 1, x, y);
    StandardBetween(g, bg, i - 1, x, y);
  }

  lemma {:induction false} AgreesUpTo(g: Gif, bg: nat, n: nat, x: int, y: int)
    requires n < |g.images| && Playable(g)
    ensures AsStandard(g, bg, n + 1, x, y) <==> AgreesBefore(g, bg, n, x, y)
  {
    hide Standard, Shown, Playable, AgreesAt;
    if n == 0 {
      FirstStandard(g, bg, x, y);
    } else {
      AgreesUpTo(g, bg, n - 1, x, y);
      assert AsStandard(g, bg, n + 1, x, y) <==>
        AsStandard(g, bg, n, x, y) && Standard(g, bg, n, x, y) == Shown(g, bg, n, x, y);
      assert AgreesBefore(g, bg, n, x, y) <==> AgreesBefore(g, bg, n - 1, x, y) && AgreesAt(g, bg, n - 1, x, y);
      if AsStandard(g, bg, n, x, y) {
        StandardNext(g, bg, n, x, y);
      }
    }
  }

  lemma FirstStandard(g: Gif, bg: nat, x: int, y: int)
    requires Playable(g)
    ensures Standard(g, bg, 0, x, y) == Shown(g, bg, 0, x, y)
  {
  }

  /** What is shown of any file is what the standard says exactly if, wherever a frame lets the pixel through, the
      disposal before it has left what the standard has there: a frame disposed of to the background and covered was
      transparent; one that is restored to previous, but covered or with nothing to restore, shows the canvas of the
      standard; and a canvas that is brought back is transparent if the background has been left behind since. */
  lemma ShownAsStandard(g: Gif, bg: nat, x: int, y: int)
    requires Playable(g)
    ensures AsStandard(g, bg, |g.images|, x, y) <==> AgreesBefore(g, bg, |g.images|, x, y)
  {
    AgreesUpTo(g, bg, |g.images| - 1, x, y);
    assert AgreesAt(g, bg, |g.images| - 1, x, y);
  }

  /** Every frame that is restored to previous has a canvas to restore. */
  ghost predicate AllRestore(g: Gif) {
    forall k :: 0 <= k < |g.images| && ControlAt(g, k).disposal == DISPOSE_PREVIOUS ==> Restoring(g, k) >= 0
  }

  /** If the canvas that frame m restores can be seen, and a frame since then has left the background behind, it is
      transparent. */
  ghost predicate RestoredAt(g: Gif, bg: nat, m: nat, x: int, y: int)
    requires m < |g.images| && Playable(g)
  {
    m + 1 < |g.images| && Restoring(g, m) >= 0 && !Covers(g, m + 1) && Paint(g, m + 1, x, y).None? ==>
      BackgroundBetween(g, Restoring(g, m), m, x, y) ==> Shown(g, bg, Restoring(g, m), x, y) == TRANSPARENT
  }

  ghost predicate RestoredBefore(g: Gif, bg: nat, n: nat, x: int, y: int)
    requires n <= |g.images| && Playable(g)
  {
    forall m :: 0 <= m < n ==> RestoredAt(g, bg, m, x, y)
  }

  lemma WellMadeNext(g: Gif, bg: nat, m: nat, x: int, y: int)
    requires m < |g.images| && Playable(g) && WellMade(g) && AllRestore(g) && AsStandard(g, bg, m + 1, x, y)
    ensures AgreesAt(g, bg, m, x, y) <==> RestoredAt(g, bg, m, x, y)
  {
    hide BackgroundBetween, Paint, ControlOf, InFrame, Covers, CoversReally;
    if m + 1 < |g.images| {
      PaintedOver(g, m + 1, x, y);
      NotPainted(g, m, x, y);
      StandardBetween(g, bg, m, x, y);
      assert Standard(g, bg, m, x, y) == Over(Paint(g, m, x, y), StandardBefore(g, bg, m, x, y));
    }
  }

  lemma {:induction false} WellMadeUpTo(g: Gif, bg: nat, n: nat, x: int, y: int)
    requires n <= |g.images| && Playable(g) && WellMade(g) && AllRestore(g)
    ensures AgreesBefore(g, bg, n, x, y) <==> RestoredBefore(g, bg, n, x, y)
  {
    hide Standard, Shown, Playable, WellMade, AllRestore, AgreesAt, RestoredAt, AsStandard;
    if n > 0 {
      WellMadeUpTo(g, bg, n - 1, x, y);
      if AgreesBefore(g, bg, n - 1, x, y) {
        AgreesUpTo(g, bg, n - 1, x, y);
        WellMadeNext(g, bg, n - 1, x, y);
      }
    }
  }

  /** For a well-made file with a canvas to restore wherever one is asked for, only the last of these matters. */
  lemma WellMadeAsStandard(g: Gif, bg: nat, x: int, y: int)
    requires Playable(g) && WellMade(g) && AllRestore(g)
    ensures AsStandard(g, bg, |g.images|, x, y) <==> RestoredBefore(g, bg, |g.images|, x, y)
  {
    ShownAsStandard(g, bg, x, y);
    WellMadeUpTo(g, bg, |g.images|, x, y);
  }

  /** No frame that is restored to previous comes right after one that is restored to background. */
  ghost predicate Unmixed(g: Gif) {
    forall i :: 0 < i < |g.images| && ControlAt(g, i).disposal == DISPOSE_PREVIOUS ==>
      ControlAt(g, i - 1).disposal != DISPOSE_BACKGROUND
  }

  lemma {:induction false} NoneBetween(g: Gif, k: nat, m: nat)
    requires k <= m < |g.images| && Unmixed(g) && ControlAt(g, m).disposal == DISPOSE_PREVIOUS
    requires forall j :: k < j < m ==> Cleared(g, j)
    ensures forall j :: k < j < m ==> ControlAt(g, j).disposal != DISPOSE_BACKGROUND
  {
    if m > k + 1 {
      assert Cleared(g, m - 1);
      NoneBetween(g, k, m - 1);
    }
  }

  /** For one thing, if the two kinds of disposal do not mix. */
  lemma UnmixedAsStandard(g: Gif, bg: nat, i: nat, x: int, y: int)
    requires i < |g.images| && Playable(g) && WellMade(g) && AllRestore(g) && Unmixed(g)
    ensures Standard(g, bg, i, x, y) == Shown(g, bg, i, x, y)
  {
    WellMadeAsStandard(g, bg, x, y);
    forall m | 0 <= m < |g.images| && Restoring(g, m) >= 0
      ensures !BackgroundBetween(g, Restoring(g, m), m, x, y)
    {
      NoneBetween(g, Restoring(g, m), m);
    }
  }

  /** A frame of one pixel: 0 is red and 1 is transparent. */
  function Dot(disposal: byte, index: byte): Image
    requires disposal < 8
  {
    Image(ImageDesc(0, 0, 1, 1, false, Some(ColorMap([Color(255, 0, 0), Color(255, 0, 0)], false))), [index],
          [Extension(GRAPHICS_EXT, [4 * disposal + 1, 0, 0, 1])])
  }

  /** Otherwise it may not be: here a red dot comes back that the standard has made transparent. */
  lemma ShownUnlikeStandard(g: Gif)
    requires g == Gif(Screen(1, 1, 8, 0, 0, None), [Dot(1, 0), Dot(2, 1), Dot(3, 1), Dot(1, 1)], [])
    ensures Playable(g) && WellMade(g) && !Unmixed(g)
    ensures Shown(g, TRANSPARENT, 3, 0, 0) != Standard(g, TRANSPARENT, 3, 0, 0)
  {
    hide Paint, ControlOf, Dot, Opaque;
    forall i | 0 <= i < 4
      ensures HasRaster(g.images[i])
    {
      DotSeen(g, i, if i == 0 then 1 else if i == 1 then 2 else if i == 2 then 3 else 1, if i == 0 then 0 else 1);
    }
    DotSeen(g, 0, 1, 0);
    DotSeen(g, 1, 2, 1);
    DotSeen(g, 2, 3, 1);
    DotSeen(g, 3, 1, 1);
    assert LastUncleared(g, 1) == 0 && LastUncleared(g, 2) == 0;
    assert Shown(g, TRANSPARENT, 0, 0, 0) == Opaque(Color(255, 0, 0));
    assert Before(g, TRANSPARENT, 3, 0, 0) == Opaque(Color(255, 0, 0));
    assert StandardBefore(g, TRANSPARENT, 2, 0, 0) == TRANSPARENT;
    RedIsSeen();
  }

  lemma RedIsSeen()
    ensures Opaque(Color(255, 0, 0)) != TRANSPARENT
  {
  }

  lemma DotSeen(g: Gif, i: nat, disposal: byte, index: byte)
    requires g.screen.width == g.screen.height == 1 && disposal < 8
    requires i < |g.images| && g.images[i] == Dot(disposal, index)
    ensures HasRaster(g.images[i])
    ensures ControlAt(g, i) == Control(disposal, 0, 1) && InFrame(g, i, 0, 0)
    ensures Playable(g) ==> Paint(g, i, 0, 0) == if index == 0 then Some(Opaque(Color(255, 0, 0))) else None
  {
    hide Opaque, RowStart, ControlOf, ToControl;
    DotControl(disposal);
    OneByOne();
  }

  lemma DotControl(disposal: byte)
    requires disposal < 8
    ensures ControlOf([Extension(GRAPHICS_EXT, [4 * disposal + 1, 0, 0, 1])]) == Control(disposal, 0, 1)
  {
    assert (4 * disposal + 1) / 4 % 8 == disposal;
  }

  lemma OneByOne()
    ensures RowStart(0, 1) == 0 && RowStart(1, 1) == 1
  {
  }

  // ----- drawFrame, one pixel at a time

  /** A pixel of the canvas, what the preserve buffer has there, if there is a buffer, and whose canvas that is. */
  datatype Px = Px(color: nat, kept: Option<nat>, keptFrame: int)

  /** Some frame's disposal needs the canvas of frame k. */
  ghost predicate Preserved(g: Gif, k: nat) { exists m :: 0 <= m < |g.images| && Restoring(g, m) == k }

  /** Frame i - 1 is disposed of, unless frame i covers it. */
  function Disposed(g: Gif, i: nat, x: int, y: int, s: Px): nat
    requires 0 < i < |g.images|
  {
    if !Cleared(g, i - 1) || Covers(g, i) then s.color
    else if ControlAt(g, i - 1).disposal == DISPOSE_BACKGROUND then
      if InFrame(g, i - 1, x, y) then TRANSPARENT else s.color
    else if s.kept.Some? then s.kept.value else s.color
  }

  /** And the canvas is kept, if it is needed and not in the buffer yet. */
  ghost function Made(g: Gif, bg: nat, i: nat, x: int, y: int, s: Px): Px
    requires i < |g.images|
  {
    if i == 0 then s.(color := bg)
    else
      var color := Disposed(g, i, x, y, s);
      if Preserved(g, i - 1) && s.keptFrame != i - 1 then Px(color, Some(color), i - 1) else s.(color := color)
  }

  /** Then frame i is drawn, unless it will be cleared and is not the one asked for. */
  ghost function Processed(g: Gif, bg: nat, i: nat, frameNr: nat, x: int, y: int, s: Px): Px
    requires i < |g.images| && Playable(g)
  {
    var r := Made(g, bg, i, x, y, s);
    if i == frameNr || !Cleared(g, i) then r.(color := Over(Paint(g, i, x, y), r.color)) else r
  }

  /** The frames from start on, up to but not including end. */
  ghost function Drawn(g: Gif, bg: nat, start: nat, end: nat, frameNr: nat, x: int, y: int, s: Px): Px
    requires end <= |g.images| && Playable(g)
    decreases end
  {
    if end <= start then s
    else Processed(g, bg, end - 1, frameNr, x, y, Drawn(g, bg, start, end - 1, frameNr, x, y, s))
  }

  /** A canvas that will have to be restored is not in the buffer. */
  ghost predicate Gone(g: Gif, from: nat, frameNr: nat, keptFrame: int)
    requires frameNr < |g.images|
  {
    exists m: nat :: from <= m < frameNr && Restoring(g, m) >= 0 && Restoring(g, m) != keptFrame
  }

  ghost function StartOf(g: Gif, frameNr: nat, previousFrameNr: int, keptFrame: int): nat
    requires frameNr < |g.images|
  {
    if previousFrameNr < 0 || Gone(g, previousFrameNr, frameNr, keptFrame) then 0 else previousFrameNr + 1
  }

  /** What drawFrame makes of a pixel, from whatever was there before. */
  ghost function DrawnFrame(g: Gif, bg: nat, frameNr: nat, previousFrameNr: int, x: int, y: int, s: Px): Px
    requires frameNr < |g.images| && Playable(g)
  {
    Drawn(g, bg, StartOf(g, frameNr, previousFrameNr, s.keptFrame), frameNr + 1, frameNr, x, y, s)
  }

  // ----- path independence

  /** The preserve buffer holds the canvas of the frame it is said to hold. */
  ghost predicate KeptRight(g: Gif, bg: nat, x: int, y: int, s: Px)
    requires Playable(g)
  {
    -1 <= s.keptFrame < |g.images| && (s.keptFrame >= 0 ==> s.kept == Some(Shown(g, bg, s.keptFrame, x, y)))
  }

  /** There is a buffer if a canvas has been kept, and that is one that is needed. */
  ghost predicate Orderly(g: Gif, s: Px) {
    -1 <= s.keptFrame && if s.keptFrame < 0 then s.kept.None? else Preserved(g, s.keptFrame)
  }

  /** Frame m is to be restored to previous, but there is nothing to restore. */
  predicate Nothing(g: Gif, m: nat)
    requires m < |g.images|
  {
    ControlAt(g, m).disposal == DISPOSE_PREVIOUS && Restoring(g, m) < 0
  }

  /** The colours that the pixel has in canvases that are kept. */
  ghost function KeptColors(g: Gif, bg: nat, x: int, y: int): set<nat>
    requires Playable(g)
  {
    set k | 0 <= k < |g.images| && Preserved(g, k) :: Shown(g, bg, k, x, y)
  }

  /** What the pixel may be just before frame i is drawn: what it ought to be; what it was before the frame before, if
      that has been skipped and its disposal does nothing; or the colour in a canvas kept on an earlier run, if that
      disposal takes whatever is in the buffer. */
  ghost function Leftovers(g: Gif, bg: nat, i: nat, x: int, y: int): set<nat>
    requires i < |g.images| && Playable(g)
    decreases i
  {
    {Before(g, bg, i, x, y)}
    + (if i > 0 && Cleared(g, i - 1) && (Covers(g, i) || Nothing(g, i - 1)) then Leftovers(g, bg, i - 1, x, y) else {})
    + (if i > 0 && !Covers(g, i) && Nothing(g, i - 1) then KeptColors(g, bg, x, y) else {})
  }

  /** Every frame that lets the pixel through finds there what it ought to find. */
  ghost predicate Harmless(g: Gif, bg: nat, x: int, y: int)
    requires Playable(g)
  {
    forall i :: 0 <= i < |g.images| && Paint(g, i, x, y).None? ==>
      Leftovers(g, bg, i, x, y) == {Before(g, bg, i, x, y)}
  }

  /** The canvas shows frame previousFrameNr, if that is not negative, and the buffer is as drawFrame leaves it. */
  ghost predicate Ready(g: Gif, bg: nat, previousFrameNr: int, x: int, y: int, s: Px)
    requires previousFrameNr < |g.images| && Playable(g)
  {
    KeptRight(g, bg, x, y, s) && Orderly(g, s)
    && (previousFrameNr >= 0 ==> s.color == Shown(g, bg, previousFrameNr, x, y))
  }

  /** Whichever frame a canvas shows, and whatever has been kept, drawing leads to what drawing all frames gives. */
  ghost predicate PathIndependent(g: Gif, bg: nat, x: int, y: int)
    requires Playable(g)
  {
    forall frameNr: nat, previousFrameNr: int, s: Px ::
      previousFrameNr < frameNr < |g.images| && Ready(g, bg, previousFrameNr, x, y, s) ==>
        DrawnFrame(g, bg, frameNr, previousFrameNr, x, y, s).color == Shown(g, bg, frameNr, x, y)
  }

  /** Frame i is shown, or it has been skipped. */
  ghost predicate ShownOrLeft(g: Gif, bg: nat, i: nat, x: int, y: int, color: nat)
    requires i < |g.images| && Playable(g)
  {
    color == Shown(g, bg, i, x, y) || (Cleared(g, i) && color in Leftovers(g, bg, i, x, y))
  }

  /** Every frame that drawing frames i to frameNr disposes of finds its canvas in the buffer, now or when its turn
      comes. */
  ghost predicate Reachable(g: Gif, i: nat, frameNr: nat, keptFrame: int)
    requires i <= frameNr + 1 <= |g.images|
  {
    forall m: nat :: i - 1 <= m < frameNr && Restoring(g, m) >= 0 ==>
      Restoring(g, m) >= i - 1 || keptFrame == Restoring(g, m)
  }

  lemma ReachableNext(g: Gif, i: nat, frameNr: nat, keptFrame: int)
    requires i <= frameNr < |g.images| && Reachable(g, i, frameNr, keptFrame)
    ensures i > 0 && i <= frameNr && Restoring(g, i - 1) >= 0 ==> keptFrame == Restoring(g, i - 1)
    ensures Reachable(g, i + 1, frameNr, if i > 0 && Preserved(g, i - 1) then i - 1 else keptFrame)
  {
    forall m: nat | i <= m < frameNr && 0 <= Restoring(g, m) < i
      ensures (if i > 0 && Preserved(g, i - 1) then i - 1 else keptFrame) == Restoring(g, m)
    {
      if i > 0 && Preserved(g, i - 1) {
        PreservedStays(g, i - 1);
        RestoringIsLast(g, m, i - 1);
      }
    }
  }

  lemma PreservedStays(g: Gif, k: nat)
    requires k < |g.images|
    ensures Preserved(g, k) ==> !Cleared(g, k)
  {
  }

  lemma OughtToBe(g: Gif, bg: nat, i: nat, x: int, y: int)
    requires i < |g.images| && Playable(g)
    ensures Before(g, bg, i, x, y) in Leftovers(g, bg, i, x, y)
  {
  }

  lemma StillLeft(g: Gif, bg: nat, i: nat, x: int, y: int, c: nat)
    requires 0 < i < |g.images| && Playable(g) && Cleared(g, i - 1) && (Covers(g, i) || Nothing(g, i - 1))
    requires c in Leftovers(g, bg, i - 1, x, y)
    ensures c in Leftovers(g, bg, i, x, y)
  {
  }

  lemma KeptLeft(g: Gif, bg: nat, i: nat, x: int, y: int, k: nat)
    requires 0 < i < |g.images| && Playable(g) && !Covers(g, i) && Nothing(g, i - 1)
    requires k < |g.images| && Preserved(g, k)
    ensures Shown(g, bg, k, x, y) in Leftovers(g, bg, i, x, y)
  {
    assert Shown(g, bg, k, x, y) in KeptColors(g, bg, x, y);
  }

  /** A frame that lets the pixel through shows what it ought to have found. */
  lemma LeftIsShown(g: Gif, bg: nat, i: nat, x: int, y: int, c: nat)
    requires i < |g.images| && Playable(g) && Harmless(g, bg, x, y) && Paint(g, i, x, y).None?
    requires c in Leftovers(g, bg, i, x, y)
    ensures c == Shown(g, bg, i, x, y)
  {
    hide Paint, Leftovers;
    assert c in {Before(g, bg, i, x, y)};
  }

  lemma DisposedLeft(g: Gif, bg: nat, i: nat, x: int, y: int, s: Px)
    requires 0 < i < |g.images| && Playable(g) && Harmless(g, bg, x, y) && (WellMade(g) || Orderly(g, s))
    requires KeptRight(g, bg, x, y, s) && ShownOrLeft(g, bg, i - 1, x, y, s.color)
    requires Restoring(g, i - 1) >= 0 ==> s.keptFrame == Restoring(g, i - 1)
    ensures Disposed(g, i, x, y, s) in Leftovers(g, bg, i, x, y)
  {
    hide Paint, ControlOf, LastUncleared, Preserved, Covers, CoversReally, Leftovers, InFrame, Harmless;
    OughtToBe(g, bg, i, x, y);
    NotPainted(g, i - 1, x, y);
    assert WellMade(g) && Cleared(g, i - 1) && !Covers(g, i) ==> !Nothing(g, i - 1);
    if Cleared(g, i - 1) && !Covers(g, i) && Nothing(g, i - 1) && s.kept.Some? {
      KeptLeft(g, bg, i, x, y, s.keptFrame);
    } else if Cleared(g, i - 1) && s.color in Leftovers(g, bg, i - 1, x, y) {
      if Covers(g, i) || Nothing(g, i - 1) {
        StillLeft(g, bg, i, x, y, s.color);
      } else if !InFrame(g, i - 1, x, y) {
        LeftIsShown(g, bg, i - 1, x, y, s.color);
      }
    }
  }

  lemma MadeLeft(g: Gif, bg: nat, i: nat, x: int, y: int, s: Px)
    requires Playable(g) && Harmless(g, bg, x, y) && (WellMade(g) || Orderly(g, s))
    requires i < |g.images| && KeptRight(g, bg, x, y, s)
    requires i > 0 ==> ShownOrLeft(g, bg, i - 1, x, y, s.color)
    requires i > 0 && Restoring(g, i - 1) >= 0 ==> s.keptFrame == Restoring(g, i - 1)
    ensures var r := Made(g, bg, i, x, y, s);
      && KeptRight(g, bg, x, y, r) && r.color in Leftovers(g, bg, i, x, y) && (Orderly(g, s) ==> Orderly(g, r))
      && r.keptFrame == if i > 0 && Preserved(g, i - 1) then i - 1 else s.keptFrame
  {
    hide Paint, ControlOf, LastUncleared, Preserved, Covers, Leftovers, Harmless, WellMade, Shown, Before;
    if i == 0 {
      OughtToBe(g, bg, 0, x, y);
      NothingBefore(g, bg, x, y);
    } else {
      PreservedStays(g, i - 1);
      DisposedLeft(g, bg, i, x, y, s);
    }
  }

  lemma NothingBefore(g: Gif, bg: nat, x: int, y: int)
    requires Playable(g)
    ensures Before(g, bg, 0, x, y) == bg
  {
  }

  lemma ProcessedLeft(g: Gif, bg: nat, i: nat, frameNr: nat, x: int, y: int, s: Px)
    requires Playable(g) && Harmless(g, bg, x, y) && (WellMade(g) || Orderly(g, s))
    requires i <= frameNr < |g.images| && KeptRight(g, bg, x, y, s)
    requires i > 0 ==> ShownOrLeft(g, bg, i - 1, x, y, s.color)
    requires i > 0 && Restoring(g, i - 1) >= 0 ==> s.keptFrame == Restoring(g, i - 1)
    ensures var r := Processed(g, bg, i, frameNr, x, y, s);
      && KeptRight(g, bg, x, y, r) && ShownOrLeft(g, bg, i, x, y, r.color) && (Orderly(g, s) ==> Orderly(g, r))
      && (i == frameNr ==> r.color == Shown(g, bg, i, x, y))
      && r.keptFrame == if i > 0 && Preserved(g, i - 1) then i - 1 else s.keptFrame
  {
    hide Paint, ControlOf, LastUncleared, Preserved, WellMade, Made, Before, Leftovers, Harmless;
    MadeLeft(g, bg, i, x, y, s);
    if Paint(g, i, x, y).None? {
      LeftIsShown(g, bg, i, x, y, Made(g, bg, i, x, y, s).color);
    }
  }

  lemma {:induction false} DrawnLeft(g: Gif, bg: nat, start: nat, end: nat, frameNr: nat, x: int, y: int, s: Px)
    requires Playable(g) && Harmless(g, bg, x, y) && (WellMade(g) || Orderly(g, s))
    requires start <= end <= frameNr + 1 <= |g.images| && KeptRight(g, bg, x, y, s)
    requires Reachable(g, start, frameNr, s.keptFrame) && (start > 0 ==> ShownOrLeft(g, bg, start - 1, x, y, s.color))
    ensures var r := Drawn(g, bg, start, end, frameNr, x, y, s);
      && KeptRight(g, bg, x, y, r) && (end > 0 ==> ShownOrLeft(g, bg, end - 1, x, y, r.color))
      && (Orderly(g, s) ==> Orderly(g, r))
      && (start < end == frameNr + 1 ==> r.color == Shown(g, bg, frameNr, x, y))
      && Reachable(g, end, frameNr, r.keptFrame)
    decreases end
  {
    hide Playable, WellMade, Harmless, Processed, KeptRight, ShownOrLeft, Orderly, Reachable, Shown;
    hide Restoring, Preserved;
    if start < end {
      DrawnLeft(g, bg, start, end - 1, frameNr, x, y, s);
      var r := Drawn(g, bg, start, end - 1, frameNr, x, y, s);
      ReachableNext(g, end - 1, frameNr, r.keptFrame);
      ProcessedLeft(g, bg, end - 1, frameNr, x, y, r);
    }
  }

  lemma StartReachable(g: Gif, frameNr: nat, previousFrameNr: int, keptFrame: int)
    requires previousFrameNr < frameNr < |g.images|
    ensures var start := StartOf(g, frameNr, previousFrameNr, keptFrame);
      && start <= frameNr && Reachable(g, start, frameNr, keptFrame) && (start > 0 ==> start == previousFrameNr + 1)
  {
  }

  lemma NoneGone(g: Gif, frameNr: nat, previousFrameNr: int, keptFrame: int)
    requires frameNr < |g.images| && previousFrameNr >= frameNr
    ensures StartOf(g, frameNr, previousFrameNr, keptFrame) == previousFrameNr + 1
  {
  }

  lemma ShownStays(g: Gif, bg: nat, i: nat, x: int, y: int)
    requires i < |g.images| && Playable(g)
    ensures ShownOrLeft(g, bg, i, x, y, Shown(g, bg, i, x, y))
  {
  }

  lemma HarmlessDrawn(g: Gif, bg: nat, frameNr: nat, previousFrameNr: int, x: int, y: int, s: Px)
    requires Playable(g) && Harmless(g, bg, x, y) && (WellMade(g) || Orderly(g, s))
    requires frameNr < |g.images| && KeptRight(g, bg, x, y, s)
    requires 0 <= previousFrameNr < frameNr ==> s.color == Shown(g, bg, previousFrameNr, x, y)
    ensures var r := DrawnFrame(g, bg, frameNr, previousFrameNr, x, y, s);
      && KeptRight(g, bg, x, y, r) && (Orderly(g, s) ==> Orderly(g, r))
      && (previousFrameNr < frameNr ==> r.color == Shown(g, bg, frameNr, x, y))
  {
    hide Playable, WellMade, Harmless, KeptRight, ShownOrLeft, Orderly, Reachable, Shown, Restoring, StartOf;
    if previousFrameNr < frameNr {
      StartReachable(g, frameNr, previousFrameNr, s.keptFrame);
      if previousFrameNr >= 0 {
        ShownStays(g, bg, previousFrameNr, x, y);
      }
      DrawnLeft(g, bg, StartOf(g, frameNr, previousFrameNr, s.keptFrame), frameNr + 1, frameNr, x, y, s);
    } else {
      NoneGone(g, frameNr, previousFrameNr, s.keptFrame);
    }
  }

  /** As long as frames are skipped it does not matter which one is asked for. */
  lemma {:induction false} DrawnAlike(g: Gif, bg: nat, start: nat, end: nat, a: nat, b: nat, x: int, y: int, s: Px)
    requires end <= |g.images| && Playable(g) && end <= a && end <= b
    ensures Drawn(g, bg, start, end, a, x, y, s) == Drawn(g, bg, start, end, b, x, y, s)
    decreases end
  {
    hide Made, Paint;
    if start < end {
      DrawnAlike(g, bg, start, end - 1, a, b, x, y, s);
    }
  }

  /** Frame i is asked for on a canvas that shows frame j - 1, and finds c on the pixel; the frames from j on are
      skipped. */
  ghost predicate Finds(g: Gif, bg: nat, i: nat, x: int, y: int, c: nat, j: nat, s: Px)
    requires i < |g.images| && Playable(g)
  {
    && j <= i && Ready(g, bg, j - 1, x, y, s) && StartOf(g, i, j - 1, s.keptFrame) == j
    && (var k := LastUncleared(g, i); k >= 0 && Preserved(g, k) ==> s.keptFrame == k)
    && var r := Made(g, bg, i, x, y, Drawn(g, bg, j, i, i, x, y, s));
    r.color == c && (LastUncleared(g, i) < 0 ==> r.kept.None? || r.kept == Some(c))
  }

  /** On a canvas that shows frame i - 1, frame i finds what it ought to find, */
  lemma FindsBefore(g: Gif, bg: nat, i: nat, x: int, y: int) returns (s: Px)
    requires i < |g.images| && Playable(g)
    ensures Finds(g, bg, i, x, y, Before(g, bg, i, x, y), i, s)
  {
    hide Paint, ControlOf, Covers, InFrame, Preserved, Shown;
    var k := LastUncleared(g, i);
    s := if k >= 0 && Preserved(g, k) then Px(0, Some(Shown(g, bg, k, x, y)), k) else Px(0, None, -1);
    if i > 0 {
      s := s.(color := Shown(g, bg, i - 1, x, y));
      IsPreserved(g, i - 1);
      PreservedStays(g, i - 1);
    }
  }

  lemma IsPreserved(g: Gif, m: nat)
    requires m < |g.images|
    ensures Restoring(g, m) >= 0 ==> Preserved(g, Restoring(g, m))
  {
  }

  /** or a colour from the buffer, if there is nothing to restore. */
  lemma FindsKept(g: Gif, bg: nat, i: nat, x: int, y: int, k: nat) returns (s: Px)
    requires 0 < i < |g.images| && Playable(g) && !Covers(g, i) && Nothing(g, i - 1)
    requires k < |g.images| && Preserved(g, k)
    ensures Finds(g, bg, i, x, y, Shown(g, bg, k, x, y), i, s)
  {
    hide Paint, ControlOf, Covers, InFrame, Preserved, Shown;
    s := Px(Shown(g, bg, i - 1, x, y), Some(Shown(g, bg, k, x, y)), k);
    PreservedStays(g, i - 1);
  }

  /** What frame i - 1 finds, frame i finds, too, if the disposal between them does nothing. */
  lemma FindsStill(g: Gif, bg: nat, i: nat, x: int, y: int, c: nat, j: nat, s: Px)
    requires 0 < i < |g.images| && Playable(g) && Cleared(g, i - 1) && (Covers(g, i) || Nothing(g, i - 1))
    requires Finds(g, bg, i - 1, x, y, c, j, s)
    ensures Finds(g, bg, i, x, y, c, j, s)
  {
    hide Paint, ControlOf, Covers, InFrame, Preserved, Shown, Made;
    DrawnAlike(g, bg, j, i - 1, i - 1, i, x, y, s);
    var r := Drawn(g, bg, j, i, i, x, y, s);
    MadeCleared(g, bg, i, x, y, r);
    IsPreserved(g, i - 1);
  }

  lemma {:induction false} FindsLeftover(g: Gif, bg: nat, i: nat, x: int, y: int, c: nat) returns (j: nat, s: Px)
    requires i < |g.images| && Playable(g) && c in Leftovers(g, bg, i, x, y)
    ensures Finds(g, bg, i, x, y, c, j, s)
    decreases i
  {
    hide Finds, Paint, ControlOf, Before, Covers, Nothing, Preserved;
    if c == Before(g, bg, i, x, y) {
      j := i;
      s := FindsBefore(g, bg, i, x, y);
    } else if Cleared(g, i - 1) && (Covers(g, i) || Nothing(g, i - 1)) && c in Leftovers(g, bg, i - 1, x, y) {
      j, s := FindsLeftover(g, bg, i - 1, x, y, c);
      FindsStill(g, bg, i, x, y, c, j, s);
    } else {
      var k :| 0 <= k < |g.images| && Preserved(g, k) && c == Shown(g, bg, k, x, y);
      j := i;
      s := FindsKept(g, bg, i, x, y, k);
    }
  }

  lemma FoundIsDrawn(g: Gif, bg: nat, i: nat, x: int, y: int, c: nat, j: nat, s: Px)
    requires i < |g.images| && Playable(g) && Finds(g, bg, i, x, y, c, j, s) && Paint(g, i, x, y).None?
    ensures DrawnFrame(g, bg, i, j - 1, x, y, s).color == c
  {
    hide Paint, ControlOf, Made, StartOf;
  }

  /** Path independence, for any file: what comes out does not depend on the frames drawn on the way exactly if every
      frame that lets the pixel through finds nothing else there. */
  lemma PathIndependence(g: Gif, bg: nat, x: int, y: int)
    requires Playable(g)
    ensures PathIndependent(g, bg, x, y) <==> Harmless(g, bg, x, y)
  {
    hide Paint, DrawnFrame, Finds, Leftovers, KeptRight, Orderly, Before;
    if Harmless(g, bg, x, y) {
      forall frameNr: nat, previousFrameNr: int, s: Px |
          previousFrameNr < frameNr < |g.images| && Ready(g, bg, previousFrameNr, x, y, s)
        ensures DrawnFrame(g, bg, frameNr, previousFrameNr, x, y, s).color == Shown(g, bg, frameNr, x, y)
      {
        HarmlessDrawn(g, bg, frameNr, previousFrameNr, x, y, s);
      }
    }
    if PathIndependent(g, bg, x, y) {
      forall i | 0 <= i < |g.images| && Paint(g, i, x, y).None?
        ensures Leftovers(g, bg, i, x, y) == {Before(g, bg, i, x, y)}
      {
        OughtToBe(g, bg, i, x, y);
        forall c | c in Leftovers(g, bg, i, x, y)
          ensures c == Before(g, bg, i, x, y)
        {
          var j, s := FindsLeftover(g, bg, i, x, y, c);
          FoundIsDrawn(g, bg, i, x, y, c, j, s);
          FoundReady(g, bg, i, x, y, c, j, s);
        }
      }
    }
  }

  lemma FoundReady(g: Gif, bg: nat, i: nat, x: int, y: int, c: nat, j: nat, s: Px)
    requires i < |g.images| && Playable(g) && Finds(g, bg, i, x, y, c, j, s)
    ensures j <= i && Ready(g, bg, j - 1, x, y, s)
  {
  }

  /** In a well-made file, what is left over is what ought to be there, but for what the next frame paints over. */
  lemma {:induction false} WellMadeLeftovers(g: Gif, bg: nat, i: nat, x: int, y: int)
    requires i < |g.images| && Playable(g) && WellMade(g) && Paint(g, i, x, y).None?
    ensures Leftovers(g, bg, i, x, y) == {Before(g, bg, i, x, y)}
    decreases i
  {
    hide Paint, ControlOf, Covers, CoversReally, InFrame;
    if i > 0 && Cleared(g, i - 1) && Covers(g, i) {
      PaintedOver(g, i, x, y);
      NotPainted(g, i - 1, x, y);
      WellMadeLeftovers(g, bg, i - 1, x, y);
    }
  }

  ghost predicate HarmlessEverywhere(g: Gif, bg: nat)
    requires Playable(g)
  {
    forall x, y :: OnCanvas(g, x, y) ==> Harmless(g, bg, x, y)
  }

  lemma WellMadeHarmless(g: Gif, bg: nat, x: int, y: int)
    requires Playable(g) && WellMade(g)
    ensures Harmless(g, bg, x, y)
  {
    hide Paint, Leftovers, WellMade, Playable;
    forall i | 0 <= i < |g.images| && Paint(g, i, x, y).None?
      ensures Leftovers(g, bg, i, x, y) == {Before(g, bg, i, x, y)}
    {
      WellMadeLeftovers(g, bg, i, x, y);
    }
  }

  /** So whichever frame a canvas shows, what comes out of a well-made file is what drawing all frames gives. */
  lemma DrawnFrameRight(g: Gif, bg: nat, frameNr: nat, previousFrameNr: int, x: int, y: int, s: Px)
    requires Playable(g) && WellMade(g) && frameNr < |g.images| && KeptRight(g, bg, x, y, s)
    requires 0 <= previousFrameNr < frameNr ==> s.color == Shown(g, bg, previousFrameNr, x, y)
    ensures var r := DrawnFrame(g, bg, frameNr, previousFrameNr, x, y, s);
      KeptRight(g, bg, x, y, r) && (previousFrameNr < frameNr ==> r.color == Shown(g, bg, frameNr, x, y))
  {
    hide Playable, WellMade, Harmless, KeptRight, Orderly, DrawnFrame, Shown;
    WellMadeHarmless(g, bg, x, y);
    HarmlessDrawn(g, bg, frameNr, previousFrameNr, x, y, s);
  }

  /** Whatever was there before, the frame asked for is painted, in its colours. */
  lemma LastPainted(g: Gif, bg: nat, frameNr: nat, previousFrameNr: int, x: int, y: int, s: Px)
    requires previousFrameNr < frameNr < |g.images| && Playable(g)
    requires OnCanvas(g, x, y) && InArea(g.images[frameNr].desc, x, y)
    ensures HasIndexColor(g, frameNr, x, y, DrawnFrame(g, bg, frameNr, previousFrameNr, x, y, s).color)
  {
    hide Playable, Paint, Made, StartOf, HasIndexColor, OnCanvas;
    StartReachable(g, frameNr, previousFrameNr, s.keptFrame);
    var start := StartOf(g, frameNr, previousFrameNr, s.keptFrame);
    var ready := Made(g, bg, frameNr, x, y, Drawn(g, bg, start, frameNr, frameNr, x, y, s));
    PaintHasIndexColor(g, frameNr, x, y, ready.color);
  }

  // ----- files that are not well-made

  /** It makes no difference whether frame i - 1 was drawn or skipped before frame i exactly if frame i paints the
      pixel, frame i - 1 left it as it was, or the disposal of frame i - 1 overwrites it. */
  lemma SkipHarmless(g: Gif, bg: nat, i: nat, x: int, y: int, s: Px)
    requires 0 < i < |g.images| && Playable(g) && Cleared(g, i - 1)
    ensures var made := Made(g, bg, i - 1, x, y, s);
      var drawn, skipped := Processed(g, bg, i - 1, i - 1, x, y, s), Processed(g, bg, i - 1, i, x, y, s);
      Processed(g, bg, i, i, x, y, drawn).color == Processed(g, bg, i, i, x, y, skipped).color <==>
        || Paint(g, i, x, y).Some? || Over(Paint(g, i - 1, x, y), made.color) == made.color
        || (!Covers(g, i) && (ControlAt(g, i - 1).disposal == DISPOSE_BACKGROUND || made.kept.Some?))
  {
    hide Paint, ControlOf, LastUncleared, Preserved, Covers, Made;
    NotPainted(g, i - 1, x, y);
    MadeCleared(g, bg, i, x, y, Processed(g, bg, i - 1, i - 1, x, y, s));
    MadeCleared(g, bg, i, x, y, Processed(g, bg, i - 1, i, x, y, s));
  }

  lemma MadeCleared(g: Gif, bg: nat, i: nat, x: int, y: int, s: Px)
    requires 0 < i < |g.images| && Cleared(g, i - 1)
    ensures Made(g, bg, i, x, y, s) == s.(color := Disposed(g, i, x, y, s))
  {
    PreservedStays(g, i - 1);
  }

  /** A frame of one pixel for which its map has no colour. */
  function Hole(): Image {
    Image(ImageDesc(0, 0, 1, 1, false, Some(ColorMap([Color(255, 0, 0), Color(255, 0, 0)], false))), [2], [])
  }

  lemma HoleSeen(g: Gif, i: nat)
    requires g.screen.width == g.screen.height == 1 && i < |g.images| && g.images[i] == Hole()
    ensures HasRaster(g.images[i])
    ensures ControlAt(g, i) == UNSPECIFIED && InFrame(g, i, 0, 0)
    ensures Playable(g) ==> Paint(g, i, 0, 0).None?
  {
    hide Opaque, RowStart, ToControl;
    OneByOne();
  }

  lemma DotCovered(g: Gif)
    requires |g.images| == 2 && g.images[0] == Dot(2, 0) && g.images[1] == Hole()
    ensures CheckIfCover(g.images[1].desc, g.images[0].desc)
  {
  }

  /** A frame that counts as covering the one before, but does not paint all of it: the red dot of frame 0 stays on
      the canvas if frame 0 has been drawn, and never gets there if it is skipped.  The standard has it transparent. */
  lemma CoverWithHole(g: Gif, s: Px)
    requires g == Gif(Screen(1, 1, 8, 0, 0, None), [Dot(2, 0), Hole()], []) && s.keptFrame == -1
    ensures Playable(g) && !WellMade(g) && Shown(g, TRANSPARENT, 1, 0, 0) != Standard(g, TRANSPARENT, 1, 0, 0)
    ensures var first := DrawnFrame(g, TRANSPARENT, 0, -1, 0, 0, s);
      DrawnFrame(g, TRANSPARENT, 1, 0, 0, 0, first).color != DrawnFrame(g, TRANSPARENT, 1, -1, 0, 0, s).color
  {
    hide Paint, ControlOf, Dot, Hole, Opaque, RowStart, CheckIfCover;
    DotSeen(g, 0, 2, 0);
    HoleSeen(g, 1);
    DotCovered(g);
    RedIsSeen();
    assert Playable(g) && Covers(g, 1) && Cleared(g, 0) && !CoversReally(g, 1);
    assert !Preserved(g, 0);
    var skipped := Drawn(g, TRANSPARENT, 0, 1, 1, 0, 0, s);
    assert skipped.color == TRANSPARENT;
    assert Drawn(g, TRANSPARENT, 0, 2, 1, 0, 0, s).color == TRANSPARENT;
    var first := Drawn(g, TRANSPARENT, 0, 1, 0, 0, 0, s);
    assert first.color == Opaque(Color(255, 0, 0)) && first.keptFrame == -1;
    assert Drawn(g, TRANSPARENT, 1, 2, 1, 0, 0, first) == Processed(g, TRANSPARENT, 1, 1, 0, 0, first);
  }

  /** A frame that is restored to previous with nothing to restore: the same happens, and again the standard has the
      pixel transparent. */
  lemma NothingToRestore(g: Gif, s: Px)
    requires g == Gif(Screen(1, 1, 8, 0, 0, None), [Dot(3, 0), Dot(1, 1)], []) && s.keptFrame == -1 && s.kept.None?
    ensures Playable(g) && !WellMade(g) && Shown(g, TRANSPARENT, 1, 0, 0) != Standard(g, TRANSPARENT, 1, 0, 0)
    ensures var first := DrawnFrame(g, TRANSPARENT, 0, -1, 0, 0, s);
      DrawnFrame(g, TRANSPARENT, 1, 0, 0, 0, first).color != DrawnFrame(g, TRANSPARENT, 1, -1, 0, 0, s).color
  {
    hide Paint, ControlOf, Dot, Opaque, RowStart, CheckIfCover;
    DotSeen(g, 0, 3, 0);
    DotSeen(g, 1, 1, 1);
    RedIsSeen();
    assert Playable(g) && !Covers(g, 1) && Cleared(g, 0) && LastUncleared(g, 0) == -1;
    assert !Preserved(g, 0);
    var skipped := Drawn(g, TRANSPARENT, 0, 1, 1, 0, 0, s);
    assert skipped.color == TRANSPARENT && skipped.kept.None?;
    assert Drawn(g, TRANSPARENT, 0, 2, 1, 0, 0, s).color == TRANSPARENT;
    var first := Drawn(g, TRANSPARENT, 0, 1, 0, 0, 0, s);
    assert first.color == Opaque(Color(255, 0, 0)) && first.keptFrame == -1 && first.kept.None?;
    assert Drawn(g, TRANSPARENT, 1, 2, 1, 0, 0, first) == Processed(g, TRANSPARENT, 1, 1, 0, 0, first);
  }

  /** The same frame on a second run: it takes the canvas of frame 2 from the buffer, which the first run has left
      there, and the red dot is shown too early. */
  lemma StaleBuffer(g: Gif, s: Px)
    requires g == Gif(Screen(1, 1, 8, 0, 0, None), [Dot(3, 1), Dot(1, 1), Dot(1, 0), Dot(3, 1)], [])
    requires s.keptFrame == -1 && s.kept.None?
    ensures Playable(g)
    ensures var ran := DrawnFrame(g, TRANSPARENT, 3, -1, 0, 0, s);
      var first, second := DrawnFrame(g, TRANSPARENT, 0, -1, 0, 0, s), DrawnFrame(g, TRANSPARENT, 0, -1, 0, 0, ran);
      DrawnFrame(g, TRANSPARENT, 1, 0, 0, 0, first).color != DrawnFrame(g, TRANSPARENT, 1, 0, 0, 0, second).color
  {
    hide Paint, ControlOf, Dot, Opaque, RowStart, CheckIfCover, Drawn, Processed;
    DotSeen(g, 0, 3, 1);
    DotSeen(g, 1, 1, 1);
    DotSeen(g, 2, 1, 0);
    DotSeen(g, 3, 3, 1);
    RedIsSeen();
    var red := Opaque(Color(255, 0, 0));
    assert LastUncleared(g, 0) == -1 && LastUncleared(g, 3) == 2;
    assert Restoring(g, 0) == Restoring(g, 1) == Restoring(g, 2) == -1 && Restoring(g, 3) == 2;
    assert Preserved(g, 2) && !Preserved(g, 0) && !Preserved(g, 1);
    FourTurns(g, 3, s);
    var s1 := Processed(g, TRANSPARENT, 0, 3, 0, 0, s);
    assert s1 == Px(TRANSPARENT, None, -1) by { Turn(g, 0, 3, s); }
    var s2 := Processed(g, TRANSPARENT, 1, 3, 0, 0, s1);
    assert s2 == Px(TRANSPARENT, None, -1) by { Turn(g, 1, 3, s1); }
    var s3 := Processed(g, TRANSPARENT, 2, 3, 0, 0, s2);
    assert s3 == Px(red, None, -1) by { Turn(g, 2, 3, s2); }
    var ran := Processed(g, TRANSPARENT, 3, 3, 0, 0, s3);
    assert ran == Px(red, Some(red), 2) by { Turn(g, 3, 3, s3); }
    var first, second := DrawnFrame(g, TRANSPARENT, 0, -1, 0, 0, s), DrawnFrame(g, TRANSPARENT, 0, -1, 0, 0, ran);
    OneTurn(g, 0, s);
    OneTurn(g, 0, ran);
    Turn(g, 0, 0, s);
    Turn(g, 0, 0, ran);
    assert first == Px(TRANSPARENT, None, -1) && second == Px(TRANSPARENT, Some(red), 2);
    OneTurn(g, 1, first);
    OneTurn(g, 1, second);
    Turn(g, 1, 1, first);
    Turn(g, 1, 1, second);
  }

  lemma Turn(g: Gif, i: nat, frameNr: nat, s: Px)
    requires i < |g.images| && Playable(g)
    ensures var made := Made(g, TRANSPARENT, i, 0, 0, s);
      Processed(g, TRANSPARENT, i, frameNr, 0, 0, s)
        == if i == frameNr || !Cleared(g, i) then made.(color := Over(Paint(g, i, 0, 0), made.color)) else made
  {
  }

  lemma OneTurn(g: Gif, i: nat, s: Px)
    requires i < |g.images| && Playable(g)
    ensures Drawn(g, TRANSPARENT, i, i + 1, i, 0, 0, s) == Processed(g, TRANSPARENT, i, i, 0, 0, s)
  {
    hide Processed;
    assert Drawn(g, TRANSPARENT, i, i, i, 0, 0, s) == s;
  }

  lemma FourTurns(g: Gif, n: nat, s: Px)
    requires |g.images| >= 4 && Playable(g)
    ensures var s1 := Processed(g, TRANSPARENT, 0, n, 0, 0, s);
      var s3 := Processed(g, TRANSPARENT, 2, n, 0, 0, Processed(g, TRANSPARENT, 1, n, 0, 0, s1));
      Drawn(g, TRANSPARENT, 0, 4, n, 0, 0, s) == Processed(g, TRANSPARENT, 3, n, 0, 0, s3)
  {
    hide Processed;
    assert Drawn(g, TRANSPARENT, 0, 1, n, 0, 0, s) == Processed(g, TRANSPARENT, 0, n, 0, 0, s);
    assert Drawn(g, TRANSPARENT, 0, 3, n, 0, 0, s)
      == Processed(g, TRANSPARENT, 2, n, 0, 0, Drawn(g, TRANSPARENT, 0, 2, n, 0, 0, s));
  }

  // ----- the code

  class FrameSequence {
    const gif: Gif
    const bgColor: nat
    const preservedFrames: array<bool>
    const restoringFrames: array<int>

    /** The part of the constructor that follows DGifSlurp. */
    constructor (g: Gif)
      requires g.images != []
      requires g.screen.colorMap.Some? ==> g.screen.background as int < |g.screen.colorMap.value.colors|
      ensures gif == g && Prepared() && bgColor == BackgroundColor(g)
      ensures if g.screen.colorMap.Some? && ControlAt(g, 0).transparent == -1
              then HasColor(bgColor, g.screen.colorMap.value.colors[g.screen.background]) else bgColor == 0
    {
      hide HasColor, Opaque;
      if g.screen.colorMap.Some? {
        OpaqueBytes(g.screen.colorMap.value.colors[g.screen.background]);
      }
      gif := g;
      bgColor := BackgroundColor(g);
      var n := |g.images|;
      var preserved, restoring := new bool[n], new int[n];
      var lastUncleared := -1;
      for i := 0 to n
        invariant lastUncleared == LastUncleared(g, i)
        invariant forall k :: 0 <= k < i ==> restoring[k] == Restoring(g, k)
        invariant forall k :: 0 <= k < i ==> (preserved[k] <==> exists m :: 0 <= m < i && Restoring(g, m) == k)
      {
        var c := ControlOf(g.images[i].extensions);
        preserved[i] := false;
        restoring[i] := -1;
        if c.disposal == DISPOSE_PREVIOUS && lastUncleared >= 0 {
          preserved[lastUncleared] := true;
          restoring[i] := lastUncleared;
        }
        if !WillBeCleared(c) {
          lastUncleared := i;
        }
      }
      preservedFrames, restoringFrames := preserved, restoring;
    }

    /** The tables say which frames' canvases have to be kept, and for which frames. */
    ghost predicate Prepared()
      reads preservedFrames, restoringFrames
    {
      && preservedFrames.Length == restoringFrames.Length == |gif.images|
      && (forall k :: 0 <= k < |gif.images| ==> restoringFrames[k] == Restoring(gif, k))
      && (forall k :: 0 <= k < |gif.images| ==>
            (preservedFrames[k] <==> exists m :: 0 <= m < |gif.images| && Restoring(gif, m) == k))
    }
  }

  class FrameSequenceState {
    const seqn: FrameSequence
    var preserveBuffer: array2?<nat>
    var preserveBufferFrame: int

    constructor (s: FrameSequence)
      ensures seqn == s && preserveBuffer == null && preserveBufferFrame == -1
    {
      seqn := s;
      preserveBuffer, preserveBufferFrame := null, -1;
    }

    ghost predicate IsCanvas(out: array2<nat>) {
      out.Length0 == seqn.gif.screen.height && out.Length1 >= seqn.gif.screen.width
    }

    /** Set part of a row to one colour. */
    method SetLineColor(out: array2<nat>, y: nat, x: nat, color: nat, width: int)
      requires y < out.Length0 && x + width <= out.Length1
      modifies out
      ensures forall b, a :: 0 <= b < out.Length0 && 0 <= a < out.Length1 ==>
        out[b, a] == if b == y && x <= a < x + width then color else old(out[b, a])
    {
      var i := 0;
      while i < width
        invariant 0 <= i && (i == 0 || i <= width)
        invariant forall b, a :: 0 <= b < out.Length0 && 0 <= a < out.Length1 ==>
          out[b, a] == if b == y && x <= a < x + i then color else old(out[b, a])
      {
        out[y, x + i] := color;
        i := i + 1;
      }
    }

    /** The bitmap before frame 0. */
    method ClearBitmap(out: array2<nat>)
      requires IsCanvas(out)
      modifies out
      ensures forall y, x :: 0 <= y < out.Length0 && 0 <= x < out.Length1 ==>
        out[y, x] == if x < seqn.gif.screen.width then seqn.bgColor else old(out[y, x])
    {
      for y := 0 to seqn.gif.screen.height
        invariant forall b, a :: 0 <= b < out.Length0 && 0 <= a < out.Length1 ==>
          out[b, a] == if b < y && a < seqn.gif.screen.width then seqn.bgColor else old(out[b, a])
      {
        SetLineColor(out, y, 0, seqn.bgColor, seqn.gif.screen.width);
      }
    }

    /** Disposal to the background: make the frame's rectangle transparent. */
    method ClearFrame(out: array2<nat>, i: nat)
      requires IsCanvas(out) && i < |seqn.gif.images|
      modifies out
      ensures forall y, x :: 0 <= y < out.Length0 && 0 <= x < out.Length1 ==>
        out[y, x] == if InFrame(seqn.gif, i, x, y) then TRANSPARENT else old(out[y, x])
    {
      var d, width, height := seqn.gif.images[i].desc, seqn.gif.screen.width, seqn.gif.screen.height;
      var copyWidth, copyHeight := CopySize(d.left, d.width, width), CopySize(d.top, d.height, height);
      var y := d.top;
      while copyHeight > 0
        invariant d.top <= y && (copyHeight > 0 ==> y + copyHeight <= height)
        invariant y + copyHeight == d.top + CopySize(d.top, d.height, height)
        invariant copyHeight >= 0 || y == d.top
        invariant forall b, a :: 0 <= b < out.Length0 && 0 <= a < out.Length1 ==>
          out[b, a] == if InFrame(seqn.gif, i, a, b) && b < y then TRANSPARENT else old(out[b, a])
      {
        SetLineColor(out, y, d.left, TRANSPARENT, copyWidth);
        y := y + 1;
        copyHeight := copyHeight - 1;
      }
    }

    /** Draw one row of a frame, as far as it has colours. */
    method CopyLine(out: array2<nat>, y: nat, i: nat, m: ColorMap, width: int)
      requires Playable(seqn.gif) && IsCanvas(out) && i < |seqn.gif.images| && MapOf(seqn.gif, i) == Some(m)
      requires var d := seqn.gif.images[i].desc;
        d.top <= y < d.top + d.height && y < out.Length0 && width == CopySize(d.left, d.width, seqn.gif.screen.width)
      modifies out
      ensures forall b, a :: 0 <= b < out.Length0 && 0 <= a < out.Length1 ==>
        out[b, a] == if b == y then Over(Paint(seqn.gif, i, a, b), old(out[b, a])) else old(out[b, a])
    {
      var d, transparent := seqn.gif.images[i].desc, ControlOf(seqn.gif.images[i].extensions).transparent;
      var k := 0;
      while k < width
        invariant 0 <= k && (width > 0 ==> k <= width)
        invariant forall b, a :: 0 <= b < out.Length0 && 0 <= a < out.Length1 ==>
          out[b, a] == if b == y && a < d.left + k then Over(Paint(seqn.gif, i, a, b), old(out[b, a]))
            else old(out[b, a])
      {
        InRasterAt(d, d.left + k, y);
        var index := seqn.gif.images[i].raster[RowStart(y - d.top, d.width) + k];
        if index as int != transparent && index as int < |m.colors| {
          out[y, d.left + k] := Opaque(m.colors[index]);
        }
        k := k + 1;
      }
    }

    /** Draw a frame; one without a colour map cannot be drawn. */
    method PaintFrame(out: array2<nat>, i: nat)
      requires Playable(seqn.gif) && IsCanvas(out) && i < |seqn.gif.images|
      modifies out
      ensures forall y, x :: 0 <= y < out.Length0 && 0 <= x < out.Length1 ==>
        out[y, x] == Over(Paint(seqn.gif, i, x, y), old(out[y, x]))
      ensures forall y, x :: OnCanvas(seqn.gif, x, y) && InArea(seqn.gif.images[i].desc, x, y) ==>
        HasIndexColor(seqn.gif, i, x, y, out[y, x])
    {
      hide HasIndexColor;
      var m := MapOf(seqn.gif, i);
      if m.Some? {
        var d, width, height := seqn.gif.images[i].desc, seqn.gif.screen.width, seqn.gif.screen.height;
        var copyWidth, copyHeight := CopySize(d.left, d.width, width), CopySize(d.top, d.height, height);
        var y := d.top;
        while copyHeight > 0
          invariant d.top <= y && (copyHeight > 0 ==> y + copyHeight <= height)
          invariant y + copyHeight == d.top + CopySize(d.top, d.height, height)
          invariant copyHeight >= 0 || y == d.top
          invariant forall b, a :: 0 <= b < out.Length0 && 0 <= a < out.Length1 ==>
            out[b, a] == if b < y then Over(Paint(seqn.gif, i, a, b), old(out[b, a])) else old(out[b, a])
        {
          CopyLine(out, y, i, m.value, copyWidth);
          y := y + 1;
          copyHeight := copyHeight - 1;
        }
      }
      forall y, x | OnCanvas(seqn.gif, x, y) && InArea(seqn.gif.images[i].desc, x, y)
        ensures HasIndexColor(seqn.gif, i, x, y, out[y, x])
      {
        PaintHasIndexColor(seqn.gif, i, x, y, old(out[y, x]));
      }
    }

    // ----- what is on the canvas and in the buffer

    /** The canvas shows frame i. */
    ghost predicate Shows(out: array2<nat>, i: nat)
      requires Playable(seqn.gif) && IsCanvas(out) && i < |seqn.gif.images|
      reads out
    {
      forall y, x :: OnCanvas(seqn.gif, x, y) ==> out[y, x] == Shown(seqn.gif, seqn.bgColor, i, x, y)
    }

    ghost predicate IsBuffer(b: array2<nat>) {
      b.Length0 == seqn.gif.screen.height && b.Length1 == seqn.gif.screen.width
    }

    /** The shape of canvas and preserve buffer. */
    ghost predicate Fits(out: array2<nat>)
      reads this`preserveBuffer, this`preserveBufferFrame
    {
      && IsCanvas(out) && out != preserveBuffer && (preserveBuffer != null ==> IsBuffer(preserveBuffer))
      && -1 <= preserveBufferFrame < |seqn.gif.images| && (preserveBufferFrame >= 0 <==> preserveBuffer != null)
    }

    ghost function PxAt(out: array2<nat>, y: int, x: int): Px
      requires Fits(out) && OnCanvas(seqn.gif, x, y)
      reads this`preserveBuffer, this`preserveBufferFrame, preserveBuffer, out
    {
      Px(out[y, x], if preserveBuffer == null then None else Some(preserveBuffer[y, x]), preserveBufferFrame)
    }

    /** Only canvases that are needed are kept. */
    ghost predicate KeepsNeeded()
      reads this`preserveBufferFrame
    {
      preserveBufferFrame >= 0 ==> Preserved(seqn.gif, preserveBufferFrame)
    }

    /** The preserve buffer holds the canvas of the frame it is said to hold. */
    ghost predicate Preserves()
      requires Playable(seqn.gif)
      reads this`preserveBuffer, this`preserveBufferFrame, preserveBuffer
    {
      && -1 <= preserveBufferFrame < |seqn.gif.images| && KeepsNeeded()
      && (preserveBuffer != null ==> preserveBufferFrame >= 0 && IsBuffer(preserveBuffer))
      && (preserveBufferFrame >= 0 ==> preserveBuffer != null && forall y, x :: OnCanvas(seqn.gif, x, y) ==>
            preserveBuffer[y, x] == Shown(seqn.gif, seqn.bgColor, preserveBufferFrame, x, y))
    }

    method SavePreserveBuffer(out: array2<nat>, frameNr: nat)
      requires Fits(out) && frameNr < |seqn.gif.images|
      modifies this, preserveBuffer
      ensures Fits(out) && preserveBufferFrame == frameNr
      ensures preserveBuffer == old(preserveBuffer) || fresh(preserveBuffer)
      ensures old(preserveBufferFrame) == frameNr ==>
        forall y, x :: OnCanvas(seqn.gif, x, y) ==> PxAt(out, y, x) == old(PxAt(out, y, x))
      ensures old(preserveBufferFrame) != frameNr ==>
        forall y, x :: OnCanvas(seqn.gif, x, y) ==> PxAt(out, y, x) == Px(out[y, x], Some(out[y, x]), frameNr)
    {
      if frameNr == preserveBufferFrame {
        return;
      }
      preserveBufferFrame := frameNr;
      if preserveBuffer == null {
        preserveBuffer := new nat[seqn.gif.screen.height, seqn.gif.screen.width];
      }
      for y := 0 to seqn.gif.screen.height
        invariant preserveBuffer != null && Fits(out) && preserveBufferFrame == frameNr
        invariant preserveBuffer == old(preserveBuffer) || fresh(preserveBuffer)
        invariant forall b, a :: OnCanvas(seqn.gif, a, b) && b < y ==> preserveBuffer[b, a] == out[b, a]
      {
        forall x | 0 <= x < seqn.gif.screen.width {
          preserveBuffer[y, x] := out[y, x];
        }
      }
    }

    method RestorePreserveBuffer(out: array2<nat>)
      requires Fits(out)
      modifies out
      ensures forall y, x :: 0 <= y < out.Length0 && 0 <= x < out.Length1 ==>
        out[y, x] ==
          if preserveBuffer != null && x < seqn.gif.screen.width then preserveBuffer[y, x] else old(out[y, x])
    {
      if preserveBuffer == null {
        return;
      }
      for y := 0 to seqn.gif.screen.height
        invariant forall b, a :: 0 <= b < out.Length0 && 0 <= a < out.Length1 ==>
          out[b, a] == if b < y && a < seqn.gif.screen.width then preserveBuffer[b, a] else old(out[b, a])
      {
        forall x | 0 <= x < seqn.gif.screen.width {
          out[y, x] := preserveBuffer[y, x];
        }
      }
    }

    /** Dispose of frame i - 1, unless frame i covers it. */
    method Dispose(out: array2<nat>, i: nat)
      requires Fits(out) && 0 < i < |seqn.gif.images|
      modifies out
      ensures forall y, x :: OnCanvas(seqn.gif, x, y) ==> out[y, x] == Disposed(seqn.gif, i, x, y, old(PxAt(out, y, x)))
      ensures forall y, x :: 0 <= y < out.Length0 && seqn.gif.screen.width <= x < out.Length1 ==>
        out[y, x] == old(out[y, x])
    {
      var prev := ControlOf(seqn.gif.images[i - 1].extensions);
      var c := ControlOf(seqn.gif.images[i].extensions);
      var prevFrameCompletelyCovered := c.transparent == NO_TRANSPARENT_COLOR
        && CheckIfCover(seqn.gif.images[i].desc, seqn.gif.images[i - 1].desc);
      if WillBeCleared(prev) && !prevFrameCompletelyCovered {
        if prev.disposal == DISPOSE_BACKGROUND {
          ClearFrame(out, i - 1);
        } else if prev.disposal == DISPOSE_PREVIOUS {
          RestorePreserveBuffer(out);
        }
      }
    }

    /** The first half of drawFrame's loop: get the canvas ready for frame i. */
    method Prepare(out: array2<nat>, i: nat)
      requires seqn.Prepared() && Fits(out) && i < |seqn.gif.images|
      modifies this, preserveBuffer, out
      ensures Fits(out) && (preserveBuffer == old(preserveBuffer) || fresh(preserveBuffer))
      ensures forall y, x :: OnCanvas(seqn.gif, x, y) ==>
        PxAt(out, y, x) == Made(seqn.gif, seqn.bgColor, i, x, y, old(PxAt(out, y, x)))
      ensures preserveBufferFrame ==
        if i > 0 && Preserved(seqn.gif, i - 1) then i - 1 else old(preserveBufferFrame)
      ensures forall y, x :: 0 <= y < out.Length0 && seqn.gif.screen.width <= x < out.Length1 ==>
        out[y, x] == old(out[y, x])
    {
      hide Disposed;
      if i == 0 {
        ClearBitmap(out);
      } else {
        Dispose(out, i);
        if seqn.preservedFrames[i - 1] {
          SavePreserveBuffer(out, i - 1);
        }
      }
    }

    /** The second half: draw frame i, unless it is to be cleared and is not the one asked for. */
    method Finish(out: array2<nat>, i: nat, frameNr: nat)
      requires Playable(seqn.gif) && Fits(out) && i <= frameNr < |seqn.gif.images|
      modifies out
      ensures forall y, x :: 0 <= y < out.Length0 && 0 <= x < out.Length1 ==>
        out[y, x] == if i == frameNr || !Cleared(seqn.gif, i) then Over(Paint(seqn.gif, i, x, y), old(out[y, x]))
                     else old(out[y, x])
    {
      if i == frameNr || !WillBeCleared(ControlOf(seqn.gif.images[i].extensions)) {
        PaintFrame(out, i);
      }
    }

    /** drawFrame's first loop: the frame to start with, which is the first one of all if a canvas that will
        be restored is no longer in the buffer. */
    method FirstToDraw(frameNr: nat, previousFrameNr: int) returns (start: nat)
      requires seqn.Prepared() && frameNr < |seqn.gif.images|
      ensures start == StartOf(seqn.gif, frameNr, previousFrameNr, preserveBufferFrame)
    {
      start := if previousFrameNr + 1 > 0 then previousFrameNr + 1 else 0;
      var i := if start - 1 > 0 then start - 1 else 0;
      ghost var from := i;
      while i < frameNr
        invariant from <= i && (from < frameNr ==> i <= frameNr)
        invariant start == if previousFrameNr < 0 then 0
          else if exists m: nat :: from <= m < i && m < frameNr && Restoring(seqn.gif, m) >= 0
                                   && Restoring(seqn.gif, m) != preserveBufferFrame then 0
          else previousFrameNr + 1
      {
        var neededPreservedFrame := seqn.restoringFrames[i];
        if neededPreservedFrame >= 0 && preserveBufferFrame != neededPreservedFrame {
          start := 0;
        }
        i := i + 1;
      }
    }

    /** One turn of drawFrame's second loop. */
    method DrawOne(i: nat, frameNr: nat, out: array2<nat>)
      requires Playable(seqn.gif) && seqn.Prepared() && Fits(out) && i <= frameNr < |seqn.gif.images|
      modifies this, preserveBuffer, out
      ensures Fits(out) && (preserveBuffer == old(preserveBuffer) || fresh(preserveBuffer))
      ensures forall y, x :: OnCanvas(seqn.gif, x, y) ==>
        PxAt(out, y, x) == Processed(seqn.gif, seqn.bgColor, i, frameNr, x, y, old(PxAt(out, y, x)))
      ensures preserveBufferFrame ==
        if i > 0 && Preserved(seqn.gif, i - 1) then i - 1 else old(preserveBufferFrame)
      ensures forall y, x :: 0 <= y < out.Length0 && seqn.gif.screen.width <= x < out.Length1 ==>
        out[y, x] == old(out[y, x])
    {
      hide Playable, Made, Preserved;
      Prepare(out, i);
      label Ready:
      Finish(out, i, frameNr);
      assert forall y, x :: OnCanvas(seqn.gif, x, y) ==>
        PxAt(out, y, x).kept == old@Ready(PxAt(out, y, x)).kept && PxAt(out, y, x).keptFrame == preserveBufferFrame;
      assert forall y, x :: 0 <= y < out.Length0 && seqn.gif.screen.width <= x < out.Length1 ==>
        Paint(seqn.gif, i, x, y).None?;
    }

    /** drawFrame's second loop. */
    method DrawFrom(start: nat, frameNr: nat, out: array2<nat>)
      requires Playable(seqn.gif) && seqn.Prepared() && Fits(out) && frameNr < |seqn.gif.images|
      modifies this, preserveBuffer, out
      ensures Fits(out) && (preserveBuffer == old(preserveBuffer) || fresh(preserveBuffer))
      ensures forall y, x :: OnCanvas(seqn.gif, x, y) ==>
        PxAt(out, y, x) == Drawn(seqn.gif, seqn.bgColor, start, frameNr + 1, frameNr, x, y, old(PxAt(out, y, x)))
      ensures old(KeepsNeeded()) ==> KeepsNeeded()
      ensures start > frameNr ==>
        preserveBuffer == old(preserveBuffer) && preserveBufferFrame == old(preserveBufferFrame)
      ensures forall y, x :: 0 <= y < out.Length0 && 0 <= x < out.Length1 ==>
        start > frameNr || x >= seqn.gif.screen.width ==> out[y, x] == old(out[y, x])
    {
      hide Playable, Processed, Preserved;
      var i := start;
      while i <= frameNr
        invariant start <= i && (i > start ==> i <= frameNr + 1)
        invariant Fits(out) && (preserveBuffer == old(preserveBuffer) || fresh(preserveBuffer))
        invariant forall y, x :: OnCanvas(seqn.gif, x, y) ==>
          PxAt(out, y, x)
            == Drawn(seqn.gif, seqn.bgColor, start, if i <= frameNr then i else frameNr + 1, frameNr, x, y,
                                   old(PxAt(out, y, x)))
        invariant (i == start ==> unchanged(this) && unchanged(out)) && (old(KeepsNeeded()) ==> KeepsNeeded())
        invariant forall y, x :: 0 <= y < out.Length0 && seqn.gif.screen.width <= x < out.Length1 ==>
          out[y, x] == old(out[y, x])
      {
        DrawOne(i, frameNr, out);
        i := i + 1;
      }
    }

    /** drawFrame: bring the canvas from frame previousFrameNr (or from nothing, if that is negative) to frame
        frameNr.  If the file is harmless at every pixel the canvas then shows that frame, whatever was drawn before.
        It returns the delay in milliseconds of the frame before. */
    method DrawFrame(frameNr: nat, out: array2<nat>, previousFrameNr: int) returns (delayMs: nat)
      requires Playable(seqn.gif) && seqn.Prepared() && Fits(out) && frameNr < |seqn.gif.images|
      modifies this, preserveBuffer, out
      ensures Fits(out) && (preserveBuffer == old(preserveBuffer) || fresh(preserveBuffer))
      ensures forall y, x :: OnCanvas(seqn.gif, x, y) ==>
        PxAt(out, y, x) == DrawnFrame(seqn.gif, seqn.bgColor, frameNr, previousFrameNr, x, y, old(PxAt(out, y, x)))
      ensures
        HarmlessEverywhere(seqn.gif, seqn.bgColor) && old(Preserves())
        && (0 <= previousFrameNr < frameNr ==> old(Shows(out, previousFrameNr))) ==>
        Preserves() && (previousFrameNr < frameNr ==> Shows(out, frameNr))
      ensures previousFrameNr < frameNr ==>
        forall y, x :: OnCanvas(seqn.gif, x, y) && InArea(seqn.gif.images[frameNr].desc, x, y) ==>
          HasIndexColor(seqn.gif, frameNr, x, y, out[y, x])
      ensures forall y, x :: 0 <= y < out.Length0 && 0 <= x < out.Length1 ==>
        previousFrameNr >= frameNr || x >= seqn.gif.screen.width ==> out[y, x] == old(out[y, x])
      ensures delayMs == 10 * ControlAt(seqn.gif, if frameNr == 0 then |seqn.gif.images| - 1 else frameNr - 1).delay
    {
      hide Playable, WellMade, Harmless, Preserved, Shown, Before, Drawn, StartOf, HasIndexColor;
      var start := FirstToDraw(frameNr, previousFrameNr);
      if previousFrameNr >= frameNr {
        NoneGone(seqn.gif, frameNr, previousFrameNr, preserveBufferFrame);
      }
      ghost var right := HarmlessEverywhere(seqn.gif, seqn.bgColor) && Preserves()
        && (0 <= previousFrameNr < frameNr ==> Shows(out, previousFrameNr));
      DrawFrom(start, frameNr, out);
      if right {
        forall y, x | OnCanvas(seqn.gif, x, y)
          ensures KeptRight(seqn.gif, seqn.bgColor, x, y, PxAt(out, y, x))
          ensures previousFrameNr < frameNr ==> out[y, x] == Shown(seqn.gif, seqn.bgColor, frameNr, x, y)
        {
          HarmlessDrawn(seqn.gif, seqn.bgColor, frameNr, previousFrameNr, x, y, old(PxAt(out, y, x)));
        }
        assert forall y, x :: OnCanvas(seqn.gif, x, y) && preserveBufferFrame >= 0 ==>
          PxAt(out, y, x).kept == Some(preserveBuffer[y, x]);
      }
      if previousFrameNr < frameNr {
        forall y, x | OnCanvas(seqn.gif, x, y) && InArea(seqn.gif.images[frameNr].desc, x, y)
          ensures HasIndexColor(seqn.gif, frameNr, x, y, out[y, x])
        {
          LastPainted(seqn.gif, seqn.bgColor, frameNr, previousFrameNr, x, y, old(PxAt(out, y, x)));
        }
      }
      var maxFrame := |seqn.gif.images|;
      FrameBefore(frameNr, maxFrame);
      var lastFrame := (frameNr + maxFrame - 1) % maxFrame;
      delayMs := 10 * ControlOf(seqn.gif.images[lastFrame].extensions).delay;
    }
  }
}
