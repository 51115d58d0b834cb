/** Playing a WebP animation (FrameSequence_webp.cpp): key frames, skipped frames and two swapped buffers. */
module WebpAnimation {
  import opened GifFormat

  type Canvas = array2<nat>

  /** A frame as the demuxer delivers it; `pixels` is None if they cannot be decoded. */
  datatype Frame = Frame(x: nat, y: nat, width: nat, height: nat, hasAlpha: bool, blend: bool,
                         disposeBackground: bool, duration: nat, pixels: Option<seq<nat>>)

  datatype Movie = Movie(width: nat, height: nat, frames: seq<Frame>)

  const TRANSPARENT: nat := 0

  /** No bit of COLOR_8888_ALPHA_MASK is set. */
  predicate NoAlpha(c: nat) { c / 0x100_0000 % 0x100 == 0 }

  predicate FrameContainsPixel(f: Frame, x: int, y: int) {
    f.x <= x < f.x + f.width && f.y <= y < f.y + f.height
  }

  predicate CheckIfCover(target: Frame, covered: Frame) {
    && target.x <= covered.x && covered.x + covered.width <= target.x + target.width
    && target.y <= covered.y && covered.y + covered.height <= target.y + target.height
  }

  /** That is so exactly if every pixel of the one is in the other. */
  lemma CoverHasAll(target: Frame, covered: Frame)
    requires covered.width > 0 && covered.height > 0
    ensures CheckIfCover(target, covered) <==>
      forall x, y :: FrameContainsPixel(covered, x, y) ==> FrameContainsPixel(target, x, y)
  {
    var right, bottom := covered.x + covered.width - 1, covered.y + covered.height - 1;
    assert FrameContainsPixel(covered, covered.x, covered.y) && FrameContainsPixel(covered, right, bottom);
  }

  predicate IsFullFrame(m: Movie, f: Frame) { f.width == m.width && f.height == m.height }

  predicate OnCanvas(m: Movie, x: int, y: int) { 0 <= x < m.width && 0 <= y < m.height }

  /** A frame within the canvas is a full one exactly if every pixel of the canvas is in it. */
  lemma FullHasAll(m: Movie, f: Frame)
    requires f.x + f.width <= m.width && f.y + f.height <= m.height && m.width > 0 && m.height > 0
    ensures IsFullFrame(m, f) <==> forall x, y :: OnCanvas(m, x, y) ==> FrameContainsPixel(f, x, y)
  {
    assert OnCanvas(m, 0, 0) && OnCanvas(m, m.width - 1, m.height - 1);
  }

  lemma InPixelsAt(f: Frame, x: int, y: int)
    requires FrameContainsPixel(f, x, y)
    ensures RowStart(y - f.y, f.width) + (x - f.x) < RowStart(f.height, f.width)
  {
    RowFits(y - f.y, f.height, f.width);
  }

  /** Decoded pixels are premultiplied, and without an alpha channel they are opaque. */
  ghost predicate PixelsSuit(f: Frame) {
    f.pixels.Some? ==>
      && |f.pixels.value| == RowStart(f.height, f.width)
      && (forall k :: 0 <= k < |f.pixels.value| ==> NoAlpha(f.pixels.value[k]) ==> f.pixels.value[k] == TRANSPARENT)
      && (!f.hasAlpha ==> forall k :: 0 <= k < |f.pixels.value| ==> !NoAlpha(f.pixels.value[k]))
  }

  /** A file that the demuxer accepts. */
  ghost predicate Playable(m: Movie) {
    && m.frames != []
    && forall i :: 0 <= i < |m.frames| ==>
         && m.frames[i].x + m.frames[i].width <= m.width && m.frames[i].y + m.frames[i].height <= m.height
         && PixelsSuit(m.frames[i])
  }

  /** The decoded pixel of a frame. */
  function Pixel(m: Movie, i: nat, x: int, y: int): nat
    requires i < |m.frames| && Playable(m) && m.frames[i].pixels.Some? && FrameContainsPixel(m.frames[i], x, y)
  {
    var f := m.frames[i];
    InPixelsAt(f, x, y);
    f.pixels.value[RowStart(y - f.y, f.width) + (x - f.x)]
  }

  /** A pixel of the canvas that frame i has been drawn on: where the frame replaces what is below, or the frame's own
      pixel there is not transparent (its byte of alpha is not 0), it is the frame's own. */
  ghost predicate HasOwnPixel(f: Frame, x: int, y: int, v: nat)
    requires FrameContainsPixel(f, x, y)
  {
    var at := (y - f.y) * f.width + (x - f.x);
    f.pixels.Some? && 0 <= at < |f.pixels.value| && (!f.blend || f.pixels.value[at] / 0x100_0000 % 0x100 != 0) ==>
      v == f.pixels.value[at]
  }

  // ----- the naive compositor

  /** What frame i puts on a pixel: nothing where it blends and is transparent. */
  function Paint(m: Movie, i: nat, x: int, y: int): Option<nat>
    requires i < |m.frames| && Playable(m)
  {
    if m.frames[i].pixels.None? || !FrameContainsPixel(m.frames[i], x, y) then None
    else if m.frames[i].blend && NoAlpha(Pixel(m, i, x, y)) then None
    else Some(Pixel(m, i, x, y))
  }

  /** A pixel after frame i, if all frames are drawn and disposed of in turn, */
  function Shown(m: Movie, i: nat, x: int, y: int): nat
    requires i < |m.frames| && Playable(m)
    decreases i, 1
  {
    match Paint(m, i, x, y)
    case Some(c) => c
    case None => Before(m, i, x, y)
  }

  /** and before it. */
  function Before(m: Movie, i: nat, x: int, y: int): nat
    requires i < |m.frames| && Playable(m)
    decreases i, 0
  {
    if i == 0 || (m.frames[i - 1].disposeBackground && FrameContainsPixel(m.frames[i - 1], x, y)) then TRANSPARENT
    else Shown(m, i - 1, x, y)
  }

  lemma ShownHasOwnPixel(m: Movie, i: nat, x: int, y: int)
    requires i < |m.frames| && Playable(m) && FrameContainsPixel(m.frames[i], x, y)
    ensures HasOwnPixel(m.frames[i], x, y, Shown(m, i, x, y))
  {
    hide Before;
  }

  /** Elsewhere the canvas keeps what the frames before have left: nothing at all in the area of a frame that is
      disposed of to the background. */
  lemma ShownElsewhere(m: Movie, i: nat, x: int, y: int)
    requires i < |m.frames| && Playable(m) && m.frames[i].x <= x && m.frames[i].y <= y
    ensures var f := m.frames[i];
      var at := (y - f.y) * f.width + (x - f.x);
      (x >= f.x + f.width || y >= f.y + f.height || f.pixels.None?
       || (at < |f.pixels.value| && f.blend && f.pixels.value[at] / 0x100_0000 % 0x100 == 0)) ==>
        Shown(m, i, x, y) == Before(m, i, x, y)
    ensures Before(m, 0, x, y) == 0
    ensures i + 1 < |m.frames| ==>
      Before(m, i + 1, x, y) ==
      if m.frames[i].disposeBackground
         && x < m.frames[i].x + m.frames[i].width && y < m.frames[i].y + m.frames[i].height
      then 0 else Shown(m, i, x, y)
  {
    hide Playable;
    if FrameContainsPixel(m.frames[i], x, y) {
      InPixelsAt(m.frames[i], x, y);
    }
  }

  // ----- key frames

  predicate Replaces(f: Frame) { !f.hasAlpha || !f.blend }

  function KeyFrame(m: Movie, i: nat): bool
    requires i < |m.frames|
  {
    i == 0 || (Replaces(m.frames[i]) && IsFullFrame(m, m.frames[i]))
    || (m.frames[i - 1].disposeBackground && (IsFullFrame(m, m.frames[i - 1]) || KeyFrame(m, i - 1)))
  }

  /** The frames from k on are all disposed of to the background, and the first of them fills the canvas or has nothing
      below it; or there are none, and frame i itself replaces all of the canvas. */
  predicate ClearsFrom(m: Movie, k: nat, i: nat)
    requires k <= i < |m.frames|
  {
    && (forall j :: k <= j < i ==> m.frames[j].disposeBackground)
    && (k == 0 || (IsFullFrame(m, m.frames[k]) && (k < i || !m.frames[k].hasAlpha || !m.frames[k].blend)))
  }

  /** Which frames are key frames, without the recursion. */
  lemma {:induction false} KeyFrameIff(m: Movie, i: nat)
    requires i < |m.frames|
    ensures KeyFrame(m, i) <==> exists k: nat :: k <= i && ClearsFrom(m, k, i)
  {
    hide IsFullFrame;
    if i > 0 {
      var p := i - 1;
      KeyFrameIff(m, p);
      if k: nat :| k < i && ClearsFrom(m, k, i) {
        assert ClearsFrom(m, p, i) || ClearsFrom(m, k, p);
      }
      if k: nat :| k < i && ClearsFrom(m, k, p) {
        assert m.frames[p].disposeBackground ==> ClearsFrom(m, k, i);
      }
      assert ClearsFrom(m, i, i) <==> Replaces(m.frames[i]) && IsFullFrame(m, m.frames[i]);
      assert ClearsFrom(m, p, i) <==> m.frames[p].disposeBackground && (p == 0 || IsFullFrame(m, m.frames[p]));
    } else {
      assert ClearsFrom(m, 0, 0);
    }
  }

  /** A key frame either starts on a blank canvas, or paints all of it. */
  lemma {:induction false} KeyFrameStartsBlank(m: Movie, i: nat, x: int, y: int)
    requires i < |m.frames| && Playable(m) && KeyFrame(m, i) && OnCanvas(m, x, y)
    ensures Before(m, i, x, y) == TRANSPARENT || (Replaces(m.frames[i]) && IsFullFrame(m, m.frames[i]))
  {
    if i > 0 && !(Replaces(m.frames[i]) && IsFullFrame(m, m.frames[i])) && !IsFullFrame(m, m.frames[i - 1]) {
      KeyFrameStartsBlank(m, i - 1, x, y);
    }
  }

  /** So a key frame needs no earlier frame: it looks as if it were the first one. */
  lemma KeyFrameAlone(m: Movie, i: nat, x: int, y: int)
    requires i < |m.frames| && Playable(m) && KeyFrame(m, i) && OnCanvas(m, x, y) && m.frames[i].pixels.Some?
    ensures Shown(m, i, x, y) == if FrameContainsPixel(m.frames[i], x, y) then Pixel(m, i, x, y) else TRANSPARENT
  {
    KeyFrameStartsBlank(m, i, x, y);
    if FrameContainsPixel(m.frames[i], x, y) {
      InPixelsAt(m.frames[i], x, y);
    }
  }

  // ----- the code

  class FrameSequence {
    const movie: Movie
    const isKeyFrame: array<bool>

    /** constructDependencyChain */
    constructor (m: Movie)
      requires m.frames != []
      ensures movie == m && Prepared()
    {
      movie := m;
      var isKey := new bool[|m.frames|];
      var curr := m.frames[0];
      isKey[0] := true;
      for i := 1 to |m.frames|
        invariant curr == m.frames[i - 1] && forall k :: 0 <= k < i ==> isKey[k] == KeyFrame(m, k)
      {
        var prev := curr;
        curr := m.frames[i];
        if (!curr.hasAlpha || !curr.blend) && IsFullFrame(m, curr) {
          isKey[i] := true;
        } else {
          isKey[i] := prev.disposeBackground && (IsFullFrame(m, prev) || isKey[i - 1]);
        }
      }
      isKeyFrame := isKey;
    }

    ghost predicate Prepared()
      reads isKeyFrame
    {
      isKeyFrame.Length == |movie.frames| && forall k :: 0 <= k < |movie.frames| ==> isKeyFrame[k] == KeyFrame(movie, k)
    }
  }

  class FrameSequenceState {
    const seqn: FrameSequence
    const preservedBuffer: Canvas

    constructor (s: FrameSequence)
      ensures seqn == s && IsCanvas(preservedBuffer)
      ensures preservedBuffer.Length1 == s.movie.width && fresh(preservedBuffer)
    {
      seqn := s;
      preservedBuffer := new nat[s.movie.height, s.movie.width];
    }

    ghost predicate IsCanvas(c: Canvas) {
      c.Length0 == seqn.movie.height && c.Length1 >= seqn.movie.width
    }

    /** The canvas shows frame i. */
    ghost predicate Shows(c: Canvas, i: nat)
      requires Playable(seqn.movie) && IsCanvas(c) && i < |seqn.movie.frames|
      reads c
    {
      forall y, x :: OnCanvas(seqn.movie, x, y) ==> c[y, x] == Shown(seqn.movie, i, x, y)
    }

    /** The canvas shows frame i, but for what its disposal will clear. */
    ghost predicate Nearly(c: Canvas, i: nat)
      requires Playable(seqn.movie) && IsCanvas(c) && i < |seqn.movie.frames|
      reads c
    {
      forall y, x :: OnCanvas(seqn.movie, x, y) ==>
        || c[y, x] == Shown(seqn.movie, i, x, y)
        || (seqn.movie.frames[i].disposeBackground && FrameContainsPixel(seqn.movie.frames[i], x, y))
    }

    /** Frame i covers the frame before it, which will therefore not be cleared. */
    predicate Covers(i: nat)
      requires 0 < i < |seqn.movie.frames|
    {
      Replaces(seqn.movie.frames[i]) && CheckIfCover(seqn.movie.frames[i], seqn.movie.frames[i - 1])
    }

    /** Frame i may be drawn. */
    ghost predicate Ready(c: Canvas, i: nat)
      requires Playable(seqn.movie) && IsCanvas(c) && i < |seqn.movie.frames|
      reads c
    {
      forall y, x :: OnCanvas(seqn.movie, x, y) ==>
        if KeyFrame(seqn.movie, i) then c[y, x] == TRANSPARENT
        else
          || c[y, x] == Before(seqn.movie, i, x, y)
          || (Covers(i) && FrameContainsPixel(seqn.movie.frames[i - 1], x, y))
    }

    /** Clear part of a row to transparent. */
    method ClearLine(c: Canvas, y: nat, x: nat, width: nat)
      requires y < c.Length0 && x + width <= c.Length1
      modifies c
      ensures forall b, a :: 0 <= b < c.Length0 && 0 <= a < c.Length1 ==>
        c[b, a] == if b == y && x <= a < x + width then TRANSPARENT else old(c[b, a])
    {
      forall k | x <= k < x + width {
        c[y, k] := TRANSPARENT;
      }
    }

    method CopyFrame(src: Canvas, dst: Canvas)
      requires IsCanvas(src) && IsCanvas(dst) && src != dst
      modifies dst
      ensures forall y, x :: 0 <= y < dst.Length0 && 0 <= x < dst.Length1 ==>
        dst[y, x] == if x < seqn.movie.width then src[y, x] else old(dst[y, x])
    {
      for y := 0 to seqn.movie.height
        invariant forall b, a :: 0 <= b < dst.Length0 && 0 <= a < dst.Length1 ==>
          dst[b, a] == if b < y && a < seqn.movie.width then src[b, a] else old(dst[b, a])
      {
        forall x | 0 <= x < seqn.movie.width {
          dst[y, x] := src[y, x];
        }
      }
    }

    method ClearRect(c: Canvas, x: nat, y: nat, width: nat, height: nat)
      requires y + height <= c.Length0 && x + width <= c.Length1
      modifies c
      ensures forall b, a :: 0 <= b < c.Length0 && 0 <= a < c.Length1 ==>
        c[b, a] == if y <= b < y + height && x <= a < x + width then TRANSPARENT else old(c[b, a])
    {
      for j := 0 to height
        invariant forall b, a :: 0 <= b < c.Length0 && 0 <= a < c.Length1 ==>
          c[b, a] == if y <= b < y + j && x <= a < x + width then TRANSPARENT else old(c[b, a])
      {
        ClearLine(c, y + j, x, width);
      }
    }

    /** What frame i is drawn on: a blank canvas, or that of the frame before, which has been disposed of. */
    method InitializeFrame(i: nat, currBuffer: Canvas, prev: Frame, prevBuffer: Canvas)
      requires Playable(seqn.movie) && seqn.Prepared() && IsCanvas(currBuffer) && IsCanvas(prevBuffer)
      requires i < |seqn.movie.frames| && (i > 0 ==> prev == seqn.movie.frames[i - 1])
      requires !KeyFrame(seqn.movie, i) ==> prevBuffer != currBuffer && Nearly(prevBuffer, i - 1)
      modifies currBuffer
      ensures Ready(currBuffer, i)
      ensures forall y, x :: 0 <= y < currBuffer.Length0 && seqn.movie.width <= x < currBuffer.Length1 ==>
        currBuffer[y, x] == old(currBuffer[y, x])
    {
      if seqn.isKeyFrame[i] {
        ClearRect(currBuffer, 0, 0, seqn.movie.width, seqn.movie.height);
      } else {
        var curr := seqn.movie.frames[i];
        CopyFrame(prevBuffer, currBuffer);
        var prevFrameCompletelyCovered := (!curr.hasAlpha || !curr.blend) && CheckIfCover(curr, prev);
        if prev.disposeBackground && !prevFrameCompletelyCovered {
          ClearRect(currBuffer, prev.x, prev.y, prev.width, prev.height);
        }
      }
    }

    /** WebPDecode into the frame's rectangle. */
    method Decode(i: nat, c: Canvas) returns (ok: bool)
      requires Playable(seqn.movie) && IsCanvas(c) && i < |seqn.movie.frames|
      modifies c
      ensures ok <==> seqn.movie.frames[i].pixels.Some?
      ensures ok ==> forall y, x :: 0 <= y < c.Length0 && 0 <= x < c.Length1 ==>
        c[y, x] == if FrameContainsPixel(seqn.movie.frames[i], x, y) then Pixel(seqn.movie, i, x, y) else old(c[y, x])
      ensures !ok ==> forall y, x :: 0 <= y < c.Length0 && 0 <= x < c.Length1 ==> c[y, x] == old(c[y, x])
    {
      var f := seqn.movie.frames[i];
      if f.pixels.None? {
        return false;
      }
      for j := 0 to f.height
        invariant forall b, a :: 0 <= b < c.Length0 && 0 <= a < c.Length1 ==>
          c[b, a] == if FrameContainsPixel(f, a, b) && b < f.y + j then Pixel(seqn.movie, i, a, b) else old(c[b, a])
      {
        var y := f.y + j;
        forall k | f.x <= k < f.x + f.width {
          c[y, k] := Pixel(seqn.movie, i, k, y);
        }
      }
      return true;
    }

    /** Give the transparent pixels of frame i the value they had on the canvas before, except (if `cleared`)
        where the frame before has been disposed of. */
    method FixUp(i: nat, currBuffer: Canvas, prev: Frame, prevBuffer: Canvas, cleared: bool)
      requires Playable(seqn.movie) && IsCanvas(currBuffer) && IsCanvas(prevBuffer) && currBuffer != prevBuffer
      requires i < |seqn.movie.frames|
      modifies currBuffer
      ensures forall y, x :: 0 <= y < currBuffer.Length0 && 0 <= x < currBuffer.Length1 ==>
        currBuffer[y, x] ==
          if FrameContainsPixel(seqn.movie.frames[i], x, y) && NoAlpha(old(currBuffer[y, x]))
             && !(cleared && FrameContainsPixel(prev, x, y))
          then prevBuffer[y, x] else old(currBuffer[y, x])
    {
      var f := seqn.movie.frames[i];
      for y := 0 to f.height
        invariant forall b, a :: 0 <= b < currBuffer.Length0 && 0 <= a < currBuffer.Length1 ==>
          currBuffer[b, a] ==
            if FrameContainsPixel(f, a, b) && b < f.y + y && NoAlpha(old(currBuffer[b, a]))
               && !(cleared && FrameContainsPixel(prev, a, b))
            then prevBuffer[b, a] else old(currBuffer[b, a])
      {
        var canvasY := f.y + y;
        for x := 0 to f.width
          invariant forall b, a :: 0 <= b < currBuffer.Length0 && 0 <= a < currBuffer.Length1 ==>
            currBuffer[b, a] ==
              if FrameContainsPixel(f, a, b) && (b < canvasY || (b == canvasY && a < f.x + x))
                 && NoAlpha(old(currBuffer[b, a]))
                 && !(cleared && FrameContainsPixel(prev, a, b))
              then prevBuffer[b, a] else old(currBuffer[b, a])
        {
          var canvasX := f.x + x;
          if NoAlpha(currBuffer[canvasY, canvasX]) && (!cleared || !FrameContainsPixel(prev, canvasX, canvasY)) {
            currBuffer[canvasY, canvasX] := prevBuffer[canvasY, canvasX];
          }
        }
      }
    }

    method DecodeFrame(i: nat, currBuffer: Canvas, prev: Frame, prevBuffer: Canvas) returns (ok: bool)
      requires Playable(seqn.movie) && seqn.Prepared() && IsCanvas(currBuffer) && IsCanvas(prevBuffer)
      requires i < |seqn.movie.frames| && (i > 0 ==> prev == seqn.movie.frames[i - 1]) && Ready(currBuffer, i)
      requires !KeyFrame(seqn.movie, i) ==> prevBuffer != currBuffer && Nearly(prevBuffer, i - 1)
      modifies currBuffer
      ensures ok <==> seqn.movie.frames[i].pixels.Some?
      ensures ok ==> Shows(currBuffer, i)
      ensures forall y, x :: 0 <= y < currBuffer.Length0 && seqn.movie.width <= x < currBuffer.Length1 ==>
        currBuffer[y, x] == old(currBuffer[y, x])
    {
      ok := Decode(i, currBuffer);
      if !ok {
        return;
      }
      if seqn.movie.frames[i].blend && !seqn.isKeyFrame[i] {
        FixUp(i, currBuffer, prev, prevBuffer, prev.disposeBackground);
      }
      forall y, x | OnCanvas(seqn.movie, x, y)
        ensures currBuffer[y, x] == Shown(seqn.movie, i, x, y)
      {
        DrawnPixel(i, x, y, old(currBuffer[y, x]), prevBuffer[y, x]);
      }
    }

    /** A pixel once frame i is drawn, from what it was before and what it was on the canvas before that. */
    lemma DrawnPixel(i: nat, x: int, y: int, ready: nat, before: nat)
      requires Playable(seqn.movie) && i < |seqn.movie.frames|
      requires seqn.movie.frames[i].pixels.Some? && OnCanvas(seqn.movie, x, y)
      requires if KeyFrame(seqn.movie, i) then ready == TRANSPARENT
        else ready == Before(seqn.movie, i, x, y) || (Covers(i) && FrameContainsPixel(seqn.movie.frames[i - 1], x, y))
      requires !KeyFrame(seqn.movie, i) ==>
        || before == Shown(seqn.movie, i - 1, x, y)
        || (seqn.movie.frames[i - 1].disposeBackground && FrameContainsPixel(seqn.movie.frames[i - 1], x, y))
      ensures Shown(seqn.movie, i, x, y) ==
        if !FrameContainsPixel(seqn.movie.frames[i], x, y) then ready
        else if seqn.movie.frames[i].blend && !KeyFrame(seqn.movie, i) && NoAlpha(Pixel(seqn.movie, i, x, y))
             && !(seqn.movie.frames[i - 1].disposeBackground && FrameContainsPixel(seqn.movie.frames[i - 1], x, y))
        then before else Pixel(seqn.movie, i, x, y)
    {
      if KeyFrame(seqn.movie, i) {
        KeyFrameAlone(seqn.movie, i, x, y);
      } else if FrameContainsPixel(seqn.movie.frames[i], x, y) {
        InPixelsAt(seqn.movie.frames[i], x, y);
      }
    }

    /** The first frame to decode: the last key frame after previousFrameNr, if there is one. */
    method FirstToDecode(frameNr: nat, previousFrameNr: int) returns (start: nat)
      requires seqn.Prepared() && frameNr < |seqn.movie.frames|
      ensures previousFrameNr >= frameNr ==> start == previousFrameNr + 1
      ensures previousFrameNr < frameNr ==>
        && previousFrameNr < start <= frameNr && (KeyFrame(seqn.movie, start) || 0 < start == previousFrameNr + 1)
        && forall k :: start < k <= frameNr ==> !KeyFrame(seqn.movie, k)
    {
      start := if previousFrameNr + 1 > 0 then previousFrameNr + 1 else 0;
      var earliestRequired := frameNr;
      while earliestRequired > start
        invariant previousFrameNr < frameNr ==> start <= earliestRequired <= frameNr
        invariant start == if previousFrameNr + 1 > 0 then previousFrameNr + 1 else 0
        invariant forall k: nat :: earliestRequired < k <= frameNr ==> !KeyFrame(seqn.movie, k)
      {
        if seqn.isKeyFrame[earliestRequired] {
          start := earliestRequired;
          break;
        }
        earliestRequired := earliestRequired - 1;
      }
    }

    /** drawFrame's loop: the two buffers change places with every frame. */
    method DrawFrom(start: nat, frameNr: nat, out: Canvas) returns (ok: bool, currBuffer: Canvas)
      requires Playable(seqn.movie) && seqn.Prepared()
      requires IsCanvas(out) && IsCanvas(preservedBuffer) && out != preservedBuffer
      requires frameNr < |seqn.movie.frames|
      requires start <= frameNr ==> KeyFrame(seqn.movie, start) || (start > 0 && Shows(out, start - 1))
      modifies out, preservedBuffer
      ensures currBuffer == out || currBuffer == preservedBuffer
      ensures start > frameNr ==> ok && currBuffer == out
      ensures start > frameNr ==>
        forall y, x :: 0 <= y < out.Length0 && 0 <= x < out.Length1 ==> out[y, x] == old(out[y, x])
      ensures start <= frameNr && ok ==> Shows(currBuffer, frameNr)
      ensures (forall k :: 0 <= k < |seqn.movie.frames| ==> seqn.movie.frames[k].pixels.Some?) ==> ok
      ensures forall y, x :: 0 <= y < out.Length0 && seqn.movie.width <= x < out.Length1 ==> out[y, x] == old(out[y, x])
    {
      hide Playable, Shown, Before, Paint, KeyFrame;
      var prevBuffer := if frameNr == 0 then out else preservedBuffer;
      currBuffer := out;
      var curr :=
        if start == 0 || start - 1 >= |seqn.movie.frames| then
          seqn.movie.frames[|seqn.movie.frames| - 1]
        else
          seqn.movie.frames[start - 1];
      ok := true;
      var i := start;
      while i <= frameNr
        invariant ok && start <= i && i <= (if start <= frameNr then frameNr + 1 else start)
        invariant {currBuffer, prevBuffer} <= {out, preservedBuffer} && (frameNr > 0 ==> currBuffer != prevBuffer)
        invariant 0 < i <= frameNr ==> curr == seqn.movie.frames[i - 1]
        invariant i == start ==> currBuffer == out
        invariant i == start ==>
          forall y, x :: 0 <= y < out.Length0 && 0 <= x < out.Length1 ==> out[y, x] == old(out[y, x])
        invariant i <= frameNr ==> KeyFrame(seqn.movie, i) || (i > 0 && Nearly(currBuffer, i - 1))
        invariant start <= frameNr && i == frameNr + 1 ==> Shows(currBuffer, frameNr)
        invariant forall y, x :: 0 <= y < out.Length0 && seqn.movie.width <= x < out.Length1 ==>
          out[y, x] == old(out[y, x])
      {
        var prev := curr;
        curr := seqn.movie.frames[i];
        prevBuffer, currBuffer := currBuffer, prevBuffer;
        ok := DrawOne(i, frameNr, currBuffer, prev, prevBuffer);
        if !ok {
          return;
        }
        i := i + 1;
      }
    }

    /** One turn of the loop: a frame that is to be cleared, and is not the one asked for, is not decoded. */
    method DrawOne(i: nat, frameNr: nat, currBuffer: Canvas, prev: Frame, prevBuffer: Canvas) returns (ok: bool)
      requires Playable(seqn.movie) && seqn.Prepared() && IsCanvas(currBuffer) && IsCanvas(prevBuffer)
      requires i <= frameNr < |seqn.movie.frames| && (i > 0 ==> prev == seqn.movie.frames[i - 1])
      requires KeyFrame(seqn.movie, i) || (i > 0 && prevBuffer != currBuffer && Nearly(prevBuffer, i - 1))
      modifies currBuffer
      ensures ok ==> Nearly(currBuffer, i) && (i == frameNr ==> Shows(currBuffer, i))
      ensures seqn.movie.frames[i].pixels.Some? ==> ok
      ensures forall y, x :: 0 <= y < currBuffer.Length0 && seqn.movie.width <= x < currBuffer.Length1 ==>
        currBuffer[y, x] == old(currBuffer[y, x])
    {
      InitializeFrame(i, currBuffer, prev, prevBuffer);
      if i == frameNr || !seqn.movie.frames[i].disposeBackground {
        ok := DecodeFrame(i, currBuffer, prev, prevBuffer);
      } else {
        ok := true;
        forall y, x | OnCanvas(seqn.movie, x, y)
          ensures currBuffer[y, x] == Shown(seqn.movie, i, x, y) || FrameContainsPixel(seqn.movie.frames[i], x, y)
        {
          SkippedPixel(i, x, y, currBuffer[y, x]);
        }
      }
    }

    /** Outside a skipped frame nothing is missing. */
    lemma SkippedPixel(i: nat, x: int, y: int, ready: nat)
      requires Playable(seqn.movie) && i < |seqn.movie.frames| && OnCanvas(seqn.movie, x, y)
      requires if KeyFrame(seqn.movie, i) then ready == TRANSPARENT
        else ready == Before(seqn.movie, i, x, y) || (Covers(i) && FrameContainsPixel(seqn.movie.frames[i - 1], x, y))
      ensures ready == Shown(seqn.movie, i, x, y) || FrameContainsPixel(seqn.movie.frames[i], x, y)
    {
      if KeyFrame(seqn.movie, i) {
        KeyFrameStartsBlank(seqn.movie, i, x, y);
      }
    }

    /** drawFrame: bring the canvas from frame previousFrameNr (or from nothing, if that is negative) to frame
        frameNr.  It returns the duration of the frame before, or -1 if a frame cannot be decoded. */
    method DrawFrame(frameNr: nat, out: Canvas, previousFrameNr: int) returns (duration: int)
      requires Playable(seqn.movie) && seqn.Prepared()
      requires IsCanvas(out) && IsCanvas(preservedBuffer) && out != preservedBuffer
      requires frameNr < |seqn.movie.frames|
      requires 0 <= previousFrameNr < frameNr ==> Shows(out, previousFrameNr)
      modifies out, preservedBuffer
      ensures duration != -1 && previousFrameNr < frameNr ==> Shows(out, frameNr)
      ensures duration != -1 && previousFrameNr < frameNr ==>
        forall y, x :: OnCanvas(seqn.movie, x, y) && FrameContainsPixel(seqn.movie.frames[frameNr], x, y) ==>
          HasOwnPixel(seqn.movie.frames[frameNr], x, y, out[y, x])
      ensures (forall k :: 0 <= k < |seqn.movie.frames| ==> seqn.movie.frames[k].pixels.Some?) ==> duration != -1
      ensures duration != -1 ==>
        duration == seqn.movie.frames[if frameNr == 0 then |seqn.movie.frames| - 1 else frameNr - 1].duration
      ensures forall y, x :: 0 <= y < out.Length0 && 0 <= x < out.Length1 ==>
        previousFrameNr >= frameNr || x >= seqn.movie.width ==> out[y, x] == old(out[y, x])
    {
      hide Playable, Shown, Before, Paint, KeyFrame, HasOwnPixel;
      var start := FirstToDecode(frameNr, previousFrameNr);
      var ok, currBuffer := DrawFrom(start, frameNr, out);
      if !ok {
        return -1;
      }
      if out != currBuffer {
        CopyFrame(currBuffer, out);
      }
      if previousFrameNr < frameNr {
        forall y, x | OnCanvas(seqn.movie, x, y) && FrameContainsPixel(seqn.movie.frames[frameNr], x, y)
          ensures HasOwnPixel(seqn.movie.frames[frameNr], x, y, out[y, x])
        {
          ShownHasOwnPixel(seqn.movie, frameNr, x, y);
        }
      }
      var frameCount := |seqn.movie.frames|;
      FrameBefore(frameNr, frameCount);
      var lastFrame := (frameNr + frameCount - 1) % frameCount;
      return seqn.movie.frames[lastFrame].duration;
    }
  }
}
