/** Compressing a raster and decompressing it again, cut into lines in any two ways. */
module LzwRoundTrip {
  import opened Bits
  import opened GifDecoder
  import opened GifEncoder
  import opened Lzw
  import opened SubBlocks

  /** Line lengths that add up to `total`. */
  ghost predicate Cuts(lines: seq<nat>, total: nat) {
    if lines == [] then total == 0
    else 0 < lines[0] <= total && Cuts(lines[1..], total - lines[0])
  }

  lemma FirstCut(lines: seq<nat>, total: nat)
    requires Cuts(lines, total)
    ensures if lines == [] then total == 0 else 0 < lines[0] <= total && Cuts(lines[1..], total - lines[0])
  {
  }

  /** EGifSetupCompress, then EGifPutLine for each line. */
  method Compress(mapBits: nat, raster: array<byte>, lines: seq<nat>) returns (e: EGif)
    requires mapBits <= 8 && 0 < raster.Length && Cuts(lines, raster.Length)
    modifies raster
    ensures fresh(e) && e.bitsPerPixel == (if mapBits < 2 then 2 else mapBits)
    ensures e.out.base == [e.bitsPerPixel] && e.Finished(Masked(old(raster[..]), e.bitsPerPixel))
  {
    hide Frame, Decode, ByteBits, Masked, Cuts, EGif.Coding, EGif.InStep, EGif.Stream, EGif.Finished, EGif.Consumed;
    e := new EGif();
    e.pixelCount := raster.Length;
    e.SetupCompress(mapBits);
    ghost var was := raster[..];
    var from, left := 0, lines;
    while left != []
      invariant 0 <= from <= raster.Length && Cuts(left, raster.Length - from)
      invariant fresh(e) && fresh(e.out) && fresh(e.out.buf) && fresh(e.hashTable) && fresh(e.hashTable.table)
      invariant e.pixelCount == raster.Length - from && e.bitsPerPixel == (if mapBits < 2 then 2 else mapBits)
      invariant e.out.base == [e.bitsPerPixel] && raster[from..] == was[from..]
      invariant from < raster.Length ==> e.Coding(e.crntCode) && e.Consumed() == Masked(was, e.bitsPerPixel)[..from]
      invariant from == raster.Length ==> e.Finished(Masked(was, e.bitsPerPixel)[..from])
    {
      FirstCut(left, raster.Length - from);
      var to := from + left[0];
      RestOfTail(raster[..], was, from, to);
      MaskedPiece(was, e.bitsPerPixel, from, to);
      var ok := e.PutLine(raster, from, left[0]);
      from, left := to, left[1..];
    }
    FirstCut([], raster.Length - from);
    assert Masked(was, e.bitsPerPixel)[..from] == Masked(was, e.bitsPerPixel);
  }

  lemma RestOfTail(a: seq<byte>, b: seq<byte>, i: nat, j: nat)
    requires i <= j <= |a| == |b| && a[i..] == b[i..]
    ensures a[i..j] == b[i..j] && a[j..] == b[j..]
  {
    assert a[i..j] == a[i..][..j - i] && b[i..j] == b[i..][..j - i];
    assert a[j..] == a[i..][j - i..] && b[j..] == b[i..][j - i..];
  }

  /** The image that a code size byte and data sub-blocks stand for. */
  ghost predicate Shows(input: seq<byte>, image: Decoded) {
    && input != [] && input[0] <= 8 && After(input[1..]).Found?
    && Decode(Start(input[0]), ByteBits(Data(input[1..]))) == image
  }

  /** DGifSetupDecompress, then DGifGetLine for each line. */
  method Decompress(input: seq<byte>, total: nat, lines: seq<nat>, ghost image: Decoded)
    returns (ok: bool, raster: array<byte>)
    requires 0 < total <= MAX_PIXELS && Cuts(lines, total)
    requires Shows(input, image) && total == |image.pixels|
    ensures fresh(raster) && ok && raster[..] == image.pixels
  {
    hide Data, Decode, ByteBits, ToBits, After, Cuts, DGif.Tracks, DGif.Tables, DGif.Future;
    raster := new byte[total];
    var d := new DGif(input);
    assert d.inp.Ahead() == input;
    ok := d.SetupDecompress();
    d.pixelCount := total;
    var from, left := 0, lines;
    while left != []
      invariant 0 <= from <= total == raster.Length && Cuts(left, total - from) && fresh(d.inp) && fresh(raster)
      invariant fresh(d) && fresh(d.inp.buf) && fresh(d.stack) && fresh(d.suffix) && fresh(d.prefix)
      invariant d.Distinct(raster) && d.pixelCount == total - from && ok && raster[..from] == image.pixels[..from]
      invariant from < total ==> d.Safe() && d.Tracks() && After(d.inp.Ahead()).Found?
      invariant from < total ==> d.Future() == image.(pixels := image.pixels[from..])
    {
      FirstCut(left, total - from);
      var to := from + left[0];
      ghost var before := raster[..from];
      ok := d.GetLine(raster, from, left[0]);
      Joined(raster[..], before, image.pixels, from, to);
      from, left := to, left[1..];
    }
    FirstCut([], total - from);
    assert image.pixels[..total] == image.pixels && raster[..] == raster[..from];
  }

  lemma Joined(a: seq<byte>, before: seq<byte>, all: seq<byte>, i: nat, j: nat)
    requires i <= j <= |a| == |all| && before == all[..i] == a[..i] && a[i..j] == all[i..][..j - i]
    ensures a[..j] == all[..j] && all[i..][j - i..] == all[j..]
  {
    assert all[i..][..j - i] == all[i..j];
    assert a[..j] == a[..i] + a[i..j];
    assert all[..j] == all[..i] + all[i..j];
  }

  /** For every raster of at least one pixel, and every way of cutting it into lines on either side,
      decompressing what was compressed gives back the pixels, cut down to the size of a code. */
  method RoundTrip(mapBits: nat, pixels: seq<byte>, linesIn: seq<nat>, linesOut: seq<nat>)
    returns (pixels': seq<byte>)
    requires mapBits <= 8 && 0 < |pixels| <= MAX_PIXELS
    requires Cuts(linesIn, |pixels|) && Cuts(linesOut, |pixels|)
    ensures pixels' == Masked(pixels, if mapBits < 2 then 2 else mapBits)
  {
    hide Data, Decode, ByteBits, After, Frame, Masked;
    var raster := new byte[|pixels|](k requires 0 <= k < |pixels| => pixels[k]);
    assert raster[..] == pixels;
    var e := Compress(mapBits, raster, linesIn);
    ghost var image := Decoded(Masked(pixels, e.bitsPerPixel), EndOfInformation);
    FrameData(e.out.data, []);
    assert e.out.written[1..] == Frame(e.out.data) + [];
    var ok, raster' := Decompress(e.out.written, |pixels|, linesOut, image);
    pixels' := raster'[..];
  }
}
