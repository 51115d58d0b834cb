/** DGifSlurp undoes EGifSpew. */
module GifRoundTrip {
  import opened Bits
  import opened GifEncoder
  import opened GifFormat
  import opened GifGrammar
  import opened GifReader
  import opened GifWriter

  /** Write a GIF file, open it again and read it: the screen and the extensions are the same, and so
      are the images that were not deleted. */
  method RoundTrip(g: Memory) returns (ok: bool, screen: Screen, images: seq<Image>, trailing: seq<Extension>)
    requires Storable(g) && MapsSuit(g) && exists i :: 0 <= i < |g.images| && !g.images[i].deleted
    ensures CodeSizesFit(g.images, g.screen.colorMap)
    ensures ok && screen == g.screen && images == Kept(g.images, g.screen.colorMap) && trailing == g.trailing
  {
    hide MapsSuit, Storable, Body, Kept, CodeSizesFit;
    var writer := new GifWriter();
    ok := writer.Spew(g);
    KeptSome(g.images, g.screen.colorMap);
    var reader := new GifReader(writer.e.out.written);
    ghost var gif := Gif(g.screen, Kept(g.images, g.screen.colorMap), g.trailing);
    ok := reader.GetHeader();
    ok := reader.Slurp(true, gif);
    screen, images, trailing := reader.screen, reader.images, reader.extensions;
  }

  lemma {:induction false} KeptSome(images: seq<Saved>, screenMap: Option<ColorMap>)
    requires CodeSizesFit(images, screenMap) && exists i :: 0 <= i < |images| && !images[i].deleted
    ensures Kept(images, screenMap) != []
  {
    var n := |images| - 1;
    if images[n].deleted {
      var i :| 0 <= i < |images| && !images[i].deleted;
      assert !images[..n][i].deleted;
      KeptSome(images[..n], screenMap);
    }
  }

  /** Nothing is lost of an image whose pixels fit its colour map, apart from the sort flag of a map of its own. */
  lemma {:induction false} KeptWhole(images: seq<Saved>, screenMap: Option<ColorMap>, i: nat)
    requires CodeSizesFit(images, screenMap) && i < |images|
    requires forall k :: 0 <= k < |images| ==> InRange(images[k], screenMap)
    ensures |Kept(images, screenMap)| == |images| && Kept(images, screenMap)[i] == ReadBack(images[i].image)
    ensures images[i].image.desc.colorMap.None? || !images[i].image.desc.colorMap.value.sortFlag ==>
      Kept(images, screenMap)[i] == images[i].image
  {
    var n := |images| - 1;
    assert InRange(images[n], screenMap);
    MaskedInRange(images[n].image.raster, CodeSize(images[n].image.desc.colorMap, screenMap));
    if n > 0 {
      forall k | 0 <= k < n
        ensures InRange(images[..n][k], screenMap)
      {
        assert InRange(images[k], screenMap);
      }
      KeptWhole(images[..n], screenMap, if i < n then i else 0);
    }
  }

  ghost predicate InRange(s: Saved, screenMap: Option<ColorMap>) {
    && !s.deleted
    && forall k :: 0 <= k < |s.image.raster| ==>
         s.image.raster[k] < Pow2(CodeSize(s.image.desc.colorMap, screenMap))
  }
}
