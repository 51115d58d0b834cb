/**
 The meaning of a stream of LZW codes, as Appendix F of GIF89a describes it: a decoder that keeps
 the string of every code it has learnt.  It is the reference both codecs are compared with.
 */
module Lzw {
  import opened Bits

  const LZ_MAX_CODE: nat := 4095
  const LZ_BITS: nat := 12

  /** The largest pixel count that giflib takes for an image that is still being read or written. */
  const MAX_PIXELS: nat := 0xFFFF_0000

  function ClearCode(bpp: nat): nat { Pow2(bpp) }
  function EofCode(bpp: nat): nat { Pow2(bpp) + 1 }

  /** `seen` codes were read since the last clear; `strings` gives the string of every code defined
      since then; `prev` is the string of the code before, or empty right after a clear. */
  datatype Dict = Dict(bpp: nat, seen: nat, strings: map<nat, seq<byte>>, prev: seq<byte>)

  function Start(bpp: nat): Dict { Dict(bpp, 0, map[], []) }

  /** The least width from `w` up, and at most LZ_BITS, at which `count` codes can be told apart. */
  function Fit(w: nat, count: nat): (r: nat)
    ensures w <= r
    decreases LZ_BITS - w
  {
    if w >= LZ_BITS || count <= Pow2(w) then w else Fit(w + 1, count)
  }

  lemma {:induction false} FitIsLeast(w: nat, count: nat)
    requires w <= LZ_BITS
    ensures Fit(w, count) <= LZ_BITS
    ensures Fit(w, count) == LZ_BITS || count <= Pow2(Fit(w, count))
    ensures Fit(w, count) == w || Pow2(Fit(w, count) - 1) < count
    decreases LZ_BITS - w
  {
    if w < LZ_BITS && count > Pow2(w) {
      FitIsLeast(w + 1, count);
    }
  }

  /** The width of a code that comes after `seen` others: it can be as large as EofCode + seen. */
  function WidthAfter(bpp: nat, seen: nat): (w: nat)
    ensures w > bpp
  {
    if seen == 0 then bpp + 1 else Fit(bpp + 1, EofCode(bpp) + 1 + seen)
  }

  /** The width of the next code. */
  function Width(d: Dict): (w: nat)
    ensures w > d.bpp
  {
    WidthAfter(d.bpp, d.seen)
  }

  /** The code that reading one more code defines. */
  function NextCode(d: Dict): nat { EofCode(d.bpp) + d.seen }

  predicate Known(d: Dict, code: nat) {
    code < ClearCode(d.bpp) || (EofCode(d.bpp) < code && code in d.strings)
  }

  /** A decoder may be sent the code it is about to define. */
  predicate Coming(d: Dict, code: nat) {
    d.prev != [] && EofCode(d.bpp) < code == NextCode(d) <= LZ_MAX_CODE
  }

  predicate Legal(d: Dict, code: nat) {
    ClearCode(d.bpp) <= 256 && (Known(d, code) || Coming(d, code)) && (d.prev == [] ==> code < ClearCode(d.bpp))
  }

  function StringOf(d: Dict, code: nat): seq<byte>
    requires Legal(d, code)
  {
    if code < ClearCode(d.bpp) then [code]
    else if code in d.strings then d.strings[code]
    else d.prev + [d.prev[0]]
  }

  /** Read one code that is neither the clear code nor the end code. */
  function Learn(d: Dict, code: nat): (d': Dict)
    requires Legal(d, code)
  {
    var s := StringOf(d, code);
    var none := d.prev == [] || s == [] || NextCode(d) > LZ_MAX_CODE;
    Dict(d.bpp, d.seen + 1, if none then d.strings else d.strings[NextCode(d) := d.prev + [s[0]]], s)
  }

  /** The codes between EofCode and the next one have strings, which are never empty and one pixel
      longer per definition at most. */
  ghost predicate Sound(d: Dict) {
    && d.bpp <= 8 && ClearCode(d.bpp) <= 256
    && (forall c :: c in d.strings <==> EofCode(d.bpp) < c < NextCode(d) && c <= LZ_MAX_CODE)
    && (forall c :: c in d.strings ==> 0 < |d.strings[c]| <= c - EofCode(d.bpp) + 1)
    && (d.prev == [] <==> d.seen == 0)
    && |d.prev| <= LZ_MAX_CODE - EofCode(d.bpp) + 1 && |d.prev| <= d.seen
  }

  lemma StartSound(bpp: nat)
    requires bpp <= 8
    ensures Sound(Start(bpp))
  {
    Pow2Grows(bpp, 8);
    SmallPowers();
  }

  lemma LearnSound(d: Dict, code: nat)
    requires Sound(d) && Legal(d, code)
    ensures Sound(Learn(d, code)) && StringOf(d, code) != []
  {
    Pow2Grows(d.bpp, 8);
    SmallPowers();
  }

  datatype End = EndOfInformation | OutOfData | Malformed

  /** The pixels a bit stream stands for, and why there are no more of them. */
  datatype Decoded = Decoded(pixels: seq<byte>, end: End)

  function Prepend(s: seq<byte>, r: Decoded): Decoded { Decoded(s + r.pixels, r.end) }

  function Decode(d: Dict, bits: seq<bool>): Decoded
    decreases |bits|
  {
    var w := Width(d);
    if |bits| < w then Decoded([], OutOfData)
    else
      var code := FromBits(bits[..w]);
      if code == EofCode(d.bpp) then Decoded([], EndOfInformation)
      else if code == ClearCode(d.bpp) then Decode(Start(d.bpp), bits[w..])
      else if Legal(d, code) then Prepend(StringOf(d, code), Decode(Learn(d, code), bits[w..]))
      else Decoded([], Malformed)
  }

  /** The four things the next code can do. */
  lemma DecodeStep(d: Dict, bits: seq<bool>, code: nat)
    requires |bits| >= Width(d) && code == FromBits(bits[..Width(d)])
    ensures code == EofCode(d.bpp) ==> Decode(d, bits) == Decoded([], EndOfInformation)
    ensures code == ClearCode(d.bpp) ==> Decode(d, bits) == Decode(Start(d.bpp), bits[Width(d)..])
    ensures code != EofCode(d.bpp) && code != ClearCode(d.bpp) ==>
      Decode(d, bits) == if Legal(d, code) then Prepend(StringOf(d, code), Decode(Learn(d, code), bits[Width(d)..]))
                         else Decoded([], Malformed)
  {
  }

  lemma DecodeNoData(d: Dict, bits: seq<bool>)
    requires |bits| < Width(d)
    ensures Decode(d, bits) == Decoded([], OutOfData)
  {
  }

  lemma PrependLength(s: seq<byte>, r: Decoded)
    ensures Prepend(s, r).end == r.end && |Prepend(s, r).pixels| == |s| + |r.pixels|
  {
  }

  lemma PrependSplit(s: seq<byte>, r: Decoded)
    ensures Prepend(s, r).pixels[..|s|] == s && Prepend(s, r).(pixels := Prepend(s, r).pixels[|s|..]) == r
  {
  }

  lemma PrependNothing(r: Decoded)
    ensures Prepend([], r) == r
  {
    assert [] + r.pixels == r.pixels;
  }

  /** Whatever follows them, a decoder in state d0 turns `bits` into `pixels` and is then in state d. */
  ghost predicate Reads(d0: Dict, bits: seq<bool>, d: Dict, pixels: seq<byte>) {
    forall tail :: Decode(d0, bits + tail) == Prepend(pixels, Decode(d, tail))
  }

  lemma ReadsNothing(d: Dict)
    ensures Reads(d, [], d, [])
  {
    forall tail
      ensures Decode(d, [] + tail) == Prepend([], Decode(d, tail))
    {
      assert [] + tail == tail;
    }
  }

  lemma FirstCode(code: nat, w: nat, tail: seq<bool>)
    requires code < Pow2(w)
    ensures var bits := ToBits(code, w) + tail;
            |bits| >= w && FromBits(bits[..w]) == code && bits[w..] == tail
  {
    FromToBits(code, w);
    MaskSmall(code, w);
    assert (ToBits(code, w) + tail)[..w] == ToBits(code, w);
  }

  lemma DecodeCode(d: Dict, code: nat, tail: seq<bool>)
    requires Legal(d, code) && code < Pow2(Width(d))
    ensures Decode(d, ToBits(code, Width(d)) + tail)
         == Prepend(StringOf(d, code), Decode(Learn(d, code), tail))
  {
    FirstCode(code, Width(d), tail);
  }

  lemma DecodeClear(d: Dict, tail: seq<bool>)
    requires ClearCode(d.bpp) < Pow2(Width(d))
    ensures Decode(d, ToBits(ClearCode(d.bpp), Width(d)) + tail) == Decode(Start(d.bpp), tail)
  {
    FirstCode(ClearCode(d.bpp), Width(d), tail);
  }

  lemma DecodeEnd(d: Dict, tail: seq<bool>)
    requires EofCode(d.bpp) < Pow2(Width(d))
    ensures Decode(d, ToBits(EofCode(d.bpp), Width(d)) + tail) == Decoded([], EndOfInformation)
  {
    FirstCode(EofCode(d.bpp), Width(d), tail);
  }

  lemma PrependTwice(a: seq<byte>, b: seq<byte>, r: Decoded)
    ensures Prepend(a, Prepend(b, r)) == Prepend(a + b, r)
  {
    assert a + (b + r.pixels) == a + b + r.pixels;
  }

  lemma ReadsMore(d0: Dict, bits: seq<bool>, d: Dict, pixels: seq<byte>, b: seq<bool>, tail: seq<bool>)
    requires Reads(d0, bits, d, pixels)
    ensures Decode(d0, bits + b + tail) == Prepend(pixels, Decode(d, b + tail))
  {
    assert bits + b + tail == bits + (b + tail);
  }

  lemma ReadsCode(d0: Dict, bits: seq<bool>, d: Dict, pixels: seq<byte>, code: nat)
    requires Reads(d0, bits, d, pixels)
    requires Legal(d, code) && code < Pow2(Width(d))
    ensures Reads(d0, bits + ToBits(code, Width(d)), Learn(d, code), pixels + StringOf(d, code))
  {
    var b := ToBits(code, Width(d));
    forall tail
      ensures Decode(d0, bits + b + tail)
           == Prepend(pixels + StringOf(d, code), Decode(Learn(d, code), tail))
    {
      ReadsMore(d0, bits, d, pixels, b, tail);
      DecodeCode(d, code, tail);
      PrependTwice(pixels, StringOf(d, code), Decode(Learn(d, code), tail));
    }
  }

  lemma ReadsClear(d0: Dict, bits: seq<bool>, d: Dict, pixels: seq<byte>)
    requires Reads(d0, bits, d, pixels) && ClearCode(d.bpp) < Pow2(Width(d))
    ensures Reads(d0, bits + ToBits(ClearCode(d.bpp), Width(d)), Start(d.bpp), pixels)
  {
    var b := ToBits(ClearCode(d.bpp), Width(d));
    forall tail
      ensures Decode(d0, bits + b + tail) == Prepend(pixels, Decode(Start(d.bpp), tail))
    {
      ReadsMore(d0, bits, d, pixels, b, tail);
      DecodeClear(d, tail);
    }
  }

  lemma ReadsEnd(d0: Dict, bits: seq<bool>, d: Dict, pixels: seq<byte>, tail: seq<bool>)
    requires Reads(d0, bits, d, pixels) && EofCode(d.bpp) < Pow2(Width(d))
    ensures Decode(d0, bits + ToBits(EofCode(d.bpp), Width(d)) + tail) == Decoded(pixels, EndOfInformation)
  {
    ReadsMore(d0, bits, d, pixels, ToBits(EofCode(d.bpp), Width(d)), tail);
    DecodeEnd(d, tail);
    assert pixels + [] == pixels;
  }

  /** What an encoder has said after some codes: the bits they were written as, the pixels they mean,
      the decoder's state then, and whether every code was legal and fitted its width. */
  datatype Told = Told(dict: Dict, bits: seq<bool>, pixels: seq<byte>, ok: bool)

  function Play(bpp: nat, codes: seq<nat>): Told
    decreases |codes|, 0
  {
    if codes == [] then Told(Start(bpp), [], [], true)
    else Tell(bpp, codes[..|codes| - 1], codes[|codes| - 1])
  }

  /** One more code after `codes`. */
  function Tell(bpp: nat, codes: seq<nat>, code: nat): Told
    decreases |codes|, 1
  {
    var t := Play(bpp, codes);
    var bits := t.bits + ToBits(code, Width(t.dict));
    if code >= Pow2(Width(t.dict)) then t.(bits := bits, ok := false)
    else if code == ClearCode(t.dict.bpp) then Told(Start(t.dict.bpp), bits, t.pixels, t.ok)
    else if Legal(t.dict, code) then
      Told(Learn(t.dict, code), bits, t.pixels + StringOf(t.dict, code), t.ok)
    else t.(bits := bits, ok := false)
  }

  lemma PlayOn(bpp: nat, codes: seq<nat>, code: nat)
    ensures Play(bpp, codes + [code]) == Tell(bpp, codes, code)
  {
    assert (codes + [code])[..|codes|] == codes;
  }

  lemma PlayCode(bpp: nat, codes: seq<nat>, d: Dict, bits: seq<bool>, pixels: seq<byte>, code: nat)
    requires Play(bpp, codes) == Told(d, bits, pixels, true) && Legal(d, code) && code < Pow2(Width(d))
    ensures Play(bpp, codes + [code])
         == Told(Learn(d, code), bits + ToBits(code, Width(d)), pixels + StringOf(d, code), true)
  {
    PlayOn(bpp, codes, code);
  }

  lemma PlayClear(bpp: nat, codes: seq<nat>, d: Dict, bits: seq<bool>, pixels: seq<byte>)
    requires Play(bpp, codes) == Told(d, bits, pixels, true) && ClearCode(d.bpp) < Pow2(Width(d))
    ensures Play(bpp, codes + [ClearCode(d.bpp)])
         == Told(Start(d.bpp), bits + ToBits(ClearCode(d.bpp), Width(d)), pixels, true)
  {
    PlayOn(bpp, codes, ClearCode(d.bpp));
  }

  lemma {:induction false} PlayKeepsSize(bpp: nat, codes: seq<nat>)
    ensures Play(bpp, codes).dict.bpp == bpp
  {
    if codes != [] {
      PlayKeepsSize(bpp, codes[..|codes| - 1]);
    }
  }

  /** What the encoder told, a decoder reads, whatever comes after it. */
  lemma {:induction false} PlayReads(bpp: nat, codes: seq<nat>)
    requires Play(bpp, codes).ok
    ensures var t := Play(bpp, codes); Reads(Start(bpp), t.bits, t.dict, t.pixels)
  {
    if codes == [] {
      ReadsNothing(Start(bpp));
    } else {
      var t, code := Play(bpp, codes[..|codes| - 1]), codes[|codes| - 1];
      PlayReads(bpp, codes[..|codes| - 1]);
      if code == ClearCode(t.dict.bpp) {
        PlayKeepsSize(bpp, codes[..|codes| - 1]);
        ReadsClear(Start(bpp), t.bits, t.dict, t.pixels);
      } else {
        ReadsCode(Start(bpp), t.bits, t.dict, t.pixels, code);
      }
    }
  }

  /** A stream that ends in the end code means the pixels told before it. */
  lemma PlayEnds(bpp: nat, codes: seq<nat>, tail: seq<bool>)
    requires Play(bpp, codes).ok && EofCode(bpp) < Pow2(Width(Play(bpp, codes).dict))
    ensures var t := Play(bpp, codes);
      Decode(Start(bpp), t.bits + ToBits(EofCode(bpp), Width(t.dict)) + tail) == Decoded(t.pixels, EndOfInformation)
  {
    var t := Play(bpp, codes);
    PlayKeepsSize(bpp, codes);
    PlayReads(bpp, codes);
    ReadsEnd(Start(bpp), t.bits, t.dict, t.pixels, tail);
  }
}
