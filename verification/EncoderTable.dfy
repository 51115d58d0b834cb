/** How the giflib encoder's code table, one definition ahead, follows the reference decoder. */
module EncoderTable {
  import opened Bits
  import opened Lzw

  /** The encoder's side: `strings` gives the string of every code it has given out, `codes` is the
      content of its hash table, `pending` the string of the code it has not yet written. */
  ghost predicate IsCode(bpp: nat, strings: map<nat, seq<byte>>, code: nat) {
    code < ClearCode(bpp) || code in strings
  }

  ghost function Meaning(bpp: nat, strings: map<nat, seq<byte>>, code: nat): seq<byte>
    requires ClearCode(bpp) <= 256 && IsCode(bpp, strings, code)
  {
    if code < ClearCode(bpp) then [code] else strings[code]
  }

  function NewKey(code: nat, pixel: byte): nat { code * 256 + pixel }

  /** The entry (prefix code, pixel) -> code spells the string of its code. */
  ghost predicate Spelt(bpp: nat, strings: map<nat, seq<byte>>, key: nat, code: nat)
    requires ClearCode(bpp) <= 256
  {
    && code in strings && code > EofCode(bpp) && IsCode(bpp, strings, key / 256)
    && strings[code] == Meaning(bpp, strings, key / 256) + [key % 256]
  }

  ghost predicate Spells(bpp: nat, strings: map<nat, seq<byte>>, codes: map<nat, nat>)
    requires ClearCode(bpp) <= 256
  {
    forall key :: key in codes ==> Spelt(bpp, strings, key, codes[key])
  }

  /** The encoder has defined one code more than the decoder, from the string the decoder saw last
      and the first pixel of the string to be written next. */
  ghost predicate Agree(d: Dict, strings: map<nat, seq<byte>>, codes: map<nat, nat>, code: nat, pending: seq<byte>) {
    && 2 <= d.bpp <= 8 && ClearCode(d.bpp) <= 256 && (d.prev == [] <==> d.seen == 0)
    && NextCode(d) <= LZ_MAX_CODE && |codes| <= d.seen
    && (forall c :: c in d.strings ==> EofCode(d.bpp) < c < NextCode(d))
    && IsCode(d.bpp, strings, code) && pending == Meaning(d.bpp, strings, code) && pending != []
    && strings == (if d.seen == 0 then map[] else d.strings[NextCode(d) := d.prev + [pending[0]]])
    && (d.seen == 0 ==> d.strings == map[])
    && Spells(d.bpp, strings, codes)
  }

  lemma AgreeAtStart(bpp: nat, pixel: byte)
    requires 2 <= bpp <= 8 && pixel < ClearCode(bpp)
    ensures Agree(Start(bpp), map[], map[], pixel, [pixel])
  {
    Pow2Grows(bpp, 8);
    SmallPowers();
  }

  /** The pending code can be written: the decoder knows it or is about to define it, gives it the
      same string, and it fits the current width. */
  lemma CanWrite(d: Dict, strings: map<nat, seq<byte>>, codes: map<nat, nat>, code: nat, pending: seq<byte>)
    requires Agree(d, strings, codes, code, pending)
    ensures Legal(d, code) && StringOf(d, code) == pending
    ensures code < Pow2(Width(d)) && code <= NextCode(d)
  {
    WidthFits(d);
    if code == NextCode(d) && d.seen > 0 {
      assert pending[0] == (d.prev + [pending[0]])[0];
    }
  }

  /** Any code up to EofCode + seen, the end code and the clear code fit the width in force. */
  lemma WidthFits(d: Dict)
    requires 2 <= d.bpp <= 8 && NextCode(d) <= LZ_MAX_CODE
    ensures NextCode(d) < Pow2(Width(d)) && Width(d) <= LZ_BITS
    ensures EofCode(d.bpp) < LZ_MAX_CODE
  {
    SmallPowers();
    Pow2Grows(2, d.bpp);
    Pow2Grows(d.bpp, 8);
    FitIsLeast(d.bpp + 1, EofCode(d.bpp) + 1 + d.seen);
  }

  lemma WidthLimit(bpp: nat, seen: nat)
    requires bpp <= 8
    ensures WidthAfter(bpp, seen) <= LZ_BITS
  {
    FitIsLeast(bpp + 1, EofCode(bpp) + 1 + seen);
  }

  /** The pixel extends the pending string to one that has a code already. */
  lemma Follow(d: Dict, strings: map<nat, seq<byte>>, codes: map<nat, nat>, code: nat, pending: seq<byte>, pixel: byte)
    requires Agree(d, strings, codes, code, pending) && NewKey(code, pixel) in codes
    ensures Agree(d, strings, codes, codes[NewKey(code, pixel)], pending + [pixel])
  {
    var key := NewKey(code, pixel);
    assert key / 256 == code && key % 256 == pixel;
    assert Spelt(d.bpp, strings, key, codes[key]);
  }

  lemma SpellsMore(bpp: nat, strings: map<nat, seq<byte>>, codes: map<nat, nat>, next: nat, s: seq<byte>)
    requires ClearCode(bpp) <= 256 && Spells(bpp, strings, codes) && next !in strings && next >= ClearCode(bpp)
    ensures Spells(bpp, strings[next := s], codes)
  {
    forall key | key in codes
      ensures Spelt(bpp, strings[next := s], key, codes[key])
    {
      assert Spelt(bpp, strings, key, codes[key]);
    }
  }

  /** Giving the next code to the pair (code, pixel) keeps every entry of the table spelt. */
  lemma SpellsNew(bpp: nat, strings: map<nat, seq<byte>>, codes: map<nat, nat>, code: nat, pixel: byte, next: nat)
    requires ClearCode(bpp) <= 256 && Spells(bpp, strings, codes) && IsCode(bpp, strings, code)
    requires next !in strings && next > EofCode(bpp)
    ensures Spells(bpp, strings[next := Meaning(bpp, strings, code) + [pixel]], codes[NewKey(code, pixel) := next])
  {
    var s, key := Meaning(bpp, strings, code) + [pixel], NewKey(code, pixel);
    SpellsMore(bpp, strings, codes, next, s);
    assert key / 256 == code && key % 256 == pixel;
    assert Spelt(bpp, strings[next := s], key, next);
  }

  /** Having read the pending code, the decoder knows all strings the encoder had at that time. */
  lemma DecoderCatchesUp(d: Dict, strings: map<nat, seq<byte>>, codes: map<nat, nat>, code: nat, pending: seq<byte>)
    requires Agree(d, strings, codes, code, pending) && Legal(d, code) && StringOf(d, code) == pending
    ensures Learn(d, code).strings == strings
  {
  }

  /** The pixel extends the pending string to a new one: write the pending code, define the new one. */
  lemma Extend(d: Dict, strings: map<nat, seq<byte>>, codes: map<nat, nat>, code: nat, pending: seq<byte>, pixel: byte)
    requires Agree(d, strings, codes, code, pending) && Legal(d, code) && StringOf(d, code) == pending
    requires pixel < ClearCode(d.bpp) && NewKey(code, pixel) !in codes
    requires NextCode(d) < LZ_MAX_CODE
    ensures Agree(Learn(d, code), strings[NextCode(d) + 1 := pending + [pixel]],
                  codes[NewKey(code, pixel) := NextCode(d) + 1], pixel, [pixel])
  {
    hide Spells, Spelt, Width, Pow2, NewKey, StringOf, Legal;
    DecoderCatchesUp(d, strings, codes, code, pending);
    SpellsNew(d.bpp, strings, codes, code, pixel, NextCode(d) + 1);
  }

  /** The decoder's width after one more code: one more bit exactly when the next code to be defined
      does not fit. */
  lemma NextWidth(bpp: nat, seen: nat)
    requires bpp <= 8
    ensures WidthAfter(bpp, seen + 1) ==
      var w := WidthAfter(bpp, seen);
      if EofCode(bpp) + 1 + seen >= Pow2(w) && w < LZ_BITS then w + 1 else w
  {
    if seen == 0 {
      FirstWidth(bpp);
    } else {
      LaterWidth(bpp, seen);
    }
  }

  lemma LearnWidth(d: Dict, code: nat)
    requires d.bpp <= 8 && Legal(d, code)
    ensures Learn(d, code).bpp == d.bpp
    ensures Width(Learn(d, code)) ==
      if EofCode(d.bpp) + 1 + d.seen >= Pow2(Width(d)) && Width(d) < LZ_BITS then Width(d) + 1 else Width(d)
  {
    NextWidth(d.bpp, d.seen);
  }

  lemma FirstWidth(bpp: nat)
    requires bpp <= 8
    ensures WidthAfter(bpp, 1) == if EofCode(bpp) + 1 >= Pow2(bpp + 1) then bpp + 2 else bpp + 1
  {
    SmallPowers();
    if bpp >= 2 {
      Pow2Grows(2, bpp);
    }
  }

  lemma LaterWidth(bpp: nat, seen: nat)
    requires bpp <= 8 && seen > 0
    ensures WidthAfter(bpp, seen + 1) ==
      var w := WidthAfter(bpp, seen);
      if EofCode(bpp) + 1 + seen >= Pow2(w) && w < LZ_BITS then w + 1 else w
  {
    hide Fit, Pow2;
    FitNext(bpp + 1, EofCode(bpp) + 1 + seen);
  }

  lemma {:induction false} FitNext(w: nat, count: nat)
    requires 1 <= w <= LZ_BITS && count >= 2
    ensures Fit(w, count + 1) ==
      if count >= Pow2(Fit(w, count)) && Fit(w, count) < LZ_BITS then Fit(w, count) + 1 else Fit(w, count)
    decreases LZ_BITS - w
  {
    if w < LZ_BITS && count > Pow2(w) {
      FitNext(w + 1, count);
    } else if w < LZ_BITS && count == Pow2(w) {
      assert Pow2(w + 1) == 2 * Pow2(w);
    }
  }
}
