/** How an LZW encoder that always follows a hit in its table cuts an image into codes, as a function of the
    pixels: the second encoder (Gifflen.cpp), and giflib's (egif_lib.c), which clears its table one code earlier. */
module GreedyParse {
  import opened Bits
  import opened EncoderTable
  import opened Lzw

  /** `known` gives the strings of this table their codes, `pending` is the string whose code is not yet written;
      `inTable` codes were written since the last clear, `tables` tables filled before. */
  datatype Parse = Parse(known: map<seq<byte>, nat>, pending: seq<byte>, inTable: nat, tables: nat)

  /** The codes the second encoder writes before the table is cleared. */
  function TableSize(bpp: nat): nat { if Pow2(bpp) <= 4095 then 4095 - Pow2(bpp) else 0 }

  function FirstPixel(pixel: byte): Parse { Parse(map[], [pixel], 0, 0) }

  /** One more pixel, with a table of `size` codes: the longest string that has a code is what a code stands for. */
  function NextPixel(bpp: nat, size: nat, p: Parse, pixel: byte): Parse {
    var s := p.pending + [pixel];
    if s in p.known then p.(pending := s)
    else if p.inTable + 1 == size then Parse(map[], [pixel], 0, p.tables + 1)
    else Parse(p.known[s := EofCode(bpp) + 1 + p.inTable], [pixel], p.inTable + 1, p.tables)
  }

  function ParseOf(bpp: nat, size: nat, image: seq<byte>): (p: Parse)
    requires image != []
    ensures 0 < |p.pending| <= |image| && (|p.pending| == 1 || p.pending in p.known)
  {
    var n := |image| - 1;
    if n == 0 then FirstPixel(image[0]) else NextPixel(bpp, size, ParseOf(bpp, size, image[..n]), image[n])
  }

  lemma ParseSnoc(bpp: nat, size: nat, image: seq<byte>, pixel: byte)
    requires image != []
    ensures ParseOf(bpp, size, image + [pixel]) == NextPixel(bpp, size, ParseOf(bpp, size, image), pixel)
  {
    assert (image + [pixel])[..|image|] == image;
  }

  lemma ParseFirst(bpp: nat, size: nat, pixel: byte)
    ensures ParseOf(bpp, size, [pixel]) == FirstPixel(pixel)
  {
  }

  /** The codes written because of one more pixel: none while the string is known. */
  function NextCodes(bpp: nat, size: nat, p: Parse, pixel: byte): seq<nat>
    requires |p.pending| == 1 || p.pending in p.known
  {
    if p.pending + [pixel] in p.known then []
    else if p.inTable + 1 == size then [CodeOf(p.known, p.pending), ClearCode(bpp)]
    else [CodeOf(p.known, p.pending)]
  }

  /** The codes written before the pending one, a clear code in front. */
  function CodesOf(bpp: nat, size: nat, image: seq<byte>): seq<nat>
    requires image != []
  {
    var n := |image| - 1;
    if n == 0 then [ClearCode(bpp)]
    else CodesOf(bpp, size, image[..n]) + NextCodes(bpp, size, ParseOf(bpp, size, image[..n]), image[n])
  }

  lemma CodesSnoc(bpp: nat, size: nat, image: seq<byte>, pixel: byte)
    requires image != []
    ensures CodesOf(bpp, size, image + [pixel])
         == CodesOf(bpp, size, image) + NextCodes(bpp, size, ParseOf(bpp, size, image), pixel)
  {
    assert (image + [pixel])[..|image|] == image;
  }

  /** All codes of an image but the end code. */
  function AllCodes(bpp: nat, size: nat, image: seq<byte>): seq<nat>
    requires image != []
  {
    var p := ParseOf(bpp, size, image);
    CodesOf(bpp, size, image) + [CodeOf(p.known, p.pending)]
  }

  lemma TableRoom(bpp: nat)
    requires 2 <= bpp <= 8
    ensures TableSize(bpp) > 0
  {
    Pow2Grows(bpp, 8);
    SmallPowers();
  }

  /** The table is full when code 4096 has been given out. */
  lemma FullTable(bpp: nat, seen: nat, code: nat)
    requires 2 <= bpp <= 8 && code == EofCode(bpp) + 1 + seen && seen < TableSize(bpp)
    ensures code <= 4096 && (code == 4096 <==> seen + 1 == TableSize(bpp))
  {
    Pow2Grows(bpp, 8);
    SmallPowers();
  }

  /** Two different pixels make two codes. */
  lemma TwoPixels()
    ensures var p := ParseOf(2, TableSize(2), [0, 1]); p.pending == [1] && Spoiled(2, p)
  {
    SmallPowers();
    ParseFirst(2, TableSize(2), 0);
    assert [0] + [1] == [0, 1];
    ParseSnoc(2, TableSize(2), [0], 1);
  }

  // ----- the encoder's table

  function CodeOf(known: map<seq<byte>, nat>, s: seq<byte>): nat
    requires |s| == 1 || s in known
  {
    if |s| == 1 then s[0] else known[s]
  }

  /** The string is one pixel longer than another one, and the hash table knows it by that one's code. */
  ghost predicate Rooted(known: map<seq<byte>, nat>, codes: map<nat, nat>, s: seq<byte>)
    requires s in known
  {
    |s| >= 2 &&
    var f := s[..|s| - 1];
    && (|f| == 1 || f in known)
    && NewKey(CodeOf(known, f), s[|s| - 1]) in codes && codes[NewKey(CodeOf(known, f), s[|s| - 1])] == known[s]
  }

  /** The hash table and the strings of its codes are those of the parse. */
  ghost predicate Mirrors(strings: map<nat, seq<byte>>, codes: map<nat, nat>, known: map<seq<byte>, nat>) {
    && (forall s {:trigger Rooted(known, codes, s)} :: s in known ==> Rooted(known, codes, s))
    && (forall c :: c in strings ==> |strings[c]| >= 2 && strings[c] in known && known[strings[c]] == c)
  }

  lemma NothingKnown()
    ensures Mirrors(map[], map[], map[])
  {
  }

  /** A string has a code in the parse exactly if its pair is in the hash table. */
  lemma KnownPair(d: Dict, strings: map<nat, seq<byte>>, codes: map<nat, nat>, code: nat, pending: seq<byte>,
                  pixel: byte, known: map<seq<byte>, nat>)
    requires Agree(d, strings, codes, code, pending) && Mirrors(strings, codes, known)
    ensures pending + [pixel] in known <==> NewKey(code, pixel) in codes
  {
    var s, key := pending + [pixel], NewKey(code, pixel);
    assert key / 256 == code && key % 256 == pixel;
    if key in codes {
      assert Spelt(d.bpp, strings, key, codes[key]);
    }
    if s in known {
      assert Rooted(known, codes, s) && s[..|s| - 1] == pending;
      assert CodeOf(known, pending) == code;
    }
  }

  /** A new pair keeps table and parse in step. */
  lemma MirrorsMore(strings: map<nat, seq<byte>>, codes: map<nat, nat>, known: map<seq<byte>, nat>,
                    code: nat, pending: seq<byte>, pixel: byte, next: nat)
    requires Mirrors(strings, codes, known) && pending != [] && (|pending| == 1 || pending in known)
    requires CodeOf(known, pending) == code && next !in strings
    requires pending + [pixel] !in known && NewKey(code, pixel) !in codes
    ensures Mirrors(strings[next := pending + [pixel]], codes[NewKey(code, pixel) := next],
                    known[pending + [pixel] := next])
  {
    var s := pending + [pixel];
    var known', codes' := known[s := next], codes[NewKey(code, pixel) := next];
    assert s[..|s| - 1] == pending;
    forall t | t in known'
      ensures Rooted(known', codes', t)
    {
      if t != s {
        assert Rooted(known, codes, t);
      }
    }
  }

  lemma NewCode(d: Dict, strings: map<nat, seq<byte>>, codes: map<nat, nat>, pre: nat, pending: seq<byte>, code: nat)
    requires Agree(d, strings, codes, pre, pending) && code == EofCode(d.bpp) + 1 + d.seen
    ensures code !in strings
  {
  }

  /** The pending string has its code in the parse, too. */
  lemma PendingKnown(d: Dict, strings: map<nat, seq<byte>>, codes: map<nat, nat>, code: nat, pending: seq<byte>,
                     known: map<seq<byte>, nat>)
    requires Agree(d, strings, codes, code, pending) && Mirrors(strings, codes, known)
    ensures pending != [] && (|pending| == 1 || pending in known) && CodeOf(known, pending) == code
  {
  }

  // ----- how long the codes are

  /** The bits of the codes before the pending one, clear codes included. */
  function BitsBefore(bpp: nat, tables: nat, inTable: nat): nat
    decreases tables, inTable
  {
    if inTable > 0 then BitsBefore(bpp, tables, inTable - 1) + WidthAfter(bpp, inTable - 1)
    else if tables > 0 then BitsBefore(bpp, tables - 1, TableSize(bpp)) + LZ_BITS
    else bpp + 1
  }

  /** Behind n bits come the last code and the end code, of w bits each, and w zero bits unless these two fill a byte;
      so many bits then do not get into a byte. */
  function LostIn(n: nat, w: nat): nat {
    var left := (n + 2 * w) % 8;
    if left == 0 then 0 else (left + w) % 8
  }

  function LostBits(bpp: nat, p: Parse): nat {
    LostIn(BitsBefore(bpp, p.tables, p.inTable), WidthAfter(bpp, p.inTable))
  }

  lemma LostModulo(n: nat, w: nat, state: nat, left: nat, lost: nat)
    requires state == (n % 8 + w) % 8 && left == (state + w) % 8
    requires lost == if left == 0 then 0 else (left + w) % 8
    ensures left < 8 && lost == LostIn(n, w)
  {
    var a, b := n / 8, (n % 8 + w) / 8;
    assert n % 8 + w == 8 * b + (n % 8 + w) % 8;
    assert n + 2 * w == (n % 8 + w) % 8 + w + 8 * (a + b);
    ModEight((n % 8 + w) % 8 + w, a + b);
  }

  /** An encoder's table, its string so far, the codes since the last clear and the bits written are those of p. */
  ghost predicate Keeps(bpp: nat, strings: map<nat, seq<byte>>, codes: map<nat, nat>, pending: seq<byte>, seen: nat,
                        bits: nat, p: Parse) {
    && Mirrors(strings, codes, p.known) && p.pending == pending && p.inTable == seen < TableSize(bpp)
    && bits == BitsBefore(bpp, p.tables, p.inTable)
  }

  /** Writing the code of the string so far keeps them so, whether the longer string gets a code or the table is
      cleared. */
  lemma KeepsOn(d: Dict, strings: map<nat, seq<byte>>, codes: map<nat, nat>, pre: nat, pending: seq<byte>, pixel: byte,
                bits: nat, p: Parse, code: nat)
    requires Agree(d, strings, codes, pre, pending) && Keeps(d.bpp, strings, codes, pending, d.seen, bits, p)
    requires p.pending + [pixel] !in p.known && NewKey(pre, pixel) !in codes && code == EofCode(d.bpp) + 1 + d.seen
    ensures var bits' := bits + Width(d); var p' := NextPixel(d.bpp, TableSize(d.bpp), p, pixel);
      if code < 4096 then
        Keeps(d.bpp, strings[code := pending + [pixel]], codes[NewKey(pre, pixel) := code], [pixel], d.seen + 1,
              bits', p')
      else Keeps(d.bpp, map[], map[], [pixel], 0, bits' + LZ_BITS, p')
  {
    hide Agree, Mirrors, BitsBefore, TableSize, WidthAfter, Pow2, EofCode, NewKey, CodeOf;
    AgreeSize(d, strings, codes, pre, pending);
    PendingKnown(d, strings, codes, pre, pending, p.known);
    NewCode(d, strings, codes, pre, pending, code);
    MirrorsMore(strings, codes, p.known, pre, pending, pixel, code);
    NothingKnown();
    NextBits(d.bpp, p.tables, p.inTable);
    FullTable(d.bpp, d.seen, code);
    TableRoom(d.bpp);
  }

  lemma AgreeSize(d: Dict, strings: map<nat, seq<byte>>, codes: map<nat, nat>, pre: nat, pending: seq<byte>)
    requires Agree(d, strings, codes, pre, pending)
    ensures 2 <= d.bpp <= 8
  {
  }

  /** When the last code is lost: for a code size of 2, with exactly so many codes in the last table, for the
      number of tables before it. */
  predicate Spoiled(bpp: nat, p: Parse) {
    bpp == 2 && p.inTable <= 2 && p.tables % 8 == [7, 0, 1][p.inTable]
  }

  lemma SpoiledIfLost(bpp: nat, p: Parse)
    requires 2 <= bpp <= 8
    ensures Spoiled(bpp, p) <==> LostBits(bpp, p) > 2 * WidthAfter(bpp, p.inTable)
  {
    hide WidthAfter, BitsBefore;
    NarrowCodes(bpp, p.inTable);
    if bpp == 2 && p.inTable <= 2 {
      var q := BitsModulo(p.tables);
      FewCodes(p.tables, p.inTable);
      Residues(p.tables, p.inTable, q);
    }
  }

  lemma Residues(t: nat, n: nat, q: nat)
    requires n <= 2
    ensures (3 + 5 * t + 8 * q + 3 * n + 6) % 8 == 4 <==> t % 8 == [7, 0, 1][n]
  {
    var a, b := t / 8, t % 8;
    assert 3 + 5 * t + 8 * q + 3 * n + 6 == 9 + 5 * b + 3 * n + 8 * (5 * a + q);
    ModEight(9 + 5 * b + 3 * n, 5 * a + q);
  }

  lemma ModEight(x: nat, k: nat)
    ensures (x + 8 * k) % 8 == x % 8
  {
  }

  /** Only the first codes of a table have three bits, and only for a code size of 2. */
  lemma NarrowCodes(bpp: nat, seen: nat)
    requires 2 <= bpp <= 8
    ensures WidthAfter(bpp, seen) == 3 <==> bpp == 2 && seen <= 2
    ensures WidthAfter(bpp, seen) >= 3
  {
    SmallPowers();
  }

  lemma NextBits(bpp: nat, t: nat, n: nat)
    ensures BitsBefore(bpp, t, n + 1) == BitsBefore(bpp, t, n) + WidthAfter(bpp, n)
    ensures BitsBefore(bpp, t + 1, 0) == BitsBefore(bpp, t, TableSize(bpp)) + LZ_BITS
    ensures BitsBefore(bpp, 0, 0) == bpp + 1
  {
  }

  lemma FewCodes(t: nat, n: nat)
    requires n <= 3
    ensures BitsBefore(2, t, n) == BitsBefore(2, t, 0) + 3 * n
  {
    hide WidthAfter, BitsBefore;
    NarrowCodes(2, 0);
    NarrowCodes(2, 1);
    NarrowCodes(2, 2);
    NextBits(2, t, 0);
    NextBits(2, t, 1);
    NextBits(2, t, 2);
  }

  lemma {:induction false} BitsModulo(t: nat) returns (q: nat)
    ensures BitsBefore(2, t, 0) == 3 + 5 * t + 8 * q
  {
    hide WidthAfter, BitsBefore;
    if t == 0 {
      NextBits(2, 0, 0);
      q := 0;
    } else {
      var q0 := BitsModulo(t - 1);
      var q1 := TableModulo(t - 1, 511);
      FewCodes(t - 1, 3);
      NextBits(2, t - 1, 0);
      SmallPowers();
      q := q0 + q1 + 2;
    }
  }

  /** From the fourth on, codes come in groups of eight of one width. */
  lemma {:induction false} TableModulo(t: nat, j: nat) returns (q: nat)
    ensures BitsBefore(2, t, 3 + 8 * j) == BitsBefore(2, t, 3) + 8 * q
  {
    hide WidthAfter, BitsBefore;
    if j == 0 {
      q := 0;
    } else {
      var q0 := TableModulo(t, j - 1);
      var n := 3 + 8 * (j - 1);
      var w := WidthAfter(2, n + 7);
      forall i | n <= i < n + 8
        ensures WidthAfter(2, i) == w
      {
        SameWidth(j - 1, i);
      }
      Eight(2, t, n, w);
      q := q0 + w;
    }
  }

  lemma Eight(bpp: nat, t: nat, n: nat, w: nat)
    requires forall i :: n <= i < n + 8 ==> WidthAfter(bpp, i) == w
    ensures BitsBefore(bpp, t, n + 8) == BitsBefore(bpp, t, n) + 8 * w
  {
    hide WidthAfter, BitsBefore;
    NextBits(bpp, t, n);
    NextBits(bpp, t, n + 1);
    NextBits(bpp, t, n + 2);
    NextBits(bpp, t, n + 3);
    NextBits(bpp, t, n + 4);
    NextBits(bpp, t, n + 5);
    NextBits(bpp, t, n + 6);
    NextBits(bpp, t, n + 7);
  }

  lemma SameWidth(j: nat, i: nat)
    requires 3 + 8 * j <= i < 11 + 8 * j
    ensures WidthAfter(2, i) == WidthAfter(2, 10 + 8 * j)
  {
    SmallPowers();
    SameFit(3, j, 6 + i);
  }

  lemma {:induction false} SameFit(w: nat, j: nat, count: nat)
    requires 3 <= w <= LZ_BITS && 8 * j + 8 < count <= 8 * j + 16
    ensures Fit(w, count) == Fit(w, 8 * j + 16)
    decreases LZ_BITS - w
  {
    hide Pow2;
    if w < LZ_BITS {
      SameFit(w + 1, j, count);
      EightDivides(w);
    }
  }

  lemma EightDivides(w: nat)
    requires w >= 3
    ensures Pow2(w) == 8 * Pow2(w - 3)
  {
    assert Pow2(w) == 2 * Pow2(w - 1);
    assert Pow2(w - 1) == 2 * Pow2(w - 2);
  }
}
