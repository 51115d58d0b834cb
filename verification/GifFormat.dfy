/** What a GIF file holds, and when a byte string describes it (GIF89a, sections 15 to 27). */
module GifFormat {
  import opened Bits

  datatype Option<+T> = None | Some(value: T)

  datatype Color = Color(red: byte, green: byte, blue: byte)

  datatype ColorMap = ColorMap(colors: seq<Color>, sortFlag: bool)

  /** A sub-block of an extension; all but the first of an extension have the CONTINUE code. */
  datatype Extension = Extension(code: byte, bytes: seq<byte>)

  datatype ImageDesc = ImageDesc(left: nat, top: nat, width: nat, height: nat, interlace: bool,
                                 colorMap: Option<ColorMap>)

  datatype Image = Image(desc: ImageDesc, raster: seq<byte>, extensions: seq<Extension>)

  datatype Screen = Screen(width: nat, height: nat, colorResolution: nat, background: byte,
                           aspect: byte, colorMap: Option<ColorMap>)

  datatype Gif = Gif(screen: Screen, images: seq<Image>, trailing: seq<Extension>)

  const EXTENSION_INTRODUCER: byte := 0x21
  const DESCRIPTOR_INTRODUCER: byte := 0x2c
  const TERMINATOR_INTRODUCER: byte := 0x3b
  const CONTINUE_EXT: byte := 0
  const COMMENT_EXT: byte := 0xfe
  const GRAPHICS_EXT: byte := 0xf9
  const PLAINTEXT_EXT: byte := 0x01
  const APPLICATION_EXT: byte := 0xff

  // ----- words and colours

  function LoByte(x: nat): byte { x % 256 }
  function HiByte(x: nat): byte { x / 256 % 256 }

  function PrintWord(x: nat): (s: seq<byte>)
    ensures |s| == 2 && (x < 0x1_0000 ==> Word(s[0], s[1]) == x)
  {
    [LoByte(x), HiByte(x)]
  }

  /** UNSIGNED_LITTLE_ENDIAN */
  function Word(lo: byte, hi: byte): (w: nat)
    ensures w < 0x1_0000
  {
    hi as nat * 256 + lo as nat
  }

  function PrintColors(colors: seq<Color>): (s: seq<byte>)
    ensures |s| == 3 * |colors|
  {
    if colors == [] then [] else PrintColors(colors[..|colors| - 1]) + PrintColor(colors[|colors| - 1])
  }

  function PrintColor(c: Color): seq<byte> { [c.red, c.green, c.blue] }

  /** The colour at index i of a colour table. */
  function ColorAt(s: seq<byte>, i: nat): Color
    requires 3 * i + 3 <= |s|
  {
    Color(s[3 * i], s[3 * i + 1], s[3 * i + 2])
  }

  lemma {:induction false} PrintedColor(colors: seq<Color>, tail: seq<byte>, i: nat)
    requires i < |colors|
    ensures ColorAt(PrintColors(colors) + tail, i) == colors[i]
  {
    var n := |colors| - 1;
    if i < n {
      PrintedColor(colors[..n], PrintColor(colors[n]) + tail, i);
      assert PrintColors(colors) + tail == PrintColors(colors[..n]) + (PrintColor(colors[n]) + tail);
    }
  }

  /** The least bit size from 1 up, and at most 9, that n colours fit in. */
  function BitSizeFrom(i: nat, n: nat): (r: nat)
    requires 1 <= i <= 9
    ensures i <= r <= 9
    decreases 9 - i
  {
    if i > 8 || Pow2(i) >= n then i else BitSizeFrom(i + 1, n)
  }

  function BitSize(n: nat): nat { BitSizeFrom(1, n) }

  /** The numbers of colours that a colour table can have: 2, 4, ... 256. */
  predicate MapFits(m: ColorMap) { |m.colors| == Pow2(BitSize(|m.colors|)) && BitSize(|m.colors|) <= 8 }

  function MapBits(m: Option<ColorMap>, otherwise: nat): nat {
    if m.Some? then BitSize(|m.value.colors|) else otherwise
  }

  lemma {:induction false} BitSizeOfPower(i: nat, k: nat)
    requires 1 <= i <= k <= 8
    ensures BitSizeFrom(i, Pow2(k)) == k
    decreases k - i
  {
    if i < k {
      Pow2Grows(i + 1, k);
      BitSizeOfPower(i + 1, k);
    }
  }

  /** The bit size is the least one that gives so many colours a number each, but 9 if there are more than 256. */
  lemma BitSizeLeast(n: nat)
    ensures var b := BitSize(n);
      1 <= b <= 9 && (n <= 256 <==> b <= 8) && (b <= 8 ==> n <= Pow2(b)) && (b > 1 ==> n > Pow2(b - 1))
  {
    SmallPowers();
    BitSizeLeastFrom(1, n);
  }

  lemma {:induction false} BitSizeLeastFrom(i: nat, n: nat)
    requires 1 <= i <= 9 && (i > 1 ==> n > Pow2(i - 1))
    ensures var b := BitSizeFrom(i, n); (b <= 8 ==> n <= Pow2(b)) && (b > 1 ==> n > Pow2(b - 1))
    decreases 9 - i
  {
    if i <= 8 && n > Pow2(i) {
      BitSizeLeastFrom(i + 1, n);
    }
  }

  // ----- rows

  /** The rows off, off + jump, off + 2 * jump, ... below h. */
  function Pass(off: nat, jump: nat, h: nat): seq<nat>
    requires jump > 0
    decreases h - off
  {
    if off >= h then [] else [off] + Pass(off + jump, jump, h)
  }

  /** The order of the rows in the pixel stream: four passes if interlaced (Appendix E). */
  function RowOrder(interlace: bool, h: nat): seq<nat> {
    if interlace then Pass(0, 8, h) + Pass(4, 8, h) + Pass(2, 4, h) + Pass(1, 2, h) else Pass(0, 1, h)
  }

  const INTERLACED_OFFSET: seq<nat> := [0, 4, 2, 1]
  const INTERLACED_JUMPS: seq<nat> := [8, 8, 4, 2]

  /** The rows of the passes from pass k on. */
  function PassesFrom(k: nat, h: nat): seq<nat>
    requires k <= 4
    decreases 4 - k
  {
    if k == 4 then [] else Pass(INTERLACED_OFFSET[k], INTERLACED_JUMPS[k], h) + PassesFrom(k + 1, h)
  }

  lemma PassesAreOrder(h: nat)
    ensures PassesFrom(0, h) == RowOrder(true, h)
  {
    assert PassesFrom(4, h) == [];
    assert PassesFrom(3, h) == Pass(1, 2, h);
    assert PassesFrom(2, h) == Pass(2, 4, h) + Pass(1, 2, h);
    assert PassesFrom(1, h) == Pass(4, 8, h) + (Pass(2, 4, h) + Pass(1, 2, h));
    assert PassesFrom(0, h) == Pass(0, 8, h) + (Pass(4, 8, h) + (Pass(2, 4, h) + Pass(1, 2, h)));
  }

  lemma PassNext(j: nat, jump: nat, h: nat)
    requires jump > 0 && j < h
    ensures Pass(j, jump, h) == [j] + Pass(j + jump, jump, h)
  {
  }

  lemma FirstOfPass(order: seq<nat>, n: nat, j: nat, jump: nat, h: nat, later: seq<nat>)
    requires n <= |order| && jump > 0 && j < h && order[n..] == Pass(j, jump, h) + later
    ensures n < |order| && order[n] == j && order[n + 1..] == Pass(j + jump, jump, h) + later
  {
    hide Pass;
    PassNext(j, jump, h);
    assert order[n..] == [j] + (Pass(j + jump, jump, h) + later);
    assert order[n..][0] == j;
    assert order[n + 1..] == order[n..][1..];
  }

  lemma EndOfPass(j: nat, jump: nat, h: nat, later: seq<nat>)
    requires jump > 0 && j >= h
    ensures Pass(j, jump, h) + later == later
  {
  }

  ghost function Times(rows: seq<nat>, r: nat): nat { multiset(rows)[r] }

  /** r is one of off, off + jump, off + 2 * jump, ... */
  ghost predicate On(off: nat, jump: nat, r: nat)
    requires jump > 0
    decreases r - off
  {
    off <= r && (off == r || On(off + jump, jump, r))
  }

  lemma {:induction false} PassVisits(off: nat, jump: nat, h: nat, r: nat)
    requires jump > 0
    ensures Times(Pass(off, jump, h), r) == if r < h && On(off, jump, r) then 1 else 0
    decreases h - off
  {
    if off < h {
      var rest := Pass(off + jump, jump, h);
      assert multiset([off] + rest) == multiset{off} + multiset(rest);
      PassVisits(off + jump, jump, h, r);
    } else if On(off, jump, r) {
      assert r >= h;
    }
  }

  lemma {:induction false} On8(off: nat, r: nat)
    ensures On(off, 8, r) <==> off <= r && (r - off) % 8 == 0
    decreases r - off
  {
    if off + 8 <= r {
      On8(off + 8, r);
    }
  }

  lemma {:induction false} On4(off: nat, r: nat)
    ensures On(off, 4, r) <==> off <= r && (r - off) % 4 == 0
    decreases r - off
  {
    if off + 4 <= r {
      On4(off + 4, r);
    }
  }

  lemma {:induction false} On2(off: nat, r: nat)
    ensures On(off, 2, r) <==> off <= r && (r - off) % 2 == 0
    decreases r - off
  {
    if off + 2 <= r {
      On2(off + 2, r);
    }
  }

  lemma {:induction false} On1(off: nat, r: nat)
    ensures On(off, 1, r) <==> off <= r
    decreases r - off
  {
    if off < r {
      On1(off + 1, r);
    }
  }

  lemma CountConcat(a: seq<nat>, b: seq<nat>, r: nat)
    ensures Times(a + b, r) == Times(a, r) + Times(b, r)
  {
    assert multiset(a + b) == multiset(a) + multiset(b);
  }

  /** Whatever the height, the passes visit every row exactly once. */
  lemma RowsOnce(interlace: bool, h: nat, r: nat)
    ensures Times(RowOrder(interlace, h), r) == if r < h then 1 else 0
  {
    hide Pass, On, Times;
    if interlace {
      var a, b, c, d := Pass(0, 8, h), Pass(4, 8, h), Pass(2, 4, h), Pass(1, 2, h);
      CountConcat(a, b, r);
      CountConcat(a + b, c, r);
      CountConcat(a + b + c, d, r);
      PassVisits(0, 8, h, r);
      PassVisits(4, 8, h, r);
      PassVisits(2, 4, h, r);
      PassVisits(1, 2, h, r);
      On8(0, r);
      On8(4, r);
      On4(2, r);
      On2(1, r);
    } else {
      PassVisits(0, 1, h, r);
      On1(0, r);
    }
  }

  lemma OrderIsPermutation(interlace: bool, h: nat)
    ensures multiset(RowOrder(interlace, h)) == multiset(Pass(0, 1, h))
    ensures |RowOrder(interlace, h)| == h
  {
    var order, plain := RowOrder(interlace, h), Pass(0, 1, h);
    forall r: nat
      ensures Times(order, r) == Times(plain, r)
    {
      RowsOnce(interlace, h, r);
      RowsOnce(false, h, r);
    }
    SameTimes(order, plain);
    assert |order| == |multiset(order)| && |plain| == |multiset(plain)|;
    PassLength(0, h);
  }

  lemma SameTimes(a: seq<nat>, b: seq<nat>)
    requires forall r :: Times(a, r) == Times(b, r)
    ensures multiset(a) == multiset(b)
  {
    var m: multiset<nat>, n: multiset<nat> := multiset(a), multiset(b);
    forall r
      ensures m[r] == n[r]
    {
      assert Times(a, r) == Times(b, r);
    }
    assert m == n;
  }

  lemma {:induction false} PassLength(off: nat, h: nat)
    requires off <= h
    ensures |Pass(off, 1, h)| == h - off
    ensures forall i :: 0 <= i < h - off ==> Pass(off, 1, h)[i] == off + i
    decreases h - off
  {
    if off < h {
      PassLength(off + 1, h);
    }
  }

  lemma PlainOrder(h: nat)
    ensures |RowOrder(false, h)| == h && forall i :: 0 <= i < h ==> RowOrder(false, h)[i] == i
  {
    PassLength(0, h);
  }

  /** Every place in the order holds a row of the image, */
  lemma OrderInRange(interlace: bool, h: nat)
    ensures |RowOrder(interlace, h)| == h
    ensures forall i :: 0 <= i < h ==> RowOrder(interlace, h)[i] < h
  {
    var order := RowOrder(interlace, h);
    OrderIsPermutation(interlace, h);
    forall i | 0 <= i < h
      ensures order[i] < h
    {
      RowsOnce(interlace, h, order[i]);
      assert order[i] in multiset(order);
    }
  }

  /** no row comes twice, */
  lemma OrderDistinct(interlace: bool, h: nat, i: nat, j: nat)
    requires i < j < |RowOrder(interlace, h)|
    ensures RowOrder(interlace, h)[i] != RowOrder(interlace, h)[j]
  {
    var order := RowOrder(interlace, h);
    RowsOnce(interlace, h, order[i]);
    assert order == order[..j] + order[j..];
    CountConcat(order[..j], order[j..], order[i]);
    assert order[i] in order[..j] && order[j] in order[j..];
  }

  /** and none is missing. */
  lemma OrderCovers(interlace: bool, h: nat, r: nat)
    requires r < h
    ensures r in RowOrder(interlace, h)
  {
    RowsOnce(interlace, h, r);
    assert r in multiset(RowOrder(interlace, h));
  }

  function RowStart(r: nat, w: nat): nat { r * w }

  /** An image has a pixel for every place. */
  predicate HasRaster(image: Image) { |image.raster| == RowStart(image.desc.height, image.desc.width) }

  lemma RowFits(r: nat, h: nat, w: nat)
    requires r < h
    ensures RowStart(r, w) + w == RowStart(r + 1, w) <= RowStart(h, w)
  {
    assert (r + 1) * w <= h * w;
  }

  lemma LeastRow(n: nat, h: nat, w: nat)
    requires n < h && 0 < w
    ensures RowStart(h, w) - RowStart(n, w) >= w
    ensures n + 1 < h ==> RowStart(h, w) - RowStart(n + 1, w) > 0
  {
    RowFits(n, h, w);
    if n + 1 < h {
      RowFits(n + 1, h, w);
    }
  }

  ghost predicate InRaster(size: nat, w: nat, order: seq<nat>) {
    forall i :: 0 <= i < |order| ==> RowStart(order[i], w) + w <= size
  }

  lemma OrderInRaster(interlace: bool, h: nat, w: nat)
    ensures InRaster(RowStart(h, w), w, RowOrder(interlace, h))
  {
    OrderInRange(interlace, h);
    forall i | 0 <= i < h
      ensures RowStart(RowOrder(interlace, h)[i], w) + w <= RowStart(h, w)
    {
      RowFits(RowOrder(interlace, h)[i], h, w);
    }
  }

  /** The pixels of the given rows of a raster of width w, one row after the other. */
  ghost function Rows(raster: seq<byte>, w: nat, order: seq<nat>): (s: seq<byte>)
    requires InRaster(|raster|, w, order)
  {
    if order == [] then []
    else
      var n := |order| - 1;
      Rows(raster, w, order[..n]) + raster[RowStart(order[n], w)..RowStart(order[n], w) + w]
  }

  lemma RowsOfNone(raster: seq<byte>, w: nat)
    ensures InRaster(|raster|, w, []) && Rows(raster, w, []) == []
  {
  }

  lemma RowsSnoc(raster: seq<byte>, w: nat, order: seq<nat>, n: nat)
    requires InRaster(|raster|, w, order) && n < |order|
    ensures InRaster(|raster|, w, order[..n]) && InRaster(|raster|, w, order[..n + 1])
    ensures Rows(raster, w, order[..n + 1])
         == Rows(raster, w, order[..n]) + raster[RowStart(order[n], w)..RowStart(order[n], w) + w]
  {
    assert order[..n + 1][..n] == order[..n];
  }

  lemma {:induction false} RowsLength(raster: seq<byte>, w: nat, order: seq<nat>)
    requires InRaster(|raster|, w, order)
    ensures |Rows(raster, w, order)| == RowStart(|order|, w)
  {
    if order != [] {
      var n := |order| - 1;
      RowsLength(raster, w, order[..n]);
      RowFits(n, n + 1, w);
    }
  }

  /** Changing one row leaves the others. */
  lemma {:induction false} RowsUnaffected(a: seq<byte>, b: seq<byte>, w: nat, order: seq<nat>, r: nat)
    requires InRaster(|a|, w, order) && |a| == |b| && RowStart(r, w) + w <= |a| && r !in order
    requires a[..RowStart(r, w)] == b[..RowStart(r, w)] && a[RowStart(r, w) + w..] == b[RowStart(r, w) + w..]
    ensures Rows(a, w, order) == Rows(b, w, order)
  {
    hide RowStart, Rows;
    if order == [] {
      RowsOfNone(a, w);
      RowsOfNone(b, w);
    } else {
      var n := |order| - 1;
      var x, y := RowStart(order[n], w), RowStart(r, w);
      assert order[..n + 1] == order;
      RowsSnoc(a, w, order, n);
      RowsSnoc(b, w, order, n);
      RowsUnaffected(a, b, w, order[..n], r);
      assert order[n] in order;
      if order[n] < r {
        RowFits(order[n], r, w);
      } else {
        RowFits(r, order[n], w);
      }
      RowApart(a, b, w, x, y);
    }
  }

  lemma RowApart(a: seq<byte>, b: seq<byte>, w: nat, x: nat, y: nat)
    requires |a| == |b| && x + w <= |a| && y + w <= |a| && (x + w <= y || y + w <= x)
    requires a[..y] == b[..y] && a[y + w..] == b[y + w..]
    ensures a[x..x + w] == b[x..x + w]
  {
    if x + w <= y {
      assert a[x..x + w] == a[..y][x..x + w] && b[x..x + w] == b[..y][x..x + w];
    } else {
      var k := x - y - w;
      assert a[x..x + w] == a[y + w..][k..k + w] && b[x..x + w] == b[y + w..][k..k + w];
    }
  }

  /** The rows in any order that misses none determine the raster. */
  lemma {:induction false} RowsEqual(a: seq<byte>, b: seq<byte>, w: nat, order: seq<nat>, r: nat)
    requires InRaster(|a|, w, order) && |a| == |b| && Rows(a, w, order) == Rows(b, w, order) && r in order
    ensures RowStart(r, w) + w <= |a|
    ensures a[RowStart(r, w)..RowStart(r, w) + w] == b[RowStart(r, w)..RowStart(r, w) + w]
  {
    var n := |order| - 1;
    RowsLength(a, w, order[..n]);
    RowsLength(b, w, order[..n]);
    var x, k := RowStart(order[n], w), RowStart(n, w);
    assert a[x..x + w] == Rows(a, w, order)[k..] && b[x..x + w] == Rows(b, w, order)[k..];
    if r != order[n] {
      assert Rows(a, w, order[..n]) == Rows(a, w, order)[..k] && Rows(b, w, order[..n]) == Rows(b, w, order)[..k];
      RowsEqual(a, b, w, order[..n], r);
    }
  }

  lemma RowsDetermine(a: seq<byte>, b: seq<byte>, w: nat, h: nat, interlace: bool)
    requires |a| == |b| == RowStart(h, w) && InRaster(|a|, w, RowOrder(interlace, h))
    requires Rows(a, w, RowOrder(interlace, h)) == Rows(b, w, RowOrder(interlace, h))
    ensures a == b
  {
    PrefixEqual(a, b, w, h, interlace, h);
    assert a[..|a|] == a && b[..|b|] == b;
  }

  lemma {:induction false} PrefixEqual(a: seq<byte>, b: seq<byte>, w: nat, h: nat, interlace: bool, n: nat)
    requires n <= h && |a| == |b| == RowStart(h, w) && InRaster(|a|, w, RowOrder(interlace, h))
    requires Rows(a, w, RowOrder(interlace, h)) == Rows(b, w, RowOrder(interlace, h))
    ensures RowStart(n, w) <= |a| && a[..RowStart(n, w)] == b[..RowStart(n, w)]
  {
    if n > 0 {
      PrefixEqual(a, b, w, h, interlace, n - 1);
      RowFits(n - 1, h, w);
      OrderCovers(interlace, h, n - 1);
      RowsEqual(a, b, w, RowOrder(interlace, h), n - 1);
      var x, y := RowStart(n - 1, w), RowStart(n, w);
      assert a[..y] == a[..x] + a[x..y] && b[..y] == b[..x] + b[x..y];
    }
  }

  /** Without interlacing, the pixel stream is the raster. */
  lemma {:induction false} RowsInSequence(raster: seq<byte>, w: nat, h: nat, n: nat)
    requires n <= h && |raster| == RowStart(h, w) && InRaster(|raster|, w, RowOrder(false, h))
    ensures |RowOrder(false, h)| == h && InRaster(|raster|, w, RowOrder(false, h)[..n])
    ensures RowStart(n, w) <= |raster| && Rows(raster, w, RowOrder(false, h)[..n]) == raster[..RowStart(n, w)]
  {
    PassLength(0, h);
    if n > 0 {
      RowsInSequence(raster, w, h, n - 1);
      RowsSnoc(raster, w, RowOrder(false, h), n - 1);
      RowFits(n - 1, h, w);
      var x, y := RowStart(n - 1, w), RowStart(n, w);
      assert raster[..y] == raster[..x] + raster[x..y];
    }
  }

  // ----- where a row is in the pixel stream

  /** The place of row r, by Appendix E: every 8th row comes first, from row 0; then every 8th row, from row 4; every
      4th row, from row 2; and every 2nd row, from row 1. */
  function Place(interlace: bool, h: nat, r: nat): nat {
    if !interlace then r
    else if r % 8 == 0 then r / 8
    else if r % 8 == 4 then (h + 7) / 8 + r / 8
    else if r % 4 == 2 then (h + 7) / 8 + (h + 3) / 8 + r / 4
    else (h + 7) / 8 + (h + 3) / 8 + (h + 1) / 4 + r / 2
  }

  lemma {:induction false} PassHolds(off: nat, jump: nat, h: nat, k: nat)
    requires jump > 0 && off + k * jump < h
    ensures k < |Pass(off, jump, h)| && Pass(off, jump, h)[k] == off + k * jump
    decreases k
  {
    if k > 0 {
      assert k * jump == (k - 1) * jump + jump;
      PassHolds(off + jump, jump, h, k - 1);
    }
  }

  lemma {:induction false} PassCount(off: nat, jump: nat, h: nat, n: nat)
    requires jump > 0 && off + n * jump >= h && (n > 0 ==> off + (n - 1) * jump < h)
    ensures |Pass(off, jump, h)| == n
    decreases n
  {
    if n > 0 {
      assert n * jump == (n - 1) * jump + jump;
      if n > 1 {
        assert (n - 1) * jump == (n - 2) * jump + jump;
      }
      PassCount(off + jump, jump, h, n - 1);
    }
  }

  lemma PassCounts(h: nat)
    ensures |Pass(0, 8, h)| == (h + 7) / 8 && |Pass(4, 8, h)| == (h + 3) / 8 && |Pass(2, 4, h)| == (h + 1) / 4
  {
    hide Pass;
    PassCount(0, 8, h, (h + 7) / 8);
    PassCount(4, 8, h, (h + 3) / 8);
    PassCount(2, 4, h, (h + 1) / 4);
  }

  /** Where a row is in its pass. */
  lemma RowInPass(h: nat, r: nat)
    requires r < h
    ensures r % 8 == 0 ==> r / 8 < |Pass(0, 8, h)| && Pass(0, 8, h)[r / 8] == r
    ensures r % 8 == 4 ==> r / 8 < |Pass(4, 8, h)| && Pass(4, 8, h)[r / 8] == r
    ensures r % 4 == 2 ==> r / 4 < |Pass(2, 4, h)| && Pass(2, 4, h)[r / 4] == r
    ensures r % 2 == 1 ==> r / 2 < |Pass(1, 2, h)| && Pass(1, 2, h)[r / 2] == r
  {
    hide Pass;
    if r % 8 == 0 {
      DivMod(r, 8, 0);
      PassHolds(0, 8, h, r / 8);
    }
    if r % 8 == 4 {
      DivMod(r, 8, 4);
      PassHolds(4, 8, h, r / 8);
    }
    if r % 4 == 2 {
      DivMod(r, 4, 2);
      PassHolds(2, 4, h, r / 4);
    }
    if r % 2 == 1 {
      DivMod(r, 2, 1);
      PassHolds(1, 2, h, r / 2);
    }
  }

  lemma DivMod(r: nat, d: nat, off: nat)
    requires d > 0 && r % d == off
    ensures r == off + r / d * d
  {
  }

  lemma InFour(a: seq<nat>, b: seq<nat>, c: seq<nat>, d: seq<nat>, k: nat)
    ensures k < |a| ==> (a + b + c + d)[k] == a[k]
    ensures k < |b| ==> (a + b + c + d)[|a| + k] == b[k]
    ensures k < |c| ==> (a + b + c + d)[|a| + |b| + k] == c[k]
    ensures k < |d| ==> (a + b + c + d)[|a| + |b| + |c| + k] == d[k]
  {
  }

  lemma EvenOrOdd(r: nat)
    ensures r % 8 == 0 || r % 8 == 4 || r % 4 == 2 || r % 2 == 1
  {
  }

  /** Every row is at its place. */
  lemma RowAtPlace(interlace: bool, h: nat, r: nat)
    requires r < h
    ensures Place(interlace, h, r) < |RowOrder(interlace, h)| && RowOrder(interlace, h)[Place(interlace, h, r)] == r
  {
    hide Pass;
    if !interlace {
      PassHolds(0, 1, h, r);
    } else {
      PassCounts(h);
      RowInPass(h, r);
      EvenOrOdd(r);
      InFour(Pass(0, 8, h), Pass(4, 8, h), Pass(2, 4, h), Pass(1, 2, h),
             if r % 8 == 0 || r % 8 == 4 then r / 8 else if r % 4 == 2 then r / 4 else r / 2);
    }
  }

  lemma {:induction false} RowInStream(raster: seq<byte>, w: nat, order: seq<nat>, k: nat, c: nat)
    requires InRaster(|raster|, w, order) && k < |order| && c < w
    ensures RowStart(order[k], w) + c < |raster| && RowStart(k, w) + c < |Rows(raster, w, order)|
    ensures Rows(raster, w, order)[RowStart(k, w) + c] == raster[RowStart(order[k], w) + c]
    decreases |order|
  {
    hide RowStart, Rows;
    var n := |order| - 1;
    assert order[..n + 1] == order;
    RowsSnoc(raster, w, order, n);
    RowsLength(raster, w, order[..n]);
    RowsLength(raster, w, order);
    RowFits(k, n + 1, w);
    if k < n {
      RowFits(k, n, w);
      RowInStream(raster, w, order[..n], k, c);
    }
  }

  /** Pixel c of row r of a raster is pixel c of the row at its place in the stream. */
  ghost predicate PixelInPlace(raster: seq<byte>, stream: seq<byte>, interlace: bool, w: nat, h: nat, r: nat, c: nat) {
    && r * w + c < |raster| && Place(interlace, h, r) * w + c < |stream|
    && raster[r * w + c] == stream[Place(interlace, h, r) * w + c]
  }

  ghost predicate InPlace(raster: seq<byte>, stream: seq<byte>, interlace: bool, w: nat, h: nat) {
    forall r, c :: 0 <= r < h && 0 <= c < w ==> PixelInPlace(raster, stream, interlace, w, h, r, c)
  }

  lemma RowsInPlace(raster: seq<byte>, stream: seq<byte>, interlace: bool, w: nat, h: nat)
    requires InRaster(|raster|, w, RowOrder(interlace, h)) && Rows(raster, w, RowOrder(interlace, h)) <= stream
    ensures InPlace(raster, stream, interlace, w, h)
  {
    hide RowOrder, Rows, Place, InRaster;
    forall r, c | 0 <= r < h && 0 <= c < w
      ensures PixelInPlace(raster, stream, interlace, w, h, r, c)
    {
      RowAtPlace(interlace, h, r);
      RowInStream(raster, w, RowOrder(interlace, h), Place(interlace, h, r), c);
    }
  }

  /** The frame before, in an animation that runs round. */
  lemma FrameBefore(frameNr: nat, count: nat)
    requires frameNr < count
    ensures (frameNr + count - 1) % count == if frameNr == 0 then count - 1 else frameNr - 1
  {
    if frameNr > 0 {
      var k := frameNr - 1;
      assert k + count == count * 1 + k;
    }
  }
}
