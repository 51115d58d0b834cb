/** Converting UTF-16 to UTF-8 (utf.cpp; section 3 of RFC 3629, section 2.2 of RFC 2781). */
module Utf {
  import opened Bits

  type unit = x: int | 0 <= x < 0x1_0000

  predicate High(u: unit) { 0xD800 <= u <= 0xDBFF }
  predicate Low(u: unit) { 0xDC00 <= u <= 0xDFFF }
  predicate Scalar(c: nat) { c <= 0x10FFFF && !(0xD800 <= c <= 0xDFFF) }

  /** High surrogates are followed by low ones, or end the text.  There may be stray low ones. */
  ghost predicate Paired(s: seq<unit>) {
    forall i :: 0 <= i && i + 1 < |s| && High(s[i]) ==> Low(s[i + 1])
  }

  function PairOf(high: unit, low: unit): nat
    requires High(high) && Low(low)
  {
    0x1_0000 + (high as int - 0xD800) * 0x400 + (low as int - 0xDC00)
  }

  /** The characters of a text, strays left out. */
  ghost function Scalars(s: seq<unit>): seq<nat> {
    if s == [] then []
    else if High(s[0]) && |s| > 1 && Low(s[1]) then
      [PairOf(s[0], s[1])] + Scalars(s[2..])
    else if High(s[0]) || Low(s[0]) then Scalars(s[1..])
    else [s[0]] + Scalars(s[1..])
  }

  // ----- UTF-8

  datatype One = Invalid | One(c: nat, n: nat)

  predicate Tail(s: seq<byte>, i: nat) { i < |s| && 0x80 <= s[i] < 0xC0 }

  /** The six bits of a tail byte. */
  function Six(s: seq<byte>, i: nat): nat
    requires Tail(s, i)
  {
    s[i] as int - 0x80
  }

  /** The character at the front of s: only the shortest form of a scalar value is valid. */
  ghost function DecodeOne(s: seq<byte>): (r: One)
    ensures r.One? ==> 0 < r.n <= |s|
  {
    if s == [] then Invalid
    else
      var b: nat := s[0];
      if b < 0x80 then One(b, 1)
      else if 0xC2 <= b < 0xE0 && Tail(s, 1) then One((b - 0xC0) * 0x40 + Six(s, 1), 2)
      else if 0xE0 <= b < 0xF0 && Tail(s, 1) && Tail(s, 2) then
        var c := (b - 0xE0) * 0x1000 + Six(s, 1) * 0x40 + Six(s, 2);
        if 0x800 <= c && Scalar(c) then One(c, 3) else Invalid
      else if 0xF0 <= b < 0xF5 && Tail(s, 1) && Tail(s, 2) && Tail(s, 3) then
        var c := (b - 0xF0) * 0x4_0000 + Six(s, 1) * 0x1000 + Six(s, 2) * 0x40 + Six(s, 3);
        if 0x1_0000 <= c && Scalar(c) then One(c, 4) else Invalid
      else Invalid
  }

  datatype Text = Garbled | Text(scalars: seq<nat>)

  ghost function Decode(s: seq<byte>): Text
    decreases |s|
  {
    if s == [] then Text([])
    else match DecodeOne(s)
      case Invalid => Garbled
      case One(c, n) =>
        match Decode(s[n..])
        case Garbled => Garbled
        case Text(scalars) => Text([c] + scalars)
  }

  /** utf32_to_utf8_bytes */
  function Utf32ToUtf8Bytes(srcChar: nat): (bytes: nat)
    ensures bytes <= 4 && (bytes > 0 <==> Scalar(srcChar))
  {
    if srcChar < 0x80 then 1
    else if srcChar < 0x800 then 2
    else if srcChar < 0x1_0000 then (if srcChar < 0xD800 || srcChar > 0xDFFF then 3 else 0)
    else if srcChar <= 0x10FFFF then 4
    else 0
  }

  /** (srcChar | kByteMark) & kByteMask */
  function TailByte(srcChar: nat): byte { 0x80 + srcChar % 0x40 }

  /** kFirstByteMark */
  function FirstByteMark(bytes: nat): byte {
    if bytes == 2 then 0xC0 else if bytes == 3 then 0xE0 else if bytes == 4 then 0xF0 else 0
  }

  /** The bytes of a character. */
  function Utf8(c: nat): (s: seq<byte>)
    requires Scalar(c)
    ensures |s| == Utf32ToUtf8Bytes(c)
  {
    if c < 0x80 then [c]
    else if c < 0x800 then [0xC0 + c / 0x40, TailByte(c)]
    else if c < 0x1_0000 then [0xE0 + c / 0x1000, TailByte(c / 0x40), TailByte(c)]
    else [0xF0 + c / 0x4_0000, TailByte(c / 0x1000), TailByte(c / 0x40), TailByte(c)]
  }

  lemma Sextets(c: nat)
    ensures c / 0x40 / 0x40 == c / 0x1000 && c / 0x40 / 0x40 / 0x40 == c / 0x4_0000
  {
  }

  lemma TailBytes(c: nat, s: seq<byte>, i: nat)
    requires i < |s| && s[i] == TailByte(c)
    ensures Tail(s, i) && Six(s, i) == c % 0x40
  {
  }

  lemma DecodeUtf8(c: nat, rest: seq<byte>)
    requires Scalar(c)
    ensures DecodeOne(Utf8(c) + rest) == One(c, |Utf8(c)|)
  {
    hide TailByte, DecodeOne;
    var s := Utf8(c) + rest;
    if c < 0x80 {
      DecodeShort(c, s);
    } else if c < 0x800 {
      DecodeTwo(c, s);
    } else if c < 0x1_0000 {
      DecodeThree(c, s);
    } else {
      DecodeFour(c, s);
    }
  }

  lemma DecodeShort(c: nat, s: seq<byte>)
    requires c < 0x80 && s != [] && s[0] == c
    ensures DecodeOne(s) == One(c, 1)
  {
  }

  lemma DecodeTwo(c: nat, s: seq<byte>)
    requires 0x80 <= c < 0x800 && |s| >= 2 && s[0] == 0xC0 + c / 0x40 && s[1] == TailByte(c)
    ensures DecodeOne(s) == One(c, 2)
  {
    hide TailByte, Tail, Six;
    TailBytes(c, s, 1);
  }

  lemma DecodeThree(c: nat, s: seq<byte>)
    requires 0x800 <= c < 0x1_0000 && Scalar(c) && |s| >= 3
    requires s[0] == 0xE0 + c / 0x1000 && s[1] == TailByte(c / 0x40) && s[2] == TailByte(c)
    ensures DecodeOne(s) == One(c, 3)
  {
    hide TailByte, Tail, Six;
    TailBytes(c / 0x40, s, 1);
    TailBytes(c, s, 2);
    assert c / 0x1000 == c / 0x40 / 0x40;
  }

  lemma DecodeFour(c: nat, s: seq<byte>)
    requires 0x1_0000 <= c && Scalar(c) && |s| >= 4
    requires s[0] == 0xF0 + c / 0x4_0000 && s[1] == TailByte(c / 0x1000)
    requires s[2] == TailByte(c / 0x40) && s[3] == TailByte(c)
    ensures DecodeOne(s) == One(c, 4)
  {
    hide TailByte, Tail, Six;
    TailBytes(c / 0x1000, s, 1);
    TailBytes(c / 0x40, s, 2);
    TailBytes(c, s, 3);
    assert c / 0x1000 == c / 0x40 / 0x40 && c / 0x4_0000 == c / 0x1000 / 0x40;
  }

  ghost function Encoded(scalars: seq<nat>): seq<byte>
    requires forall i :: 0 <= i < |scalars| ==> Scalar(scalars[i])
  {
    if scalars == [] then [] else Utf8(scalars[0]) + Encoded(scalars[1..])
  }

  /** Reading back the bytes of any characters. */
  lemma {:induction false} DecodeEncoded(scalars: seq<nat>)
    requires forall i :: 0 <= i < |scalars| ==> Scalar(scalars[i])
    ensures Decode(Encoded(scalars)) == Text(scalars)
  {
    hide DecodeOne, Utf8;
    if scalars != [] {
      DecodeEncoded(scalars[1..]);
      DecodeUtf8(scalars[0], Encoded(scalars[1..]));
      assert Encoded(scalars)[|Utf8(scalars[0])|..] == Encoded(scalars[1..]);
    }
  }

  lemma {:induction false} EncodedSnoc(scalars: seq<nat>, c: nat)
    requires Scalar(c) && forall i :: 0 <= i < |scalars| ==> Scalar(scalars[i])
    ensures Encoded(scalars + [c]) == Encoded(scalars) + Utf8(c)
  {
    hide Utf8;
    if scalars == [] {
      assert [c][1..] == [] && Utf8(c) + [] == [] + Utf8(c);
    } else {
      EncodedSnoc(scalars[1..], c);
      assert (scalars + [c])[1..] == scalars[1..] + [c];
    }
  }

  lemma EncodedPart(scalars: seq<nat>, c: nat)
    requires forall i :: 0 <= i < |scalars| ==> Scalar(scalars[i])
    ensures Encoded(scalars + Part(c)) == Encoded(scalars) + (if Scalar(c) then Utf8(c) else [])
    ensures forall i :: 0 <= i < |Part(c)| ==> Scalar(Part(c)[i])
  {
    hide Encoded, Utf8;
    if Scalar(c) {
      EncodedSnoc(scalars, c);
    } else {
      assert scalars + [] == scalars && Encoded(scalars) + [] == Encoded(scalars);
    }
  }

  lemma NothingEncoded()
    ensures Encoded([]) == [] && Emitted([]) == [] && Scalars([]) == [] && Paired([])
  {
  }

  lemma {:induction false} EncodedLength(scalars: seq<nat>)
    requires forall i :: 0 <= i < |scalars| ==> Scalar(scalars[i])
    ensures |Encoded(scalars)| == Lengths(scalars)
  {
    if scalars != [] {
      EncodedLength(scalars[1..]);
    }
  }

  // ----- the code

  ghost function Lengths(scalars: seq<nat>): nat {
    if scalars == [] then 0 else Utf32ToUtf8Bytes(scalars[0]) + Lengths(scalars[1..])
  }

  /** What the code makes of a high surrogate and the unit behind it, in 32 bits. */
  function Combined(high: unit, low: unit): nat
    requires High(high)
  {
    (Or((low as int - 0xDC00) % 0x1_0000_0000, Shl(high as int - 0xD800, 10)) + 0x1_0000) % 0x1_0000_0000
  }

  lemma CombinedPair(high: unit, low: unit)
    requires High(high) && Low(low)
    ensures Combined(high, low) == PairOf(high, low)
  {
    hide Or, Shl;
    SmallPowers();
    OrShifted(low as int - 0xDC00, high as int - 0xD800, 10);
    ShlTen(high as int - 0xD800);
  }

  lemma ShlTen(x: nat)
    ensures Shl(x, 10) == 0x400 * x
  {
    assert Shl(x, 2) == 4 * Shl(x, 0);
    assert Shl(x, 4) == 4 * Shl(x, 2);
    assert Shl(x, 6) == 4 * Shl(x, 4);
    assert Shl(x, 8) == 4 * Shl(x, 6);
    assert Shl(x, 10) == 4 * Shl(x, 8);
  }

  lemma {:induction false} OrAtLeast(a: nat, b: nat)
    ensures Or(a, b) >= a
  {
    if a > 0 {
      OrAtLeast(a / 2, b / 2);
    }
  }

  lemma {:induction false} OrBelow(a: nat, b: nat, n: nat)
    requires a < Pow2(n) && b < Pow2(n)
    ensures Or(a, b) < Pow2(n)
  {
    if n > 0 {
      OrBelow(a / 2, b / 2, n - 1);
    }
  }

  lemma LargePowers()
    ensures Pow2(20) == 0x10_0000 && Pow2(32) == 0x1_0000_0000
  {
    SmallPowers();
    assert Pow2(16) == 8 * Pow2(13);
    assert Pow2(20) == 16 * Pow2(16);
    assert Pow2(24) == 16 * Pow2(20);
    assert Pow2(28) == 16 * Pow2(24);
    assert Pow2(32) == 16 * Pow2(28);
  }

  /** Where the code lands when the unit behind a high surrogate is not a low one: never at that unit. */
  lemma CombinedAnyway(high: unit, u: unit)
    requires High(high) && !Low(u)
    ensures u < 0xDC00 ==> u as int + 0x2400 <= Combined(high, u) <= 0xFFFF
    ensures u > 0xDFFF ==> 0x1_0000 <= Combined(high, u) <= 0x10_FFFF
  {
    hide Or, Shl, Pow2;
    LargePowers();
    ShlTen(high as int - 0xD800);
    var a, b := (u as int - 0xDC00) % 0x1_0000_0000, Shl(high as int - 0xD800, 10);
    OrAtLeast(a, b);
    OrBelow(a, b, if u < 0xDC00 then 32 else 20);
  }

  // ----- what is kept

  function Part(c: nat): seq<nat> { if Scalar(c) then [c] else [] }

  /** The characters that the code writes. */
  function Emitted(s: seq<unit>): seq<nat> {
    if s == [] then []
    else if High(s[0]) && |s| > 1 then Part(Combined(s[0], s[1])) + Emitted(s[2..])
    else Part(s[0]) + Emitted(s[1..])
  }

  lemma EmittedNext(s: seq<unit>, i: nat)
    requires i < |s|
    ensures Emitted(s[i..]) == if High(s[i]) && i + 1 < |s| then Part(Combined(s[i], s[i + 1])) + Emitted(s[i + 2..])
                               else Part(s[i]) + Emitted(s[i + 1..])
  {
    var rest := s[i..];
    assert rest[1..] == s[i + 1..] && (|rest| > 1 ==> rest[2..] == s[i + 2..] && rest[1] == s[i + 1]);
  }

  /** The start of a text: the characters the code writes for it and those it has. */
  datatype Turn = Turn(out: seq<nat>, text: seq<nat>, rest: seq<unit>)

  ghost function TurnOf(s: seq<unit>): Turn
    requires s != []
  {
    if High(s[0]) && |s| > 1 then
      var out := Part(Combined(s[0], s[1]));
      if Low(s[1]) then Turn(out, [PairOf(s[0], s[1])], s[2..])
      else if !High(s[1]) then Turn(out, [s[1]], s[2..])
      else if |s| > 2 && Low(s[2]) then Turn(out, [PairOf(s[1], s[2])], s[3..])
      else Turn(out, [], s[2..])
    else Turn(Part(s[0]), Part(s[0]), s[1..])
  }

  lemma TurnRight(s: seq<unit>)
    requires s != []
    ensures var t := TurnOf(s);
      |t.rest| < |s| && Emitted(s) == t.out + Emitted(t.rest) && Scalars(s) == t.text + Scalars(t.rest)
  {
    hide Combined, PairOf;
    assert forall e: seq<nat> :: [] + e == e;
    if High(s[0]) && |s| > 1 && High(s[1]) {
      assert s[1..][1..] == s[2..];
      if |s| > 2 && Low(s[2]) {
        assert s[1..][2..] == s[3..] && s[2..][1..] == s[3..];
      }
    }
  }

  /** At each turn the code keeps the text if no high surrogate misses its low one. */
  lemma TurnPaired(s: seq<unit>)
    requires s != []
    ensures TurnOf(s).out == TurnOf(s).text && Paired(TurnOf(s).rest) <==> Paired(s)
  {
    hide Combined, PairOf;
    var t := TurnOf(s);
    if High(s[0]) && |s| > 1 {
      if Low(s[1]) {
        CombinedPair(s[0], s[1]);
        PairScalar(s[0], s[1]);
        PairedAfter(s, 2);
      } else {
        CombinedAnyway(s[0], s[1]);
        if |s| > 2 && High(s[1]) && Low(s[2]) {
          PairScalar(s[1], s[2]);
        }
      }
    } else {
      PairedAfter(s, 1);
    }
  }

  lemma PairScalar(high: unit, low: unit)
    requires High(high) && Low(low)
    ensures Scalar(PairOf(high, low)) && PairOf(high, low) >= 0x1_0000
  {
  }

  lemma PairedAfter(s: seq<unit>, n: nat)
    requires 1 <= n <= |s| && (n == 2 ==> Low(s[1])) && n <= 2 && (n == 1 ==> !High(s[0]) || |s| == 1)
    ensures Paired(s[n..]) <==> Paired(s)
  {
    if Paired(s[n..]) {
      forall i | 0 <= i && i + 1 < |s| && High(s[i])
        ensures Low(s[i + 1])
      {
        if i >= n {
          assert s[n..][i - n] == s[i] && s[n..][i - n + 1] == s[i + 1];
        }
      }
    }
  }

  /** What the code adds to the text is high up, what it drops far down, so neither is made up for later. */
  lemma TurnBounds(s: seq<unit>)
    requires s != []
    ensures var t := TurnOf(s);
      && |t.out| <= 1 && |t.text| <= 1
      && (t.out != [] && (t.text == [] || t.text[0] >= 0xFC00) ==> t.out[0] >= 0xFC00)
      && (t.out == [] && t.text != [] ==> t.text[0] <= 0xBBFF)
      && (t.out != [] && t.out[0] <= 0xBBFF ==> t.text != [] && t.text[0] <= 0xBBFF)
  {
    hide Combined, PairOf;
    if High(s[0]) && |s| > 1 {
      if Low(s[1]) {
        CombinedPair(s[0], s[1]);
        PairScalar(s[0], s[1]);
      } else {
        CombinedAnyway(s[0], s[1]);
        if |s| > 2 && High(s[1]) && Low(s[2]) {
          PairScalar(s[1], s[2]);
        }
      }
    }
  }

  lemma {:induction false} NeverAhead(more: seq<nat>, s: seq<unit>)
    requires more != [] && forall i :: 0 <= i < |more| ==> more[i] >= 0xFC00
    ensures more + Emitted(s) != Scalars(s)
    decreases |s|
  {
    hide TurnOf, Emitted, Scalars;
    NothingEncoded();
    if s != [] {
      TurnRight(s);
      TurnBounds(s);
      var t := TurnOf(s);
      Associate(more, t.out, Emitted(t.rest));
      if t.text == [] {
        NeverAhead(more + t.out, t.rest);
        assert [] + Scalars(t.rest) == Scalars(t.rest);
      } else if t.text[0] == more[0] {
        NeverAhead(more[1..] + t.out, t.rest);
        CancelFirst(more + t.out, Emitted(t.rest), t.text, Scalars(t.rest));
      } else {
        assert (more + Emitted(s))[0] != (t.text + Scalars(t.rest))[0];
      }
    }
  }

  lemma CancelFirst(a: seq<nat>, b: seq<nat>, c: seq<nat>, d: seq<nat>)
    requires |c| == 1 && a != [] && a[1..] + b != d
    ensures a + b != c + d
  {
    assert a[1..] + b == (a + b)[1..] && d == (c + d)[1..];
  }

  lemma {:induction false} NeverBehind(missed: seq<nat>, s: seq<unit>)
    requires missed != [] && forall i :: 0 <= i < |missed| ==> missed[i] <= 0xBBFF
    ensures Emitted(s) != missed + Scalars(s)
    decreases |s|
  {
    hide TurnOf, Emitted, Scalars;
    NothingEncoded();
    if s != [] {
      TurnRight(s);
      TurnBounds(s);
      var t := TurnOf(s);
      Associate(missed, t.text, Scalars(t.rest));
      if t.out == [] {
        NeverBehind(missed + t.text, t.rest);
        assert [] + Emitted(t.rest) == Emitted(t.rest);
      } else if t.out[0] == missed[0] {
        NeverBehind(missed[1..] + t.text, t.rest);
        CancelFirst(missed + t.text, Scalars(t.rest), t.out, Emitted(t.rest));
      } else {
        assert (missed + Scalars(s))[0] != (t.out + Emitted(t.rest))[0];
      }
    }
  }

  /** The code writes the characters of the text exactly when every high surrogate but a last one is followed by a
      low one. */
  lemma {:induction false} TextKept(s: seq<unit>)
    ensures Emitted(s) == Scalars(s) <==> Paired(s)
    decreases |s|
  {
    hide TurnOf, Emitted, Scalars, Paired;
    NothingEncoded();
    if s != [] {
      TurnRight(s);
      TurnPaired(s);
      TurnBounds(s);
      var t := TurnOf(s);
      TextKept(t.rest);
      if t.out == t.text {
        CancelSame(t.out, Emitted(t.rest), Scalars(t.rest));
      } else if t.out == [] {
        NeverBehind(t.text, t.rest);
        assert [] + Emitted(t.rest) == Emitted(t.rest);
      } else if t.text == [] {
        NeverAhead(t.out, t.rest);
        assert [] + Scalars(t.rest) == Scalars(t.rest);
      } else {
        assert (t.out + Emitted(t.rest))[0] != (t.text + Scalars(t.rest))[0];
      }
    }
  }

  lemma CancelSame(a: seq<nat>, b: seq<nat>, c: seq<nat>)
    ensures a + b == a + c <==> b == c
  {
    assert b == (a + b)[|a|..] && c == (a + c)[|a|..];
  }

  /** A letter behind a high surrogate becomes another character: here A becomes U+2441. */
  lemma UnpairedGarbled()
    ensures Combined(0xD800, 0x41) == 0x2441
  {
    hide Or, Shl;
    ShlZero(10);
    OrNothing(0xFFFF_2441);
  }

  lemma {:induction false} OrNothing(x: nat)
    ensures Or(x, 0) == x
  {
    if x > 0 {
      OrNothing(x / 2);
    }
  }

  /** utf32_to_utf8: write a character of the given number of bytes from the last one to the first. */
  method Utf32ToUtf8(dst: array<byte>, at: nat, srcChar: nat, bytes: nat)
    requires bytes == Utf32ToUtf8Bytes(srcChar) && at + bytes <= dst.Length
    modifies dst
    ensures dst[..at] == old(dst[..at]) && dst[at..at + bytes] == if Scalar(srcChar) then Utf8(srcChar) else []
  {
    hide TailByte;
    Sextets(srcChar);
    var c, p := srcChar, at + bytes;
    if bytes >= 4 {
      p := p - 1;
      dst[p] := TailByte(c);
      c := c / 0x40;
    }
    if bytes >= 3 {
      p := p - 1;
      dst[p] := TailByte(c);
      c := c / 0x40;
    }
    if bytes >= 2 {
      p := p - 1;
      dst[p] := TailByte(c);
      c := c / 0x40;
    }
    if bytes >= 1 {
      p := p - 1;
      dst[p] := c + FirstByteMark(bytes);
    }
  }

  /** One turn of utf16_to_utf8's loop, up to the character to write. */
  method NextChar(src: seq<unit>, cur: nat) returns (utf32: nat, cur': nat)
    requires cur < |src|
    ensures cur < cur' <= |src| && Utf32ToUtf8Bytes(utf32) <= 3 * (cur' - cur)
    ensures Emitted(src[cur..]) == Part(utf32) + Emitted(src[cur'..])
  {
    hide Emitted, Or, Shl;
    EmittedNext(src, cur);
    if 0xD800 <= src[cur] <= 0xDBFF && cur + 1 < |src| {
      utf32 := Shl(src[cur] as int - 0xD800, 10);
      utf32 := Or((src[cur + 1] as int - 0xDC00) % 0x1_0000_0000, utf32);
      utf32 := (utf32 + 0x1_0000) % 0x1_0000_0000;
      cur' := cur + 2;
    } else {
      utf32 := src[cur];
      cur' := cur + 1;
    }
  }

  /** utf16_to_utf8, with room for three bytes for each unit: what it writes decodes to the characters of the text,
      strays left out, exactly when high surrogates are followed by low ones.  It returns the length. */
  method Utf16ToUtf8(src: seq<unit>, dst: array<byte>) returns (length: nat)
    requires dst.Length >= 3 * |src|
    modifies dst
    ensures length <= 3 * |src|
    ensures src != [] ==> Decode(dst[..length]) == Text(Emitted(src)) && length == Lengths(Emitted(src))
    ensures src != [] ==> (Decode(dst[..length]) == Text(Scalars(src)) <==> Paired(src))
    ensures src == [] ==> length == 0
    ensures length < dst.Length && src != [] ==> dst[length] == 0
  {
    hide Encoded, Scalars, Utf8, Decode, Lengths, Paired, Emitted, Scalar;
    if src == [] || dst.Length == 0 {
      return 0;
    }
    NothingEncoded();
    var cur := 0;
    length := 0;
    ghost var done: seq<nat> := [];
    assert [] + Emitted(src) == Emitted(src);
    while cur < |src| && length < dst.Length
      invariant cur <= |src| && length <= 3 * cur
      invariant forall i :: 0 <= i < |done| ==> Scalar(done[i])
      invariant done + Emitted(src[cur..]) == Emitted(src) && dst[..length] == Encoded(done)
    {
      var utf32: nat;
      utf32, cur := NextChar(src, cur);
      var len := Utf32ToUtf8Bytes(utf32);
      ghost var before := dst[..length];
      Utf32ToUtf8(dst, length, utf32, len);
      EncodedPart(done, utf32);
      Associate(done, Part(utf32), Emitted(src[cur..]));
      done := done + Part(utf32);
      assert dst[..length + len] == before + dst[length..length + len];
      length := length + len;
    }
    if length < dst.Length {
      dst[length] := 0;
    }
    assert src[cur..] == [] && done + [] == done;
    DecodeEncoded(done);
    EncodedLength(done);
    TextKept(src);
  }
}
