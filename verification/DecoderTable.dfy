/** How the giflib decoder's Prefix and Suffix arrays hold the strings of the reference decoder. */
module DecoderTable {
  import opened Bits
  import opened EncoderTable
  import opened Lzw

  const NO_SUCH_CODE: nat := 4098

  ghost predicate HasString(d: Dict, code: nat) {
    ClearCode(d.bpp) <= 256 && Known(d, code)
  }

  ghost function StringFor(d: Dict, code: nat): seq<byte>
    requires HasString(d, code)
  {
    if code < ClearCode(d.bpp) then [code] else d.strings[code]
  }

  /** Entry c says: the string of c is the string of prefix[c] and then the pixel suffix[c]. */
  ghost predicate Link(d: Dict, prefix: nat, suffix: byte, c: nat)
    requires c in d.strings
  {
    prefix < c && HasString(d, prefix) && d.strings[c] == StringFor(d, prefix) + [suffix]
  }

  /** The arrays hold the strings of d, */
  ghost predicate Linked(d: Dict, prefix: seq<nat>, suffix: seq<byte>) {
    && |prefix| == |suffix| == LZ_MAX_CODE + 1
    && (forall c :: c in d.strings ==> c <= LZ_MAX_CODE && Link(d, prefix[c], suffix[c], c))
  }

  /** and nothing else. */
  ghost predicate Links(d: Dict, prefix: seq<nat>, suffix: seq<byte>) {
    && Linked(d, prefix, suffix)
    && (forall c :: 0 <= c <= LZ_MAX_CODE && c !in d.strings ==> prefix[c] == NO_SUCH_CODE)
  }

  /** What the array entries look like for any input at all. */
  ghost predicate InBounds(prefix: seq<nat>) {
    forall c :: 0 <= c < |prefix| ==> prefix[c] <= LZ_MAX_CODE || prefix[c] == NO_SUCH_CODE
  }

  lemma LinksAreLinked(d: Dict, prefix: seq<nat>, suffix: seq<byte>)
    requires Links(d, prefix, suffix)
    ensures Linked(d, prefix, suffix)
  {
  }

  lemma LinksNothing(bpp: nat, prefix: seq<nat>, suffix: seq<byte>)
    requires |prefix| == |suffix| == LZ_MAX_CODE + 1
    requires forall c :: 0 <= c <= LZ_MAX_CODE ==> prefix[c] == NO_SUCH_CODE
    ensures Links(Start(bpp), prefix, suffix)
  {
  }

  /** The string of a known code ends in its suffix and goes on in its prefix. */
  lemma FollowLink(d: Dict, prefix: seq<nat>, suffix: seq<byte>, code: nat)
    requires Sound(d) && Linked(d, prefix, suffix) && HasString(d, code) && code > ClearCode(d.bpp)
    ensures code <= LZ_MAX_CODE && HasString(d, prefix[code]) && prefix[code] < code
    ensures StringFor(d, code) == StringFor(d, prefix[code]) + [suffix[code]]
    ensures StringFor(d, prefix[code]) != [] && StringFor(d, code)[0] == StringFor(d, prefix[code])[0]
  {
    assert Link(d, prefix[code], suffix[code], code);
  }

  /** Writing the entry for the code that reading `code` defines. */
  lemma LearnLink(d: Dict, prefix: seq<nat>, suffix: seq<byte>, last: nat, code: nat)
    requires Sound(d) && Links(d, prefix, suffix) && Legal(d, code) && d.prev != []
    requires HasString(d, last) && StringFor(d, last) == d.prev && NextCode(d) <= LZ_MAX_CODE
    ensures Links(Learn(d, code), prefix[NextCode(d) := last], suffix[NextCode(d) := StringOf(d, code)[0]])
  {
    var c, s := NextCode(d), StringOf(d, code);
    LearnSound(d, code);
    var d' := Learn(d, code);
    var prefix', suffix' := prefix[c := last], suffix[c := s[0]];
    forall k | k in d'.strings
      ensures k <= LZ_MAX_CODE && Link(d', prefix'[k], suffix'[k], k)
    {
      if k != c {
        assert Link(d, prefix[k], suffix[k], k);
      }
    }
  }

  /** Reading a code that defines nothing leaves the table as it is. */
  lemma LearnNothing(d: Dict, prefix: seq<nat>, suffix: seq<byte>, code: nat)
    requires Links(d, prefix, suffix) && Legal(d, code) && (d.prev == [] || NextCode(d) > LZ_MAX_CODE)
    ensures Links(Learn(d, code), prefix, suffix)
  {
    forall k | k in d.strings
      ensures Link(Learn(d, code), prefix[k], suffix[k], k)
    {
      assert Link(d, prefix[k], suffix[k], k);
    }
  }

  /** The code just read is known afterwards, with the string it stood for. */
  lemma LearntCode(d: Dict, code: nat)
    requires Sound(d) && Legal(d, code)
    ensures HasString(Learn(d, code), code) && StringFor(Learn(d, code), code) == StringOf(d, code)
    ensures Learn(d, code).prev == StringOf(d, code) != []
  {
    LearnSound(d, code);
  }

  lemma StringsHaveEntries(d: Dict, prefix: seq<nat>, suffix: seq<byte>)
    requires Linked(d, prefix, suffix)
    ensures forall c :: c in d.strings ==> c <= LZ_MAX_CODE && prefix[c] != NO_SUCH_CODE
  {
    forall c | c in d.strings
      ensures c <= LZ_MAX_CODE && prefix[c] != NO_SUCH_CODE
    {
      assert Link(d, prefix[c], suffix[c], c);
    }
  }

  /** A legal code without an entry is the one about to be defined. */
  lemma UnknownIsComing(d: Dict, prefix: seq<nat>, suffix: seq<byte>, code: nat)
    requires Sound(d) && Links(d, prefix, suffix) && Legal(d, code) && code >= ClearCode(d.bpp)
    requires code <= LZ_MAX_CODE && prefix[code] == NO_SUCH_CODE
    ensures code == NextCode(d) && d.prev != [] && code !in d.strings
    ensures StringOf(d, code) == d.prev + [d.prev[0]]
  {
    StringsHaveEntries(d, prefix, suffix);
  }

  lemma KnownHasLink(d: Dict, prefix: seq<nat>, suffix: seq<byte>, code: nat)
    requires Links(d, prefix, suffix) && Legal(d, code) && code >= ClearCode(d.bpp)
    requires code <= LZ_MAX_CODE && prefix[code] != NO_SUCH_CODE
    ensures HasString(d, code) && StringFor(d, code) == StringOf(d, code)
  {
  }

  /** Suffixes of codes without a string do not matter. */
  lemma LinksElsewhere(d: Dict, prefix: seq<nat>, suffix: seq<byte>, code: nat, b: byte)
    requires Links(d, prefix, suffix) && code <= LZ_MAX_CODE && code !in d.strings
    ensures Links(d, prefix, suffix[code := b])
  {
    forall c | c in d.strings
      ensures Link(d, prefix[c], suffix[code := b][c], c)
    {
      assert Link(d, prefix[c], suffix[c], c);
    }
  }

  /** So do prefixes, except that they say which codes are free. */
  lemma LinkedElsewhere(d: Dict, prefix: seq<nat>, suffix: seq<byte>, code: nat, last: nat)
    requires Links(d, prefix, suffix) && code <= LZ_MAX_CODE && code !in d.strings
    ensures Linked(d, prefix[code := last], suffix)
  {
    forall c | c in d.strings
      ensures Link(d, prefix[code := last][c], suffix[c], c)
    {
      assert Link(d, prefix[c], suffix[c], c);
    }
  }

  /** The entry the decoder looks at is that of the next code, as long as there is one: if it is free,
      it is to be defined; */
  lemma EntryIsFree(d: Dict, prefix: seq<nat>, suffix: seq<byte>)
    requires Sound(d) && Links(d, prefix, suffix)
    requires var entry := (if NextCode(d) <= LZ_MAX_CODE then NextCode(d) else LZ_MAX_CODE);
      prefix[entry] == NO_SUCH_CODE
    ensures NextCode(d) <= LZ_MAX_CODE && NextCode(d) !in d.strings
  {
    StringsHaveEntries(d, prefix, suffix);
    if NextCode(d) > LZ_MAX_CODE {
      TableFull(d);
    }
  }

  /** and if it is taken, the table is full. */
  lemma EntryIsTaken(d: Dict, prefix: seq<nat>, suffix: seq<byte>)
    requires Sound(d) && Links(d, prefix, suffix)
    requires var entry := (if NextCode(d) <= LZ_MAX_CODE then NextCode(d) else LZ_MAX_CODE);
      d.prev == [] || prefix[entry] != NO_SUCH_CODE
    ensures d.prev == [] || NextCode(d) > LZ_MAX_CODE
  {
  }

  /** The first pixel of a code: that of its own string, or for the next code that of the string before. */
  lemma FirstPixel(d: Dict, code: nat)
    requires Sound(d) && Legal(d, code) && d.prev != []
    ensures StringOf(d, code) != []
    ensures code == NextCode(d) ==> StringOf(d, code)[0] == d.prev[0]
    ensures code != NextCode(d) ==> HasString(d, code) && StringFor(d, code) == StringOf(d, code)
  {
  }

  /** Past the last code, only the width 12 is in use and every code has its string. */
  lemma TableFull(d: Dict)
    requires Sound(d) && NextCode(d) > LZ_MAX_CODE
    ensures Width(d) == LZ_BITS && LZ_MAX_CODE in d.strings
  {
    SmallPowers();
    FitIsLeast(d.bpp + 1, EofCode(d.bpp) + 1 + d.seen);
    SmallerPower(Fit(d.bpp + 1, EofCode(d.bpp) + 1 + d.seen));
  }

  lemma SmallerPower(w: nat)
    ensures w < LZ_BITS ==> Pow2(w) <= 2048
  {
    SmallPowers();
    if w < LZ_BITS {
      Pow2Grows(w, 11);
    }
  }

  /** What decoding comes to once `code` is read and `rest` is left. */
  function Resumed(d: Dict, code: nat, rest: seq<bool>): Decoded {
    if code == EofCode(d.bpp) then Decoded([], EndOfInformation)
    else if code == ClearCode(d.bpp) then Decode(Start(d.bpp), rest)
    else if Legal(d, code) then Prepend(StringOf(d, code), Decode(Learn(d, code), rest))
    else Decoded([], Malformed)
  }

  lemma DecodeResumes(d: Dict, bits: seq<bool>, code: nat)
    requires |bits| >= Width(d) && code == FromBits(bits[..Width(d)])
    ensures Decode(d, bits) == Resumed(d, code, bits[Width(d)..])
  {
    DecodeStep(d, bits, code);
  }

  /** The decoder counts codes up to LZ_MAX_CODE + 2. */
  function Saturated(n: nat): nat {
    if n <= LZ_MAX_CODE + 2 then n else LZ_MAX_CODE + 2
  }

  /** Counting codes and raising the width with the count gives the reference decoder's width: it goes
      up when the count passes 2^width, which the encoder's count reaches one code earlier. */
  lemma WidthFollowsCount(d: Dict, code: nat)
    requires Sound(d) && Legal(d, code)
    ensures Saturated(Saturated(NextCode(d) + 1) + 1) == Saturated(NextCode(d) + 2)
    ensures Learn(d, code).bpp == d.bpp && NextCode(Learn(d, code)) == NextCode(d) + 1
    ensures Width(Learn(d, code)) ==
      if Saturated(NextCode(d) + 1) < Saturated(NextCode(d) + 2)
         && Saturated(NextCode(d) + 2) > Pow2(Width(d)) && Width(d) < LZ_BITS
      then Width(d) + 1 else Width(d)
  {
    LearnWidth(d, code);
    if NextCode(d) > LZ_MAX_CODE {
      TableFull(d);
    }
  }

  /** No string is longer than the pixel stack. */
  lemma FitsStack(d: Dict, code: nat)
    requires Sound(d) && Legal(d, code)
    ensures 0 < |StringOf(d, code)| < LZ_MAX_CODE
  {
  }

  function Reversed(s: seq<byte>): (r: seq<byte>)
    ensures |r| == |s|
  {
    if s == [] then [] else [s[|s| - 1]] + Reversed(s[..|s| - 1])
  }

  lemma PixelString(d: Dict, code: nat)
    requires Legal(d, code) && code < ClearCode(d.bpp)
    ensures StringOf(d, code) == [code]
  {
  }

  /** Where the prefixes of a string end is the code of a pixel. */
  lemma WalkEnds(d: Dict, end: nat, all: seq<byte>, stacked: seq<byte>)
    requires Sound(d) && HasString(d, end) && 0 < |all| < LZ_MAX_CODE && StringFor(d, end) + stacked == all
    ensures |stacked| < LZ_MAX_CODE - 1 && end <= LZ_MAX_CODE
    ensures end <= ClearCode(d.bpp) ==> end < 256 && [end % 256] + stacked == all
  {
  }

  lemma TailUnchanged(a: seq<byte>, b: seq<byte>, i: nat, j: nat)
    requires i <= j <= |a| == |b| && a[i..] == b[i..]
    ensures a[j..] == b[j..]
  {
    assert a[j..] == a[i..][j - i..];
    assert b[j..] == b[i..][j - i..];
  }

  lemma LineGrows(a: seq<byte>, b: seq<byte>, from: nat, i: nat, j: nat)
    requires from <= i <= j <= |a| == |b| && a[..i] == b[..i]
    ensures a[from..i] == b[from..i] && a[from..i] + b[i..j] == b[from..j] && a[..from] == b[..from]
  {
    assert a[from..i] == a[..i][from..];
    assert b[from..i] == b[..i][from..];
    assert a[..from] == a[..i][..from];
    assert b[..from] == b[..i][..from];
  }

  lemma NothingReversed(s: seq<byte>)
    requires s == []
    ensures Reversed(s) == []
  {
  }

  lemma ReversedPush(s: seq<byte>, b: byte)
    ensures Reversed(s + [b]) == [b] + Reversed(s)
  {
    assert (s + [b])[..|s|] == s;
  }
}
