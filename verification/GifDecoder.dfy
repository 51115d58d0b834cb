/** The LZW decompressor of giflib (dgif_lib.c). */
module GifDecoder {
  import opened Bits
  import opened DecoderTable
  import opened GifInput
  import opened Lzw
  import opened SubBlocks

  /** unsigned long on the 32-bit targets. */
  const ULONG: nat := 0x1_0000_0000

  class DGif {
    var bitsPerPixel: nat
    var clearCode: nat
    var eofCode: nat
    var runningCode: nat
    var runningBits: nat
    var maxCode1: nat
    var lastCode: nat
    var stackPtr: nat
    var pixelCount: nat
    var imageWidth: nat
    const inp: GifInput
    const stack: array<byte>
    const suffix: array<byte>
    const prefix: array<nat>

    ghost var dict: Dict  // the reference decoder's state

    constructor (input: seq<byte>)
      ensures fresh(inp) && fresh(inp.buf) && fresh(stack) && fresh(suffix) && fresh(prefix)
      ensures stack.Length == LZ_MAX_CODE && suffix.Length == prefix.Length == LZ_MAX_CODE + 1
      ensures inp.input == input && inp.pos == 0 && inp.buf.Length == 256
    {
      inp := new GifInput(input);
      stack := new byte[LZ_MAX_CODE](_ => 0);
      suffix := new byte[LZ_MAX_CODE + 1](_ => 0);
      prefix := new nat[LZ_MAX_CODE + 1](_ => 0);
    }

    /** What holds for any input at all, well-formed or not. */
    ghost predicate Tables()
      reads this`bitsPerPixel, this`clearCode, this`eofCode, this`runningCode, this`runningBits, this`lastCode
      reads prefix
    {
      && stack.Length == LZ_MAX_CODE && suffix.Length == prefix.Length == LZ_MAX_CODE + 1
      && InBounds(prefix[..])
      && bitsPerPixel <= 8 && clearCode == ClearCode(bitsPerPixel) && eofCode == EofCode(bitsPerPixel)
      && eofCode < runningCode <= LZ_MAX_CODE + 2
      && 0 < runningBits <= LZ_BITS
      && (lastCode <= LZ_MAX_CODE || lastCode == NO_SUCH_CODE)
    }

    /** The code parameters and tables are those of the reference decoder in state `dict`. */
    ghost predicate Tracks()
      reads this`bitsPerPixel, this`runningCode, this`runningBits, this`maxCode1, this`lastCode, this`dict
      reads prefix, suffix
    {
      && Sound(dict) && dict.bpp == bitsPerPixel
      && runningCode == Saturated(NextCode(dict) + 1)
      && runningBits == Width(dict) && maxCode1 == Pow2(runningBits)
      && Links(dict, prefix[..], suffix[..])
      && (if dict.prev == [] then lastCode == NO_SUCH_CODE
          else HasString(dict, lastCode) && StringFor(dict, lastCode) == dict.prev)
    }

    method DecompressInput() returns (ok: bool, code: nat)
      requires Tables() && inp.Valid()
      modifies this`runningCode, this`runningBits, this`maxCode1
      modifies inp`pos, inp`crntShiftState, inp`crntShiftDWord, inp.buf
      ensures ok <==> |old(inp.Bits())| >= old(runningBits)
      ensures old(inp.pos) <= inp.pos <= |inp.input|
      ensures ok ==>
        && Tables() && inp.Valid() && code <= LZ_MAX_CODE && runningCode >= eofCode + 2
        && code == FromBits(old(inp.Bits())[..old(runningBits)]) && inp.Bits() == old(inp.Bits())[old(runningBits)..]
        && After(inp.Ahead()) == old(After(inp.Ahead()))
        && runningCode == Saturated(old(runningCode) + 1)
        && (if runningCode > old(runningCode) && runningCode > old(maxCode1) && old(runningBits) < LZ_BITS
            then runningBits == old(runningBits) + 1 && maxCode1 == 2 * old(maxCode1)
            else runningBits == old(runningBits) && maxCode1 == old(maxCode1))
    {
      hide Data, After, ToBits, FromBits, ByteBits;
      if runningBits > LZ_BITS {
        assert false;  // this guard never fires
      }
      assert Pow2(runningBits) <= LZ_MAX_CODE + 1 && eofCode + 2 <= LZ_MAX_CODE by {
        SmallPowers();
        Pow2Grows(runningBits, LZ_BITS);
        Pow2Grows(bitsPerPixel, 8);
      }
      ok, code := inp.Take(runningBits);
      if ok && runningCode < LZ_MAX_CODE + 2 {
        runningCode := runningCode + 1;
        if runningCode > maxCode1 && runningBits < LZ_BITS {
          maxCode1 := 2 * maxCode1;
          runningBits := runningBits + 1;
        }
      }
    }

    /** Follow the prefixes of a code to the pixel its string starts with. */
    method GetPrefixChar(start: nat) returns (c: nat)
      requires Tables() && (start <= LZ_MAX_CODE || start == NO_SUCH_CODE)
      ensures c <= LZ_MAX_CODE || c == NO_SUCH_CODE
      ensures
        Sound(dict) && dict.bpp == bitsPerPixel && Linked(dict, prefix[..], suffix[..]) && HasString(dict, start) ==>
        StringFor(dict, start) != [] && c == StringFor(dict, start)[0] as int
    {
      ghost var good :=
        Sound(dict) && dict.bpp == bitsPerPixel && Linked(dict, prefix[..], suffix[..]) && HasString(dict, start);
      var i: nat, code: nat := 0, start;
      while code > clearCode && i <= LZ_MAX_CODE
        invariant i <= LZ_MAX_CODE + 1 && (code <= LZ_MAX_CODE || code == NO_SUCH_CODE)
        invariant good ==>
          && HasString(dict, code) && code + i <= LZ_MAX_CODE
          && StringFor(dict, code) != [] && StringFor(dict, code)[0] == StringFor(dict, start)[0]
          && StringFor(dict, start) != []
        decreases LZ_MAX_CODE + 1 - i
      {
        i := i + 1;
        if code > LZ_MAX_CODE {
          return NO_SUCH_CODE;
        }
        if good {
          FollowLink(dict, prefix[..], suffix[..], code);
        }
        code := prefix[code];
      }
      return code;
    }

    /** The pixels on the stack, in the order in which they will be output. */
    ghost function Stacked(): seq<byte>
      requires stackPtr <= stack.Length
      reads this`stackPtr, stack
    {
      Reversed(stack[..stackPtr])
    }

    method Push(b: nat)
      requires stackPtr < stack.Length
      modifies this`stackPtr, stack
      ensures stackPtr == old(stackPtr) + 1 && Stacked() == [b % 256] + old(Stacked())
    {
      ReversedPush(stack[..stackPtr], b % 256);
      stack[stackPtr] := b % 256;
      stackPtr := stackPtr + 1;
      assert stack[..stackPtr] == old(stack[..stackPtr]) + [b % 256];
    }

    /** Pop the stack into line[i..to], as far as it goes. */
    method PopStack(line: array<byte>, i: nat, to: nat) returns (i': nat)
      requires stackPtr <= stack.Length && i <= to <= line.Length && line != stack
      modifies this`stackPtr, line
      ensures i <= i' <= to && stackPtr <= stack.Length && (stackPtr == 0 || i' == to)
      ensures line[i..i'] + Stacked() == old(Stacked())
      ensures line[..i] == old(line[..i]) && line[i'..] == old(line[i'..])
    {
      hide Reversed;
      ghost var all := Stacked();
      NothingReversed(stack[..0]);
      i' := i;
      while stackPtr != 0 && i' < to
        invariant i <= i' <= to && stackPtr <= stack.Length
        invariant line[i..i'] + Stacked() == all
        invariant line[..i] == old(line[..i]) && line[i'..] == old(line[i'..])
        decreases stackPtr
      {
        stackPtr := stackPtr - 1;
        ghost var was := line[i..i'];
        var b := stack[stackPtr];
        line[i'] := b;
        assert stack[..stackPtr + 1] == stack[..stackPtr] + [b];
        ReversedPush(stack[..stackPtr], b);
        i' := i' + 1;
        assert line[i..i'] == was + [b];
        Associate(was, [b], Stacked());
      }
    }

    /** After a code has been counted, and before it is learnt. */
    ghost predicate Counted()
      reads this`bitsPerPixel, this`runningCode, this`lastCode, this`dict, prefix, suffix
    {
      && Sound(dict) && dict.bpp == bitsPerPixel
      && runningCode == Saturated(NextCode(dict) + 2)
      && Links(dict, prefix[..], suffix[..])
      && (if dict.prev == [] then lastCode == NO_SUCH_CODE
          else HasString(dict, lastCode) && StringFor(dict, lastCode) == dict.prev)
    }

    /** Tracing a code without an entry: its last pixel goes on the stack, and tracing goes on from
        the code before. */
    method TraceUnknown(code: nat)
      requires Tables() && stackPtr == 0 && code <= LZ_MAX_CODE && runningCode >= eofCode + 2
      requires prefix[code] == NO_SUCH_CODE
      modifies this`stackPtr, stack, suffix
      ensures stackPtr == 1
      ensures old(Counted()) && Legal(dict, code) && code >= clearCode ==>
        && Counted() && HasString(dict, lastCode)
        && StringOf(dict, code) == StringFor(dict, lastCode) + Stacked()
    {
      hide Linked, Links, Reversed, Learn, StringOf, StringFor, HasString, Sound, Legal;
      ghost var good := Counted() && Legal(dict, code) && code >= clearCode;
      ghost var links := suffix[..];
      var c: nat;
      if good {
        UnknownIsComing(dict, prefix[..], suffix[..], code);
        LinksAreLinked(dict, prefix[..], suffix[..]);
      }
      if code == runningCode - 2 {
        c := GetPrefixChar(lastCode);
      } else {
        c := GetPrefixChar(code);
      }
      NothingReversed(stack[..0]);
      Push(c);
      var last: byte := c % 256;
      suffix[runningCode - 2] := last;
      if good {
        LinksElsewhere(dict, prefix[..], links, code, last);
        assert suffix[..] == links[code := last];
      }
    }

    /** The first part of tracing a code: where to start. */
    method TraceStart(code: nat) returns (crntPrefix: nat)
      requires Tables() && stackPtr == 0 && code <= LZ_MAX_CODE && runningCode >= eofCode + 2
      modifies this`stackPtr, stack, suffix
      ensures stackPtr <= 1 && (crntPrefix <= LZ_MAX_CODE || crntPrefix == NO_SUCH_CODE)
      ensures old(Counted()) && Legal(dict, code) && code >= clearCode ==>
        && Counted() && HasString(dict, crntPrefix)
        && StringOf(dict, code) == StringFor(dict, crntPrefix) + Stacked()
    {
      hide Linked, Links, Reversed, Learn;
      if prefix[code] == NO_SUCH_CODE {
        crntPrefix := lastCode;
        TraceUnknown(code);
      } else {
        crntPrefix := code;
        ghost var good := Counted() && Legal(dict, code) && code >= clearCode;
        if good {
          KnownHasLink(dict, prefix[..], suffix[..], code);
          NothingReversed(stack[..0]);
        }
      }
    }

    /** Trace's loop: push suffixes while going from prefix to prefix. */
    method Walk(start: nat) returns (end: nat)
      requires Tables() && stackPtr <= LZ_MAX_CODE && (start <= LZ_MAX_CODE || start == NO_SUCH_CODE)
      modifies this`stackPtr, stack
      ensures old(stackPtr) <= stackPtr <= LZ_MAX_CODE && (end <= LZ_MAX_CODE || end == NO_SUCH_CODE)
      ensures stackPtr == LZ_MAX_CODE || end <= clearCode || end == NO_SUCH_CODE
      ensures
        Sound(dict) && dict.bpp == bitsPerPixel && Linked(dict, prefix[..], suffix[..]) && HasString(dict, start) ==>
        && HasString(dict, end) && StringFor(dict, end) + Stacked() == StringFor(dict, start) + old(Stacked())
    {
      hide Linked, Reversed, StringFor, HasString, Sound;
      ghost var good :=
        Sound(dict) && dict.bpp == bitsPerPixel && Linked(dict, prefix[..], suffix[..]) && HasString(dict, start);
      end := start;
      while stackPtr < LZ_MAX_CODE && end > clearCode && end <= LZ_MAX_CODE
        invariant old(stackPtr) <= stackPtr <= LZ_MAX_CODE && (end <= LZ_MAX_CODE || end == NO_SUCH_CODE)
        invariant good ==> HasString(dict, end)
        invariant good ==> StringFor(dict, end) + Stacked() == StringFor(dict, start) + old(Stacked())
        decreases LZ_MAX_CODE - stackPtr
      {
        ghost var s, b := Stacked(), suffix[end];
        if good {
          FollowLink(dict, prefix[..], suffix[..], end);
          Associate(StringFor(dict, prefix[end]), [b], s);
        }
        Push(suffix[end]);
        assert Stacked() == [b] + s;
        end := prefix[end];
      }
    }

    /** Push the pixels of a code on the stack, the last one first.  Fails on a code whose prefixes do
        not lead to a pixel before the stack is full. */
    method Trace(code: nat) returns (ok: bool)
      requires Tables() && stackPtr == 0 && code <= LZ_MAX_CODE && runningCode >= eofCode + 2
      modifies this`stackPtr, stack, suffix
      ensures stackPtr <= LZ_MAX_CODE
      ensures old(Counted()) && Legal(dict, code) && code >= clearCode ==>
        ok && Counted() && Stacked() == StringOf(dict, code)
    {
      hide Linked, Links, Reversed, Learn, StringOf, Legal, StringFor, HasString, Sound;
      ghost var good := Counted() && Legal(dict, code) && code >= clearCode;
      var crntPrefix := TraceStart(code);
      if good {
        FitsStack(dict, code);
        LinksAreLinked(dict, prefix[..], suffix[..]);
      }
      crntPrefix := Walk(crntPrefix);
      if good {
        WalkEnds(dict, crntPrefix, StringOf(dict, code), Stacked());
      }
      if stackPtr >= LZ_MAX_CODE || crntPrefix > LZ_MAX_CODE {
        return false;
      }
      Push(crntPrefix);
      return true;
    }

    /** Give the code that reading `code` defines its entry: the code before, and the first pixel of
        this one. */
    method DefineEntry(code: nat)
      requires Tables() && code <= LZ_MAX_CODE && runningCode >= eofCode + 2
      modifies prefix, suffix
      ensures InBounds(prefix[..])
      ensures old(Counted()) && Legal(dict, code) ==> Links(Learn(dict, code), prefix[..], suffix[..])
    {
      hide Linked, Links, Learn, StringOf, Legal;
      if lastCode != NO_SUCH_CODE && prefix[runningCode - 2] == NO_SUCH_CODE {
        FillEntry(code);
      } else {
        ghost var good := Counted() && Legal(dict, code);
        if good {
          EntryIsTaken(dict, prefix[..], suffix[..]);
          LearnNothing(dict, prefix[..], suffix[..], code);
        }
      }
    }

    method FillEntry(code: nat)
      requires Tables() && code <= LZ_MAX_CODE && runningCode >= eofCode + 2
      requires lastCode != NO_SUCH_CODE && prefix[runningCode - 2] == NO_SUCH_CODE
      modifies prefix, suffix
      ensures InBounds(prefix[..])
      ensures old(Counted()) && Legal(dict, code) ==> Links(Learn(dict, code), prefix[..], suffix[..])
    {
      hide Linked, Links, Learn, StringOf, Legal, Sound, HasString, StringFor;
      ghost var good := Counted() && Legal(dict, code);
      ghost var prefixes, suffixes := prefix[..], suffix[..];
      prefix[runningCode - 2] := lastCode;
      assert prefix[..] == prefixes[runningCode - 2 := lastCode];
      if good {
        EntryIsFree(dict, prefixes, suffixes);
        LinkedElsewhere(dict, prefixes, suffixes, NextCode(dict), lastCode);
        FirstPixel(dict, code);
        LearnLink(dict, prefixes, suffixes, lastCode, code);
      }
      var c: nat;
      if code == runningCode - 2 {
        c := GetPrefixChar(lastCode);
      } else {
        c := GetPrefixChar(code);
      }
      var first: byte := c % 256;
      assert good ==> NextCode(dict) == runningCode - 2 && first == StringOf(dict, code)[0];
      suffix[runningCode - 2] := first;
      assert suffix[..] == suffixes[runningCode - 2 := first];
    }

    /** All state between two lines, for any input at all. */
    ghost predicate Safe()
      reads this`bitsPerPixel, this`clearCode, this`eofCode, this`runningCode, this`runningBits
      reads this`lastCode, this`stackPtr, prefix, inp, inp.buf
    {
      && Tables() && stackPtr <= LZ_MAX_CODE && inp.Valid()
      && stack != inp.buf && suffix != inp.buf
    }

    predicate Distinct(line: array<byte>) {
      line != stack && line != suffix && line != inp.buf
    }

    /** The pixels still to come, as the reference decoder has them. */
    ghost function Future(): Decoded
      requires stackPtr <= stack.Length && inp.Buffered()
      reads this`stackPtr, this`dict, stack, inp, inp.buf
    {
      Prepend(Stacked(), Decode(dict, inp.Bits()))
    }

    /** A clear code: forget all strings. */
    method ClearTable()
      requires prefix.Length == suffix.Length == LZ_MAX_CODE + 1
      requires bitsPerPixel <= 8 && eofCode == EofCode(bitsPerPixel) && clearCode == ClearCode(bitsPerPixel)
      requires stack.Length == LZ_MAX_CODE
      modifies this`runningCode, this`runningBits, this`maxCode1, this`lastCode, this`dict, prefix
      ensures Tables() && Tracks() && dict == Start(bitsPerPixel)
    {
      hide Linked, Links;
      for j := 0 to LZ_MAX_CODE + 1
        invariant forall c :: 0 <= c < j ==> prefix[c] == NO_SUCH_CODE
      {
        prefix[j] := NO_SUCH_CODE;
      }
      runningCode := eofCode + 1;
      runningBits := bitsPerPixel + 1;
      ShlOne(runningBits);
      maxCode1 := Shl(1, runningBits);
      lastCode := NO_SUCH_CODE;
      dict := Start(bitsPerPixel);
      StartSound(bitsPerPixel);
      LinksNothing(bitsPerPixel, prefix[..], suffix[..]);
    }

    /** The pixels of a code into the line, as far as they fit; the others stay on the stack. */
    method EmitCode(line: array<byte>, i: nat, to: nat, code: nat) returns (ok: bool, i': nat)
      requires Tables() && stackPtr == 0 && code <= LZ_MAX_CODE && runningCode >= eofCode + 2
      requires i < to <= line.Length && line != stack && line != suffix
      modifies this`stackPtr, stack, suffix, line
      ensures ok ==> stackPtr <= LZ_MAX_CODE && (stackPtr == 0 || i' == to)
      ensures i <= i' <= to && line[..i] == old(line[..i]) && line[to..] == old(line[to..])
      ensures old(Counted()) && Legal(dict, code) ==>
        ok && Counted() && line[i..i'] + Stacked() == StringOf(dict, code)
    {
      hide Linked, Links, Learn, Legal, StringFor, HasString, Reversed, Sound;
      ghost var good := Counted() && Legal(dict, code);
      i' := i;
      if code < clearCode {
        NothingReversed(stack[..0]);
        if good {
          PixelString(dict, code);
        }
        var pixel: byte := code % 256;
        line[i'] := pixel;
        i' := i' + 1;
        assert line[i..i'] == [pixel];
        ok := true;
      } else {
        ok := Trace(code);
        if ok {
          i' := PopStack(line, i, to);
          TailUnchanged(old(line[..]), line[..], i', to);
        }
      }
    }

    /** The branch of DecompressLine for a code that is neither the clear code nor the end code: output
        its pixels, as far as they fit into the line, and define the next code. */
    method OutputCode(line: array<byte>, i: nat, to: nat, code: nat) returns (ok: bool, i': nat)
      requires Tables() && stackPtr == 0 && code <= LZ_MAX_CODE && runningCode >= eofCode + 2
      requires i < to <= line.Length && line != stack && line != suffix
      modifies this`stackPtr, this`lastCode, this`dict, stack, suffix, prefix, line
      ensures ok ==> Tables() && stackPtr <= LZ_MAX_CODE && i <= i' <= to && (stackPtr == 0 || i' == to)
      ensures i <= i' <= to && line[..i] == old(line[..i]) && line[to..] == old(line[to..])
      ensures old(Counted() && Legal(dict, code)) ==>
        && ok && dict == Learn(old(dict), code) && Sound(dict)
        && Links(dict, prefix[..], suffix[..])
        && HasString(dict, lastCode) && StringFor(dict, lastCode) == dict.prev != []
        && line[i..i'] + Stacked() == StringOf(old(dict), code)
    {
      hide Linked, Links, Learn, Legal, StringFor, HasString, Reversed, StringOf;
      ghost var good := Counted() && Legal(dict, code);
      ok, i' := EmitCode(line, i, to, code);
      if !ok {
        return;
      }
      ghost var out, waiting := line[i..i'], Stacked();
      DefineEntry(code);
      assert line[i..i'] == out && Stacked() == waiting;
      lastCode := code;
      if good {
        LearnSound(dict, code);
        LearntCode(dict, code);
        dict := Learn(dict, code);
      }
    }

    /** The same while tracking: a legal code leads to the reference decoder's next state. */
    method OutputCounted(line: array<byte>, i: nat, to: nat, code: nat, ghost tracking: bool)
      returns (ok: bool, i': nat, ghost tracking': bool)
      requires Tables() && stackPtr == 0 && code <= LZ_MAX_CODE && runningCode >= eofCode + 2
      requires i < to <= line.Length && line != stack && line != suffix
      requires tracking ==> Counted()
      requires tracking && Legal(dict, code) ==>
        && runningCode == Saturated(NextCode(Learn(dict, code)) + 1) && Learn(dict, code).bpp == bitsPerPixel
        && runningBits == Width(Learn(dict, code)) && maxCode1 == Pow2(runningBits)
      modifies this`stackPtr, this`lastCode, this`dict, stack, suffix, prefix, line
      ensures ok ==> Tables() && stackPtr <= LZ_MAX_CODE && i <= i' <= to && (stackPtr == 0 || i' == to)
      ensures i <= i' <= to && line[..i] == old(line[..i]) && line[to..] == old(line[to..])
      ensures tracking' <==> tracking && old(Legal(dict, code))
      ensures tracking' ==>
        ok && Tracks() && dict == Learn(old(dict), code) && line[i..i'] + Stacked() == StringOf(old(dict), code)
    {
      hide Linked, Links, Learn, Legal, StringFor, HasString, Reversed, StringOf, Sound, Tables, InBounds;
      tracking' := tracking && Legal(dict, code);
      ok, i' := OutputCode(line, i, to, code);
    }

    /** DecompressInput while tracking: width and count are ready for what comes after a legal code. */
    method CountCode() returns (ok: bool, code: nat)
      requires Tables() && inp.Valid() && stack != inp.buf && suffix != inp.buf
      modifies this`runningCode, this`runningBits, this`maxCode1
      modifies inp`pos, inp`crntShiftState, inp`crntShiftDWord, inp.buf
      ensures old(inp.pos) <= inp.pos <= |inp.input|
      ensures ok ==>
        && Tables() && inp.Valid() && code <= LZ_MAX_CODE && runningCode >= eofCode + 2
        && |inp.Bits()| < |old(inp.Bits())| && After(inp.Ahead()) == old(After(inp.Ahead()))
      ensures ok && old(Tracks()) ==>
        Counted() && old(Decode(dict, inp.Bits())) == Resumed(dict, code, inp.Bits())
      ensures ok && old(Tracks()) && Legal(dict, code) ==>
        && runningCode == Saturated(NextCode(Learn(dict, code)) + 1) && Learn(dict, code).bpp == bitsPerPixel
        && runningBits == Width(Learn(dict, code)) && maxCode1 == Pow2(runningBits)
      ensures !ok && old(Tracks()) ==> old(Decode(dict, inp.Bits())).pixels == []
    {
      hide Linked, Links, Learn, Legal, StringFor, HasString, Data, After, FromBits, ToBits, ByteBits, StringOf;
      hide Decode, Prepend, Sound, InBounds, Resumed;
      ghost var tracking, bits := Tracks(), inp.Bits();
      ok, code := DecompressInput();
      if tracking {
        if !ok {
          DecodeNoData(dict, bits);
        } else {
          DecodeResumes(dict, bits, code);
          if Legal(dict, code) {
            WidthFollowsCount(dict, code);
          }
        }
      }
    }

    /** Act on a code that was just read. */
    method ObeyCode(line: array<byte>, i: nat, to: nat, code: nat, ghost tracking: bool)
      returns (ok: bool, i': nat, ghost tracking': bool)
      requires Tables() && inp.Buffered() && stackPtr == 0 && code <= LZ_MAX_CODE && runningCode >= eofCode + 2
      requires i < to <= line.Length
      requires line != stack && line != suffix && stack != inp.buf && suffix != inp.buf && line != inp.buf
      requires tracking ==> Counted()
      requires tracking && Legal(dict, code) ==>
        && runningCode == Saturated(NextCode(Learn(dict, code)) + 1) && Learn(dict, code).bpp == bitsPerPixel
        && runningBits == Width(Learn(dict, code)) && maxCode1 == Pow2(runningBits)
      modifies this`runningCode, this`runningBits, this`maxCode1, this`stackPtr, this`lastCode, this`dict
      modifies stack, suffix, prefix, line
      ensures i <= i' <= to && line[..i] == old(line[..i]) && line[to..] == old(line[to..])
      ensures ok ==> Tables() && stackPtr <= LZ_MAX_CODE && (stackPtr == 0 || i' == to) && (tracking' ==> tracking)
      ensures ok && tracking' ==>
        Tracks() && Prepend(line[i..i'], Prepend(Stacked(), Decode(dict, inp.Bits())))
          == Resumed(old(dict), code, inp.Bits())
      ensures ok && tracking && !tracking' ==> Resumed(old(dict), code, inp.Bits()) == Decoded([], Malformed)
      ensures !ok && tracking ==> Resumed(old(dict), code, inp.Bits()).pixels == []
    {
      hide Linked, Links, Learn, Legal, Reversed, StringFor, HasString, StringOf, Decode, Prepend, Sound, InBounds;
      i', tracking' := i, tracking;
      if code == eofCode {
        ok := false;
      } else if code == clearCode {
        ok := true;
        ClearTable();
        NothingReversed(stack[..0]);
        PrependNothing(Decode(dict, inp.Bits()));
        assert line[i..i'] == [];
      } else {
        ok, i', tracking' := OutputCounted(line, i, to, code, tracking);
        if tracking' {
          PrependTwice(line[i..i'], Stacked(), Decode(dict, inp.Bits()));
        }
      }
    }

    /** One turn of DecompressLine's loop: read a code and act on it.  As long as the codes are legal
        (`tracking`) the pixels are those of the reference decoder. */
    method ReadCode(line: array<byte>, i: nat, to: nat, ghost tracking: bool)
      returns (ok: bool, i': nat, ghost tracking': bool)
      requires Tables() && inp.Valid() && (tracking ==> Tracks())
      requires stackPtr == 0 && i < to <= line.Length
      requires line != stack && line != suffix && stack != inp.buf && suffix != inp.buf && line != inp.buf
      modifies this`runningCode, this`runningBits, this`maxCode1, this`stackPtr, this`lastCode, this`dict
      modifies stack, suffix, prefix, line
      modifies inp`pos, inp`crntShiftState, inp`crntShiftDWord, inp.buf
      ensures old(inp.pos) <= inp.pos <= |inp.input|
      ensures i <= i' <= to && line[..i] == old(line[..i]) && line[to..] == old(line[to..])
      ensures ok ==>
        && Tables() && inp.Valid() && stackPtr <= LZ_MAX_CODE && (stackPtr == 0 || i' == to)
        && |inp.Bits()| < |old(inp.Bits())| && After(inp.Ahead()) == old(After(inp.Ahead()))
        && (tracking' ==> tracking)
      ensures ok && tracking' ==>
        Tracks() && Prepend(line[i..i'], Future()) == old(Decode(dict, inp.Bits()))
      ensures ok && tracking && !tracking' ==> old(Decode(dict, inp.Bits())) == Decoded([], Malformed)
      ensures !ok && tracking ==> old(Decode(dict, inp.Bits())).pixels == []
    {
      hide Linked, Links, Learn, Legal, Reversed, StringFor, HasString;
      hide Data, After, FromBits, ToBits, ByteBits, StringOf;
      hide Decode, Prepend, Sound, InBounds, Resumed;
      i', tracking' := i, tracking;
      var code: nat;
      ok, code := CountCode();
      if !ok {
        return;
      }
      ghost var rest, after := inp.Bits(), After(inp.Ahead());
      ok, i', tracking' := ObeyCode(line, i, to, code, tracking);
      assert inp.Valid() && inp.Bits() == rest && After(inp.Ahead()) == after;
    }

    /** Begin a line with the pixels left on the stack by the line before. */
    method PopPending(line: array<byte>, from: nat, to: nat) returns (i: nat)
      requires Safe() && from <= to <= line.Length && Distinct(line)
      modifies this`stackPtr, line
      ensures from <= i <= to && stackPtr <= LZ_MAX_CODE && (stackPtr == 0 || i == to)
      ensures line[..from] == old(line[..from]) && line[to..] == old(line[to..])
      ensures Prepend(line[from..i], Future()) == old(Future())
    {
      hide Decode, Prepend, Reversed, Data, ToBits, ByteBits;
      i := PopStack(line, from, to);
      TailUnchanged(old(line[..]), line[..], i, to);
      PrependTwice(line[from..i], Stacked(), Decode(dict, inp.Bits()));
    }

    lemma StackEmpty()
      requires stackPtr == 0
      ensures Stacked() == []
    {
    }

    /** A turn of DecompressLine's loop, for a line filled up to i. */
    method LengthenLine(line: array<byte>, from: nat, i: nat, to: nat, ghost tracking: bool, ghost future: Decoded)
      returns (ok: bool, i': nat, ghost tracking': bool)
      requires Safe() && stackPtr == 0 && from <= i < to <= line.Length && Distinct(line)
      requires tracking ==> Tracks() && Prepend(line[from..i], Future()) == future
      modifies this`runningCode, this`runningBits, this`maxCode1, this`stackPtr, this`lastCode, this`dict
      modifies stack, suffix, prefix, line
      modifies inp`pos, inp`crntShiftState, inp`crntShiftDWord, inp.buf
      ensures old(inp.pos) <= inp.pos <= |inp.input| && i <= i' <= to
      ensures line[..from] == old(line[..from]) && line[to..] == old(line[to..])
      ensures ok ==>
        && Safe() && (stackPtr == 0 || i' == to)
        && |inp.Bits()| < |old(inp.Bits())| && After(inp.Ahead()) == old(After(inp.Ahead()))
      ensures ok && tracking' ==> tracking && Tracks() && Prepend(line[from..i'], Future()) == future
      ensures ok && tracking && !tracking' ==> |future.pixels| < to - from && future.end == Malformed
      ensures !ok && tracking ==> |future.pixels| < to - from
    {
      hide Tracks, Decode, Prepend, Reversed, Data, After, ToBits, ByteBits, Pow2, InBounds;
      ghost var all, was, next := line[..], line[from..i], Decode(dict, inp.Bits());
      StackEmpty();
      PrependNothing(next);
      ok, i', tracking' := ReadCode(line, i, to, tracking);
      LineGrows(all, line[..], from, i, i');
      PrependLength(was, next);
      if ok {
        PrependTwice(was, line[i..i'], Future());
      }
    }

    /** Fill line[from..from + len] with the next pixels.  It always ends, and touches no array out of
        bounds, whatever the input is.  While the input makes sense it delivers exactly the reference
        decoder's pixels, and it fails when there are not enough of them. */
    method DecompressLine(line: array<byte>, from: nat, len: nat) returns (ok: bool)
      requires Safe() && from + len <= line.Length && Distinct(line)
      modifies this`runningCode, this`runningBits, this`maxCode1, this`stackPtr, this`lastCode, this`dict
      modifies stack, suffix, prefix, line
      modifies inp`pos, inp`crntShiftState, inp`crntShiftDWord, inp.buf
      ensures old(inp.pos) <= inp.pos <= |inp.input|
      ensures line[..from] == old(line[..from]) && line[from + len..] == old(line[from + len..])
      ensures ok ==> Safe() && After(inp.Ahead()) == old(After(inp.Ahead()))
      ensures old(Tracks()) && len <= |old(Future()).pixels| ==>
        ok && Tracks() && Prepend(line[from..from + len], Future()) == old(Future())
      ensures old(Tracks()) && len > |old(Future()).pixels| && old(Future()).end != Malformed ==> !ok
    {
      hide Tracks, Decode, Prepend, Reversed, Data, After, ToBits, ByteBits, Pow2, InBounds;
      ghost var future, tracking := Future(), Tracks();
      if stackPtr > LZ_MAX_CODE {
        assert false;  // this guard never fires
      }
      var i := PopPending(line, from, from + len);
      while i < from + len
        invariant old(inp.pos) <= inp.pos && from <= i <= from + len && Safe() && (stackPtr == 0 || i == from + len)
        invariant line[..from] == old(line[..from]) && line[from + len..] == old(line[from + len..])
        invariant After(inp.Ahead()) == old(After(inp.Ahead()))
        invariant tracking ==> Tracks() && Prepend(line[from..i], Future()) == future
        invariant old(Tracks()) && !tracking ==> |future.pixels| < len && future.end == Malformed
        decreases |inp.Bits()|
      {
        ok, i, tracking := LengthenLine(line, from, i, from + len, tracking, future);
        if !ok {
          return;
        }
      }
      PrependLength(line[from..i], Future());
      ok := true;
    }

    /** Start an image: read the code size, and forget everything about the image before. */
    method SetupDecompress() returns (ok: bool)
      requires stack.Length == LZ_MAX_CODE && suffix.Length == prefix.Length == LZ_MAX_CODE + 1
      requires inp.pos <= |inp.input| && inp.buf.Length == 256 && stack != inp.buf && suffix != inp.buf
      modifies this`bitsPerPixel, this`clearCode, this`eofCode, this`stackPtr
      modifies this`runningCode, this`runningBits, this`maxCode1, this`lastCode, this`dict, prefix
      modifies inp`pos, inp`crntShiftState, inp`crntShiftDWord, inp.buf
      ensures old(inp.pos) <= inp.pos <= |inp.input|
      ensures ok <==> old(inp.Ahead()) != [] && old(inp.Ahead())[0] <= 8
      ensures ok ==>
        && Safe() && Tracks() && inp.Ahead() == old(inp.Ahead())[1..]
        && Future() == Decode(Start(old(inp.Ahead())[0]), ByteBits(Data(inp.Ahead())))
    {
      hide Decode, Links, Linked, Data, ByteBits, ToBits, InBounds, Prepend, Reversed;
      var codeSize := inp.Read(1);
      if |codeSize| < 1 {
        return false;
      }
      if codeSize[0] > 8 {
        return false;
      }
      bitsPerPixel := codeSize[0];
      ShlOne(bitsPerPixel);
      clearCode := Shl(1, bitsPerPixel);
      eofCode := clearCode + 1;
      stackPtr := 0;
      inp.Reset();
      ClearTable();
      NothingReversed(stack[..0]);
      PrependNothing(Decode(dict, inp.Bits()));
      return true;
    }

    function LineLength(lineLen: nat): nat
      reads this`imageWidth
    {
      if lineLen == 0 then imageWidth else lineLen
    }

    /** Get the next lineLen pixels of the image; after its last pixel, go on to what follows its data. */
    method GetLine(line: array<byte>, from: nat, lineLen: nat) returns (ok: bool)
      requires Safe() && Distinct(line) && pixelCount < ULONG
      requires LineLength(lineLen) < pixelCount + 0x1_0000 && from <= line.Length
      requires LineLength(lineLen) <= pixelCount ==> from + LineLength(lineLen) <= line.Length
      modifies this`runningCode, this`runningBits, this`maxCode1, this`stackPtr, this`lastCode, this`dict
      modifies this`pixelCount, stack, suffix, prefix, line
      modifies inp`pos, inp`crntShiftState, inp`crntShiftDWord, inp.buf
      ensures old(inp.pos) <= inp.pos <= |inp.input| && pixelCount < ULONG
      ensures LineLength(lineLen) <= old(pixelCount) ==>
        var to := from + LineLength(lineLen);
        line[..from] == old(line[..from]) && line[to..] == old(line[to..])
      ensures ok ==> Safe()
      ensures ok && pixelCount > 0 ==> After(inp.Ahead()) == old(After(inp.Ahead()))
      ensures ok && pixelCount == 0 ==> old(After(inp.Ahead())) == Found(inp.Ahead())
      ensures old(pixelCount) < LineLength(lineLen) ==> !ok
      ensures
        LineLength(lineLen) <= old(pixelCount) <= 0xffff_0000 ==>
          pixelCount == old(pixelCount) - (if lineLen == 0 then imageWidth else lineLen)
      ensures
        old(Tracks()) && LineLength(lineLen) <= old(pixelCount) <= 0xffff_0000
        && LineLength(lineLen) <= |old(Future()).pixels| ==>
        && from + LineLength(lineLen) <= line.Length
        && line[from..from + LineLength(lineLen)] == old(Future()).pixels[..LineLength(lineLen)]
        && (pixelCount > 0 ==>
          ok && Tracks() && Future() == old(Future()).(pixels := old(Future()).pixels[LineLength(lineLen)..]))
        && (pixelCount == 0 ==> (ok <==> old(After(inp.Ahead())).Found?))
      ensures old(Tracks()) && LineLength(lineLen) > |old(Future()).pixels| && old(Future()).end != Malformed ==> !ok
    {
      hide Decode, Prepend, Links, Linked, Reversed, Data, After, ToBits, ByteBits, StringFor, HasString, Sound, Tracks;
      var len := LineLength(lineLen);
      pixelCount := (pixelCount + ULONG - len) % ULONG;
      if pixelCount > MAX_PIXELS {
        return false;
      }
      assert len <= old(pixelCount);
      ok := DecompressLine(line, from, len);
      if ok {
        PrependSplit(line[from..from + len], Future());
        if pixelCount == 0 {
          ok := inp.SkipToEnd();
          assert ok ==> inp.Buffered();
        }
      }
    }
  }
}
