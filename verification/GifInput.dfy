/** The byte side of the giflib decoder (dgif_lib.c): input function, block buffer, shift register. */
module GifInput {
  import opened Bits
  import opened SubBlocks

  class GifInput {
    const input: seq<byte>   // all the input function can deliver
    var pos: nat             // and how much it has delivered
    const buf: array<byte>   // buf[0] bytes are left in it, from index buf[1] on
    var crntShiftState: nat
    var crntShiftDWord: nat

    constructor (input: seq<byte>)
      ensures this.input == input && pos == 0 && fresh(buf) && buf.Length == 256
    {
      this.input := input;
      pos := 0;
      buf := new byte[256](_ => 0);
    }

    /** What the input function has still to deliver. */
    ghost function Ahead(): seq<byte>
      requires pos <= |input|
      reads this`pos
    {
      input[pos..]
    }

    ghost predicate Buffered()
      reads this`pos, buf
    {
      pos <= |input| && buf.Length == 256 && (buf[0] > 0 ==> 2 <= buf[1] && buf[1] as int + buf[0] as int <= 256)
    }

    ghost function Held(): (h: seq<byte>)
      requires Buffered()
      reads this`pos, buf
    {
      if buf[0] == 0 then [] else buf[buf[1]..buf[1] as int + buf[0] as int]
    }

    /** The data bytes of the current image that are still to be used. */
    ghost function Rest(): seq<byte>
      requires Buffered()
      reads this`pos, buf
    {
      Held() + Data(Ahead())
    }

    ghost predicate Valid()
      reads this, buf
    {
      Buffered() && crntShiftState < 8 && crntShiftDWord < Pow2(crntShiftState)
    }

    /** The bits of the current image that are still to be used. */
    ghost function Bits(): seq<bool>
      requires Buffered()
      reads this, buf
    {
      ToBits(crntShiftDWord, crntShiftState) + ByteBits(Rest())
    }

    /** No byte in the buffer, no bit in the shift register. */
    method Reset()
      requires pos <= |input| && buf.Length == 256
      modifies this`crntShiftState, this`crntShiftDWord, buf
      ensures Valid() && Bits() == ByteBits(Data(Ahead()))
    {
      buf[0] := 0;
      crntShiftState := 0;
      crntShiftDWord := 0;
      assert Rest() == Data(Ahead());
      assert ToBits(0, 0) + ByteBits(Rest()) == ByteBits(Rest());
    }

    /** The input function: as many bytes as asked for, fewer at the end of the input. */
    method Read(n: nat) returns (s: seq<byte>)
      requires pos <= |input|
      modifies this`pos
      ensures old(pos) <= pos <= |input| && old(Ahead()) == s + Ahead()
      ensures |s| == if n <= |old(Ahead())| then n else |old(Ahead())|
    {
      var k := if n <= |input| - pos then n else |input| - pos;
      s := input[pos..pos + k];
      pos := pos + k;
    }

    /** Fill buf[1..] with s, as READ(GifFile, &Buf[1], ...) does. */
    method Store(s: seq<byte>)
      requires buf.Length == 256 && |s| <= 255
      modifies buf
      ensures buf[0] == old(buf[0]) && buf[1..1 + |s|] == s
    {
      for i := 0 to |s|
        invariant buf[0] == old(buf[0]) && buf[1..1 + i] == s[..i]
      {
        buf[1 + i] := s[i];
      }
    }

    /** Read the next block into the empty buffer. */
    method NextBlock() returns (ok: bool)
      requires Buffered() && buf[0] == 0
      modifies this`pos, buf
      ensures ok <==> old(Rest()) != []
      ensures old(pos) <= pos <= |input|
      ensures ok ==>
        && buf[0] > 0 && old(Rest()) == buf[1..1 + buf[0] as int] + Data(Ahead())
        && After(Ahead()) == old(After(Ahead()))
    {
      hide Data, After;
      ghost var ahead := Ahead();
      NoBlockAhead(ahead);
      NoBlockAhead([]);
      var k := Read(1);
      if |k| != 1 {
        return false;
      }
      buf[0] := k[0];
      if k[0] == 0 {
        return false;
      }
      var s := Read(k[0]);
      if |s| != k[0] as int {
        return false;
      }
      assert ahead == [|s|] + s + Ahead();
      DataBlock(s, Ahead());
      Store(s);
      return true;
    }

    method BufferedInput() returns (ok: bool, b: byte)
      requires Buffered()
      modifies this`pos, buf
      ensures ok <==> old(Rest()) != []
      ensures old(pos) <= pos <= |input|
      ensures ok ==> Buffered() && old(Rest()) == [b] + Rest() && After(Ahead()) == old(After(Ahead()))
    {
      hide Data, After;
      if buf[0] == 0 {
        ok := NextBlock();
        if !ok {
          return ok, 0;
        }
        b := FirstHeld();
      } else {
        b := NextHeld();
      }
      ok := true;
    }

    /** Take the first byte of a block just read. */
    method FirstHeld() returns (b: byte)
      requires pos <= |input| && buf.Length == 256 && buf[0] > 0
      modifies buf
      ensures Buffered() && old(buf[1..1 + buf[0] as int] + Data(Ahead())) == [b] + Rest()
    {
      hide Data;
      ghost var held := buf[1..1 + buf[0] as int];
      b := buf[1];
      buf[1] := 2;  // the second place now says which byte comes next
      buf[0] := buf[0] - 1;
      assert Held() == held[1..];
      FirstByte(held, b, Data(Ahead()));
    }

    /** Take the next byte of a block that has been used in part. */
    method NextHeld() returns (b: byte)
      requires Buffered() && buf[0] > 0
      modifies buf
      ensures Buffered() && old(Rest()) == [b] + Rest()
    {
      hide Data;
      ghost var held := Held();
      b := buf[buf[1]];
      buf[1] := (buf[1] as int + 1) % 256;
      buf[0] := buf[0] - 1;
      assert Held() == held[1..];
      FirstByte(held, b, Data(Ahead()));
    }

    /** Read one more block of the image data; `more` is false for the empty block that ends it. */
    method GetCodeNext() returns (ok: bool, more: bool)
      requires pos <= |input| && buf.Length == 256
      modifies this`pos, buf
      ensures old(pos) <= pos <= |input| && (ok ==> |Ahead()| < |old(Ahead())|)
      ensures ok && more ==> After(Ahead()) == old(After(Ahead()))
      ensures ok && !more ==> buf[0] == 0 && old(After(Ahead())) == Found(Ahead())
      ensures !ok ==> old(After(Ahead())) == Missing
    {
      ghost var ahead := Ahead();
      var k := Read(1);
      if |k| != 1 {
        return false, false;
      }
      buf[0] := k[0];
      if k[0] == 0 {
        assert ahead[1..] == Ahead();
        return true, false;
      }
      var s := Read(k[0]);
      if |s| != k[0] as int {
        return false, false;
      }
      assert ahead == [|s|] + s + Ahead();
      DataBlock(s, Ahead());
      Store(s);
      return true, true;
    }

    /** What DGifGetLine does after the last pixel: skip the rest of the image data. */
    method SkipToEnd() returns (ok: bool)
      requires pos <= |input| && buf.Length == 256
      modifies this`pos, buf
      ensures old(pos) <= pos <= |input| && (ok <==> old(After(Ahead())).Found?)
      ensures ok ==> buf[0] == 0 && old(After(Ahead())) == Found(Ahead())
    {
      hide After;
      var more := true;
      while more
        invariant old(pos) <= pos <= |input|
        invariant more ==> After(Ahead()) == old(After(Ahead()))
        invariant !more ==> buf[0] == 0 && old(After(Ahead())) == Found(Ahead())
        decreases more, |Ahead()|
      {
        ok, more := GetCodeNext();
        if !ok {
          return false;
        }
      }
      return true;
    }

    /** Take one code of the given width off the bit stream. */
    method Take(width: nat) returns (ok: bool, code: nat)
      requires Valid() && 0 < width <= 12
      modifies this`pos, this`crntShiftState, this`crntShiftDWord, buf
      ensures ok <==> |old(Bits())| >= width
      ensures old(pos) <= pos <= |input| && code < Pow2(width)
      ensures ok ==>
        && Valid() && code == FromBits(old(Bits())[..width]) && Bits() == old(Bits())[width..]
        && After(Ahead()) == old(After(Ahead()))
    {
      hide Data, After, ToBits, FromBits, ByteBits, Mask, Shr;
      ok := Fill(width);
      code := Mask(crntShiftDWord, width);
      if ok {
        TakeBits(crntShiftDWord, width, crntShiftState - width, ByteBits(Rest()));
        crntShiftDWord := Shr(crntShiftDWord, width);
        crntShiftState := crntShiftState - width;
      }
    }

    /** Take's loop: shift bytes in until a whole code is there. */
    method Fill(width: nat) returns (ok: bool)
      requires Valid() && 0 < width <= 12
      modifies this`pos, this`crntShiftState, this`crntShiftDWord, buf
      ensures ok <==> |old(Bits())| >= width
      ensures old(pos) <= pos <= |input|
      ensures ok ==>
        && Buffered() && Bits() == old(Bits()) && After(Ahead()) == old(After(Ahead()))
        && width <= crntShiftState < width + 8 && crntShiftDWord < Pow2(crntShiftState)
    {
      hide Rest, Held, Data, After, ToBits, ByteBits, Or, Shl, Pow2;
      while crntShiftState < width
        invariant old(pos) <= pos && Buffered() && Bits() == old(Bits()) && After(Ahead()) == old(After(Ahead()))
        invariant crntShiftState < width + 8 && crntShiftDWord < Pow2(crntShiftState)
        decreases width - crntShiftState
      {
        var more, b := BufferedInput();
        if !more {
          NoBytes();
          return false;
        }
        FillBits(crntShiftDWord, crntShiftState, b, Rest());
        crntShiftDWord := Or(crntShiftDWord, Shl(b, crntShiftState));
        crntShiftState := crntShiftState + 8;
        assert crntShiftState <= 19;  // so the register never needs more than 32 bits
      }
      return true;
    }
  }

  lemma FirstByte(held: seq<byte>, b: byte, rest: seq<byte>)
    requires held != [] && held[0] == b
    ensures held + rest == [b] + (held[1..] + rest)
  {
  }

  lemma NoBytes()
    ensures ByteBits([]) == []
  {
  }

  lemma FillBits(dword: nat, state: nat, b: byte, rest: seq<byte>)
    requires dword < Pow2(state)
    ensures Or(dword, Shl(b, state)) < Pow2(state + 8)
    ensures ToBits(Or(dword, Shl(b, state)), state + 8) + ByteBits(rest) == ToBits(dword, state) + ByteBits([b] + rest)
  {
    SmallPowers();
    StackBits(dword, state, b, 8);
    Associate(ToBits(dword, state), ToBits(b, 8), ByteBits(rest));
    assert ([b] + rest)[1..] == rest;
  }

  lemma TakeBits(dword: nat, w: nat, left: nat, rest: seq<bool>)
    requires dword < Pow2(w + left)
    ensures Shr(dword, w) < Pow2(left)
    ensures var bits := ToBits(dword, w + left) + rest;
      |bits| >= w && FromBits(bits[..w]) == Mask(dword, w) && bits[w..] == ToBits(Shr(dword, w), left) + rest
  {
    UnstackBits(dword, w, left);
    var bits := ToBits(dword, w + left) + rest;
    assert bits[..w] == ToBits(Mask(dword, w), w);
    FromToBits(Mask(dword, w), w);
    MaskSmall(Mask(dword, w), w);
  }
}
