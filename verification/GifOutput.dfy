/** The byte side of the giflib encoder (egif_lib.c): shift register, block buffer, output function. */
module GifOutput {
  import opened Bits
  import opened ShiftRegister
  import opened SubBlocks

  const FLUSH_OUTPUT: nat := 4096

  /** The fields CrntShiftState, CrntShiftDWord and Buf, and the bytes handed to the output function. */
  class GifOutput {
    var crntShiftState: int
    var crntShiftDWord: nat
    var written: seq<byte>
    const buf: array<byte>

    ghost var bits: seq<bool>    // the bits of the codes put in since Begin
    ghost var base: seq<byte>    // written before Begin
    ghost var data: seq<byte>    // all bytes shifted out since,
    ghost var packed: seq<byte>  // those of the `full` blocks already written
    ghost var full: nat

    constructor ()
      ensures fresh(buf) && buf.Length == 256 && written == []
    {
      buf := new byte[256](_ => 0);
      written := [];
    }

    ghost function Held(): (h: seq<byte>)
      requires buf.Length == 256
      reads buf
      ensures |h| == buf[0]
    {
      buf[1..1 + buf[0] as int]
    }

    ghost predicate Blocks()
      reads this, buf
    {
      buf.Length == 256 && Blocked(written, base, packed, full, Held()) && data == packed + Held()
    }

    ghost predicate Shift()
      reads this
    {
      0 <= crntShiftState && Shifted(bits, data, crntShiftDWord, crntShiftState)
    }

    /** In the middle of a sequence of codes. */
    ghost predicate Valid()
      reads this, buf
    {
      Blocks() && Shift() && crntShiftState < 8
    }

    /** Bytes outside the data blocks. */
    method Write(s: seq<byte>)
      modifies this`written
      ensures written == old(written) + s
    {
      written := written + s;
    }

    method Begin()
      requires buf.Length == 256
      modifies this, buf
      ensures Valid() && bits == [] && base == written == old(written)
    {
      buf[0] := 0;
      crntShiftState := 0;
      crntShiftDWord := 0;
      bits, base, data, packed, full := [], written, [], [], 0;
    }

    method BufferedOutput(c: nat)
      requires Blocks() && (c == FLUSH_OUTPUT || c < 256)
      modifies this`written, this`data, this`packed, this`full, buf
      ensures c != FLUSH_OUTPUT ==> Blocks() && data == old(data) + [c]
      ensures c == FLUSH_OUTPUT ==> data == old(data) && written == base + Frame(data) && buf[0] == 0
    {
      ghost var held := Held();
      if c == FLUSH_OUTPUT {
        DumpLast(written, base, packed, full, held);
        if buf[0] != 0 {
          assert buf[..buf[0] as int + 1] == [|held|] + held;
          written := written + buf[..buf[0] as int + 1];
        }
        buf[0] := 0;
        written := written + [0];
      } else {
        if buf[0] == 255 {
          DumpFull(written, base, packed, full, held, c);
          assert buf[..buf[0] as int + 1] == [255] + held;
          written := written + buf[..buf[0] as int + 1];
          packed, full := packed + held, full + 1;
          buf[0] := 0;
        }
        buf[0] := buf[0] + 1;
        buf[buf[0]] := c;
        data := data + [c];
        assert Held() == if |held| == 255 then [c] else held + [c];
      }
    }

    /** Move the low byte of the shift register into the block buffer. */
    method ShiftOutByte()
      requires Blocks() && Shift() && crntShiftState >= 8
      modifies this`written, this`data, this`packed, this`full, this`crntShiftDWord, this`crntShiftState, buf
      ensures Blocks() && Shift() && crntShiftState == old(crntShiftState) - 8
    {
      ShiftOut(bits, data, crntShiftDWord, crntShiftState);
      BufferedOutput(Mask(crntShiftDWord, 8));
      crntShiftDWord := Shr(crntShiftDWord, 8);
      crntShiftState := crntShiftState - 8;
    }

    /** Append one code of the given width to the bit stream. */
    method Put(code: nat, width: nat)
      requires Valid() && code < Pow2(width) && width <= 12
      modifies this, buf
      ensures Valid() && bits == old(bits) + ToBits(code, width) && base == old(base)
    {
      ShiftIn(bits, data, crntShiftDWord, crntShiftState, code, width);
      crntShiftDWord := Or(crntShiftDWord, Shl(code, crntShiftState));
      crntShiftState := crntShiftState + width;
      assert crntShiftState <= 19;  // so the register never needs more than 32 bits
      bits := bits + ToBits(code, width);
      while crntShiftState >= 8
        invariant Blocks() && Shift()
        invariant bits == old(bits) + ToBits(code, width) && base == old(base)
      {
        ShiftOutByte();
      }
    }

    /** Write out what is left, the last byte padded with zero bits, and the block that ends the data. */
    method Flush()
      requires Valid()
      modifies this, buf
      ensures bits == old(bits) && base == old(base) && buf[0] == 0
      ensures written == base + Frame(data)
      ensures bits <= ByteBits(data) && |ByteBits(data)| < |bits| + 8
    {
      hide Frame, FullBlocks, ByteBits, Mask, Shr;
      while crntShiftState > 0
        invariant Blocks() && crntShiftState < 8
        invariant crntShiftState >= 0 ==> Shift()
        invariant crntShiftState <= 0 ==> bits <= ByteBits(data) && |ByteBits(data)| < |bits| + 8
        invariant bits == old(bits) && base == old(base)
      {
        ShiftLast(bits, data, crntShiftDWord, crntShiftState);
        BufferedOutput(Mask(crntShiftDWord, 8));
        crntShiftDWord := Shr(crntShiftDWord, 8);
        crntShiftState := crntShiftState - 8;
      }
      crntShiftState := 0;
      BufferedOutput(FLUSH_OUTPUT);
    }
  }
}
