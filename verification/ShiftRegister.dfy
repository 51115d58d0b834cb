/** Packing variable-width codes into bytes, least significant bit first (Appendix F of GIF89a). */
module ShiftRegister {
  import opened Bits

  /** `bits` went in; the bytes `data` came out and the low `state` bits of dword wait. */
  ghost predicate Shifted(bits: seq<bool>, data: seq<byte>, dword: nat, state: nat) {
    dword < Pow2(state) && bits == ByteBits(data) + ToBits(dword, state)
  }

  lemma ShiftIn(bits: seq<bool>, data: seq<byte>, dword: nat, state: nat, code: nat, width: nat)
    requires Shifted(bits, data, dword, state) && code < Pow2(width)
    ensures Shifted(bits + ToBits(code, width), data, Or(dword, Shl(code, state)), state + width)
  {
    StackBits(dword, state, code, width);
    Associate(ByteBits(data), ToBits(dword, state), ToBits(code, width));
  }

  lemma ByteBitsSnoc(data: seq<byte>, b: byte)
    ensures ByteBits(data + [b]) == ByteBits(data) + ToBits(b, 8)
  {
    ByteBitsConcat(data, [b]);
    assert ByteBits([b]) == ToBits(b, 8) + ByteBits([b][1..]);
  }

  lemma ShiftOut(bits: seq<bool>, data: seq<byte>, dword: nat, state: nat)
    requires Shifted(bits, data, dword, state) && state >= 8
    ensures Mask(dword, 8) < 256
    ensures Shifted(bits, data + [Mask(dword, 8)], Shr(dword, 8), state - 8)
  {
    SmallPowers();
    UnstackBits(dword, 8, state - 8);
    ByteBitsSnoc(data, Mask(dword, 8));
    Associate(ByteBits(data), ToBits(Mask(dword, 8), 8), ToBits(Shr(dword, 8), state - 8));
  }

  /** The last bits go out in a byte padded with zeros. */
  lemma ShiftLast(bits: seq<bool>, data: seq<byte>, dword: nat, state: nat)
    requires Shifted(bits, data, dword, state) && 0 < state < 8
    ensures Mask(dword, 8) == dword < 256
    ensures bits <= ByteBits(data + [dword]) && |ByteBits(data + [dword])| < |bits| + 8
  {
    SmallPowers();
    Pow2Grows(state, 8);
    MaskSmall(dword, 8);
    ShlZero(state);
    ConcatBits(dword, state, 0, 8 - state);
    ByteBitsSnoc(data, dword);
  }
}
