/**
 The integer operators of C that the codecs use, on unbounded naturals, and their reading as
 sequences of bits, least significant bit first.
   x & (2^n - 1)  is  Mask(x, n)        x >> n  is  Shr(x, n)
   x << n         is  Shl(x, n)         x | y   is  Or(x, y)
 */
module Bits {
  type byte = x: int | 0 <= x < 256

  function Pow2(n: nat): (p: nat)
    ensures p >= 1
  {
    if n == 0 then 1 else 2 * Pow2(n - 1)
  }

  lemma {:induction false} Pow2Grows(m: nat, n: nat)
    requires m <= n
    ensures Pow2(m) <= Pow2(n)
    decreases n - m
  {
    if m < n {
      Pow2Grows(m + 1, n);
    }
  }

  /** The powers of two that the codecs name as literals. */
  lemma SmallPowers()
    ensures Pow2(1) == 2 && Pow2(2) == 4 && Pow2(3) == 8 && Pow2(4) == 16 && Pow2(5) == 32
    ensures Pow2(6) == 64 && Pow2(7) == 128 && Pow2(8) == 256 && Pow2(9) == 512
    ensures Pow2(10) == 1024 && Pow2(11) == 2048 && Pow2(12) == 4096 && Pow2(13) == 8192
  {
    assert Pow2(3) == 8;
    assert Pow2(6) == 64;
    assert Pow2(9) == 512;
    assert Pow2(12) == 4096;
  }

  function Shl(x: nat, n: nat): nat {
    if n == 0 then x else 2 * Shl(x, n - 1)
  }

  function Shr(x: nat, n: nat): nat {
    if n == 0 then x else Shr(x / 2, n - 1)
  }

  function Mask(x: nat, n: nat): (r: nat)
    ensures r < Pow2(n)
  {
    if n == 0 then 0 else x % 2 + 2 * Mask(x / 2, n - 1)
  }

  /** Bitwise inclusive or. */
  function Or(a: nat, b: nat): nat {
    if a == 0 && b == 0 then 0
    else (if a % 2 == 1 || b % 2 == 1 then 1 else 0) + 2 * Or(a / 2, b / 2)
  }

  /** The low `width` bits of the exclusive or of a and b. */
  function Xor(a: nat, b: nat, width: nat): (r: nat)
    ensures r < Pow2(width)
  {
    if width == 0 then 0
    else (a % 2 + b % 2) % 2 + 2 * Xor(a / 2, b / 2, width - 1)
  }

  /** Bit by bit: one of the two, and exactly one of them. */
  lemma {:induction false} OrXorBits(a: nat, b: nat, width: nat, k: nat)
    ensures Shr(Or(a, b), k) % 2 == 1 <==> Shr(a, k) % 2 == 1 || Shr(b, k) % 2 == 1
    ensures k < width ==> (Shr(Xor(a, b, width), k) % 2 == 1 <==> Shr(a, k) % 2 != Shr(b, k) % 2)
    decreases k
  {
    hide Or, Xor, Shr;
    OrXorStep(a, b, width);
    ShrStep(a, k);
    ShrStep(b, k);
    ShrStep(Or(a, b), k);
    ShrStep(Xor(a, b, width), k);
    if k > 0 {
      OrXorBits(a / 2, b / 2, if width == 0 then 0 else width - 1, k - 1);
    }
  }

  lemma OrXorStep(a: nat, b: nat, width: nat)
    ensures Or(a, b) % 2 == 1 <==> a % 2 == 1 || b % 2 == 1
    ensures Or(a, b) / 2 == Or(a / 2, b / 2)
    ensures width > 0 ==> (Xor(a, b, width) % 2 == 1 <==> a % 2 != b % 2)
    ensures width > 0 ==> Xor(a, b, width) / 2 == Xor(a / 2, b / 2, width - 1)
  {
  }

  lemma ShrStep(x: nat, k: nat)
    ensures Shr(x, k) == if k == 0 then x else Shr(x / 2, k - 1)
  {
  }

  lemma {:induction false} ShrZero(n: nat)
    ensures Shr(0, n) == 0
  {
    if n > 0 {
      ShrZero(n - 1);
    }
  }

  lemma {:induction false} ShrAfter(x: nat, m: nat, n: nat)
    ensures Shr(x, m + n) == Shr(Shr(x, m), n)
  {
    if m > 0 {
      ShrAfter(x / 2, m - 1, n);
    }
  }

  lemma {:induction false} MaskShr(x: nat, n: nat)
    ensures x == Mask(x, n) + Shl(Shr(x, n), n)
  {
    if n > 0 {
      MaskShr(x / 2, n - 1);
    }
  }

  lemma {:induction false} MaskSmall(x: nat, n: nat)
    requires x < Pow2(n)
    ensures Mask(x, n) == x
  {
    if n > 0 {
      MaskSmall(x / 2, n - 1);
    }
  }

  lemma {:induction false} ShrBound(x: nat, n: nat, w: nat)
    requires x < Pow2(n + w)
    ensures Shr(x, n) < Pow2(w)
  {
    if n > 0 {
      ShrBound(x / 2, n - 1, w);
    }
  }

  /** Or of a number below 2^s with a number shifted left by s is their sum: this is how a code is
      added on top of the bits already waiting in a shift register. */
  lemma {:induction false} OrShifted(a: nat, b: nat, s: nat)
    requires a < Pow2(s)
    ensures Or(a, Shl(b, s)) == a + Shl(b, s)
  {
    if s == 0 {
      OrZero(b);
    } else {
      OrShifted(a / 2, b, s - 1);
    }
  }

  lemma {:induction false} OrZero(b: nat)
    ensures Or(0, b) == b
  {
    if b > 0 {
      OrZero(b / 2);
    }
  }

  lemma {:induction false} ShlOne(n: nat)
    ensures Shl(1, n) == Pow2(n)
  {
    if n > 0 {
      ShlOne(n - 1);
    }
  }

  lemma {:induction false} ShlZero(n: nat)
    ensures Shl(0, n) == 0
  {
    if n > 0 {
      ShlZero(n - 1);
    }
  }

  lemma {:induction false} StackBound(lo: nat, s: nat, hi: nat, w: nat)
    requires lo < Pow2(s) && hi < Pow2(w)
    ensures lo + Shl(hi, s) < Pow2(s + w)
  {
    if s > 0 {
      StackBound(lo / 2, s - 1, hi, w);
    }
  }

  /** The low `width` bits of `value`, least significant first. */
  function ToBits(value: nat, width: nat): (bits: seq<bool>)
    ensures |bits| == width
  {
    if width == 0 then [] else [value % 2 == 1] + ToBits(value / 2, width - 1)
  }

  function FromBits(bits: seq<bool>): nat {
    if bits == [] then 0 else (if bits[0] then 1 else 0) + 2 * FromBits(bits[1..])
  }

  lemma {:induction false} FromToBits(value: nat, width: nat)
    ensures FromBits(ToBits(value, width)) == Mask(value, width)
  {
    if width > 0 {
      FromToBits(value / 2, width - 1);
      assert ToBits(value, width)[1..] == ToBits(value / 2, width - 1);
    }
  }

  /** Stacking `hi` above the `s` bits of `lo` appends its bits. */
  lemma {:induction false} ConcatBits(lo: nat, s: nat, hi: nat, w: nat)
    requires lo < Pow2(s)
    ensures ToBits(lo + Shl(hi, s), s + w) == ToBits(lo, s) + ToBits(hi, w)
  {
    if s > 0 {
      ConcatBits(lo / 2, s - 1, hi, w);
      assert s - 1 + w == s + w - 1;
    }
  }

  lemma StackBits(lo: nat, s: nat, hi: nat, w: nat)
    requires lo < Pow2(s) && hi < Pow2(w)
    ensures Or(lo, Shl(hi, s)) < Pow2(s + w)
    ensures ToBits(Or(lo, Shl(hi, s)), s + w) == ToBits(lo, s) + ToBits(hi, w)
  {
    OrShifted(lo, hi, s);
    StackBound(lo, s, hi, w);
    ConcatBits(lo, s, hi, w);
  }

  lemma UnstackBits(x: nat, s: nat, w: nat)
    requires x < Pow2(s + w)
    ensures Shr(x, s) < Pow2(w)
    ensures ToBits(x, s + w) == ToBits(Mask(x, s), s) + ToBits(Shr(x, s), w)
  {
    MaskShr(x, s);
    ShrBound(x, s, w);
    ConcatBits(Mask(x, s), s, Shr(x, s), w);
  }

  lemma Associate<T>(a: seq<T>, b: seq<T>, c: seq<T>)
    ensures a + (b + c) == a + b + c
  {
  }

  /** The bits of a sequence of bytes, each byte least significant bit first. */
  function ByteBits(data: seq<byte>): (bits: seq<bool>)
    ensures |bits| == 8 * |data|
  {
    if data == [] then [] else ToBits(data[0], 8) + ByteBits(data[1..])
  }

  lemma {:induction false} ByteBitsConcat(a: seq<byte>, b: seq<byte>)
    ensures ByteBits(a + b) == ByteBits(a) + ByteBits(b)
  {
    hide ToBits;
    if a == [] {
      assert a + b == b;
      assert ByteBits([]) + ByteBits(b) == ByteBits(b);
    } else {
      ByteBitsConcat(a[1..], b);
      assert (a + b)[1..] == a[1..] + b;
      Associate(ToBits(a[0], 8), ByteBits(a[1..]), ByteBits(b));
    }
  }
}
