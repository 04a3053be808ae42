/** Powers of two and fixed-width bit strings.

    The encoder and the decoder keep their pending bits in an integer
    accumulator `buf` of which only the low `len` bits matter. Their
    specifications speak about plain sequences of bits instead (most
    significant bit first); the lemmas here translate between the two views:
    shifting left and or-ing in a value is appending its bits, and taking
    `(buf >> k) & (2^w - 1)` is slicing the bit string. */
module Bits {

  type byte = x: int | 0 <= x < 0x100

  /** `usize::MAX` on a 64-bit target. */
  const USIZE_MAX: nat := 0xFFFF_FFFF_FFFF_FFFF

  function Pow2(n: nat): (r: nat)
    ensures r >= 1
  {
    if n == 0 then 1 else 2 * Pow2(n - 1)
  }

  lemma {:induction false} Pow2Add(a: nat, b: nat)
    ensures Pow2(a + b) == Pow2(a) * Pow2(b)
  {
    if b > 0 {
      Pow2Add(a, b - 1);
      assert Pow2(a + b) == 2 * Pow2(a + b - 1);
    }
  }

  lemma {:induction false} Pow2Monotone(a: nat, b: nat)
    requires a <= b
    ensures Pow2(a) <= Pow2(b)
  {
    if a < b {
      Pow2Monotone(a, b - 1);
    }
  }

  /** Euclidean division is determined by any quotient/remainder pair. */
  lemma DivModUnique(v: int, d: int, q: int, r: int)
    requires d > 0 && 0 <= r < d && v == q * d + r
    ensures v / d == q && v % d == r
  {
    var q0, r0 := v / d, v % d;
    assert v == q0 * d + r0;
    assert (q - q0) * d == r0 - r;
    if q > q0 {
      assert (q - q0) * d >= d by { MulAtLeast(q - q0, d); }
    } else if q < q0 {
      assert (q0 - q) * d >= d by { MulAtLeast(q0 - q, d); }
    }
  }

  lemma MulAtLeast(a: int, d: int)
    requires a >= 1 && d > 0
    ensures a * d >= d
  {
    assert a * d == d + (a - 1) * d;
  }

  lemma MulNonneg(a: nat, b: nat)
    ensures a * b >= 0
  {
  }

  lemma MulSucc(k: nat, b: nat)
    ensures (k + 1) * b == k * b + b
  {
  }

  /** `k * b` by repeated addition. */
  function Times(k: nat, b: nat): nat
  {
    if k == 0 then 0 else Times(k - 1, b) + b
  }

  lemma {:induction false} TimesIsMul(k: nat, b: nat)
    ensures Times(k, b) == k * b
  {
    if k > 0 {
      TimesIsMul(k - 1, b);
      MulSucc(k - 1, b);
    }
  }

  lemma MulLe(a: nat, x: nat, y: nat)
    requires x <= y
    ensures a * x <= a * y
  {
    assert a * y == a * x + a * (y - x);
  }

  /** `a * (b * q + r2) + r1` regrouped as a quotient and remainder of `a * b`. */
  lemma Regroup(a: nat, b: nat, q: nat, r2: nat, r1: nat)
    requires r2 < b && r1 < a
    ensures a * (b * q + r2) + r1 == q * (a * b) + (a * r2 + r1)
    ensures a * r2 + r1 < a * b
  {
    MulLe(a, r2, b - 1);
    assert a * (b - 1) == a * b - a;
  }

  lemma DivNonneg(v: int, d: int)
    requires v >= 0 && d > 0
    ensures v / d >= 0
  {
    var q := v / d;
    if q < 0 {
      MulAtLeast(-q, d);
    }
  }

  /** `v << k` on an unbounded accumulator. */
  function Shl(v: nat, k: nat): nat
  {
    MulNonneg(v, Pow2(k));
    v * Pow2(k)
  }

  /** `v & ((1 << w) - 1)`: the low `w` bits of `v`. */
  function LowBits(v: nat, w: nat): (r: nat)
    ensures r < Pow2(w)
  {
    v % Pow2(w)
  }

  /** `v >> k` on an unbounded accumulator. */
  function Shr(v: nat, k: nat): nat
  {
    DivNonneg(v, Pow2(k));
    v / Pow2(k)
  }

  lemma DivDiv(v: nat, a: nat, b: nat)
    requires a > 0 && b > 0
    ensures v / a / b == v / (a * b)
  {
    var q1, r1 := v / a, v % a;
    var q2, r2 := q1 / b, q1 % b;
    assert v == a * q1 + r1;
    assert q1 == b * q2 + r2;
    Regroup(a, b, q2, r2, r1);
    DivModUnique(v, a * b, q2, a * r2 + r1);
  }

  /** The bits of a byte string, every byte most significant bit first. */
  function ByteBits(data: seq<byte>): (r: seq<bool>)
    ensures |r| == 8 * |data|
  {
    if data == [] then [] else ToBits(data[0], 8) + ByteBits(data[1..])
  }

  /** The low `w` bits of `v`, most significant first. */
  function ToBits(v: nat, w: nat): (r: seq<bool>)
    ensures |r| == w
  {
    if w == 0 then [] else ToBits(v / 2, w - 1) + [v % 2 == 1]
  }

  /** The number whose big-endian binary digits are `bs`. */
  function FromBits(bs: seq<bool>): (r: nat)
    ensures r < Pow2(|bs|)
  {
    if bs == [] then 0
    else 2 * FromBits(bs[..|bs| - 1]) + (if bs[|bs| - 1] then 1 else 0)
  }

  function Zeros(k: nat): (r: seq<bool>)
    ensures |r| == k && forall i :: 0 <= i < k ==> !r[i]
  {
    seq(k, _ => false)
  }

  /** The whole bytes at the front of a bit string; fewer than 8 trailing
      bits are dropped. */
  function Bytes(bs: seq<bool>): (r: seq<byte>)
    ensures |r| == |bs| / 8
  {
    if |bs| < 8 then [] else [FromBits(bs[..8])] + Bytes(bs[8..])
  }

  lemma {:induction false} FromToBits(v: nat, w: nat)
    ensures FromBits(ToBits(v, w)) == v % Pow2(w)
  {
    if w > 0 {
      var bs := ToBits(v, w);
      assert bs[..w - 1] == ToBits(v / 2, w - 1);
      FromToBits(v / 2, w - 1);
      HalfMod(v, Pow2(w - 1));
    }
  }

  lemma HalfMod(v: nat, p: nat)
    requires p >= 1
    ensures v % (2 * p) == 2 * (v / 2 % p) + v % 2
  {
    var q, r2, r1 := v / 2 / p, v / 2 % p, v % 2;
    assert v == 2 * (p * q + r2) + r1;
    Regroup(2, p, q, r2, r1);
    DivModUnique(v, 2 * p, q, 2 * r2 + r1);
  }

  lemma {:induction false} ToFromBits(bs: seq<bool>)
    ensures ToBits(FromBits(bs), |bs|) == bs
  {
    if bs != [] {
      var n := |bs|;
      ToFromBits(bs[..n - 1]);
      assert bs == bs[..n - 1] + [bs[n - 1]];
    }
  }

  lemma ToBitsMod(v: nat, w: nat)
    ensures ToBits(v % Pow2(w), w) == ToBits(v, w)
  {
    FromToBits(v, w);
    ToFromBits(ToBits(v, w));
  }

  /** Splitting `l + w` bits of `v` into the high `l` and the low `w`. */
  lemma {:induction false} ToBitsSplit(v: nat, l: nat, w: nat)
    ensures ToBits(v, l + w) == ToBits(Shr(v, w), l) + ToBits(v, w)
  {
    if w > 0 {
      var h := v / 2;
      ToBitsSplit(h, l, w - 1);
      DivDiv(v, 2, Pow2(w - 1));
      assert Shr(h, w - 1) == Shr(v, w);
      var bit := [v % 2 == 1];
      calc {
        ToBits(v, l + w);
        ToBits(h, l + w - 1) + bit;
        ToBits(Shr(h, w - 1), l) + ToBits(h, w - 1) + bit;
        ToBits(Shr(v, w), l) + (ToBits(h, w - 1) + bit);
        ToBits(Shr(v, w), l) + ToBits(v, w);
      }
    }
  }

  /** Shifting `a` left by `w` and or-ing in `b < 2^w` appends the bits of `b`. */
  lemma ToBitsAppend(a: nat, b: nat, l: nat, w: nat)
    requires b < Pow2(w)
    ensures ToBits(Shl(a, w) + b, l + w) == ToBits(a, l) + ToBits(b, w)
  {
    var v := Shl(a, w) + b;
    ToBitsSplit(v, l, w);
    DivModUnique(v, Pow2(w), a, b);
    ToBitsMod(v, w);
    ToBitsMod(b, w);
    DivModUnique(b, Pow2(w), 0, b);
  }

  lemma {:induction false} FromBitsAppend(x: seq<bool>, y: seq<bool>)
    ensures FromBits(x + y) == FromBits(x) * Pow2(|y|) + FromBits(y)
  {
    if y == [] {
      assert x + y == x;
    } else {
      var z := x + y;
      var y' := y[..|y| - 1];
      assert z[..|z| - 1] == x + y';
      FromBitsAppend(x, y');
      ShiftTwice(FromBits(x), Pow2(|y'|), FromBits(y'), if y[|y| - 1] then 1 else 0);
    }
  }

  lemma ShiftTwice(x: nat, p: nat, y: nat, b: nat)
    ensures 2 * (x * p + y) + b == x * (2 * p) + (2 * y + b)
  {
  }

  lemma {:induction false} FromBitsZeros(k: nat)
    ensures FromBits(Zeros(k)) == 0
  {
    if k > 0 {
      assert Zeros(k)[..k - 1] == Zeros(k - 1);
      FromBitsZeros(k - 1);
    }
  }

  lemma {:induction false} ToBitsZero(k: nat)
    ensures ToBits(0, k) == Zeros(k)
  {
    if k > 0 {
      ToBitsZero(k - 1);
      assert Zeros(k) == Zeros(k - 1) + [false];
    }
  }

  lemma Pow2Byte()
    ensures Pow2(8) == 256
  {
  }

  /** The 8 bits of a byte give the byte back. */
  lemma ByteRoundTrip(b: byte)
    ensures FromBits(ToBits(b, 8)) == b
  {
    FromToBits(b, 8);
    Pow2Byte();
    DivModUnique(b, 256, 0, b);
  }

  /** A byte string followed by fewer than 8 padding bits regroups into
      exactly the same bytes. */
  lemma {:induction false} BytesOfByteBits(data: seq<byte>, pad: seq<bool>)
    requires |pad| < 8
    ensures Bytes(ByteBits(data) + pad) == data
  {
    if data != [] {
      var bs := ByteBits(data) + pad;
      var head, tail := ToBits(data[0], 8), ByteBits(data[1..]) + pad;
      assert bs == head + tail;
      ByteRoundTrip(data[0]);
      assert bs[..8] == head && bs[8..] == tail;
      BytesOfByteBits(data[1..], pad);
    }
  }
}
