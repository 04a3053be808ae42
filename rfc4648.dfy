/** The base-N encodings of RFC 4648 (sections 4 to 8) without padding,
    stated on numbers rather than bits, and the theorem that the encoder
    computes them for every table of at most 8 bits.

    RFC 4648 reads the input as a stream of bits, most significant bit of
    the first byte first, and cuts it into `k`-bit groups; a partial last
    group is filled with zero bits (section 3.5), and each group value picks
    a character of the alphabet. The same thing as arithmetic: the input is
    one big-endian number, shifted left by the zero bits that complete the
    last group, and written as `m` digits in base `2^k`. */
module Rfc4648 {
  import opened Bits
  import opened Tables
  import opened Encoders
  import opened RoundTrip

  /** The bytes as one big-endian number. */
  function BigEndian(data: seq<byte>): nat
  {
    if data == [] then 0
    else 256 * BigEndian(data[..|data| - 1]) + data[|data| - 1]
  }

  /** The last `m` digits of `v` in base `2^k`, most significant first,
      each looked up in `alphabet`: the digits of `v / 2^k`, then the
      character of `v % 2^k`. */
  function Digits(alphabet: seq<char>, k: nat, v: nat, m: nat): (r: seq<char>)
    requires |alphabet| == Pow2(k)
    ensures |r| == m
  {
    if m == 0 then []
    else Digits(alphabet, k, Shr(v, k), m - 1) + [alphabet[LowBits(v, k)]]
  }

  /** The zero bits that complete the last `k`-bit group of `n` bits. */
  function Fill(n: nat, k: nat): nat
    requires k > 0
  {
    (k - n % k) % k
  }

  /** Base-`2^k` encoding of `data` with `alphabet`, padding characters
      left out. */
  function Encode(alphabet: seq<char>, k: nat, data: seq<byte>): seq<char>
    requires k > 0 && |alphabet| == Pow2(k)
  {
    var n := 8 * |data|;
    var fill := Fill(n, k);
    Digits(alphabet, k, Shl(BigEndian(data), fill), (n + fill) / k)
  }

  /** The bits of a byte string are those of its big-endian value. */
  lemma {:induction false} ByteBitsValue(data: seq<byte>)
    ensures ByteBits(data) == ToBits(BigEndian(data), 8 * |data|)
    decreases |data|
  {
    if data != [] {
      var n := |data| - 1;
      var front, last := data[..n], data[n];
      ByteBitsValue(front);
      ByteBitsSnoc(front, last);
      assert data == front + [last];
      Pow2Byte();
      ToBitsAppend(BigEndian(front), last, 8 * n, 8);
    }
  }

  lemma {:induction false} ByteBitsSnoc(data: seq<byte>, b: byte)
    ensures ByteBits(data + [b]) == ByteBits(data) + ToBits(b, 8)
    decreases |data|
  {
    if data == [] {
      assert ByteBits([b]) == ToBits(b, 8) + ByteBits([]);
    } else {
      assert (data + [b])[1..] == data[1..] + [b];
      ByteBitsSnoc(data[1..], b);
    }
  }

  /** Encoding whole groups and what follows them encodes each part. */
  lemma {:induction false} EncodeBitsAppend(t: Table, a: seq<bool>, b: seq<bool>, j: nat)
    requires Shaped(t) && |a| == Times(j, t.bits)
    ensures EncodeBits(t, a + b) == EncodeBits(t, a) + EncodeBits(t, b)
  {
    if j > 0 {
      var k := t.bits;
      assert (a + b)[..k] == a[..k];
      assert (a + b)[k..] == a[k..] + b;
      EncodeBitsAppend(t, a[k..], b, j - 1);
    } else {
      assert a + b == b;
    }
  }

  /** The encoding of the `m * k` low bits of `v` is its `m` base-`2^k`
      digits. */
  lemma {:induction false} EncodeDigits(t: Table, v: nat, m: nat)
    requires Shaped(t)
    ensures EncodeBits(t, ToBits(v, Times(m, t.bits))) == Digits(t.init, t.bits, v, m)
    decreases m
  {
    if m > 0 {
      var k := t.bits;
      var w := Times(m - 1, k);
      ToBitsSplit(v, w, k);
      var high, low := ToBits(Shr(v, k), w), ToBits(v, k);
      assert ToBits(v, Times(m, k)) == high + low;
      EncodeBitsAppend(t, high, low, m - 1);
      EncodeDigits(t, Shr(v, k), m - 1);
      FromToBits(v, k);
      assert low[..k] == low && low[k..] == [];
      assert EncodeBits(t, low) == [t.init[LowBits(v, k)]];
    }
  }

  /** Without a final alphabet the last character is the zero-padded
      group, so encoding already-padded bits gives the same text. */
  lemma {:induction false} EncodePadded(t: Table, bs: seq<bool>)
    requires Shaped(t) && t.bits <= 8
    ensures EncodeBits(t, bs) == EncodeBits(t, bs + Zeros(PadLen(t.bits, |bs|)))
    decreases |bs|
  {
    var k := t.bits;
    var z := Zeros(PadLen(k, |bs|));
    if |bs| >= k {
      var rest := bs[k..];
      assert (bs + z)[..k] == bs[..k];
      assert (bs + z)[k..] == rest + z;
      PadLenStep(k, |bs|);
      EncodePadded(t, rest);
    } else if |bs| > 0 {
      assert Rem(|bs|, k) == |bs|;
      assert PadLen(k, |bs|) == k - |bs|;
      var p := bs + z;
      assert |p| == k && p == Pad(bs, k);
      assert p[..k] == p && p[k..] == [];
      assert EncodeBits(t, bs) == [t.init[FromBits(p)]];
    } else {
      assert bs + z == bs;
    }
  }

  /** `PadLen` is the fill of the last group when there is no final
      alphabet, and completes a whole number of groups. */
  lemma PadLenFill(k: nat, n: nat)
    requires 1 <= k <= 8
    ensures PadLen(k, n) == Fill(n, k)
    ensures n + Fill(n, k) == Times((n + Fill(n, k)) / k, k)
  {
    RemIsMod(n, k);
    var q, r := n / k, n % k;
    assert n == q * k + r;
    var f := Fill(n, k);
    if r == 0 {
      DivModUnique(k, k, 1, 0);
      assert f == 0;
      DivModUnique(n, k, q, 0);
      TimesIsMul(q, k);
    } else {
      DivModUnique(k - r, k, 0, k - r);
      assert f == k - r;
      MulSucc(q, k);
      DivModUnique(n + f, k, q + 1, 0);
      TimesIsMul(q + 1, k);
    }
  }

  /** The encoder computes RFC 4648's encoding, unpadded, for every
      well-shaped table of at most 8 bits (no final alphabet). */
  lemma EncodingIs(t: Table, data: seq<byte>)
    requires Shaped(t) && t.bits <= 8
    ensures Encoding(t, data) == Encode(t.init, t.bits, data)
  {
    var k, n, v := t.bits, 8 * |data|, BigEndian(data);
    var fill := Fill(n, k);
    DivNonneg(n + fill, k);
    var m: nat := (n + fill) / k;
    var bs := ByteBits(data);
    ByteBitsValue(data);
    EncodePadded(t, bs);
    PadLenFill(k, n);
    ToBitsAppend(v, 0, n, fill);
    ToBitsZero(fill);
    assert bs + Zeros(fill) == ToBits(Shl(v, fill), Times(m, k));
    EncodeDigits(t, Shl(v, fill), m);
  }
}
