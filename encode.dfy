/** The encoder (src/encode.rs): a pull-based state machine that packs
    bytes most significant bit first into `bits`-wide symbols, emitting one
    zero-padded final symbol for a partial last group. */
module Encoders {
  import opened Wrappers
  import opened Bits
  import opened Tables

  /** A partial group left-aligned in a field of `w` bits, zero-padded. */
  function Pad(bs: seq<bool>, w: nat): (r: seq<bool>)
    requires |bs| <= w
    ensures |r| == w
  {
    bs + Zeros(w - |bs|)
  }

  /** The character naming a full group of `bits` bits. */
  function Symbol(t: Table, g: seq<bool>): char
    requires Shaped(t) && |g| == t.bits
  {
    t.init[FromBits(g)]
  }

  /** The character ending an encoding whose last group is a partial one of
      `0 < |bs| < bits` bits: the group padded to the full width and taken
      from `init` when it holds more than `bits - 8` bits, and otherwise
      padded to `bits - 8` bits and taken from `fini`. */
  function FinalSymbol(t: Table, bs: seq<bool>): char
    requires Shaped(t) && 0 < |bs| < t.bits
  {
    if |bs| > FinBits(t.bits) then t.init[FromBits(Pad(bs, t.bits))]
    else t.fini[FromBits(Pad(bs, FinBits(t.bits)))]
  }

  /** Reference encoding of a bit string: a character per full group of
      `bits` bits, then one final character for a non-empty remainder. */
  function EncodeBits(t: Table, bs: seq<bool>): seq<char>
    requires Shaped(t)
    decreases |bs|
  {
    if |bs| == 0 then []
    else if |bs| >= t.bits then [Symbol(t, bs[..t.bits])] + EncodeBits(t, bs[t.bits..])
    else [FinalSymbol(t, bs)]
  }

  /** What `encode_str` returns for a byte string. */
  function Encoding(t: Table, data: seq<byte>): seq<char>
    requires Shaped(t)
  {
    EncodeBits(t, ByteBits(data))
  }

  /** `usize::div_ceil`. */
  function CeilDiv(a: nat, b: nat): nat
    requires b > 0
  {
    a / b + if a % b == 0 then 0 else 1
  }

  /** `ceil(a / b)` counted by repeated subtraction. */
  function Groups(a: nat, b: nat): nat
    requires b > 0
  {
    if a == 0 then 0 else if a <= b then 1 else 1 + Groups(a - b, b)
  }

  /** `a % b` computed by repeated subtraction. */
  function Rem(a: nat, b: nat): (r: nat)
    requires b > 0
    ensures r <= a && r < b
  {
    if a < b then a else Rem(a - b, b)
  }

  lemma {:induction false} GroupsIsCeilDiv(a: nat, b: nat)
    requires b > 0
    ensures Groups(a, b) == CeilDiv(a, b)
  {
    if a > b {
      GroupsIsCeilDiv(a - b, b);
      CeilDivStep(a - b, b);
    } else if a == b {
      DivModUnique(a, b, 1, 0);
    } else {
      CeilDivSmall(a, b);
    }
  }

  lemma {:induction false} RemIsMod(a: nat, b: nat)
    requires b > 0
    ensures Rem(a, b) == a % b
  {
    if a >= b {
      RemIsMod(a - b, b);
      ModStep(a - b, b);
    } else {
      ModSmall(a, b);
    }
  }

  lemma {:induction false} EncodeGroups(t: Table, bs: seq<bool>)
    requires Shaped(t)
    ensures |EncodeBits(t, bs)| == Groups(|bs|, t.bits)
    decreases |bs|
  {
    if |bs| >= t.bits {
      EncodeGroups(t, bs[t.bits..]);
    }
  }

  /** Each character of the encoding carries `bits` input bits, except that
      the last one may carry fewer: the count is `ceil(|bs| / bits)`. */
  lemma EncodeLength(t: Table, bs: seq<bool>)
    requires Shaped(t)
    ensures |EncodeBits(t, bs)| == CeilDiv(|bs|, t.bits)
  {
    EncodeGroups(t, bs);
    GroupsIsCeilDiv(|bs|, t.bits);
  }

  lemma CeilDivStep(x: nat, b: nat)
    requires b > 0
    ensures CeilDiv(x + b, b) == CeilDiv(x, b) + 1
  {
    var q, r := x / b, x % b;
    assert x + b == (q + 1) * b + r;
    DivModUnique(x + b, b, q + 1, r);
  }

  lemma CeilDivSmall(x: nat, b: nat)
    requires x < b
    ensures CeilDiv(x, b) == if x == 0 then 0 else 1
  {
    DivModUnique(x, b, 0, x);
  }

  /** The `k`-th group of `b` bits, counted from the front. */
  function Group(bs: seq<bool>, b: nat, k: nat): (g: seq<bool>)
    requires Times(k + 1, b) <= |bs|
    ensures |g| == b
  {
    if k == 0 then bs[..b] else Group(bs[b..], b, k - 1)
  }

  lemma {:induction false} GroupSlice(bs: seq<bool>, b: nat, k: nat)
    requires Times(k + 1, b) <= |bs|
    ensures Group(bs, b, k) == bs[Times(k, b)..Times(k, b) + b]
  {
    if k > 0 {
      GroupSlice(bs[b..], b, k - 1);
      var lo := Times(k - 1, b);
      assert bs[b..][lo..lo + b] == bs[lo + b..lo + b + b];
    }
  }

  lemma {:induction false} EncodeGroup(t: Table, bs: seq<bool>, k: nat)
    requires Shaped(t)
    requires Times(k + 1, t.bits) <= |bs|
    ensures k < |EncodeBits(t, bs)|
    ensures EncodeBits(t, bs)[k] == Symbol(t, Group(bs, t.bits, k))
  {
    var b := t.bits;
    var rest := bs[b..];
    assert EncodeBits(t, bs) == [Symbol(t, bs[..b])] + EncodeBits(t, rest);
    if k > 0 {
      EncodeGroup(t, rest, k - 1);
    }
  }

  /** Full groups: the `k`-th character, `k * bits` bits in, is the `init`
      character named by the next `bits` bits, most significant bit first. */
  lemma EncodeAt(t: Table, bs: seq<bool>, k: nat, lo: nat)
    requires Shaped(t)
    requires lo == k * t.bits && lo + t.bits <= |bs|
    ensures k < |EncodeBits(t, bs)|
    ensures EncodeBits(t, bs)[k] == Symbol(t, bs[lo..lo + t.bits])
  {
    TimesIsMul(k, t.bits);
    EncodeGroup(t, bs, k);
    GroupSlice(bs, t.bits, k);
  }

  /** A partial last group of `|bs| % bits` bits (computed as `Rem`) ends
      the encoding with its final character. */
  lemma {:induction false} EncodeLast(t: Table, bs: seq<bool>)
    requires Shaped(t)
    requires Rem(|bs|, t.bits) != 0
    ensures var out, rest := EncodeBits(t, bs), bs[|bs| - Rem(|bs|, t.bits)..];
      |out| > 0 && 0 < |rest| < t.bits && out[|out| - 1] == FinalSymbol(t, rest)
    decreases |bs|
  {
    var b := t.bits;
    if |bs| >= b {
      var tail := bs[b..];
      EncodeLast(t, tail);
      var r := Rem(|bs|, b);
      assert tail[|tail| - r..] == bs[|bs| - r..];
    } else {
      assert bs[|bs| - |bs|..] == bs;
    }
  }

  lemma ModStep(x: nat, b: nat)
    requires b > 0
    ensures (x + b) % b == x % b
  {
    DivModUnique(x + b, b, x / b + 1, x % b);
  }

  lemma ModSmall(x: nat, b: nat)
    requires x < b
    ensures x % b == x
  {
    DivModUnique(x, b, 0, x);
  }

  /** For widths up to 8 there is no final alphabet: every character of the
      encoding comes from `init` and `fini` is never indexed. */
  lemma {:induction false} NarrowUsesInitOnly(t: Table, bs: seq<bool>)
    requires Shaped(t) && t.bits <= 8
    ensures forall c :: c in EncodeBits(t, bs) ==> c in t.init
    decreases |bs|
  {
    if |bs| >= t.bits {
      NarrowUsesInitOnly(t, bs[t.bits..]);
    }
  }

  /** Only the last character of an encoding can come from `fini`. */
  lemma {:induction false} InitBeforeLast(t: Table, bs: seq<bool>, i: nat)
    requires Shaped(t)
    requires i + 1 < |EncodeBits(t, bs)|
    ensures EncodeBits(t, bs)[i] in t.init
    decreases |bs|
  {
    if i > 0 {
      InitBeforeLast(t, bs[t.bits..], i - 1);
    }
  }

  /** `size_hint`: the inner source's bounds `(lo, hi)` on the bytes still to
      come, turned into bounds on the characters still to come; a lower
      bound that does not fit `usize` saturates and an upper one is dropped. */
  function EncodeHint(bits: nat, len: nat, lo: nat, hi: Option<nat>): (nat, Option<nat>)
    requires bits > 0
  {
    var lower := CeilDiv(lo * 8 + len, bits);
    (if lower <= USIZE_MAX then lower else USIZE_MAX,
     match hi
     case None => None
     case Some(h) =>
       var upper := CeilDiv(h * 8 + len, bits);
       if upper <= USIZE_MAX then Some(upper) else None)
  }

  lemma CeilDivMonotone(a: nat, a': nat, b: nat)
    requires b > 0 && a <= a'
    ensures CeilDiv(a, b) <= CeilDiv(a', b)
  {
    var q, q' := a / b, a' / b;
    var r, r' := a % b, a' % b;
    assert a == q * b + r && a' == q' * b + r';
    assert q * b < (q' + 1) * b;
    MulLtCancel(q, q' + 1, b);
    if q == q' {
      assert r <= r';
    }
  }

  lemma MulLtCancel(x: int, y: int, b: int)
    requires b > 0 && x * b < y * b
    ensures x < y
  {
    assert (y - x) * b == y * b - x * b;
  }

  /** Whenever the inner source's bounds are right, so are the encoder's. */
  lemma EncodeHintSound(bits: nat, len: nat, n: nat, lo: nat, hi: Option<nat>)
    requires bits > 0 && lo <= n && (hi.Some? ==> n <= hi.value)
    ensures var (l, h) := EncodeHint(bits, len, lo, hi);
      && l <= CeilDiv(n * 8 + len, bits)
      && (h.Some? ==> CeilDiv(n * 8 + len, bits) <= h.value)
  {
    CeilDivMonotone(lo * 8 + len, n * 8 + len, bits);
    if hi.Some? {
      CeilDivMonotone(n * 8 + len, hi.value * 8 + len, bits);
    }
  }

  /** Pulling a byte from the source moves its 8 bits from the unread bytes
      to the pending bits. */
  lemma PullByteBits(buf: nat, len: nat, src: seq<byte>, pos: nat)
    requires pos < |src|
    ensures ToBits(Shl(buf, 8) + src[pos], len + 8) + ByteBits(src[pos + 1..])
         == ToBits(buf, len) + ByteBits(src[pos..])
  {
    Pow2Byte();
    ToBitsAppend(buf, src[pos], len, 8);
    assert src[pos..][1..] == src[pos + 1..];
  }

  /** `(buf << w >> len) & (2^w - 1)` is the code of the pending `len` bits
      left-aligned in a `w`-bit field. */
  lemma PaddedCode(buf: nat, len: nat, w: nat)
    requires len <= w
    ensures Shr(Shl(buf, w), len) % Pow2(w) == FromBits(Pad(ToBits(buf, len), w))
  {
    var k := w - len;
    var v := Shl(buf, k);
    assert Shl(buf, w) == Shl(v, len) by {
      Pow2Add(k, len);
      MulAssoc(buf, Pow2(k), Pow2(len));
    }
    assert Shr(Shl(buf, w), len) == v by {
      ShrShifted(v, len);
    }
    assert FromBits(Pad(ToBits(buf, len), w)) == v % Pow2(w) by {
      PadShifted(buf, len, k);
      FromToBits(v, w);
    }
  }

  lemma MulAssoc(a: nat, b: nat, c: nat)
    ensures a * (b * c) == (a * b) * c
  {
  }

  lemma PadShifted(buf: nat, len: nat, k: nat)
    ensures ToBits(Shl(buf, k), len + k) == Pad(ToBits(buf, len), len + k)
  {
    ToBitsAppend(buf, 0, len, k);
    ToBitsZero(k);
  }

  lemma ShrShifted(v: nat, k: nat)
    ensures Shr(Shl(v, k), k) == v
  {
    DivModUnique(Shl(v, k), Pow2(k), v, 0);
  }

  /** The source's last step (no bytes left, `0 < len < bits`): shift the
      pending bits up to the width of the alphabet they select and mask. */
  function FinalChar(t: Table, buf: nat, len: nat): char
    requires Shaped(t) && 0 < len < t.bits
  {
    var finBits := FinBits(t.bits);
    if len > finBits then t.init[FinalIndex(buf, len, t.bits)]
    else t.fini[FinalIndex(buf, len, finBits)]
  }

  /** `(buf << w >> len) & ((1 << w) - 1)`. */
  function FinalIndex(buf: nat, len: nat, w: nat): (r: nat)
    requires len <= w
    ensures r < Pow2(w)
  {
    Shr(Shl(buf, w), len) % Pow2(w)
  }

  /** The last step emits exactly the reference encoding's final character. */
  lemma FinalCharIsFinalSymbol(t: Table, buf: nat, len: nat)
    requires Shaped(t) && 0 < len < t.bits
    ensures FinalChar(t, buf, len) == FinalSymbol(t, ToBits(buf, len))
    ensures EncodeBits(t, ToBits(buf, len)) == [FinalChar(t, buf, len)]
  {
    var finBits := FinBits(t.bits);
    if len > finBits {
      PaddedCode(buf, len, t.bits);
    } else {
      PaddedCode(buf, len, finBits);
    }
  }

  /** With at least `bits` bits pending, `len -= bits; (buf >> len) & mask`
      names the reference encoding's next character. */
  lemma FullGroup(t: Table, buf: nat, len: nat, rest: seq<bool>)
    requires Shaped(t) && len >= t.bits
    ensures EncodeBits(t, ToBits(buf, len) + rest)
         == [t.init[LowBits(Shr(buf, len - t.bits), t.bits)]] + EncodeBits(t, ToBits(buf, len - t.bits) + rest)
  {
    var b, l := t.bits, len - t.bits;
    ToBitsSplit(buf, b, l);
    FromToBits(Shr(buf, l), b);
    var bs := ToBits(buf, len) + rest;
    assert bs[..b] == ToBits(Shr(buf, l), b);
    assert bs[b..] == ToBits(buf, l) + rest;
  }

  /** `Encode<'a, I>`; the inner iterator is the byte sequence `src` with the
      cursor `pos`. */
  class Encoder {
    const table: Table
    const src: seq<byte>
    var pos: nat
    var buf: nat
    var len: nat
    const mask: nat

    /** `len` never exceeds `bits + 7`, at most 22, so the source's `u32`
        accumulator always holds the pending bits. */
    ghost predicate Valid()
      reads this
    {
      && Shaped(table)
      && pos <= |src|
      && mask == Pow2(table.bits) - 1
      && len < table.bits + 8
    }

    /** The bits still to be encoded: the low `len` bits of `buf`, then the
        bytes the source has not yet delivered. */
    ghost function Pending(): seq<bool>
      reads this
      requires pos <= |src|
    {
      ToBits(buf, len) + ByteBits(src[pos..])
    }

    /** The characters this encoder will still produce. */
    ghost function Output(): seq<char>
      reads this
      requires Valid()
    {
      EncodeBits(table, Pending())
    }

    /** `Encode::new`. */
    constructor(table: Table, src: seq<byte>)
      requires Shaped(table)
      ensures Valid() && this.table == table && this.src == src
      ensures pos == 0 && buf == 0 && len == 0
      ensures Output() == Encoding(table, src)
    {
      this.table := table;
      this.src := src;
      pos, buf, len := 0, 0, 0;
      mask := Pow2(table.bits) - 1;
      new;
      assert src[0..] == src;
      assert Pending() == ByteBits(src);
    }

    /** `Iterator::next`: the next character of the encoding, or `None` once
        it is complete. Pulling the source dry ends the stream, and every
        later call returns `None` again. */
    method Next() returns (r: Option<char>)
      requires Valid()
      modifies this
      ensures Valid()
      ensures r.None? <==> old(Output()) == []
      ensures old(Output()) == Emitted(r) + Output()
      ensures r.None? ==> pos == |src| && len == 0
    {
      while len < table.bits
        invariant Valid() && Pending() == old(Pending())
        decreases |src| - pos
      {
        if pos < |src| {
          PullByte();
        } else if len > 0 {
          var c := FinalStep();
          return Some(c);
        } else {
          assert src[pos..] == [];
          return None;
        }
      }
      var c := FullStep();
      return Some(c);
    }

    /** `self.len += 8; self.buf <<= 8; self.buf |= byte` for the next byte
        of the source: its bits move from the unread bytes to the pending
        ones. */
    method PullByte()
      requires Valid() && pos < |src| && len < table.bits
      modifies this
      ensures Valid() && Pending() == old(Pending())
      ensures pos == old(pos) + 1 && len == old(len) + 8
    {
      PullByteBits(buf, len, src, pos);
      buf := Shl(buf, 8) + src[pos];
      pos := pos + 1;
      len := len + 8;
    }

    /** The last character: fewer than `bits` bits pending and the source
        dry. */
    method FinalStep() returns (c: char)
      requires Valid() && pos == |src| && 0 < len < table.bits
      modifies this
      ensures Valid() && pos == |src| && len == 0
      ensures old(Output()) == [c] && Output() == []
    {
      assert src[pos..] == [];
      assert Pending() == ToBits(buf, len);
      FinalCharIsFinalSymbol(table, buf, len);
      c := FinalChar(table, buf, len);
      len := 0;
      assert Pending() == [];
    }

    /** `self.len -= bits; init[(self.buf >> self.len) & self.mask]`. */
    method FullStep() returns (c: char)
      requires Valid() && len >= table.bits
      modifies this
      ensures Valid() && pos == old(pos)
      ensures old(Output()) == [c] + Output()
    {
      FullGroup(table, buf, len, ByteBits(src[pos..]));
      len := len - table.bits;
      var code := Shr(buf, len) % (mask + 1);
      assert code == LowBits(Shr(buf, len), table.bits);
      c := table.init[code];
    }

    /** `Iterator::size_hint` for an exact-size source. */
    function SizeHint(): (nat, Option<nat>)
      reads this
      requires Valid()
    {
      EncodeHint(table.bits, len, |src| - pos, Some(|src| - pos))
    }
  }

  /** An encoder has exactly `ceil((8 * remaining bytes + len) / bits)`
      characters left, which is what `size_hint` reports while that fits
      `usize`. */
  lemma EncoderRemaining(e: Encoder)
    requires e.Valid()
    ensures |e.Output()| == CeilDiv(8 * (|e.src| - e.pos) + e.len, e.table.bits)
    ensures e.SizeHint().0 <= |e.Output()|
    ensures e.SizeHint().1.Some? ==> e.SizeHint().1.value == |e.Output()|
    ensures |e.Output()| <= USIZE_MAX ==> e.SizeHint() == (|e.Output()|, Some(|e.Output()|))
  {
    EncodeLength(e.table, e.Pending());
  }

  /** `encode_str`: collects the encoder's characters. */
  method EncodeStr(t: Table, data: seq<byte>) returns (s: string)
    requires Shaped(t)
    ensures s == Encoding(t, data)
  {
    var e := new Encoder(t, data);
    s := [];
    while true
      invariant e.Valid() && s + e.Output() == Encoding(t, data)
      decreases |e.Output()|
    {
      var c := e.Next();
      if c.None? {
        assert s + [] == s;
        return;
      }
      assert s + [c.value] + e.Output() == s + ([c.value] + e.Output());
      s := s + [c.value];
    }
  }
}
