/** The properties src/lib.rs checks of every table: decoding an encoding
    gives the bytes back, the decoder's size bounds hold on an encoder's
    output, and a string ending in U+10FFFF yields an error. */
module RoundTrip {
  import opened Wrappers
  import opened Bits
  import opened Tables
  import opened Encoders
  import opened Decoders

  /** The zero bits the final character of an encoding adds after `n` input
      bits: none when they fill whole groups, otherwise up to the width of
      the alphabet the last group is taken from. */
  function PadLen(bits: nat, n: nat): nat
    requires bits > 0
  {
    var r := Rem(n, bits);
    if r == 0 then 0
    else if r > FinBits(bits) then bits - r
    else FinBits(bits) - r
  }

  /** A whole group in front does not change the padding. */
  lemma PadLenStep(bits: nat, n: nat)
    requires 0 < bits <= n
    ensures PadLen(bits, n - bits) == PadLen(bits, n)
  {
    assert Rem(n, bits) == Rem(n - bits, bits);
  }

  /** The padding is always less than a byte, so the decoder drops it. */
  lemma PadLenSmall(bits: nat, n: nat)
    requires 1 <= bits <= 15
    ensures PadLen(bits, n) < 8
  {
  }

  /** A full group's character decodes to the group. */
  lemma SymbolBits(t: Table, g: seq<bool>)
    requires Valid(t) && |g| == t.bits
    ensures CharBits(t, Symbol(t, g)) == Some(g)
  {
    DecodeInit(t, FromBits(g));
    ToFromBits(g);
  }

  /** The final character decodes to the last group followed by its zero
      padding. */
  lemma FinalSymbolBits(t: Table, bs: seq<bool>)
    requires Valid(t) && 0 < |bs| < t.bits
    ensures CharBits(t, FinalSymbol(t, bs)) == Some(bs + Zeros(PadLen(t.bits, |bs|)))
  {
    var fin := FinBits(t.bits);
    assert Rem(|bs|, t.bits) == |bs|;
    if |bs| > fin {
      var p := Pad(bs, t.bits);
      assert p == bs + Zeros(PadLen(t.bits, |bs|));
      DecodeInit(t, FromBits(p));
      ToFromBits(p);
      assert CharWidth(t, FinalSymbol(t, bs)) == |p|;
    } else {
      var p := Pad(bs, fin);
      assert p == bs + Zeros(PadLen(t.bits, |bs|));
      DecodeFini(t, FromBits(p));
      ToFromBits(p);
      assert CharWidth(t, FinalSymbol(t, bs)) == |p|;
    }
  }

  /** The bits of an encoding are the input bits and the final padding. */
  lemma {:induction false} EncodeCharsBits(t: Table, bs: seq<bool>)
    requires Valid(t)
    ensures CharsBits(t, EncodeBits(t, bs)) == Ok(bs + Zeros(PadLen(t.bits, |bs|)))
    decreases |bs|
  {
    var b := t.bits;
    if |bs| == 0 {
      assert bs + Zeros(0) == bs;
    } else if |bs| >= b {
      var g, rest := bs[..b], bs[b..];
      var cs := EncodeBits(t, bs);
      var z := Zeros(PadLen(b, |bs|));
      assert cs == [Symbol(t, g)] + EncodeBits(t, rest);
      assert cs[1..] == EncodeBits(t, rest);
      SymbolBits(t, g);
      EncodeCharsBits(t, rest);
      PadLenStep(b, |bs|);
      assert g + rest == bs;
      assert g + (rest + z) == bs + z;
    } else {
      FinalSymbolBits(t, bs);
      var cs := EncodeBits(t, bs);
      assert cs == [FinalSymbol(t, bs)];
      assert cs[1..] == [];
      assert CharBits(t, FinalSymbol(t, bs)).value + [] == CharBits(t, FinalSymbol(t, bs)).value;
    }
  }

  /** Every encoding has the shape the decoder's size bounds assume: only
      its last character may come from the final alphabet. */
  lemma {:induction false} EncodingCanonical(t: Table, bs: seq<bool>)
    requires Shaped(t)
    ensures Canonical(t, EncodeBits(t, bs))
    decreases |bs|
  {
    var b := t.bits;
    var cs := EncodeBits(t, bs);
    if |bs| >= b {
      var g, rest := bs[..b], bs[b..];
      var tail := EncodeBits(t, rest);
      assert cs == [Symbol(t, g)] + tail;
      EncodingCanonical(t, rest);
      forall i | 0 <= i < |cs|
        ensures cs[i] in t.init || (i == |cs| - 1 && cs[i] in t.fini)
      {
        if i > 0 {
          assert cs[i] == tail[i - 1];
        }
      }
    }
  }

  /** Round trip (`check_all`): collecting the decoder run over the
      encoder's output gives back exactly the input bytes. */
  lemma RoundTrip(t: Table, data: seq<byte>)
    requires Valid(t)
    ensures Collect(Decoding(t, Encoding(t, data))) == Ok(data)
  {
    var bs := ByteBits(data);
    EncodeCharsBits(t, bs);
    PadLenSmall(t.bits, |bs|);
    DecodingCollected(t, Encoding(t, data));
    BytesOfByteBits(data, Zeros(PadLen(t.bits, |bs|)));
  }

  /** Item by item: the decoder yields one byte item per input byte and no
      error. */
  lemma RoundTripItems(t: Table, data: seq<byte>)
    requires Valid(t)
    ensures Decoding(t, Encoding(t, data)) == Oks(data)
  {
    var bs := ByteBits(data);
    var z := Zeros(PadLen(t.bits, |bs|));
    EncodeCharsBits(t, bs);
    PadLenSmall(t.bits, |bs|);
    DecodeFromValid(t, [], Encoding(t, data));
    assert [] + (bs + z) == bs + z;
    BytesOfByteBits(data, z);
  }

  /** The round trip for the test fixture, at every width it allows. */
  lemma WithRoundTrip(bits: nat, data: seq<byte>)
    requires 1 <= bits <= 15
    ensures Collect(Decoding(With(bits), Encoding(With(bits), data))) == Ok(data)
  {
    WithValid(bits);
    RoundTrip(With(bits), data);
  }

  /** What is left of an encoding after a prefix still has its shape. */
  lemma CanonicalSuffix(t: Table, cs: seq<char>, k: nat)
    requires Canonical(t, cs) && k <= |cs|
    ensures Canonical(t, cs[k..])
  {
    var s := cs[k..];
    forall i | 0 <= i < |s|
      ensures s[i] in t.init || (i == |s| - 1 && s[i] in t.fini)
    {
      assert s[i] == cs[k + i];
    }
  }

  /** `check_size` for `decode_iter` over an encoder: at every step of a
      decoder reading an encoding, the number of items it will still yield
      lies within its size hint. */
  lemma DecoderHintOnEncoding(d: Decoder, data: seq<byte>)
    requires d.Valid() && d.src == Encoding(d.table, data)
    ensures d.SizeHint().0 <= |d.Output()|
    ensures d.SizeHint().1.Some? ==> |d.Output()| <= d.SizeHint().1.value
  {
    EncodingCanonical(d.table, ByteBits(data));
    CanonicalSuffix(d.table, d.src, d.pos);
    var n := |d.src| - d.pos;
    DecodeHintSound(d.table, d.Pending(), d.src[d.pos..], n, Some(n));
  }

  /** `char::MAX`, which `decode_err` appends to an arbitrary string. */
  const MaxChar: char := '\U{10FFFF}'

  /** `decode_err` for the fixture: U+10FFFF is in neither alphabet of
      `Table::with`, so a string ending in it yields an error item last. */
  lemma WithDecodeErr(bits: nat, cs: seq<char>)
    requires 1 <= bits <= 15
    ensures var items := Decoding(With(bits), cs + [MaxChar]);
      |items| > 0 && items[|items| - 1] == Err(MaxChar)
  {
    WithValid(bits);
    WithForeign(bits);
    EndsInError(With(bits), cs);
  }

  /** `decode_err` for any well-formed table without U+10FFFF. */
  lemma EndsInError(t: Table, cs: seq<char>)
    requires Valid(t) && MaxChar !in t.init && MaxChar !in t.fini
    ensures var items := Decoding(t, cs + [MaxChar]);
      |items| > 0 && items[|items| - 1] == Err(MaxChar)
  {
    DecodeForeign(t, MaxChar);
    DecodeEndsInError(t, [], cs, MaxChar);
  }

  /** U+10FFFF lies above every character of the fixture. */
  lemma WithForeign(bits: nat)
    requires 1 <= bits <= 15
    ensures MaxChar !in With(bits).init && MaxChar !in With(bits).fini
  {
    var t := With(bits);
    WithBound(bits);
    forall i | 0 <= i < |t.init|
      ensures t.init[i] != MaxChar
    {
      assert t.init[i] as int == |t.fini| + i;
    }
    forall i | 0 <= i < |t.fini|
      ensures t.fini[i] != MaxChar
    {
      assert t.fini[i] as int == i;
    }
  }
}
