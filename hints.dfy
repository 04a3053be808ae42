/** The decoder's size hint on arbitrary input. `Decode::size_hint`
    (src/decode.rs) assumes every character carries `bits` bits (all but
    the last, which may carry 8 fewer) and yields nothing else; that is
    true of an encoder's output, where it is sound (`DecodeHintSound`), but
    not of a string in general: an error item carries no bits, and a
    final-alphabet character may appear anywhere. This module shows one
    string that escapes each bound as written, and proves a corrected bound
    sound for every input. */
module SizeHints {
  import opened Wrappers
  import opened Bits
  import opened Tables
  import opened Decoders

  /** A character outside the table is an item the upper bound leaves out:
      with the 4-bit fixture, `"z"` yields one error item, while the hint,
      given the inner bounds `(1, Some(1))` that a one-character source
      reports, promises at most none. */
  lemma ForeignBeyondUpper()
    ensures |Decoding(With(4), "z")| == 1
    ensures DecodeHint(4, 0, 1, Some(1)) == (0, Some(0))
  {
    var t := With(4);
    WithValid(4);
    assert Pow2(4) == 16;
    forall i | 0 <= i < |t.init|
      ensures t.init[i] != 'z'
    {
    }
    DecodeForeign(t, 'z');
    DecodeFromForeign(t, [], "z");
    assert "z"[1..] == [];
  }

  /** A final-alphabet character that is not last carries 8 bits fewer than
      the lower bound counts: with the 9-bit fixture, two copies of its
      first final character carry 2 bits and yield nothing, while the hint
      promises at least one byte, given the exact inner bounds
      `(2, Some(2))` of a two-character exact-size source such as a
      `Vec<char>` (a `Chars` iterator would report a lower bound of 1). */
  lemma FinalBelowLower()
    ensures Decoding(With(9), ['\0', '\0']) == []
    ensures DecodeHint(9, 0, 2, Some(2)).0 == 1
  {
    var t := With(9);
    WithValid(9);
    assert Pow2(1) == 2;
    assert t.fini[0] == '\0';
    DecodeFini(t, 0);
    var cs := ['\0', '\0'];
    var b := CharBits(t, '\0').value;
    assert |b| == 1;
    DecodeFromChar(t, [], cs);
    assert cs[1..] == ['\0'];
    DecodeFromChar(t, b, ['\0']);
    assert ['\0'][1..] == [];
  }

  /** The fewest bits a table character carries: `bits - 8` for a final
      character when a final alphabet exists, else `bits`. */
  function Least(bits: nat): nat
  {
    if bits > 8 then bits - 8 else bits
  }

  /** The most items `n` characters can yield after `len` pending bits:
      below 8 bits a character yields at most one item, an error or a
      byte; from 8 bits on an error item is no more than the byte a
      character's bits would have made. */
  function Most(bits: nat, n: nat, len: nat): nat
  {
    if bits < 8 then n + len / 8 else (Times(n, bits) + len) / 8
  }

  /** The corrected `size_hint`: the lower bound counts every character at
      its fewest bits, the upper bound allows an item for every character
      when letters are narrower than a byte; saturation as
      `Decode::size_hint` does it. */
  function SoundDecodeHint(bits: nat, len: nat, lo: nat, hi: Option<nat>): (nat, Option<nat>)
  {
    var lower := (lo * Least(bits) + len) / 8;
    (if lower <= USIZE_MAX then lower else USIZE_MAX,
     match hi
     case None => None
     case Some(h) =>
       var upper := if bits < 8 then h + len / 8 else (h * bits + len) / 8;
       if upper <= USIZE_MAX then Some(upper) else None)
  }

  /** The number of bits a table character carries lies between `Least`
      and `bits`. */
  lemma WidthRange(t: Table, ch: char)
    requires Valid(t) && CharBits(t, ch).Some?
    ensures Least(t.bits) <= |CharBits(t, ch).value| <= t.bits
  {
    DecodeSound(t, ch);
    if Decode(t, ch).value.1 {
      assert |t.fini| > 0;
    }
  }

  /** Any characters after any pending bits yield between the fewest
      and the most items their widths allow. */
  lemma {:induction false} ItemsBounds(t: Table, acc: seq<bool>, cs: seq<char>)
    requires Valid(t)
    ensures (Times(|cs|, Least(t.bits)) + |acc|) / 8 <= |DecodeFrom(t, acc, cs)|
    ensures |DecodeFrom(t, acc, cs)| <= Most(t.bits, |cs|, |acc|)
    decreases |cs|, |acc|
  {
    var n, w, b := |cs|, Least(t.bits), t.bits;
    if |acc| >= 8 {
      DecodeFromByte(t, acc, cs);
      ItemsBounds(t, acc[8..], cs);
    } else if cs != [] {
      var m := n - 1;
      assert Times(n, w) == Times(m, w) + w && Times(n, b) == Times(m, b) + b;
      if CharBits(t, cs[0]).None? {
        DecodeFromForeign(t, acc, cs);
        ItemsBounds(t, acc, cs[1..]);
      } else {
        var bs := CharBits(t, cs[0]).value;
        WidthRange(t, cs[0]);
        DecodeFromChar(t, acc, cs);
        ItemsBounds(t, acc + bs, cs[1..]);
      }
    }
  }

  /** The corrected hint is sound for every input: with `n` characters
      still to come, `lo <= n <= hi`, the number of items still to come
      lies within its bounds. */
  lemma SoundDecodeHintHolds(t: Table, acc: seq<bool>, cs: seq<char>, lo: nat, hi: Option<nat>)
    requires Valid(t)
    requires lo <= |cs| && (hi.Some? ==> |cs| <= hi.value)
    ensures var (l, h) := SoundDecodeHint(t.bits, |acc|, lo, hi);
      && l <= |DecodeFrom(t, acc, cs)|
      && (h.Some? ==> |DecodeFrom(t, acc, cs)| <= h.value)
  {
    var w, b := Least(t.bits), t.bits;
    ItemsBounds(t, acc, cs);
    TimesIsMul(|cs|, w);
    MulLe(w, lo, |cs|);
    if hi.Some? {
      TimesIsMul(|cs|, b);
      MulLe(b, |cs|, hi.value);
    }
  }

  /** At every step of a decoder over any string, the items it will still
      yield lie within the corrected hint. */
  lemma SoundHintOnDecoder(d: Decoder)
    requires d.Valid()
    ensures var n := |d.src| - d.pos;
      var (l, h) := SoundDecodeHint(d.table.bits, d.len, n, Some(n));
      && l <= |d.Output()|
      && (h.Some? ==> |d.Output()| <= h.value)
  {
    var n := |d.src| - d.pos;
    SoundDecodeHintHolds(d.table, d.Pending(), d.src[d.pos..], n, Some(n));
  }
}
