/** The decoder (src/decode.rs): a pull-based state machine that looks every
    character up in the table, appends the bits it stands for to an
    accumulator, and yields a byte whenever at least 8 bits are pending. A
    character of neither alphabet is yielded as an error item without
    touching the accumulator; bits left over when the input runs out (fewer
    than 8, the encoder's padding) are dropped. */
module Decoders {
  import opened Wrappers
  import opened Bits
  import opened Tables

  /** What one decoding step yields: a byte, or a character not in the
      table. */
  type Item = Result<byte, char>

  /** Bits a character carries: `bits` for a main-alphabet character,
      `bits.saturating_sub(8)` for a final one. */
  function Width(bits: nat, fin: bool): nat
  {
    if fin then FinBits(bits) else bits
  }

  /** The bits a character stands for, or `None` for a character of neither
      alphabet. */
  function CharBits(t: Table, ch: char): Option<seq<bool>>
    requires |t.decode| == 17
  {
    if Decode(t, ch).None? then None else Some(ToBits(CharCode(t, ch), CharWidth(t, ch)))
  }

  /** The code `decode` finds for a character of the table. */
  function CharCode(t: Table, ch: char): nat
    requires |t.decode| == 17 && Decode(t, ch).Some?
  {
    Decode(t, ch).value.0
  }

  /** The number of bits a character of the table carries. */
  function CharWidth(t: Table, ch: char): nat
    requires |t.decode| == 17 && Decode(t, ch).Some?
  {
    Width(t.bits, Decode(t, ch).value.1)
  }

  /** Reference decoding of the characters `cs` with the bits `acc` already
      pending: a byte for every 8 pending bits; an error item when the next
      character is not in the table, after which decoding goes on with the
      same pending bits; nothing more once the characters run out. */
  function DecodeFrom(t: Table, acc: seq<bool>, cs: seq<char>): seq<Item>
    requires |t.decode| == 17
    decreases |cs|, |acc|
  {
    if |acc| >= 8 then [Ok(FromBits(acc[..8]))] + DecodeFrom(t, acc[8..], cs)
    else if cs == [] then []
    else if CharBits(t, cs[0]).None? then [Err(cs[0])] + DecodeFrom(t, acc, cs[1..])
    else DecodeFrom(t, acc + CharBits(t, cs[0]).value, cs[1..])
  }

  /** The items `decode_iter` yields for a string. */
  function Decoding(t: Table, cs: seq<char>): seq<Item>
    requires |t.decode| == 17
  {
    DecodeFrom(t, [], cs)
  }

  /** The bits of a whole string, or its first character not in the table. */
  function CharsBits(t: Table, cs: seq<char>): Result<seq<bool>, char>
    requires |t.decode| == 17
  {
    if cs == [] then Ok([])
    else if CharBits(t, cs[0]).None? then Err(cs[0])
    else
      var rest := CharsBits(t, cs[1..]);
      if rest.Err? then rest else Ok(CharBits(t, cs[0]).value + rest.value)
  }

  /** `Iterator::collect` into `Result<Vec<u8>, char>`: the first error item,
      or else all the bytes. */
  function Collect(items: seq<Item>): Result<seq<byte>, char>
  {
    if items == [] then Ok([])
    else match items[0]
      case Err(c) => Err(c)
      case Ok(b) => Prepend([b], Collect(items[1..]))
  }

  function Prepend(out: seq<byte>, r: Result<seq<byte>, char>): Result<seq<byte>, char>
  {
    match r
    case Ok(bs) => Ok(out + bs)
    case Err(c) => Err(c)
  }

  /** Byte items for every byte of a string. */
  function Oks(data: seq<byte>): (r: seq<Item>)
    ensures |r| == |data|
    ensures forall i :: 0 <= i < |data| ==> r[i] == Ok(data[i])
  {
    if data == [] then [] else [Ok(data[0])] + Oks(data[1..])
  }

  /** Splitting the front byte off a bit string. */
  lemma BytesCons(acc: seq<bool>, bs: seq<bool>)
    requires |acc| >= 8
    ensures Bytes(acc + bs) == [FromBits(acc[..8])] + Bytes(acc[8..] + bs)
  {
    assert (acc + bs)[..8] == acc[..8];
    assert (acc + bs)[8..] == acc[8..] + bs;
  }

  /** `decode_vec`: a string decodes to the bytes its bits make up, the
      fewer than 8 trailing bits dropped, or fails with its first character
      not in the table. */
  lemma {:induction false} CollectDecodeFrom(t: Table, acc: seq<bool>, cs: seq<char>)
    requires |t.decode| == 17
    ensures Collect(DecodeFrom(t, acc, cs)) == WholeResult(acc, CharsBits(t, cs))
    decreases |cs|, |acc|
  {
    if |acc| >= 8 {
      var rest := DecodeFrom(t, acc[8..], cs);
      DecodeFromByte(t, acc, cs);
      CollectCons(Ok(FromBits(acc[..8])), rest);
      CollectDecodeFrom(t, acc[8..], cs);
      if CharsBits(t, cs).Ok? {
        BytesCons(acc, CharsBits(t, cs).value);
      }
    } else if cs == [] {
      assert acc + [] == acc;
    } else if CharBits(t, cs[0]).None? {
      DecodeFromForeign(t, acc, cs);
      CollectCons(Err(cs[0]), DecodeFrom(t, acc, cs[1..]));
    } else {
      var bs := CharBits(t, cs[0]).value;
      DecodeFromChar(t, acc, cs);
      CollectDecodeFrom(t, acc + bs, cs[1..]);
      var tail := CharsBits(t, cs[1..]);
      if tail.Ok? {
        assert acc + bs + tail.value == acc + (bs + tail.value);
      }
    }
  }

  /** The bytes of the pending bits followed by a string's bits, or the
      string's first character not in the table. */
  function WholeResult(acc: seq<bool>, bits: Result<seq<bool>, char>): Result<seq<byte>, char>
  {
    if bits.Ok? then Ok(Bytes(acc + bits.value)) else Err(bits.error)
  }

  /** A string of table characters only decodes to byte items alone: the
      bytes its bits make up. */
  lemma {:induction false} DecodeFromValid(t: Table, acc: seq<bool>, cs: seq<char>)
    requires |t.decode| == 17 && CharsBits(t, cs).Ok?
    ensures DecodeFrom(t, acc, cs) == Oks(Bytes(acc + CharsBits(t, cs).value))
    decreases |cs|, |acc|
  {
    if |acc| >= 8 {
      var bits := CharsBits(t, cs).value;
      DecodeFromByte(t, acc, cs);
      DecodeFromValid(t, acc[8..], cs);
      BytesCons(acc, bits);
      OksCons(FromBits(acc[..8]), Bytes(acc[8..] + bits));
    } else if cs == [] {
      assert acc + [] == acc;
    } else {
      var bs := CharBits(t, cs[0]).value;
      var tail := CharsBits(t, cs[1..]).value;
      assert CharsBits(t, cs).value == bs + tail;
      DecodeFromChar(t, acc, cs);
      DecodeFromValid(t, acc + bs, cs[1..]);
      assert acc + bs + tail == acc + (bs + tail);
    }
  }

  lemma OksCons(b: byte, data: seq<byte>)
    ensures Oks([b] + data) == [Ok(b)] + Oks(data)
  {
    assert ([b] + data)[1..] == data;
  }

  /** A string ending in a character not in the table yields that error as
      its very last item (the property behind `decode_err`, which appends
      U+10FFFF). */
  lemma {:induction false} DecodeEndsInError(t: Table, acc: seq<bool>, cs: seq<char>, x: char)
    requires |t.decode| == 17 && Decode(t, x).None?
    ensures var items := DecodeFrom(t, acc, cs + [x]);
      |items| > 0 && items[|items| - 1] == Err(x)
    decreases |cs|, |acc|
  {
    var s := cs + [x];
    if |acc| >= 8 {
      DecodeFromByte(t, acc, s);
      DecodeEndsInError(t, acc[8..], cs, x);
    } else if cs == [] {
      DecodeFromForeign(t, acc, s);
      assert s[1..] == [];
    } else {
      assert s[0] == cs[0] && s[1..] == cs[1..] + [x];
      if CharBits(t, cs[0]).None? {
        DecodeFromForeign(t, acc, s);
        DecodeEndsInError(t, acc, cs[1..], x);
      } else {
        DecodeFromChar(t, acc, s);
        DecodeEndsInError(t, acc + CharBits(t, cs[0]).value, cs[1..], x);
      }
    }
  }

  /** `a.saturating_sub(b)`. */
  function SatSub(a: nat, b: nat): nat
  {
    if a >= b then a - b else 0
  }

  /** `size_hint`: the inner source's bounds `(lo, hi)` on the characters
      still to come, turned into bounds on the items still to come. The lower
      bound allows for a final character carrying 8 bits fewer; a lower bound
      that does not fit `usize` saturates and an upper one is dropped. */
  function DecodeHint(bits: nat, len: nat, lo: nat, hi: Option<nat>): (nat, Option<nat>)
  {
    var diff := bits / 8 * 8;
    var lower := (SatSub(lo * bits, diff) + len) / 8;
    (if lower <= USIZE_MAX then lower else USIZE_MAX,
     match hi
     case None => None
     case Some(h) =>
       var upper := (h * bits + len) / 8;
       if upper <= USIZE_MAX then Some(upper) else None)
  }

  /** An encoder's output: main-alphabet characters, except that the last
      one may come from the final alphabet. */
  predicate Canonical(t: Table, cs: seq<char>)
  {
    forall i :: 0 <= i < |cs| ==> cs[i] in t.init || (i == |cs| - 1 && cs[i] in t.fini)
  }

  /** The bits of a canonical string: `bits` per character, 8 fewer when the
      last one is a final character. */
  lemma {:induction false} CanonicalBits(t: Table, cs: seq<char>)
    requires Valid(t) && Canonical(t, cs)
    ensures CharsBits(t, cs).Ok?
    ensures var short := if cs != [] && cs[|cs| - 1] !in t.init then 8 else 0;
      && (short == 8 ==> t.bits > 8)
      && |CharsBits(t, cs).value| + short == Times(|cs|, t.bits)
  {
    if cs != [] {
      var c, rest := cs[0], cs[1..];
      assert Canonical(t, rest) by {
        forall i | 0 <= i < |rest|
          ensures rest[i] in t.init || (i == |rest| - 1 && rest[i] in t.fini)
        {
          assert rest[i] == cs[i + 1];
        }
      }
      CanonicalBits(t, rest);
      var w;
      if c in t.init {
        var i :| 0 <= i < |t.init| && t.init[i] == c;
        DecodeInit(t, i);
        w := t.bits;
      } else {
        var i :| 0 <= i < |t.fini| && t.fini[i] == c;
        DecodeFini(t, i);
        assert |t.fini| > 0;
        w := t.bits - 8;
        assert rest == [];
      }
      assert |CharBits(t, c).value| == w;
      assert CharsBits(t, cs).value == CharBits(t, c).value + CharsBits(t, rest).value;
    }
  }

  /** The lower bound: `lo` characters carry at least `lo * bits` bits, less
      8 when the last is a final character (`bits / 8 * 8` is 8 exactly when
      a final alphabet exists). */
  lemma HintLower(b: nat, lo: nat, n: nat, nbits: nat, short: nat)
    requires lo <= n && nbits + short == Times(n, b)
    requires short == 0 || (short == 8 && b > 8)
    ensures SatSub(lo * b, b / 8 * 8) <= nbits
  {
    TimesIsMul(n, b);
    MulLe(b, lo, n);
    if short == 8 {
      var q := b / 8;
      MulAtLeast(q, 8);
    }
  }

  /** The upper bound: at most `hi` characters carry at most `hi * bits` bits. */
  lemma HintUpper(b: nat, n: nat, h: nat, nbits: nat)
    requires n <= h && nbits <= Times(n, b)
    ensures nbits <= h * b
  {
    TimesIsMul(n, b);
    MulLe(b, n, h);
  }

  /** On an encoder's output the hint is right whenever the inner source's
      bounds are: with `n` characters still to come, `lo <= n <= hi`, the
      number of items still to come lies within the decoder's bounds. */
  lemma DecodeHintSound(t: Table, acc: seq<bool>, cs: seq<char>, lo: nat, hi: Option<nat>)
    requires Valid(t) && Canonical(t, cs)
    requires lo <= |cs| && (hi.Some? ==> |cs| <= hi.value)
    ensures var (l, h) := DecodeHint(t.bits, |acc|, lo, hi);
      && l <= |DecodeFrom(t, acc, cs)|
      && (h.Some? ==> |DecodeFrom(t, acc, cs)| <= h.value)
  {
    CanonicalBits(t, cs);
    var bs := CharsBits(t, cs).value;
    DecodeFromValid(t, acc, cs);
    var n := |DecodeFrom(t, acc, cs)|;
    assert n == (|acc| + |bs|) / 8;
    var short := if cs != [] && cs[|cs| - 1] !in t.init then 8 else 0;
    HintLower(t.bits, lo, |cs|, |bs|, short);
    if hi.Some? {
      HintUpper(t.bits, |cs|, hi.value, |bs|);
    }
  }

  /** `Decode<'a, I>`; the inner iterator is the string `src` with the
      cursor `pos`. */
  class Decoder {
    const table: Table
    const src: seq<char>
    var pos: nat
    var buf: nat
    var len: nat

    /** `len` stays below `bits + 8`, at most 22, so the source's `u32`
        accumulator always holds the pending bits. */
    ghost predicate Valid()
      reads this
    {
      && Tables.Valid(table)
      && pos <= |src|
      && len < table.bits + 8
    }

    /** The bits decoded but not yet yielded. */
    ghost function Pending(): seq<bool>
      reads this
    {
      ToBits(buf, len)
    }

    /** The items this decoder will still yield. */
    ghost function Output(): seq<Item>
      reads this
      requires |table.decode| == 17 && pos <= |src|
    {
      DecodeFrom(table, Pending(), src[pos..])
    }

    /** `Decode::new`. */
    constructor(table: Table, src: seq<char>)
      requires Tables.Valid(table)
      ensures Valid() && this.table == table && this.src == src
      ensures pos == 0 && buf == 0 && len == 0
      ensures Output() == Decoding(table, src)
    {
      this.table := table;
      this.src := src;
      pos, buf, len := 0, 0, 0;
      new;
      assert src[0..] == src;
    }

    /** `Iterator::next`: the next item, or `None` once the input is used
        up, after which every call returns `None` again. */
    method Next() returns (r: Option<Item>)
      requires Valid()
      modifies this
      ensures Valid()
      ensures r.None? <==> old(Output()) == []
      ensures old(Output()) == Emitted(r) + Output()
      ensures r.None? ==> pos == |src| && len == 0
    {
      while len < 8
        invariant Valid() && Output() == old(Output())
        decreases |src| - pos
      {
        if pos == |src| {
          len := 0;
          return None;
        }
        var ch := src[pos];
        if Decode(table, ch).None? {
          RejectChar();
          return Some(Err(ch));
        }
        PushChar();
      }
      var b := PopByte();
      r := Some(Ok(b));
    }

    /** A character of neither alphabet is consumed and yielded as an error;
        the pending bits stay as they are. */
    method RejectChar()
      requires Valid() && len < 8 && pos < |src| && Decode(table, src[pos]).None?
      modifies this
      ensures Valid() && pos == old(pos) + 1 && buf == old(buf) && len == old(len)
      ensures old(Output()) == [Err(src[old(pos)])] + Output()
    {
      DecodeFromForeign(table, Pending(), src[pos..]);
      assert src[pos..][1..] == src[pos + 1..];
      pos := pos + 1;
    }

    /** `buf = buf << w | data` for a character of the table. */
    method PushChar()
      requires Valid() && len < 8 && pos < |src| && Decode(table, src[pos]).Some?
      modifies this
      ensures Valid() && pos == old(pos) + 1 && Output() == old(Output())
    {
      var ch := src[pos];
      var data, w := CharCode(table, ch), CharWidth(table, ch);
      CodeFits(table, ch);
      PushStep(table, buf, len, src, pos);
      pos, len, buf := pos + 1, len + w, Shl(buf, w) + data;
    }

    /** `len -= 8` and `(buf >> len) as u8`: the first 8 pending bits. */
    method PopByte() returns (b: byte)
      requires Valid() && len >= 8
      modifies this
      ensures Valid() && pos == old(pos)
      ensures old(Output()) == [Ok(b)] + Output()
    {
      ByteOf(buf, len - 8);
      DecodeFromByte(table, Pending(), src[pos..]);
      len := len - 8;
      b := Shr(buf, len) % 256;
    }

    /** `Iterator::size_hint` for an exact-size source. */
    function SizeHint(): (nat, Option<nat>)
      reads this
      requires Valid()
    {
      DecodeHint(table.bits, len, |src| - pos, Some(|src| - pos))
    }
  }

  /** One character read into the accumulator: `buf << w | data` leaves
      the items still to come as they were. */
  lemma PushStep(t: Table, buf: nat, len: nat, cs: seq<char>, pos: nat)
    requires |t.decode| == 17 && len < 8 && pos < |cs| && Decode(t, cs[pos]).Some?
    requires CharCode(t, cs[pos]) < Pow2(CharWidth(t, cs[pos]))
    ensures var w := CharWidth(t, cs[pos]);
      DecodeFrom(t, ToBits(buf, len), cs[pos..])
      == DecodeFrom(t, ToBits(Shl(buf, w) + CharCode(t, cs[pos]), len + w), cs[pos + 1..])
  {
    var ch := cs[pos];
    var w := CharWidth(t, ch);
    ToBitsAppend(buf, CharCode(t, ch), len, w);
    DecodeFromChar(t, ToBits(buf, len), cs[pos..]);
    assert cs[pos..][1..] == cs[pos + 1..];
  }

  /** With a byte's worth of bits pending, that byte comes first. */
  lemma DecodeFromByte(t: Table, acc: seq<bool>, cs: seq<char>)
    requires |t.decode| == 17 && |acc| >= 8
    ensures DecodeFrom(t, acc, cs) == [Ok(FromBits(acc[..8]))] + DecodeFrom(t, acc[8..], cs)
  {
  }

  /** A character of neither alphabet is yielded as an error and the
      pending bits stay. */
  lemma DecodeFromForeign(t: Table, acc: seq<bool>, cs: seq<char>)
    requires |t.decode| == 17 && |acc| < 8 && cs != [] && CharBits(t, cs[0]).None?
    ensures DecodeFrom(t, acc, cs) == [Err(cs[0])] + DecodeFrom(t, acc, cs[1..])
  {
  }

  /** A table character adds its bits to pending bits short of a byte. */
  lemma DecodeFromChar(t: Table, acc: seq<bool>, cs: seq<char>)
    requires |t.decode| == 17 && |acc| < 8 && cs != [] && CharBits(t, cs[0]).Some?
    ensures DecodeFrom(t, acc, cs) == DecodeFrom(t, acc + CharBits(t, cs[0]).value, cs[1..])
  {
  }

  /** A valid table's codes fit the width of their alphabet, which is at
      most the table's width. */
  lemma CodeFits(t: Table, ch: char)
    requires Valid(t) && Decode(t, ch).Some?
    ensures CharCode(t, ch) < Pow2(CharWidth(t, ch)) && CharWidth(t, ch) <= t.bits
  {
    DecodeSound(t, ch);
    if Decode(t, ch).value.1 {
      assert |t.fini| > 0;
    }
  }

  /** With `len + 8` bits pending, `(buf >> len) as u8` is the first 8 of
      them and the other `len` stay pending. */
  lemma ByteOf(buf: nat, len: nat)
    ensures var acc := ToBits(buf, len + 8);
      && Shr(buf, len) % 256 == FromBits(acc[..8])
      && acc[8..] == ToBits(buf, len)
  {
    ToBitsSplit(buf, 8, len);
    FromToBits(Shr(buf, len), 8);
    Pow2Byte();
  }

  /** Collecting looks at the first item only to stop or to go on. */
  lemma CollectCons(item: Item, rest: seq<Item>)
    ensures Collect([item] + rest) == if item.Err? then Err(item.error) else Prepend([item.value], Collect(rest))
  {
    assert ([item] + rest)[1..] == rest;
  }

  /** `decode_vec`: collects the decoder's items, stopping at the first
      error. */
  method DecodeVec(t: Table, cs: seq<char>) returns (r: Result<seq<byte>, char>)
    requires Valid(t)
    ensures r == Collect(Decoding(t, cs))
    ensures CharsBits(t, cs).Ok? ==> r == Ok(Bytes(CharsBits(t, cs).value))
    ensures CharsBits(t, cs).Err? ==> r == Err(CharsBits(t, cs).error)
  {
    DecodingCollected(t, cs);
    var d := new Decoder(t, cs);
    var out: seq<byte> := [];
    PrependNothing(Collect(d.Output()));
    while true
      invariant d.Valid() && Collect(Decoding(t, cs)) == Prepend(out, Collect(d.Output()))
      decreases |d.Output()|
    {
      var item := d.Next();
      if item.None? {
        assert out + [] == out;
        return Ok(out);
      }
      CollectStep(out, item.value, d.Output());
      if item.value.Err? {
        return Err(item.value.error);
      }
      out := out + [item.value.value];
    }
  }

  /** A whole string collects to its bytes or to its first character not
      in the table. */
  lemma DecodingCollected(t: Table, cs: seq<char>)
    requires |t.decode| == 17
    ensures CharsBits(t, cs).Ok? ==> Collect(Decoding(t, cs)) == Ok(Bytes(CharsBits(t, cs).value))
    ensures CharsBits(t, cs).Err? ==> Collect(Decoding(t, cs)) == Err(CharsBits(t, cs).error)
  {
    CollectDecodeFrom(t, [], cs);
    if CharsBits(t, cs).Ok? {
      assert [] + CharsBits(t, cs).value == CharsBits(t, cs).value;
    }
  }

  lemma PrependNothing(r: Result<seq<byte>, char>)
    ensures Prepend([], r) == r
  {
    if r.Ok? {
      assert [] + r.value == r.value;
    }
  }

  /** One item of the collection: an error ends it, a byte is appended. */
  lemma CollectStep(out: seq<byte>, item: Item, rest: seq<Item>)
    ensures item.Err? ==> Prepend(out, Collect([item] + rest)) == Err(item.error)
    ensures item.Ok? ==> Prepend(out, Collect([item] + rest)) == Prepend(out + [item.value], Collect(rest))
  {
    CollectCons(item, rest);
    if item.Ok? && Collect(rest).Ok? {
      assert out + ([item.value] + Collect(rest).value) == out + [item.value] + Collect(rest).value;
    }
  }
}
