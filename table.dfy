/** The runtime table of one encoding scheme (src/table.rs): the code width,
    the initial and final alphabets, and the decode index of 17 per-plane
    buckets that maps a character back to its code. */
module Tables {
  import opened Wrappers
  import opened Bits

  type u16 = x: int | 0 <= x < 0x1_0000

  /** Bit 15 of a codeword, set for characters of the final alphabet. */
  const FLAG: nat := 0x8000

  /** One decode-index entry: the low 16 bits of a character and its codeword
      (the code in bits 0..14, the final flag in bit 15). */
  datatype Entry = Entry(low: u16, code: u16)

  datatype Table = Table(bits: nat, fini: seq<char>, init: seq<char>, decode: seq<seq<Entry>>)

  /** `ch as usize >> 16`: the Unicode plane of a character. */
  function Plane(c: char): (p: nat)
    ensures p < 17
  {
    c as int / 0x1_0000
  }

  /** `ch as u16`: the position of a character inside its plane. */
  function Low(c: char): u16
  {
    c as int % 0x1_0000
  }

  /** `bits.saturating_sub(8)`: the width of a final-alphabet symbol. */
  function FinBits(bits: nat): nat
  {
    if bits > 8 then bits - 8 else 0
  }

  /** The number of characters of the final alphabet. */
  function FinSize(bits: nat): nat
  {
    if bits > 8 then Pow2(bits - 8) else 0
  }

  /** `index | (fin as u32) << 15`. */
  function Codeword(index: nat, fin: bool): nat
  {
    if fin then index + FLAG else index
  }

  /** `(code & 0x7FFF, code >> 15 != 0)`. */
  function Unpack(code: u16): (r: (nat, bool))
    ensures r.0 < FLAG
    ensures Codeword(r.0, r.1) == code
  {
    (code % FLAG, code / FLAG != 0)
  }

  /** The shape every table has: a code width of 1 to 15 bits, alphabets of
      the sizes that width calls for, and one bucket per plane. */
  predicate Shaped(t: Table)
  {
    && 1 <= t.bits <= 15
    && |t.init| == Pow2(t.bits)
    && |t.fini| == FinSize(t.bits)
    && |t.decode| == 17
  }

  /** A bucket sorted strictly ascending by the low 16 bits. */
  predicate SortedPlane(plane: seq<Entry>)
  {
    forall i, j :: 0 <= i < j < |plane| ==> plane[i].low < plane[j].low
  }

  /** Entry `k` of bucket `p` names a character that sits at its code in
      the alphabet its flag selects. */
  predicate Names(t: Table, p: nat, k: nat)
    requires p < |t.decode| && k < |t.decode[p]|
  {
    var e := t.decode[p][k];
    var cp := p * 0x1_0000 + e.low;
    if e.code < FLAG then e.code < |t.init| && t.init[e.code] as int == cp
    else e.code - FLAG < |t.fini| && t.fini[e.code - FLAG] as int == cp
  }

  /** Character `c` has an entry with the given codeword in its bucket. */
  predicate Listed(t: Table, c: char, code: nat)
    requires |t.decode| == 17
  {
    exists k :: 0 <= k < |t.decode[Plane(c)]| && t.decode[Plane(c)][k].low == Low(c) && t.decode[Plane(c)][k].code == code
  }

  /** The `i`-th character of `init` is listed under code `i`. */
  predicate InitListed(t: Table, i: nat)
    requires |t.decode| == 17 && i < |t.init|
  {
    Listed(t, t.init[i], Codeword(i, false))
  }

  /** The `i`-th character of `fini` is listed under code `i` with the
      final flag. */
  predicate FiniListed(t: Table, i: nat)
    requires |t.decode| == 17 && i < |t.fini|
  {
    Listed(t, t.fini[i], Codeword(i, true))
  }

  /** A well-formed table: every bucket sorted, every entry naming an
      alphabet character, and every alphabet character listed under its code. */
  predicate Valid(t: Table)
  {
    && Shaped(t)
    && (forall p :: 0 <= p < 17 ==> SortedPlane(t.decode[p]))
    && (forall p, k :: 0 <= p < 17 && 0 <= k < |t.decode[p]| ==> Names(t, p, k))
    && (forall i :: 0 <= i < |t.init| ==> InitListed(t, i))
    && (forall i :: 0 <= i < |t.fini| ==> FiniListed(t, i))
  }

  /** The standard library's binary search over `plane[lo..hi]` by the low
      16 bits; only its result, not its probe order, is modelled. */
  function Search(plane: seq<Entry>, key: int, lo: nat, hi: nat): (r: Option<nat>)
    requires lo <= hi <= |plane|
    ensures r.Some? ==> lo <= r.value < hi && plane[r.value].low == key
    ensures r.None? && SortedPlane(plane) ==> forall i :: lo <= i < hi ==> plane[i].low != key
    decreases hi - lo
  {
    if lo == hi then None
    else
      var mid := (lo + hi) / 2;
      if plane[mid].low == key then Some(mid)
      else if plane[mid].low < key then Search(plane, key, mid + 1, hi)
      else Search(plane, key, lo, mid)
  }

  /** `Table::decode`: the code and final flag of a character, or `None`
      when its bucket has no entry for it. */
  function Decode(t: Table, ch: char): (r: Option<(nat, bool)>)
    requires |t.decode| == 17
    ensures r.Some? ==> r.value.0 < FLAG
  {
    var plane := t.decode[Plane(ch)];
    match Search(plane, Low(ch), 0, |plane|)
    case None => None
    case Some(k) => Some(Unpack(plane[k].code))
  }

  /** `decode` finds a character exactly when its bucket has an entry for
      it (the converse needs the bucket sorted), and then reads that
      entry's codeword. */
  lemma DecodeFound(t: Table, ch: char)
    requires |t.decode| == 17
    ensures Decode(t, ch).Some? ==>
      exists k :: 0 <= k < |t.decode[Plane(ch)]| && t.decode[Plane(ch)][k].low == Low(ch)
                  && Decode(t, ch).value == Unpack(t.decode[Plane(ch)][k].code)
    ensures Decode(t, ch).None? && SortedPlane(t.decode[Plane(ch)]) ==>
      forall k :: 0 <= k < |t.decode[Plane(ch)]| ==> t.decode[Plane(ch)][k].low != Low(ch)
  {
  }

  /** What `decode` finds is the character at that code of the alphabet its
      flag names. */
  lemma DecodeSound(t: Table, ch: char)
    requires Valid(t) && Decode(t, ch).Some?
    ensures var r := Decode(t, ch).value;
      if r.1 then r.0 < |t.fini| && t.fini[r.0] == ch
      else r.0 < |t.init| && t.init[r.0] == ch
  {
    var p := Plane(ch);
    var plane := t.decode[p];
    DecodeFound(t, ch);
    var k :| 0 <= k < |plane| && plane[k].low == Low(ch) && Decode(t, ch).value == Unpack(plane[k].code);
    var e := plane[k];
    assert Names(t, p, k);
    var cp := p * 0x1_0000 + e.low;
    assert cp == ch as int by {
      PlaneLow(ch);
    }
    UnpackFlag(e.code);
    if e.code < FLAG {
      assert t.init[e.code] as int == cp;
    } else {
      assert t.fini[e.code - FLAG] as int == cp;
    }
  }

  /** Bit 15 splits a codeword into the flag and the 15-bit code. */
  lemma UnpackFlag(c: u16)
    ensures c < FLAG ==> Unpack(c) == (c, false)
    ensures c >= FLAG ==> Unpack(c) == (c - FLAG, true)
  {
    if c < FLAG {
      DivModUnique(c, FLAG, 0, c);
    } else {
      DivModUnique(c, FLAG, 1, c - FLAG);
    }
  }

  /** A character is its plane and its position in the plane. */
  lemma PlaneLow(c: char)
    ensures Plane(c) * 0x1_0000 + Low(c) == c as int
  {
  }

  /** Planes rise with the character. */
  lemma PlaneMonotone(a: char, b: char)
    requires a <= b
    ensures Plane(a) <= Plane(b)
  {
    PlaneLow(a);
    PlaneLow(b);
  }

  /** A character found in its bucket is found at the entry listing it: keys
      are unique in a sorted bucket. */
  lemma DecodeListed(t: Table, c: char, code: nat)
    requires Valid(t) && Listed(t, c, code)
    ensures Decode(t, c).Some? && Codeword(Decode(t, c).value.0, Decode(t, c).value.1) == code
  {
    var plane := t.decode[Plane(c)];
    DecodeFound(t, c);
    var k :| 0 <= k < |plane| && plane[k].low == Low(c) && plane[k].code == code;
    assert SortedPlane(plane);
    assert Decode(t, c).Some?;
    var k' :| 0 <= k' < |plane| && plane[k'].low == Low(c) && Decode(t, c).value == Unpack(plane[k'].code);
    assert k == k';
  }

  /** Bijection, initial half: `decode(init[c]) == Some((c, false))`. */
  lemma DecodeInit(t: Table, c: nat)
    requires Valid(t) && c < |t.init|
    ensures Decode(t, t.init[c]) == Some((c, false))
  {
    AlphabetBounds(t, c);
    assert InitListed(t, c);
    DecodeListed(t, t.init[c], Codeword(c, false));
  }

  /** Bijection, final half: `decode(fini[c]) == Some((c, true))`. */
  lemma DecodeFini(t: Table, c: nat)
    requires Valid(t) && c < |t.fini|
    ensures Decode(t, t.fini[c]) == Some((c, true))
  {
    assert FiniListed(t, c);
    DecodeListed(t, t.fini[c], Codeword(c, true));
  }

  /** Rejection: a character in neither alphabet is not decodable. */
  lemma DecodeForeign(t: Table, ch: char)
    requires Valid(t) && ch !in t.init && ch !in t.fini
    ensures Decode(t, ch) == None
  {
    if Decode(t, ch).Some? {
      DecodeSound(t, ch);
    }
  }

  /** The characters of the two alphabets are pairwise distinct. */
  lemma AlphabetsDistinct(t: Table, i: nat, j: nat)
    requires Valid(t)
    ensures i < j < |t.init| ==> t.init[i] != t.init[j]
    ensures i < j < |t.fini| ==> t.fini[i] != t.fini[j]
    ensures i < |t.init| && j < |t.fini| ==> t.init[i] != t.fini[j]
  {
    if i < |t.init| { DecodeInit(t, i); }
    if j < |t.init| { DecodeInit(t, j); }
    if i < |t.fini| { DecodeFini(t, i); }
    if j < |t.fini| { DecodeFini(t, j); }
  }

  /** `slice.get(code)`. */
  function Get(s: seq<char>, code: nat): Option<char>
  {
    if code < |s| then Some(s[code]) else None
  }

  /** Boundary: `init` holds exactly `2^bits` characters and `fini` exactly
      the final-alphabet size, so codes at or past those are absent; every
      code fits the 15 bits a codeword leaves for it. */
  lemma AlphabetBounds(t: Table, code: nat)
    requires Valid(t)
    ensures |t.init| <= FLAG && |t.fini| <= 128
    ensures code >= Pow2(t.bits) ==> Get(t.init, code) == None
    ensures code >= FinSize(t.bits) ==> Get(t.fini, code) == None
  {
    WithBound(t.bits);
  }

  function Min(a: nat, b: nat): nat
  {
    if a <= b then a else b
  }

  /** The test fixture `Table::with(bits)`: the first `fin_len` characters
      from U+0000 form `fini` with codewords `i | 1 << 15`, the next `2^bits`
      form `init` with codewords from 0, and the decode entries are dealt out
      65536 to a bucket. */
  function With(bits: nat): (t: Table)
    requires 1 <= bits <= 15
    ensures t.bits == bits && Shaped(t)
    ensures forall i :: 0 <= i < |t.fini| ==> t.fini[i] as int == i
    ensures forall i :: 0 <= i < |t.init| ==> t.init[i] as int == |t.fini| + i
  {
    var finLen := FinSize(bits);
    var n := finLen + Pow2(bits);
    WithBound(bits);
    var chs := seq(n, i requires 0 <= i < n => i as char);
    var pairs := seq(n, i requires 0 <= i < n => WithEntry(i, finLen));
    Table(bits, chs[..finLen], chs[finLen..],
          seq(17, p requires 0 <= p < 17 => pairs[Min(p * 0x1_0000, n)..Min((p + 1) * 0x1_0000, n)]))
  }

  /** The decode entry of the `i`-th character of `Table::with`. */
  function WithEntry(i: nat, finLen: nat): Entry
    requires finLen <= 128 && i < 0x1_0000 + finLen
  {
    Entry(i % 0x1_0000, if i < finLen then i + FLAG else i - finLen)
  }

  /** The alphabet sizes a width of 1 to 15 bits calls for fit the 15-bit
      code and the 7 bits left for a final symbol. */
  lemma WithBound(bits: nat)
    requires 1 <= bits <= 15
    ensures FinSize(bits) <= 128 && Pow2(bits) <= FLAG
  {
    Pow2Monotone(bits, 15);
    assert Pow2(15) == FLAG;
    if bits > 8 {
      Pow2Monotone(bits - 8, 7);
      assert Pow2(7) == 128;
    }
  }

  /** The layout `Table::with` produces: characters numbered from U+0000,
      `fini` first, all of them in plane 0, so the first bucket holds every
      entry in character order and the other buckets are empty. */
  predicate Dealt(t: Table)
  {
    && Shaped(t)
    && |t.fini| <= 128 && |t.init| <= FLAG
    && (forall i :: 0 <= i < |t.fini| ==> t.fini[i] as int == i)
    && (forall i :: 0 <= i < |t.init| ==> t.init[i] as int == |t.fini| + i)
    && |t.decode[0]| == |t.fini| + |t.init|
    && (forall k :: 0 <= k < |t.decode[0]| ==> t.decode[0][k] == WithEntry(k, |t.fini|))
    && (forall p :: 1 <= p < 17 ==> t.decode[p] == [])
  }

  lemma WithDealt(bits: nat)
    requires 1 <= bits <= 15
    ensures Dealt(With(bits))
  {
    WithBound(bits);
  }

  /** `Table::with` builds a well-formed table for every width it is used with. */
  lemma WithValid(bits: nat)
    requires 1 <= bits <= 15
    ensures Valid(With(bits))
  {
    WithDealt(bits);
    DealtValid(With(bits));
  }

  lemma DealtValid(t: Table)
    requires Dealt(t)
    ensures Valid(t)
  {
    DealtNames(t);
    DealtListed(t);
  }

  lemma DealtNames(t: Table)
    requires Dealt(t)
    ensures forall p, k :: 0 <= p < 17 && 0 <= k < |t.decode[p]| ==> Names(t, p, k)
  {
    var finLen := |t.fini|;
    forall p, k | 0 <= p < 17 && 0 <= k < |t.decode[p]|
      ensures Names(t, p, k)
    {
      assert p == 0;
      var e := t.decode[0][k];
      assert e == WithEntry(k, finLen) && e.low == k;
      if k < finLen {
        assert e.code - FLAG == k && t.fini[k] as int == k;
      } else {
        assert e.code == k - finLen && t.init[k - finLen] as int == k;
      }
    }
  }

  lemma DealtListed(t: Table)
    requires Dealt(t)
    ensures forall i :: 0 <= i < |t.init| ==> InitListed(t, i)
    ensures forall i :: 0 <= i < |t.fini| ==> FiniListed(t, i)
  {
    var finLen := |t.fini|;
    var bucket := t.decode[0];
    forall i | 0 <= i < |t.init|
      ensures InitListed(t, i)
    {
      assert Plane(t.init[i]) == 0 && Low(t.init[i]) == finLen + i;
      assert bucket[finLen + i].code == i;
    }
    forall i | 0 <= i < |t.fini|
      ensures FiniListed(t, i)
    {
      assert Plane(t.fini[i]) == 0 && Low(t.fini[i]) == i;
      assert bucket[i].code == i + FLAG;
    }
  }
}
