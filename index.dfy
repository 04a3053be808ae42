/** The decode index build.rs emits for a table (build.rs, the final
    `sort_unstable` and the `fold` over the 17 planes), and the theorem
    that any two alphabets of the right sizes with no character in common
    give a well-formed table. */
module Buckets {
  import opened Bits
  import opened Tables
  import opened Candidates

  /** Every index fits in the 15 code bits of a codeword. */
  predicate Small(s: seq<Tagged>)
  {
    forall i :: 0 <= i < |s| ==> s[i].idx < FLAG
  }

  /** The list after reindexing: the final alphabet tagged `(c, true, i)`,
      then the initial one tagged `(c, false, i)`. */
  function Retag(fini: seq<char>, init: seq<char>): (r: seq<Tagged>)
    ensures |r| == |fini| + |init|
  {
    Tag(fini, true) + Tag(init, false)
  }

  /** `(ch as u16, id | fin << 15)`. */
  function Pack(x: Tagged): (e: Entry)
    requires x.idx < FLAG
  {
    Entry(Low(x.ch), Codeword(x.idx, x.fin) as u16)
  }

  function PackAll(s: seq<Tagged>): seq<Entry>
    requires Small(s)
  {
    seq(|s|, i requires 0 <= i < |s| => Pack(s[i]))
  }

  /** `partition_point(|x| x.0 >> 16 == p)`: how many leading entries lie
      in plane `p`. */
  function PlaneLen(s: seq<Tagged>, p: nat): (n: nat)
    ensures n <= |s|
    ensures forall i :: 0 <= i < n ==> Plane(s[i].ch) == p
    ensures n < |s| ==> Plane(s[n].ch) != p
  {
    if s != [] && Plane(s[0].ch) == p then 1 + PlaneLen(s[1..], p) else 0
  }

  /** The fold from plane `p` on: split off the leading entries of plane
      `p` as its bucket and go on with the rest. */
  function Fold(remains: seq<Tagged>, p: nat): (r: seq<seq<Entry>>)
    requires p <= 17 && Small(remains)
    ensures |r| == 17 - p
    decreases 17 - p
  {
    if p == 17 then []
    else
      var end := PlaneLen(remains, p);
      assert Small(remains[end..]) by {
        forall i | 0 <= i < |remains| - end
          ensures remains[end..][i].idx < FLAG
        {
          assert remains[end..][i] == remains[end + i];
        }
      }
      [PackAll(remains[..end])] + Fold(remains[end..], p + 1)
  }

  /** The decode index of two alphabets: their reindexed triples sorted by
      character and dealt into the 17 plane buckets. */
  function Index(fini: seq<char>, init: seq<char>): (r: seq<seq<Entry>>)
    requires |fini| <= FLAG && |init| <= FLAG
    ensures |r| == 17
  {
    var d := Sort(ByChar, Retag(fini, init));
    RetagSmall(fini, init, d);
    Fold(d, 0)
  }

  /** Every triple of a reordering of `Retag(fini, init)` is one of its
      positions. */
  lemma RetagMember(fini: seq<char>, init: seq<char>, x: Tagged)
    requires x in Retag(fini, init)
    ensures x.fin ==> x.idx < |fini| && x.ch == fini[x.idx]
    ensures !x.fin ==> x.idx < |init| && x.ch == init[x.idx]
  {
    var r := Retag(fini, init);
    var k :| 0 <= k < |r| && r[k] == x;
    if k >= |fini| {
      assert x == Tag(init, false)[k - |fini|];
    }
  }

  lemma RetagSmall(fini: seq<char>, init: seq<char>, d: seq<Tagged>)
    requires |fini| <= FLAG && |init| <= FLAG
    requires multiset(d) == multiset(Retag(fini, init))
    ensures Small(d)
  {
    forall i | 0 <= i < |d|
      ensures d[i].idx < FLAG
    {
      assert d[i] in multiset(d);
      RetagMember(fini, init, d[i]);
    }
  }

  /** With no character shared between the alphabets, a character picks out
      one triple of `Retag`. */
  lemma RetagByChar(fini: seq<char>, init: seq<char>, x: Tagged, y: Tagged)
    requires Distinct(fini + init)
    requires x in Retag(fini, init) && y in Retag(fini, init) && x.ch == y.ch
    ensures x == y
  {
    var cs := fini + init;
    RetagMember(fini, init, x);
    RetagMember(fini, init, y);
    var i := if x.fin then x.idx else |fini| + x.idx;
    var j := if y.fin then y.idx else |fini| + y.idx;
    assert cs[i] == x.ch && cs[j] == y.ch;
  }

  lemma RetagNoDup(fini: seq<char>, init: seq<char>)
    ensures NoDup(Retag(fini, init))
  {
    var r := Retag(fini, init);
    forall i, j | 0 <= i < j < |r|
      ensures r[i] != r[j]
    {
      if j < |fini| || i >= |fini| {
        assert r[i].idx != r[j].idx;
      } else {
        assert r[i].fin && !r[j].fin;
      }
    }
  }

  /** The sorted triples have strictly ascending characters. */
  lemma SortedAscending(fini: seq<char>, init: seq<char>)
    requires Distinct(fini + init)
    ensures Ascending(Sort(ByChar, Retag(fini, init)))
  {
    var r := Retag(fini, init);
    var d := Sort(ByChar, r);
    SortSorted(ByChar, r);
    RetagNoDup(fini, init);
    NoDupPerm(r, d);
    forall i, j | 0 <= i < j < |d|
      ensures d[i].ch < d[j].ch
    {
      assert d[i] in multiset(r) && d[j] in multiset(r);
      if d[i].ch == d[j].ch {
        RetagByChar(fini, init, d[i], d[j]);
      }
      assert !Less(ByChar, d[j], d[i]);
    }
  }

  /** The entries of plane `q`, in order. */
  function InPlane(s: seq<Tagged>, q: nat): (r: seq<Tagged>)
    ensures forall x :: x in r <==> x in s && Plane(x.ch) == q
  {
    if s == [] then []
    else (if Plane(s[0].ch) == q then [s[0]] else []) + InPlane(s[1..], q)
  }

  lemma {:induction false} InPlaneAppend(a: seq<Tagged>, b: seq<Tagged>, q: nat)
    ensures InPlane(a + b, q) == InPlane(a, q) + InPlane(b, q)
  {
    if a != [] {
      assert (a + b)[1..] == a[1..] + b;
      InPlaneAppend(a[1..], b, q);
    } else {
      assert a + b == b;
    }
  }

  lemma {:induction false} InPlaneAll(a: seq<Tagged>, q: nat)
    requires forall i :: 0 <= i < |a| ==> Plane(a[i].ch) == q
    ensures InPlane(a, q) == a
  {
    if a != [] {
      InPlaneAll(a[1..], q);
    }
  }

  lemma {:induction false} InPlaneNone(a: seq<Tagged>, q: nat)
    requires forall i :: 0 <= i < |a| ==> Plane(a[i].ch) != q
    ensures InPlane(a, q) == []
  {
    if a != [] {
      InPlaneNone(a[1..], q);
    }
  }

  /** A bucket keeps the ascending order of the whole list. */
  lemma {:induction false} InPlaneAscending(s: seq<Tagged>, q: nat)
    requires Ascending(s)
    ensures Ascending(InPlane(s, q))
  {
    if s != [] {
      var tail := s[1..];
      assert Ascending(tail) by {
        forall i, j | 0 <= i < j < |tail|
          ensures tail[i].ch < tail[j].ch
        {
          assert tail[i] == s[i + 1] && tail[j] == s[j + 1];
        }
      }
      InPlaneAscending(tail, q);
      var rest := InPlane(tail, q);
      if Plane(s[0].ch) == q {
        forall y | y in rest
          ensures s[0].ch < y.ch
        {
          var j :| 0 <= j < |tail| && tail[j] == y;
          assert y == s[j + 1];
        }
        AscendingCons(s[0], rest);
      }
    }
  }

  /** What the fold leaves after plane `p`: an ascending list of planes
      above `p`. */
  lemma FoldRest(s: seq<Tagged>, p: nat)
    requires Small(s) && Ascending(s)
    requires forall i :: 0 <= i < |s| ==> Plane(s[i].ch) >= p
    ensures var rest := s[PlaneLen(s, p)..];
      && Small(rest) && Ascending(rest)
      && forall i :: 0 <= i < |rest| ==> Plane(rest[i].ch) >= p + 1
  {
    var end := PlaneLen(s, p);
    var rest := s[end..];
    forall i | 0 <= i < |rest|
      ensures rest[i].idx < FLAG && Plane(rest[i].ch) >= p + 1
    {
      assert rest[i] == s[end + i];
      if i > 0 {
        PlaneMonotone(s[end].ch, s[end + i].ch);
      }
    }
    AscendingSuffix(s, end);
  }

  /** A suffix of an ascending list is ascending. */
  lemma AscendingSuffix(s: seq<Tagged>, k: nat)
    requires Ascending(s) && k <= |s|
    ensures Ascending(s[k..])
  {
    var rest := s[k..];
    forall i, j | 0 <= i < j < |rest|
      ensures rest[i].ch < rest[j].ch
    {
      assert rest[i] == s[k + i] && rest[j] == s[k + j];
    }
  }

  /** Every bucket of a list of small indices has small indices. */
  lemma InPlaneSmall(s: seq<Tagged>, q: nat)
    requires Small(s)
    ensures Small(InPlane(s, q))
  {
    var b := InPlane(s, q);
    forall i | 0 <= i < |b|
      ensures b[i].idx < FLAG
    {
      assert b[i] in s;
    }
  }

  /** The fold splits off the leading entries of plane `p`. */
  lemma FoldHead(s: seq<Tagged>, p: nat)
    requires p < 17 && Small(s)
    ensures var end := PlaneLen(s, p);
      Small(s[..end]) && Small(s[end..]) && Fold(s, p) == [PackAll(s[..end])] + Fold(s[end..], p + 1)
  {
  }

  /** Plane `p`'s bucket is the leading run of plane-`p` entries. */
  lemma InPlaneHead(s: seq<Tagged>, p: nat, q: nat)
    requires Ascending(s) && Small(s)
    requires forall i :: 0 <= i < |s| ==> Plane(s[i].ch) >= p
    ensures var end := PlaneLen(s, p);
      InPlane(s, q) == if q == p then s[..end] else InPlane(s[end..], q)
  {
    var end := PlaneLen(s, p);
    var head, rest := s[..end], s[end..];
    assert s == head + rest;
    InPlaneAppend(head, rest, q);
    FoldRest(s, p);
    if q == p {
      InPlaneAll(head, p);
      InPlaneNone(rest, p);
      assert InPlane(s, q) == head + [];
    } else {
      InPlaneNone(head, q);
      assert InPlane(s, q) == [] + InPlane(rest, q);
    }
  }

  /** On a list in ascending order whose planes are all at least `p`, the
      fold deals each plane's entries to its own bucket. */
  lemma {:induction false} FoldBuckets(s: seq<Tagged>, p: nat, q: nat)
    requires p <= q < 17 && Small(s) && Ascending(s)
    requires forall i :: 0 <= i < |s| ==> Plane(s[i].ch) >= p
    ensures Small(InPlane(s, q)) && Fold(s, p)[q - p] == PackAll(InPlane(s, q))
    decreases 17 - p
  {
    InPlaneSmall(s, q);
    FoldHead(s, p);
    InPlaneHead(s, p, q);
    var end := PlaneLen(s, p);
    var f := Fold(s, p);
    if q == p {
      assert f[0] == PackAll(s[..end]);
    } else {
      var rest := s[end..];
      FoldRest(s, p);
      FoldBuckets(rest, p + 1, q);
      assert f[q - p] == Fold(rest, p + 1)[q - (p + 1)];
    }
  }

  /** Entries of one plane, ascending by character, are ascending by their
      low 16 bits. */
  lemma PackedSorted(b: seq<Tagged>, q: nat)
    requires Small(b) && Ascending(b)
    requires forall x :: x in b ==> Plane(x.ch) == q
    ensures SortedPlane(PackAll(b))
  {
    var e := PackAll(b);
    forall i, j | 0 <= i < j < |e|
      ensures e[i].low < e[j].low
    {
      assert b[i] in b && b[j] in b;
      PlaneLow(b[i].ch);
      PlaneLow(b[j].ch);
    }
  }

  /** `decode` deals the triples of `d` to the 17 buckets by plane, each
      bucket in ascending character order. */
  predicate DealtFrom(d: seq<Tagged>, decode: seq<seq<Entry>>)
  {
    && |decode| == 17
    && forall q :: 0 <= q < 17 ==>
         Small(InPlane(d, q)) && Ascending(InPlane(d, q)) && decode[q] == PackAll(InPlane(d, q))
  }

  /** The fold over an ascending list deals it by plane. */
  lemma FoldDealt(d: seq<Tagged>)
    requires Small(d) && Ascending(d)
    ensures DealtFrom(d, Fold(d, 0))
  {
    forall q | 0 <= q < 17
      ensures Small(InPlane(d, q)) && Ascending(InPlane(d, q)) && Fold(d, 0)[q] == PackAll(InPlane(d, q))
    {
      FoldBuckets(d, 0, q);
      InPlaneAscending(d, q);
      var f := Fold(d, 0);
      assert f[q] == PackAll(InPlane(d, q));
    }
  }

  /** The index deals the sorted triples of the two alphabets by plane. */
  lemma IndexDealt(fini: seq<char>, init: seq<char>)
    requires |fini| <= FLAG && |init| <= FLAG && Distinct(fini + init)
    ensures DealtFrom(Sort(ByChar, Retag(fini, init)), Index(fini, init))
  {
    var d := Sort(ByChar, Retag(fini, init));
    RetagSmall(fini, init, d);
    SortedAscending(fini, init);
    FoldDealt(d);
  }

  /** Every entry of buckets dealt from a reordering of the triples names
      its character's code. */
  lemma DealtNames(t: Table, d: seq<Tagged>, p: nat, k: nat)
    requires Shaped(t) && DealtFrom(d, t.decode)
    requires multiset(d) == multiset(Retag(t.fini, t.init))
    requires p < 17 && k < |t.decode[p]|
    ensures Names(t, p, k)
  {
    var b := InPlane(d, p);
    var x := b[k];
    assert x in b;
    assert x in multiset(Retag(t.fini, t.init));
    RetagMember(t.fini, t.init, x);
    PlaneLow(x.ch);
    WithBound(t.bits);
  }

  /** Every triple, so every alphabet character, is listed under its code. */
  lemma DealtListed(t: Table, d: seq<Tagged>, x: Tagged)
    requires Shaped(t) && DealtFrom(d, t.decode)
    requires multiset(d) == multiset(Retag(t.fini, t.init))
    requires x in Retag(t.fini, t.init)
    ensures x.idx < FLAG && Listed(t, x.ch, Codeword(x.idx, x.fin))
  {
    var q := Plane(x.ch);
    var b := InPlane(d, q);
    assert x in multiset(d);
    var k :| 0 <= k < |b| && b[k] == x;
    assert t.decode[q][k] == Pack(x);
  }

  /** Buckets dealt from a reordering of the triples make a well-formed
      table. */
  lemma DealtValid(t: Table, d: seq<Tagged>)
    requires Shaped(t) && DealtFrom(d, t.decode)
    requires multiset(d) == multiset(Retag(t.fini, t.init))
    ensures Valid(t)
  {
    var r := Retag(t.fini, t.init);
    forall p | 0 <= p < 17
      ensures SortedPlane(t.decode[p])
    {
      PackedSorted(InPlane(d, p), p);
    }
    forall p, k | 0 <= p < 17 && 0 <= k < |t.decode[p]|
      ensures Names(t, p, k)
    {
      DealtNames(t, d, p, k);
    }
    forall i | 0 <= i < |t.init|
      ensures InitListed(t, i)
    {
      assert r[|t.fini| + i] == Tagged(t.init[i], false, i);
      DealtListed(t, d, Tagged(t.init[i], false, i));
    }
    forall i | 0 <= i < |t.fini|
      ensures FiniListed(t, i)
    {
      assert r[i] == Tagged(t.fini[i], true, i);
      DealtListed(t, d, Tagged(t.fini[i], true, i));
    }
  }

  /** The decode index of any two alphabets of the sizes the width calls
      for, with no character twice, makes a well-formed table. */
  lemma IndexValid(bits: nat, fini: seq<char>, init: seq<char>)
    requires 1 <= bits <= 15 && |init| == Pow2(bits) && |fini| == FinSize(bits)
    requires Distinct(fini + init)
    ensures |fini| <= FLAG && |init| <= FLAG
    ensures Valid(Table(bits, fini, init, Index(fini, init)))
  {
    WithBound(bits);
    IndexDealt(fini, init);
    DealtValid(Table(bits, fini, init, Index(fini, init)), Sort(ByChar, Retag(fini, init)));
  }
}
