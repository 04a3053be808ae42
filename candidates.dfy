/** The character lists build.rs works on: `(char, final, index)` triples,
    the two orders it sorts them by, and what `sort_unstable` and
    `dedup_by_key` do to them. */
module Candidates {

  /** `(c, fin, i)`: a character, whether it comes from the final block,
      and an index (its position in its block, later its code). */
  datatype Tagged = Tagged(ch: char, fin: bool, idx: nat)

  /** `sort_unstable` sorts the triples themselves; `sort_unstable_by_key`
      sorts by `(!fin, idx)`. */
  datatype Order = ByChar | ByTag

  /** `a` sorts strictly before `b`. */
  predicate Less(o: Order, a: Tagged, b: Tagged)
  {
    match o
    case ByChar =>
      a.ch < b.ch || (a.ch == b.ch && ((!a.fin && b.fin) || (a.fin == b.fin && a.idx < b.idx)))
    case ByTag =>
      (a.fin && !b.fin) || (a.fin == b.fin && a.idx < b.idx)
  }

  /** Both orders are strict, and "not after" is transitive. */
  lemma LessOrder(o: Order, a: Tagged, b: Tagged, c: Tagged)
    ensures !Less(o, a, a)
    ensures Less(o, a, b) ==> !Less(o, b, a)
    ensures !Less(o, b, a) && !Less(o, c, b) ==> !Less(o, c, a)
    ensures Less(o, a, b) && Less(o, b, c) ==> Less(o, a, c)
  {
  }

  /** In the triple order any two different triples are comparable. */
  lemma CharTotal(a: Tagged, b: Tagged)
    ensures a != b ==> Less(ByChar, a, b) || Less(ByChar, b, a)
  {
  }

  predicate Sorted(o: Order, s: seq<Tagged>)
  {
    forall i, j :: 0 <= i < j < |s| ==> !Less(o, s[j], s[i])
  }

  predicate StrictlySorted(o: Order, s: seq<Tagged>)
  {
    forall i, j :: 0 <= i < j < |s| ==> Less(o, s[i], s[j])
  }

  /** Insertion of `x` before the first element not strictly before it. */
  function Insert(o: Order, x: Tagged, s: seq<Tagged>): (r: seq<Tagged>)
    ensures multiset(r) == multiset(s) + multiset{x}
  {
    if s == [] then [x]
    else if Less(o, s[0], x) then
      assert s == [s[0]] + s[1..];
      [s[0]] + Insert(o, x, s[1..])
    else [x] + s
  }

  /** The model of the standard library's sorts: an insertion sort. Any
      sorted permutation equals it when no two elements tie (lemma
      `SortedUnique`), so the probe order of `sort_unstable` does not show. */
  function Sort(o: Order, s: seq<Tagged>): (r: seq<Tagged>)
    ensures multiset(r) == multiset(s)
  {
    if s == [] then []
    else
      assert s == [s[0]] + s[1..];
      Insert(o, s[0], Sort(o, s[1..]))
  }

  lemma {:induction false} InsertSorted(o: Order, x: Tagged, s: seq<Tagged>)
    requires Sorted(o, s)
    ensures Sorted(o, Insert(o, x, s))
    decreases |s|
  {
    var r := Insert(o, x, s);
    if s != [] && Less(o, s[0], x) {
      var tail := Insert(o, x, s[1..]);
      InsertSorted(o, x, s[1..]);
      forall j | 0 <= j < |tail|
        ensures !Less(o, tail[j], s[0])
      {
        assert tail[j] in multiset(tail);
        if tail[j] != x {
          assert tail[j] in multiset(s[1..]);
          var k :| 0 <= k < |s[1..]| && s[1..][k] == tail[j];
          assert s[k + 1] == tail[j];
        } else {
          LessOrder(o, s[0], x, x);
        }
      }
      assert r == [s[0]] + tail;
      forall i, j | 0 <= i < j < |r|
        ensures !Less(o, r[j], r[i])
      {
        if i > 0 {
          assert r[i] == tail[i - 1] && r[j] == tail[j - 1];
        } else {
          assert r[j] == tail[j - 1];
        }
      }
    } else if s != [] {
      forall i, j | 0 <= i < j < |r|
        ensures !Less(o, r[j], r[i])
      {
        if i == 0 {
          assert r[j] == s[j - 1];
          LessOrder(o, x, s[0], s[j - 1]);
        } else {
          assert r[i] == s[i - 1] && r[j] == s[j - 1];
        }
      }
    }
  }

  lemma {:induction false} SortSorted(o: Order, s: seq<Tagged>)
    ensures Sorted(o, Sort(o, s))
  {
    if s != [] {
      SortSorted(o, s[1..]);
      InsertSorted(o, s[0], Sort(o, s[1..]));
    }
  }

  /** No element occurs twice. */
  predicate NoDup(s: seq<Tagged>)
  {
    forall i, j :: 0 <= i < j < |s| ==> s[i] != s[j]
  }

  /** A sorted sequence without repeated elements is strictly sorted in the
      triple order. */
  lemma SortedStrict(s: seq<Tagged>)
    requires Sorted(ByChar, s) && NoDup(s)
    ensures StrictlySorted(ByChar, s)
  {
    forall i, j | 0 <= i < j < |s|
      ensures Less(ByChar, s[i], s[j])
    {
      CharTotal(s[i], s[j]);
    }
  }

  /** Two strictly sorted sequences with the same elements are equal. */
  lemma {:induction false} SortedUnique(o: Order, a: seq<Tagged>, b: seq<Tagged>)
    requires StrictlySorted(o, a) && StrictlySorted(o, b)
    requires forall x :: x in a <==> x in b
    ensures a == b
    decreases |a|
  {
    if a != [] {
      assert a[0] in a;
    }
    if b != [] {
      assert b[0] in b;
    }
    if a != [] && b != [] {
      var k :| 0 <= k < |b| && b[k] == a[0];
      var m :| 0 <= m < |a| && a[m] == b[0];
      assert k == 0 || Less(o, b[0], a[0]);
      assert m == 0 || Less(o, a[0], b[0]);
      LessOrder(o, a[0], b[0], b[0]);
      assert a[0] == b[0];
      forall x
        ensures x in a[1..] <==> x in b[1..]
      {
        if x in a[1..] {
          var i :| 0 <= i < |a[1..]| && a[1..][i] == x;
          assert Less(o, a[0], a[i + 1]);
          LessOrder(o, x, x, x);
          assert x != b[0] && x in a;
          var j :| 0 <= j < |b| && b[j] == x;
          assert b[1..][j - 1] == x;
        }
        if x in b[1..] {
          var i :| 0 <= i < |b[1..]| && b[1..][i] == x;
          assert Less(o, b[0], b[i + 1]);
          LessOrder(o, x, x, x);
          assert x != a[0] && x in b;
          var j :| 0 <= j < |a| && a[j] == x;
          assert a[1..][j - 1] == x;
        }
      }
      SortedUnique(o, a[1..], b[1..]);
    }
  }

  /** A repeated element counts twice. */
  lemma TwiceCounted(s: seq<Tagged>, i: nat, j: nat)
    requires i < j < |s| && s[i] == s[j]
    ensures multiset(s)[s[i]] >= 2
  {
    assert s == s[..j] + s[j..];
    assert s[i] == s[..j][i];
    assert s[j..][0] == s[j];
    assert multiset(s) == multiset(s[..j]) + multiset(s[j..]);
  }

  /** Without repetition every element counts once. */
  lemma {:induction false} OnceCounted(s: seq<Tagged>, x: Tagged)
    requires NoDup(s)
    ensures multiset(s)[x] <= 1
  {
    if s != [] {
      var n := |s| - 1;
      var init := s[..n];
      assert s == init + [s[n]];
      assert NoDup(init) by {
        forall i, j | 0 <= i < j < |init|
          ensures init[i] != init[j]
        {
          assert init[i] == s[i] && init[j] == s[j];
        }
      }
      OnceCounted(init, x);
      assert s[n] !in init by {
        forall i | 0 <= i < |init|
          ensures init[i] != s[n]
        {
          assert init[i] == s[i];
        }
      }
    }
  }

  /** Permutations keep a sequence free of repetition. */
  lemma NoDupPerm(s: seq<Tagged>, r: seq<Tagged>)
    requires NoDup(s) && multiset(s) == multiset(r)
    ensures NoDup(r)
  {
    forall i, j | 0 <= i < j < |r|
      ensures r[i] != r[j]
    {
      if r[i] == r[j] {
        TwiceCounted(r, i, j);
        OnceCounted(s, r[i]);
      }
    }
  }

  /** `dedup_by_key(|x| x.0)`: of every run of neighbours with the same
      character, only the first stays. */
  function Dedup(s: seq<Tagged>): (r: seq<Tagged>)
    ensures |r| <= |s|
    decreases |s|
  {
    if |s| <= 1 then s
    else if s[0].ch == s[1].ch then Dedup([s[0]] + s[2..])
    else [s[0]] + Dedup(s[1..])
  }

  /** No character occurs twice. */
  predicate Distinct(cs: seq<char>)
  {
    forall i, j :: 0 <= i < j < |cs| ==> cs[i] != cs[j]
  }

  /** Characters strictly ascending. */
  predicate Ascending(s: seq<Tagged>)
  {
    forall i, j :: 0 <= i < j < |s| ==> s[i].ch < s[j].ch
  }

  /** `x` is the least triple with its character in `s`. */
  predicate Least(s: seq<Tagged>, x: Tagged)
  {
    forall y :: y in s && y.ch == x.ch ==> !Less(ByChar, y, x)
  }

  /** Dropping the first or the second element keeps a list sorted. */
  lemma SortedSkip(s: seq<Tagged>)
    requires Sorted(ByChar, s) && |s| > 1
    ensures Sorted(ByChar, [s[0]] + s[2..]) && Sorted(ByChar, s[1..])
  {
    var s', tail := [s[0]] + s[2..], s[1..];
    forall i, j | 0 <= i < j < |s'|
      ensures !Less(ByChar, s'[j], s'[i])
    {
      if i == 0 {
        assert s'[j] == s[j + 1];
      } else {
        assert s'[i] == s[i + 1] && s'[j] == s[j + 1];
      }
    }
    forall i, j | 0 <= i < j < |tail|
      ensures !Less(ByChar, tail[j], tail[i])
    {
      assert tail[i] == s[i + 1] && tail[j] == s[j + 1];
    }
  }

  /** In a sorted list whose first two characters differ, the first
      character is below every later one. */
  lemma SortedAbove(s: seq<Tagged>)
    requires Sorted(ByChar, s) && |s| > 1 && s[0].ch != s[1].ch
    ensures forall y :: y in s[1..] ==> s[0].ch < y.ch
  {
    forall y | y in s[1..]
      ensures s[0].ch < y.ch
    {
      var j :| 0 <= j < |s[1..]| && s[1..][j] == y;
      assert !Less(ByChar, s[1], s[0]);
      assert !Less(ByChar, s[j + 1], s[1]);
    }
  }

  /** After the sort, deduplication keeps, of each character, exactly its
      least triple. */
  lemma {:induction false} DedupMembers(s: seq<Tagged>)
    requires Sorted(ByChar, s)
    ensures forall x :: x in Dedup(s) <==> x in s && Least(s, x)
    decreases |s|
  {
    if |s| <= 1 {
      forall x | x in s
        ensures Least(s, x)
      {
        LessOrder(ByChar, x, x, x);
      }
    } else if s[0].ch == s[1].ch {
      var s' := [s[0]] + s[2..];
      assert s == [s[0], s[1]] + s[2..];
      SortedSkip(s);
      DedupMembers(s');
      assert !Less(ByChar, s[1], s[0]);
      forall x
        ensures x in s' && Least(s', x) <==> x in s && Least(s, x)
      {
        if x in s' && Least(s', x) && x.ch == s[1].ch {
          LessOrder(ByChar, x, s[0], s[1]);
        }
        if x in s && Least(s, x) && x == s[1] {
          CharTotal(s[0], s[1]);
        }
      }
    } else {
      var tail := s[1..];
      SortedSkip(s);
      DedupMembers(tail);
      SortedAbove(s);
      LessOrder(ByChar, s[0], s[0], s[0]);
      assert s == [s[0]] + tail;
    }
  }

  /** After the sort, deduplication leaves the characters strictly
      ascending. */
  lemma {:induction false} DedupAscending(s: seq<Tagged>)
    requires Sorted(ByChar, s)
    ensures Ascending(Dedup(s))
    decreases |s|
  {
    if |s| > 1 {
      SortedSkip(s);
      if s[0].ch == s[1].ch {
        DedupAscending([s[0]] + s[2..]);
      } else {
        var tail := s[1..];
        DedupAscending(tail);
        DedupWithin(tail);
        SortedAbove(s);
        AscendingCons(s[0], Dedup(tail));
      }
    }
  }

  /** Deduplication keeps only elements of its input. */
  lemma {:induction false} DedupWithin(s: seq<Tagged>)
    ensures forall x :: x in Dedup(s) ==> x in s
    decreases |s|
  {
    if |s| > 1 {
      if s[0].ch == s[1].ch {
        DedupWithin([s[0]] + s[2..]);
      } else {
        DedupWithin(s[1..]);
      }
    }
  }

  /** A character below all of an ascending list's can go in front. */
  lemma AscendingCons(x: Tagged, s: seq<Tagged>)
    requires Ascending(s) && forall y :: y in s ==> x.ch < y.ch
    ensures Ascending([x] + s)
  {
    var r := [x] + s;
    forall i, j | 0 <= i < j < |r|
      ensures r[i].ch < r[j].ch
    {
      assert r[j] == s[j - 1] && s[j - 1] in s;
      if i > 0 {
        assert r[i] == s[i - 1];
      }
    }
  }

  /** The characters of a list of triples. */
  function Chars(s: seq<Tagged>): (r: seq<char>)
    ensures |r| == |s| && forall i :: 0 <= i < |s| ==> r[i] == s[i].ch
  {
    seq(|s|, i requires 0 <= i < |s| => s[i].ch)
  }

  /** The triples `(cs[i], fin, i)` of one block. */
  function Tag(cs: seq<char>, fin: bool): seq<Tagged>
  {
    seq(|cs|, i requires 0 <= i < |cs| => Tagged(cs[i], fin, i))
  }

  /** `partition_point(|x| x.1)` on a list whose final entries come first:
      the number of leading final entries. */
  function FinPrefix(s: seq<Tagged>): (n: nat)
    ensures n <= |s|
    ensures forall i :: 0 <= i < n ==> s[i].fin
    ensures n < |s| ==> !s[n].fin
  {
    if s != [] && s[0].fin then 1 + FinPrefix(s[1..]) else 0
  }
}
