/** The table compiler of build.rs from the moment a file is read to the
    `Table` value it describes: tagging, sorting and deduplicating the
    characters, the count checks, the split into the two alphabets, the
    reindexing and the decode index.

    What the pipeline computes is stated without sorts: the initial
    alphabet is the characters of the initial block in the order of their
    first occurrence, and the final alphabet the characters of the final
    block that are not initial ones, in the same way (`FirstSeen`). */
module Build {
  import opened Wrappers
  import opened Bits
  import opened Tables
  import opened Candidates
  import opened Buckets
  import opened Sources

  /** `cs[i]` does not occur before position `i`. */
  predicate FirstAt(cs: seq<char>, i: nat)
    requires i < |cs|
  {
    cs[i] !in cs[..i]
  }

  /** The characters of `cs` not in `excl`, each once, in the order of
      their first occurrence. */
  function FirstSeen(cs: seq<char>, excl: seq<char>): seq<char>
  {
    if cs == [] then []
    else
      var n := |cs| - 1;
      FirstSeen(cs[..n], excl) + (if cs[n] !in cs[..n] && cs[n] !in excl then [cs[n]] else [])
  }

  /** The triples `(cs[i], fin, i)` of those first occurrences in `cs[..n]`. */
  function Picks(cs: seq<char>, fin: bool, excl: seq<char>, n: nat): (r: seq<Tagged>)
    requires n <= |cs|
  {
    if n == 0 then []
    else
      Picks(cs, fin, excl, n - 1)
        + (if FirstAt(cs, n - 1) && cs[n - 1] !in excl then [Tagged(cs[n - 1], fin, n - 1)] else [])
  }

  lemma {:induction false} PicksMembers(cs: seq<char>, fin: bool, excl: seq<char>, n: nat)
    requires n <= |cs|
    ensures forall x :: x in Picks(cs, fin, excl, n) <==>
      x.fin == fin && x.idx < n && x.ch == cs[x.idx] && FirstAt(cs, x.idx) && x.ch !in excl
  {
    if n > 0 {
      PicksMembers(cs, fin, excl, n - 1);
    }
  }

  /** The picks come in the order of their positions. */
  lemma {:induction false} PicksSorted(cs: seq<char>, fin: bool, excl: seq<char>, n: nat)
    requires n <= |cs|
    ensures StrictlySorted(ByTag, Picks(cs, fin, excl, n))
  {
    if n > 0 {
      PicksSorted(cs, fin, excl, n - 1);
      PicksMembers(cs, fin, excl, n - 1);
      var p := Picks(cs, fin, excl, n - 1);
      var r := Picks(cs, fin, excl, n);
      forall i, j | 0 <= i < j < |r|
        ensures Less(ByTag, r[i], r[j])
      {
        if j < |p| {
          assert r[i] == p[i] && r[j] == p[j];
        } else {
          assert r[i] == p[i] && p[i] in p;
        }
      }
    }
  }

  lemma {:induction false} PicksChars(cs: seq<char>, fin: bool, excl: seq<char>, n: nat)
    requires n <= |cs|
    ensures Chars(Picks(cs, fin, excl, n)) == FirstSeen(cs[..n], excl)
  {
    if n > 0 {
      PicksChars(cs, fin, excl, n - 1);
      assert cs[..n][..n - 1] == cs[..n - 1];
    }
  }

  /** A first occurrence differs from every earlier character. */
  lemma FirstApart(cs: seq<char>, i: nat)
    requires i < |cs| && FirstAt(cs, i)
    ensures forall j :: 0 <= j < i ==> cs[j] != cs[i]
  {
    forall j | 0 <= j < i
      ensures cs[j] != cs[i]
    {
      assert cs[j] == cs[..i][j];
    }
  }

  /** The characters `FirstSeen` keeps: those of `cs` not in `excl`. */
  lemma FirstSeenMembers(cs: seq<char>, excl: seq<char>, c: char)
    ensures c in FirstSeen(cs, excl) <==> c in cs && c !in excl
  {
    var p := Picks(cs, false, excl, |cs|);
    PicksChars(cs, false, excl, |cs|);
    PicksMembers(cs, false, excl, |cs|);
    assert cs[..|cs|] == cs;
    if c in cs && c !in excl {
      var i := FirstIndex(cs, c);
      assert Tagged(c, false, i) in p;
      var k :| 0 <= k < |p| && p[k] == Tagged(c, false, i);
      assert Chars(p)[k] == c;
    }
    if c in FirstSeen(cs, excl) {
      var k :| 0 <= k < |p| && Chars(p)[k] == c;
      assert p[k] in p;
    }
  }

  /** The position of the first occurrence of `c`. */
  function FirstIndex(cs: seq<char>, c: char): (i: nat)
    requires c in cs
    ensures i < |cs| && cs[i] == c && FirstAt(cs, i)
  {
    if cs[0] == c then 0
    else
      var i := FirstIndex(cs[1..], c);
      assert cs[..i + 1] == [cs[0]] + cs[1..][..i];
      i + 1
  }

  /** `FirstSeen` lists no character twice. */
  lemma FirstSeenDistinct(cs: seq<char>, excl: seq<char>)
    ensures Distinct(FirstSeen(cs, excl))
  {
    var p := Picks(cs, false, excl, |cs|);
    PicksChars(cs, false, excl, |cs|);
    PicksMembers(cs, false, excl, |cs|);
    PicksSorted(cs, false, excl, |cs|);
    assert cs[..|cs|] == cs;
    forall i, j | 0 <= i < j < |p|
      ensures p[i].ch != p[j].ch
    {
      assert p[i] in p && p[j] in p;
      assert Less(ByTag, p[i], p[j]);
      assert cs[p[i].idx] == cs[..p[j].idx][p[i].idx];
    }
  }

  /** A block without repeated characters is kept as it is. */
  lemma {:induction false} FirstSeenOfDistinct(cs: seq<char>)
    requires Distinct(cs)
    ensures FirstSeen(cs, []) == cs
    decreases |cs|
  {
    if cs != [] {
      var n := |cs| - 1;
      DistinctFront(cs);
      FirstSeenOfDistinct(cs[..n]);
      assert cs == cs[..n] + [cs[n]];
    }
  }

  /** Dropping the last character keeps a block distinct, and that
      character does not occur before it. */
  lemma DistinctFront(cs: seq<char>)
    requires Distinct(cs) && cs != []
    ensures Distinct(cs[..|cs| - 1]) && cs[|cs| - 1] !in cs[..|cs| - 1]
  {
    var n := |cs| - 1;
    var front := cs[..n];
    forall i, j | 0 <= i < j < |front|
      ensures front[i] != front[j]
    {
      assert front[i] == cs[i] && front[j] == cs[j];
    }
    forall i | 0 <= i < n
      ensures front[i] != cs[n]
    {
      assert front[i] == cs[i];
    }
  }

  /** The list after both `extend` calls: the initial block tagged
      `(c, false, i)` followed by the final block tagged `(c, true, i)`. */
  function Tagging(init: seq<char>, fini: seq<char>): seq<Tagged>
  {
    Tag(init, false) + Tag(fini, true)
  }

  lemma TaggingMember(init: seq<char>, fini: seq<char>, x: Tagged)
    ensures x in Tagging(init, fini) <==>
      if x.fin then x.idx < |fini| && x.ch == fini[x.idx] else x.idx < |init| && x.ch == init[x.idx]
  {
    var t := Tagging(init, fini);
    if x.fin && x.idx < |fini| && x.ch == fini[x.idx] {
      assert t[|init| + x.idx] == x;
    }
    if !x.fin && x.idx < |init| && x.ch == init[x.idx] {
      assert t[x.idx] == x;
    }
    if x in t {
      var k :| 0 <= k < |t| && t[k] == x;
      if k >= |init| {
        assert x == Tag(fini, true)[k - |init|];
      }
    }
  }

  /** The least triple of each character: its first initial occurrence if
      it has one, otherwise its first final occurrence. */
  lemma Winners(init: seq<char>, fini: seq<char>, x: Tagged)
    ensures x in Tagging(init, fini) && Least(Tagging(init, fini), x) <==>
      x in Picks(init, false, [], |init|) || x in Picks(fini, true, init, |fini|)
  {
    var t := Tagging(init, fini);
    PicksMembers(init, false, [], |init|);
    PicksMembers(fini, true, init, |fini|);
    TaggingMember(init, fini, x);
    if x in t && Least(t, x) {
      if !x.fin {
        assert FirstAt(init, x.idx) by {
          forall j | 0 <= j < x.idx
            ensures init[..x.idx][j] != x.ch
          {
            TaggingMember(init, fini, Tagged(init[j], false, j));
          }
        }
      } else {
        assert x.ch !in init by {
          forall i | 0 <= i < |init|
            ensures init[i] != x.ch
          {
            TaggingMember(init, fini, Tagged(init[i], false, i));
          }
        }
        assert FirstAt(fini, x.idx) by {
          forall j | 0 <= j < x.idx
            ensures fini[..x.idx][j] != x.ch
          {
            TaggingMember(init, fini, Tagged(fini[j], true, j));
          }
        }
      }
    }
    if x in Picks(init, false, [], |init|) || x in Picks(fini, true, init, |fini|) {
      var cs := if x.fin then fini else init;
      FirstApart(cs, x.idx);
      forall y | y in t && y.ch == x.ch
        ensures !Less(ByChar, y, x)
      {
        TaggingMember(init, fini, y);
      }
    }
  }

  /** What the two sorts and the deduplication leave: the final picks,
      then the initial picks, each in the order of their positions. */
  function Survivors(init: seq<char>, fini: seq<char>): seq<Tagged>
  {
    Picks(fini, true, init, |fini|) + Picks(init, false, [], |init|)
  }

  /** Every triple of the tagging, sorted by character. */
  lemma SortedMembers(init: seq<char>, fini: seq<char>, x: Tagged)
    ensures x in Sort(ByChar, Tagging(init, fini)) <==> x in Tagging(init, fini)
  {
    var t := Tagging(init, fini);
    assert x in t <==> x in multiset(t);
    assert x in Sort(ByChar, t) <==> x in multiset(Sort(ByChar, t));
  }

  /** After `sort_unstable` and `dedup_by_key` the list holds exactly one
      triple per character: the winning one. */
  lemma DedupWinners(init: seq<char>, fini: seq<char>)
    ensures var u := Dedup(Sort(ByChar, Tagging(init, fini)));
      Ascending(u) &&
      forall x :: x in u <==> x in Picks(init, false, [], |init|) || x in Picks(fini, true, init, |fini|)
  {
    var t := Tagging(init, fini);
    var s := Sort(ByChar, t);
    SortSorted(ByChar, t);
    DedupMembers(s);
    DedupAscending(s);
    forall x
      ensures x in Dedup(s) <==> x in Picks(init, false, [], |init|) || x in Picks(fini, true, init, |fini|)
    {
      SortedMembers(init, fini, x);
      Winners(init, fini, x);
      if x in s {
        forall y | y in s && y.ch == x.ch
          ensures y in t
        {
          SortedMembers(init, fini, y);
        }
        forall y | y in t && y.ch == x.ch
          ensures y in s
        {
          SortedMembers(init, fini, y);
        }
        assert Least(s, x) <==> Least(t, x);
      }
    }
  }

  /** The survivors are strictly sorted by `(!fin, idx)`. */
  lemma SurvivorsSorted(init: seq<char>, fini: seq<char>)
    ensures StrictlySorted(ByTag, Survivors(init, fini))
  {
    var a := Picks(fini, true, init, |fini|);
    var b := Picks(init, false, [], |init|);
    var s := a + b;
    PicksSorted(fini, true, init, |fini|);
    PicksSorted(init, false, [], |init|);
    PicksMembers(fini, true, init, |fini|);
    PicksMembers(init, false, [], |init|);
    forall i, j | 0 <= i < j < |s|
      ensures Less(ByTag, s[i], s[j])
    {
      if j < |a| {
        assert s[i] == a[i] && s[j] == a[j];
      } else if i >= |a| {
        assert s[i] == b[i - |a|] && s[j] == b[j - |a|];
      } else {
        assert s[i] == a[i] && a[i] in a;
        assert s[j] == b[j - |a|] && b[j - |a|] in b;
      }
    }
  }

  /** Sorting the deduplicated list by `(!fin, idx)` gives the survivors:
      the winning final characters first, each group in the order in which
      its characters first occur. */
  lemma SurvivorsOrder(init: seq<char>, fini: seq<char>)
    ensures Sort(ByTag, Dedup(Sort(ByChar, Tagging(init, fini)))) == Survivors(init, fini)
  {
    var u := Dedup(Sort(ByChar, Tagging(init, fini)));
    var o := Sort(ByTag, u);
    var v := Survivors(init, fini);
    DedupWinners(init, fini);
    PicksMembers(fini, true, init, |fini|);
    PicksMembers(init, false, [], |init|);
    SortSorted(ByTag, u);
    assert NoDup(u) by {
      forall i, j | 0 <= i < j < |u|
        ensures u[i] != u[j]
      {
        assert u[i].ch < u[j].ch;
      }
    }
    NoDupPerm(u, o);
    forall x
      ensures x in o <==> x in v
    {
      assert x in o <==> x in multiset(o);
      assert x in u <==> x in multiset(u);
    }
    forall i, j | 0 <= i < j < |o|
      ensures Less(ByTag, o[i], o[j])
    {
      assert o[i] in o && o[j] in o;
      assert o[i] != o[j];
      assert !Less(ByTag, o[j], o[i]);
    }
    SurvivorsSorted(init, fini);
    SortedUnique(ByTag, o, v);
  }

  /** `partition_point(|x| x.1)` on the survivors finds the end of the
      final group. */
  lemma SurvivorsSplit(init: seq<char>, fini: seq<char>)
    ensures FinPrefix(Survivors(init, fini)) == |Picks(fini, true, init, |fini|)|
  {
    var a := Picks(fini, true, init, |fini|);
    var b := Picks(init, false, [], |init|);
    PicksMembers(fini, true, init, |fini|);
    PicksMembers(init, false, [], |init|);
    FinPrefixSplit(a, b);
  }

  lemma {:induction false} FinPrefixSplit(a: seq<Tagged>, b: seq<Tagged>)
    requires forall x :: x in a ==> x.fin
    requires forall x :: x in b ==> !x.fin
    ensures FinPrefix(a + b) == |a|
  {
    if a == [] {
      assert a + b == b;
      if b != [] {
        assert b[0] in b;
      }
    } else {
      assert (a + b)[1..] == a[1..] + b;
      assert a[0] in a;
      FinPrefixSplit(a[1..], b);
    }
  }

  /** A compiled table file: its documentation and its table. */
  datatype Compiled = Compiled(docs: seq<string>, table: Table)

  /** What build.rs makes of a read file, stated without the sorts: the
      initial alphabet is `FirstSeen(init)`, the final one the final
      block's characters that are not initial, and the file is refused
      when their numbers are not `size + fin_size` and `fin_size`. */
  function Outcome(src: Source): (r: Result<Compiled, BuildError>)
    requires 1 <= src.bits <= 15
  {
    var init := FirstSeen(src.init, []);
    var fini := FirstSeen(src.fini, src.init);
    var size, finSize := Pow2(src.bits), FinSize(src.bits);
    if |fini| + |init| != size + finSize then Err(CountMismatch(size + finSize, |fini| + |init|))
    else if |fini| != finSize then Err(FinalCountMismatch(finSize, |fini|))
    else
      WithBound(src.bits);
      Ok(Compiled(src.docs, Table(src.bits, fini, init, Index(fini, init))))
  }

  /** The outcome when the deduplicated list has the wrong length. */
  lemma OutcomeCount(src: Source, n: nat)
    requires 1 <= src.bits <= 15
    requires n == |FirstSeen(src.fini, src.init)| + |FirstSeen(src.init, [])|
    requires n != Pow2(src.bits) + FinSize(src.bits)
    ensures Outcome(src) == Err(CountMismatch(Pow2(src.bits) + FinSize(src.bits), n))
  {
  }

  /** The outcome when the final group has the wrong length. */
  lemma OutcomeFinalCount(src: Source, mid: nat)
    requires 1 <= src.bits <= 15
    requires mid == |FirstSeen(src.fini, src.init)|
    requires mid + |FirstSeen(src.init, [])| == Pow2(src.bits) + FinSize(src.bits)
    requires mid != FinSize(src.bits)
    ensures Outcome(src) == Err(FinalCountMismatch(FinSize(src.bits), mid))
  {
  }

  /** The outcome when both counts are right. */
  lemma OutcomeTable(src: Source, fini: seq<char>, init: seq<char>)
    requires 1 <= src.bits <= 15
    requires fini == FirstSeen(src.fini, src.init) && init == FirstSeen(src.init, [])
    requires |fini| == FinSize(src.bits) && |init| == Pow2(src.bits)
    ensures |fini| <= FLAG && |init| <= FLAG
    ensures Outcome(src) == Ok(Compiled(src.docs, Table(src.bits, fini, init, Index(fini, init))))
  {
    WithBound(src.bits);
  }

  /** The two alphabets share no character. */
  lemma AlphabetsApart(src: Source)
    ensures Distinct(FirstSeen(src.fini, src.init) + FirstSeen(src.init, []))
  {
    var fini := FirstSeen(src.fini, src.init);
    var init := FirstSeen(src.init, []);
    var cs := fini + init;
    FirstSeenDistinct(src.fini, src.init);
    FirstSeenDistinct(src.init, []);
    forall i, j | 0 <= i < j < |cs|
      ensures cs[i] != cs[j]
    {
      if j < |fini| {
        assert cs[i] == fini[i] && cs[j] == fini[j];
      } else if i >= |fini| {
        assert cs[i] == init[i - |fini|] && cs[j] == init[j - |fini|];
      } else {
        assert cs[i] == fini[i] && cs[j] == init[j - |fini|];
        FirstSeenMembers(src.fini, src.init, cs[i]);
        FirstSeenMembers(src.init, [], cs[j]);
      }
    }
  }

  /** Every table the compiler accepts is well-formed. */
  lemma OutcomeValid(src: Source)
    requires 1 <= src.bits <= 15 && Outcome(src).Ok?
    ensures Valid(Outcome(src).value.table)
  {
    AlphabetsApart(src);
    IndexValid(src.bits, FirstSeen(src.fini, src.init), FirstSeen(src.init, []));
  }

  /** Which character ends up where: every character of the initial block
      is initial, a character of the final block is final exactly when it
      is not in the initial block, and no other character is listed. */
  lemma OutcomeAlphabets(src: Source, c: char)
    requires 1 <= src.bits <= 15 && Outcome(src).Ok?
    ensures c in Outcome(src).value.table.init <==> c in src.init
    ensures c in Outcome(src).value.table.fini <==> c in src.fini && c !in src.init
  {
    FirstSeenMembers(src.init, [], c);
    FirstSeenMembers(src.fini, src.init, c);
  }

  /** After the deduplication the list has one triple per character of the
      two alphabets. */
  lemma DedupCount(src: Source)
    ensures |Dedup(Sort(ByChar, Tagging(src.init, src.fini)))|
      == |FirstSeen(src.fini, src.init)| + |FirstSeen(src.init, [])|
  {
    var u := Dedup(Sort(ByChar, Tagging(src.init, src.fini)));
    SurvivorsOrder(src.init, src.fini);
    assert |Sort(ByTag, u)| == |multiset(Sort(ByTag, u))| == |multiset(u)| == |u|;
    SurvivorsCount(src);
  }

  /** The survivors are as many as the two alphabets' characters. */
  lemma SurvivorsCount(src: Source)
    ensures |Survivors(src.init, src.fini)| == |FirstSeen(src.fini, src.init)| + |FirstSeen(src.init, [])|
  {
    PicksChars(src.fini, true, src.init, |src.fini|);
    PicksChars(src.init, false, [], |src.init|);
    assert src.fini[..|src.fini|] == src.fini && src.init[..|src.init|] == src.init;
  }

  /** The survivors: the final alphabet's triples come first, flagged final,
      then the initial alphabet's, and the partition point is the size of
      the final alphabet. */
  lemma SurvivorsShape(src: Source, v: seq<Tagged>)
    requires v == Survivors(src.init, src.fini)
    ensures var fini, init := FirstSeen(src.fini, src.init), FirstSeen(src.init, []);
      && FinPrefix(v) == |fini| && |v| == |fini| + |init|
      && Chars(v[..|fini|]) == fini && Chars(v[|fini|..]) == init
      && (forall k :: 0 <= k < |fini| ==> v[k].fin)
      && (forall k :: |fini| <= k < |v| ==> !v[k].fin)
  {
    var a := Picks(src.fini, true, src.init, |src.fini|);
    var b := Picks(src.init, false, [], |src.init|);
    PicksChars(src.fini, true, src.init, |src.fini|);
    PicksChars(src.init, false, [], |src.init|);
    assert src.fini[..|src.fini|] == src.fini && src.init[..|src.init|] == src.init;
    SurvivorsSplit(src.init, src.fini);
    assert v[..|a|] == a && v[|a|..] == b;
    PicksMembers(src.fini, true, src.init, |src.fini|);
    PicksMembers(src.init, false, [], |src.init|);
    FlagsSplit(a, b);
  }

  /** In a final group followed by an initial group, an entry is final
      exactly when it lies in the first group. */
  lemma FlagsSplit(a: seq<Tagged>, b: seq<Tagged>)
    requires forall x :: x in a ==> x.fin
    requires forall x :: x in b ==> !x.fin
    ensures forall k :: 0 <= k < |a + b| ==> (k < |a| <==> (a + b)[k].fin)
  {
    var v := a + b;
    forall k | 0 <= k < |v|
      ensures k < |a| <==> v[k].fin
    {
      if k < |a| {
        assert v[k] == a[k] && a[k] in a;
      } else {
        assert v[k] == b[k - |a|] && b[k - |a|] in b;
      }
    }
  }

  /** Reindexing a list whose first `mid` entries are the final ones gives
      `Retag` of its two groups' characters. */
  lemma Reindexed(s: seq<Tagged>, mid: nat, data: seq<Tagged>)
    requires mid <= |s| && |data| == |s|
    requires forall k :: 0 <= k < mid ==> s[k].fin
    requires forall k :: mid <= k < |s| ==> !s[k].fin
    requires forall k :: 0 <= k < |s| ==> data[k].ch == s[k].ch && data[k].fin == s[k].fin
    requires forall k :: 0 <= k < mid ==> data[k].idx == k
    requires forall k :: mid <= k < |s| ==> data[k].idx == k - mid
    ensures data == Retag(Chars(s[..mid]), Chars(s[mid..]))
    ensures Chars(data[..mid]) == Chars(s[..mid]) && Chars(data[mid..]) == Chars(s[mid..])
  {
    var r := Retag(Chars(s[..mid]), Chars(s[mid..]));
    forall k | 0 <= k < |s|
      ensures data[k] == r[k]
    {
      if k >= mid {
        assert r[k] == Tag(Chars(s[mid..]), false)[k - mid];
      }
    }
  }

  /** The compiler as build.rs runs it on the lines of one table file. */
  method Compile(lines: seq<string>) returns (r: Result<Compiled, BuildError>)
    ensures ReadSource(lines).Err? ==> r == Err(ReadSource(lines).error)
    ensures ReadSource(lines).Ok? ==> r == Outcome(ReadSource(lines).value)
    ensures r.Ok? ==> Valid(r.value.table)
  {
    var read := ReadSource(lines);
    if read.Err? {
      return Err(read.error);
    }
    r := CompileSource(read.value);
  }

  /** The steps of build.rs on the `Vec` of triples, from the two `extend`
      calls to the fold over the planes. */
  method CompileSource(src: Source) returns (r: Result<Compiled, BuildError>)
    requires 1 <= src.bits <= 15
    ensures r == Outcome(src)
    ensures r.Ok? ==> Valid(r.value.table)
  {
    var size, finSize := Pow2(src.bits), FinSize(src.bits);
    ghost var wantFini, wantInit := FirstSeen(src.fini, src.init), FirstSeen(src.init, []);
    DedupCount(src);

    var data: seq<Tagged> := [];
    data := data + Tag(src.init, false);
    assert data == Tag(src.init, false);
    data := data + Tag(src.fini, true);
    data := Sort(ByChar, data);
    data := Dedup(data);
    assert |data| == |wantFini| + |wantInit|;
    if |data| != size + finSize {
      OutcomeCount(src, |data|);
      return Err(CountMismatch(size + finSize, |data|));
    }

    SurvivorsOrder(src.init, src.fini);
    data := Sort(ByTag, data);
    ghost var survivors := data;
    SurvivorsShape(src, survivors);
    var mid := FinPrefix(data);
    assert mid == |wantFini|;
    if mid != finSize {
      OutcomeFinalCount(src, mid);
      return Err(FinalCountMismatch(finSize, mid));
    }
    // The third check, `size == init.len()`, follows from the first two.
    assert |data| - mid == size;

    data := Reindex(data, mid);
    var fini := Chars(data[..mid]);
    var init := Chars(data[mid..]);
    Reindexed(survivors, mid, data);
    assert fini == wantFini && init == wantInit;
    OutcomeTable(src, fini, init);

    data := Sort(ByChar, data);
    RetagSmall(fini, init, data);
    var decode := Fold(data, 0);
    assert decode == Index(fini, init);
    r := Ok(Compiled(src.docs, Table(src.bits, fini, init, decode)));
    OutcomeValid(src);
  }

  /** The two `for` loops of build.rs: the final entries, then the initial
      ones, get their position within their group as index. */
  method Reindex(s: seq<Tagged>, mid: nat) returns (data: seq<Tagged>)
    requires mid <= |s|
    ensures |data| == |s|
    ensures forall k :: 0 <= k < |s| ==> data[k].ch == s[k].ch && data[k].fin == s[k].fin
    ensures forall k :: 0 <= k < mid ==> data[k].idx == k
    ensures forall k :: mid <= k < |s| ==> data[k].idx == k - mid
  {
    data := s;
    var i := 0;
    while i < mid
      invariant 0 <= i <= mid && |data| == |s|
      invariant forall k :: 0 <= k < |s| ==> data[k].ch == s[k].ch && data[k].fin == s[k].fin
      invariant forall k :: 0 <= k < i ==> data[k].idx == k
    {
      data := data[i := data[i].(idx := i)];
      i := i + 1;
    }
    i := 0;
    while i < |s| - mid
      invariant 0 <= i <= |s| - mid && |data| == |s|
      invariant forall k :: 0 <= k < |s| ==> data[k].ch == s[k].ch && data[k].fin == s[k].fin
      invariant forall k :: 0 <= k < mid ==> data[k].idx == k
      invariant forall k :: mid <= k < mid + i ==> data[k].idx == k - mid
    {
      data := data[mid + i := data[mid + i].(idx := i)];
      i := i + 1;
    }
  }
}
