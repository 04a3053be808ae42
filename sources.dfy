/** Reading a table file (build.rs): comment lines are dropped, the lines
    up to the first `----` are documentation, then come the alphabet size,
    another `----`, the lines of the initial alphabet up to the next
    `----`, and the lines of the final alphabet. */
module Sources {
  import opened Wrappers
  import opened Bits

  const SEPARATOR: string := "----"

  /** `l.starts_with("-- ")`. */
  predicate IsComment(l: string)
  {
    |l| >= 3 && l[..3] == "-- "
  }

  /** `filter(|l| !l.starts_with("-- "))`. */
  function Uncommented(lines: seq<string>): (r: seq<string>)
    ensures forall l :: l in r <==> l in lines && !IsComment(l)
  {
    if lines == [] then []
    else (if IsComment(lines[0]) then [] else [lines[0]]) + Uncommented(lines[1..])
  }

  /** Dropping comments twice drops nothing more. */
  lemma {:induction false} UncommentedIdempotent(lines: seq<string>)
    ensures Uncommented(Uncommented(lines)) == Uncommented(lines)
  {
    if lines != [] {
      UncommentedIdempotent(lines[1..]);
      var head := if IsComment(lines[0]) then [] else [lines[0]];
      UncommentedAppend(head, Uncommented(lines[1..]));
      if !IsComment(lines[0]) {
        assert Uncommented(head) == head by {
          assert head[1..] == [];
        }
      }
    }
  }

  lemma {:induction false} UncommentedAppend(a: seq<string>, b: seq<string>)
    ensures Uncommented(a + b) == Uncommented(a) + Uncommented(b)
  {
    if a == [] {
      assert a + b == b;
    } else {
      assert (a + b)[1..] == a[1..] + b;
      UncommentedAppend(a[1..], b);
    }
  }

  /** `take_while(|l| l != "----")` on an iterator used again afterwards:
      the lines before the first separator, and the lines after it (the
      separator itself is consumed). */
  function SplitAtSeparator(lines: seq<string>): (r: (seq<string>, seq<string>))
    ensures SEPARATOR !in r.0
    ensures SEPARATOR in lines ==> lines == r.0 + [SEPARATOR] + r.1
    ensures SEPARATOR !in lines ==> r.0 == lines && r.1 == []
  {
    if lines == [] then ([], [])
    else if lines[0] == SEPARATOR then ([], lines[1..])
    else
      var r := SplitAtSeparator(lines[1..]);
      assert lines == [lines[0]] + lines[1..];
      ([lines[0]] + r.0, r.1)
  }

  /** `flat_map(str::chars)`: the characters of the lines, one after the
      other (line breaks are not characters of a line). */
  function Flatten(lines: seq<string>): seq<char>
  {
    if lines == [] then [] else lines[0] + Flatten(lines[1..])
  }

  predicate IsDigit(c: char)
  {
    '0' <= c <= '9'
  }

  predicate AllDigits(s: string)
  {
    forall i :: 0 <= i < |s| ==> IsDigit(s[i])
  }

  /** The value of a string of decimal digits. */
  function DecimalValue(ds: string): nat
    requires AllDigits(ds)
  {
    if ds == [] then 0
    else 10 * DecimalValue(ds[..|ds| - 1]) + (ds[|ds| - 1] as int - '0' as int)
  }

  /** `str::parse::<usize>`: an optional `+`, then at least one ASCII digit
      and nothing else, with a value that fits in 64 bits. */
  function ParseSize(s: string): (r: Option<nat>)
    ensures r.Some? ==> r.value <= USIZE_MAX
  {
    var ds := if |s| > 0 && s[0] == '+' then s[1..] else s;
    if ds == [] || !AllDigits(ds) then None
    else if DecimalValue(ds) <= USIZE_MAX then Some(DecimalValue(ds))
    else None
  }

  /** `n` in decimal, without leading zeros. */
  function Decimal(n: nat): (r: string)
    ensures |r| > 0 && AllDigits(r)
  {
    var d := [(n % 10 + '0' as int) as char];
    if n < 10 then d else Decimal(n / 10) + d
  }

  lemma {:induction false} DecimalValueOf(n: nat)
    ensures DecimalValue(Decimal(n)) == n
  {
    var r := Decimal(n);
    if n >= 10 {
      DecimalValueOf(n / 10);
      assert r[..|r| - 1] == Decimal(n / 10);
    }
  }

  /** The size line a table file states its size with parses back to that
      size, with or without a leading `+`. */
  lemma ParseDecimal(n: nat)
    requires n <= USIZE_MAX
    ensures ParseSize(Decimal(n)) == Some(n)
    ensures ParseSize("+" + Decimal(n)) == Some(n)
  {
    DecimalValueOf(n);
    assert ("+" + Decimal(n))[1..] == Decimal(n);
  }

  /** A line that is not a number is refused: an empty line, a lone sign,
      or any character other than a digit after the optional `+`. */
  lemma ParseRefuses(s: string)
    ensures s == [] || s == "+" ==> ParseSize(s) == None
    ensures |s| > 0 && s[0] == '-' ==> ParseSize(s) == None
    ensures (exists i :: 0 < i < |s| && !IsDigit(s[i])) ==> ParseSize(s) == None
  {
    if exists i :: 0 < i < |s| && !IsDigit(s[i]) {
      var i :| 0 < i < |s| && !IsDigit(s[i]);
      if s[0] == '+' {
        assert s[1..][i - 1] == s[i];
      } else {
        assert !IsDigit(s[i]);
      }
    }
    if |s| > 0 && s[0] == '-' {
      assert !IsDigit(s[0]);
    }
  }

  /** `n.ilog2()` for `n >= 1`. */
  function Log2(n: nat): nat
    requires n >= 1
  {
    if n == 1 then 0 else 1 + Log2(n / 2)
  }

  /** `n.is_power_of_two()`. */
  predicate IsPowerOfTwo(n: nat)
  {
    n >= 1 && Pow2(Log2(n)) == n
  }

  lemma {:induction false} Log2Pow2(k: nat)
    ensures Log2(Pow2(k)) == k
  {
    if k > 0 {
      Log2Pow2(k - 1);
      assert Pow2(k) / 2 == Pow2(k - 1);
    }
  }

  /** The powers of two are exactly the numbers `2^k`, and `ilog2` gives
      their `k` back. */
  lemma PowerOfTwo(n: nat, k: nat)
    ensures n == Pow2(k) ==> IsPowerOfTwo(n) && Log2(n) == k
    ensures IsPowerOfTwo(n) ==> n == Pow2(Log2(n))
  {
    if n == Pow2(k) {
      Log2Pow2(k);
    }
  }

  /** The reasons the compiler stops on a table file. */
  datatype BuildError =
    | MissingLine                                  // a `lines.next().unwrap()` with no line left
    | NotANumber(line: string)                     // the size line does not parse
    | NotPowerOfTwo(size: nat)
    | WidthOutOfRange(bits: nat)
    | NoSeparator(line: string)                    // the line after the size is not `----`
    | CountMismatch(expected: nat, found: nat)     // distinct characters against `size + fin_size`
    | FinalCountMismatch(expected: nat, found: nat) // final characters against `fin_size`

  /** What a table file states: its documentation lines, the code width,
      and the characters of the initial and the final block. */
  datatype Source = Source(docs: seq<string>, bits: nat, init: seq<char>, fini: seq<char>)

  /** The reading steps of build.rs up to the tagging. */
  function ReadSource(lines: seq<string>): (r: Result<Source, BuildError>)
    ensures r.Ok? ==> 1 <= r.value.bits <= 15
  {
    var split := SplitAtSeparator(Uncommented(lines));
    var docs, rest := split.0, split.1;
    if rest == [] then Err(MissingLine)
    else
      var size := ParseSize(rest[0]);
      if size.None? then Err(NotANumber(rest[0]))
      else if !IsPowerOfTwo(size.value) then Err(NotPowerOfTwo(size.value))
      else
        var bits := Log2(size.value);
        if !(0 < bits < 16) then Err(WidthOutOfRange(bits))
        else if |rest| < 2 then Err(MissingLine)
        else if rest[1] != SEPARATOR then Err(NoSeparator(rest[1]))
        else
          var blocks := SplitAtSeparator(rest[2..]);
          Ok(Source(docs, bits, Flatten(blocks.0), Flatten(blocks.1)))
  }

  /** No line of `lines` is a separator or a comment. */
  predicate Plain(lines: seq<string>)
  {
    forall i :: 0 <= i < |lines| ==> lines[i] != SEPARATOR && !IsComment(lines[i])
  }

  lemma {:induction false} UncommentedPlain(lines: seq<string>)
    requires forall i :: 0 <= i < |lines| ==> !IsComment(lines[i])
    ensures Uncommented(lines) == lines
  {
    if lines != [] {
      UncommentedPlain(lines[1..]);
    }
  }

  /** The layout of a table file: `docs`, `----`, the size `2^bits`, `----`,
      the initial lines, `----` and the final lines reads back as exactly
      those parts. */
  lemma ReadLayout(docs: seq<string>, bits: nat, init: seq<string>, fini: seq<string>)
    requires 1 <= bits <= 15 && Plain(docs) && Plain(init)
    requires forall i :: 0 <= i < |fini| ==> !IsComment(fini[i])
    ensures ReadSource(docs + [SEPARATOR, Decimal(Pow2(bits)), SEPARATOR] + init + [SEPARATOR] + fini)
      == Ok(Source(docs, bits, Flatten(init), Flatten(fini)))
  {
    var size := Decimal(Pow2(bits));
    var body := init + [SEPARATOR] + fini;
    var rest := [size, SEPARATOR] + body;
    assert rest[2..] == body;
    var lines := docs + [SEPARATOR] + rest;
    assert lines == docs + [SEPARATOR, size, SEPARATOR] + init + [SEPARATOR] + fini;
    LayoutUncommented(docs, size, init, fini);
    SplitUnique(docs, rest);
    assert rest[0] == size && rest[1] == SEPARATOR;
    SizeLine(bits);
    SplitUnique(init, fini);
  }

  lemma Pow2Small(bits: nat)
    requires bits <= 15
    ensures Pow2(bits) <= 0x8000
  {
    Pow2Monotone(bits, 15);
    assert Pow2(15) == 0x8000;
  }

  /** The size line of a well-formed file passes the size checks. */
  lemma SizeLine(bits: nat)
    requires 1 <= bits <= 15
    ensures ParseSize(Decimal(Pow2(bits))) == Some(Pow2(bits))
    ensures IsPowerOfTwo(Pow2(bits)) && Log2(Pow2(bits)) == bits
  {
    Pow2Small(bits);
    ParseDecimal(Pow2(bits));
    PowerOfTwo(Pow2(bits), bits);
  }

  lemma LayoutUncommented(docs: seq<string>, size: string, init: seq<string>, fini: seq<string>)
    requires Plain(docs) && Plain(init) && AllDigits(size) && |size| > 0
    requires forall i :: 0 <= i < |fini| ==> !IsComment(fini[i])
    ensures var lines := docs + [SEPARATOR] + ([size, SEPARATOR] + (init + [SEPARATOR] + fini));
      Uncommented(lines) == lines
  {
    var lines := docs + [SEPARATOR] + ([size, SEPARATOR] + (init + [SEPARATOR] + fini));
    assert IsDigit(size[0]);
    assert !IsComment(SEPARATOR) by {
      assert SEPARATOR[..3][2] == '-';
    }
    forall i | 0 <= i < |lines|
      ensures !IsComment(lines[i])
    {
      if i == |docs| + 1 {
        assert lines[i][0] == size[0];
      } else if i < |docs| {
        assert lines[i] == docs[i];
      } else if |docs| + 3 <= i < |docs| + 3 + |init| {
        assert lines[i] == init[i - |docs| - 3];
      } else if i >= |docs| + 4 + |init| {
        assert lines[i] == fini[i - |docs| - 4 - |init|];
      }
    }
    UncommentedPlain(lines);
  }

  /** The split at the first separator is determined by the lines before it. */
  lemma {:induction false} SplitUnique(a: seq<string>, b: seq<string>)
    requires SEPARATOR !in a
    ensures SplitAtSeparator(a + [SEPARATOR] + b) == (a, b)
  {
    if a == [] {
      assert a + [SEPARATOR] + b == [SEPARATOR] + b;
    } else {
      assert a[0] != SEPARATOR;
      assert (a + [SEPARATOR] + b)[1..] == a[1..] + [SEPARATOR] + b;
      SplitUnique(a[1..], b);
      assert a == [a[0]] + a[1..];
    }
  }

  /** Comments are ignored wherever they stand. */
  lemma ReadIgnoresComments(lines: seq<string>)
    ensures ReadSource(Uncommented(lines)) == ReadSource(lines)
  {
    UncommentedIdempotent(lines);
  }
}
