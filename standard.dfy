/** The standard tables the crate registers beside its own (`BASE64`,
    `BASE64URL`, `BASE32`, `BASE32HEX`, `HEX`): their alphabets as RFC 4648
    lists them, the tables build.rs compiles from them, and the facts the
    tests of src/lib.rs check of them: each one encodes exactly as unpadded
    RFC 4648 does, and decodes its encodings back. */
module Standard {
  import opened Wrappers
  import opened Bits
  import opened Tables
  import opened Encoders
  import opened Decoders
  import opened RoundTrip
  import opened Candidates
  import opened Buckets
  import opened Sources
  import opened Build
  import opened Rfc4648

  /** Table 1 of RFC 4648 (section 4), and table 2 (section 5) with `-` and
      `_` as values 62 and 63. */
  function Base64Digit(i: nat, c62: char, c63: char): char
    requires i < 64
  {
    if i < 26 then ('A' as int + i) as char
    else if i < 52 then ('a' as int + (i - 26)) as char
    else if i < 62 then ('0' as int + (i - 52)) as char
    else if i == 62 then c62
    else c63
  }

  /** Table 3 of RFC 4648 (section 6). */
  function Base32Digit(i: nat): char
    requires i < 32
  {
    if i < 26 then ('A' as int + i) as char else ('2' as int + (i - 26)) as char
  }

  /** Table 4 of RFC 4648 (section 7). */
  function Base32HexDigit(i: nat): char
    requires i < 32
  {
    if i < 10 then ('0' as int + i) as char else ('A' as int + (i - 10)) as char
  }

  /** Table 5 of RFC 4648 (section 8), with lower-case letters. */
  function HexDigit(i: nat): char
    requires i < 16
  {
    if i < 10 then ('0' as int + i) as char else ('a' as int + (i - 10)) as char
  }

  /** The five alphabets, character `i` being digit value `i`. */
  function Base64Of(c62: char, c63: char): (r: seq<char>)
    ensures |r| == 64 && forall i :: 0 <= i < 64 ==> r[i] == Base64Digit(i, c62, c63)
  {
    seq(64, i requires 0 <= i < 64 => Base64Digit(i, c62, c63))
  }

  function Base64Chars(): seq<char>
  {
    Base64Of('+', '/')
  }

  function Base64UrlChars(): seq<char>
  {
    Base64Of('-', '_')
  }

  function Base32Chars(): (r: seq<char>)
    ensures |r| == 32 && forall i :: 0 <= i < 32 ==> r[i] == Base32Digit(i)
  {
    seq(32, i requires 0 <= i < 32 => Base32Digit(i))
  }

  function Base32HexChars(): (r: seq<char>)
    ensures |r| == 32 && forall i :: 0 <= i < 32 ==> r[i] == Base32HexDigit(i)
  {
    seq(32, i requires 0 <= i < 32 => Base32HexDigit(i))
  }

  function HexChars(): (r: seq<char>)
    ensures |r| == 16 && forall i :: 0 <= i < 16 ==> r[i] == HexDigit(i)
  {
    seq(16, i requires 0 <= i < 16 => HexDigit(i))
  }

  /** The table of an alphabet of `2^bits` characters with no final
      block, as build.rs lays it out. */
  function StandardTable(bits: nat, chars: seq<char>): (t: Table)
    requires 1 <= bits <= 8 && |chars| == Pow2(bits)
    ensures Shaped(t) && t.bits == bits && t.init == chars && t.fini == []
  {
    WithBound(bits);
    Table(bits, [], chars, Index([], chars))
  }

  lemma Sizes()
    ensures Pow2(4) == 16 && Pow2(5) == 32 && Pow2(6) == 64
  {
  }

  function Base64(): Table
  {
    Sizes();
    StandardTable(6, Base64Chars())
  }

  function Base64Url(): Table
  {
    Sizes();
    StandardTable(6, Base64UrlChars())
  }

  function Base32(): Table
  {
    Sizes();
    StandardTable(5, Base32Chars())
  }

  function Base32Hex(): Table
  {
    Sizes();
    StandardTable(5, Base32HexChars())
  }

  function Hex(): Table
  {
    Sizes();
    StandardTable(4, HexChars())
  }

  /** Every character is below U+0080. */
  predicate Ascii(cs: seq<char>)
  {
    forall i :: 0 <= i < |cs| ==> cs[i] < 128 as char
  }

  /** No standard alphabet repeats a character, and each is ASCII. */
  lemma Base64Alphabet()
    ensures Distinct(Base64Chars()) && Ascii(Base64Chars())
  {
    forall i, j | 0 <= i < j < 64
      ensures Base64Digit(i, '+', '/') != Base64Digit(j, '+', '/')
    {
    }
  }

  lemma Base64UrlAlphabet()
    ensures Distinct(Base64UrlChars()) && Ascii(Base64UrlChars())
  {
    forall i, j | 0 <= i < j < 64
      ensures Base64Digit(i, '-', '_') != Base64Digit(j, '-', '_')
    {
    }
  }

  lemma Base32Alphabet()
    ensures Distinct(Base32Chars()) && Ascii(Base32Chars())
  {
    forall i, j | 0 <= i < j < 32
      ensures Base32Digit(i) != Base32Digit(j)
    {
    }
  }

  lemma Base32HexAlphabet()
    ensures Distinct(Base32HexChars()) && Ascii(Base32HexChars())
  {
    forall i, j | 0 <= i < j < 32
      ensures Base32HexDigit(i) != Base32HexDigit(j)
    {
    }
  }

  lemma HexAlphabet()
    ensures Distinct(HexChars()) && Ascii(HexChars())
  {
    forall i, j | 0 <= i < j < 16
      ensures HexDigit(i) != HexDigit(j)
    {
    }
  }

  /** The blocks of a standard alphabet file survive deduplication as
      they are. */
  lemma StandardBlocks(bits: nat, chars: seq<char>)
    requires 1 <= bits <= 8 && Distinct(chars)
    ensures FirstSeen(chars, []) == chars && FirstSeen([], chars) == [] && FinSize(bits) == 0
  {
    FirstSeenOfDistinct(chars);
  }

  /** build.rs accepts an alphabet file whose initial block is a distinct
      alphabet of the right size and whose final block is empty, and
      compiles it to that alphabet's table. */
  lemma StandardCompiled(docs: seq<string>, bits: nat, chars: seq<char>)
    requires 1 <= bits <= 8 && |chars| == Pow2(bits) && Distinct(chars)
    ensures Outcome(Source(docs, bits, chars, [])) == Ok(Compiled(docs, StandardTable(bits, chars)))
  {
    StandardBlocks(bits, chars);
    OutcomeTable(Source(docs, bits, chars, []), [], chars);
  }

  /** The table of a distinct alphabet is well-formed, and an ASCII
      alphabet leaves U+10FFFF out. */
  lemma StandardFacts(bits: nat, chars: seq<char>)
    requires 1 <= bits <= 8 && |chars| == Pow2(bits) && Distinct(chars)
    ensures Valid(StandardTable(bits, chars))
    ensures Ascii(chars) ==> MaxChar !in chars
  {
    assert [] + chars == chars;
    IndexValid(bits, [], chars);
    if Ascii(chars) {
      forall i | 0 <= i < |chars|
        ensures chars[i] != MaxChar
      {
      }
    }
  }

  /** Each standard table is well-formed, has no final alphabet and does
      not contain U+10FFFF. */
  lemma Base64Table()
    ensures Valid(Base64()) && MaxChar !in Base64().init && Base64().fini == []
  {
    Sizes();
    Base64Alphabet();
    StandardFacts(6, Base64Chars());
  }

  lemma Base64UrlTable()
    ensures Valid(Base64Url()) && MaxChar !in Base64Url().init && Base64Url().fini == []
  {
    Sizes();
    Base64UrlAlphabet();
    StandardFacts(6, Base64UrlChars());
  }

  lemma Base32Table()
    ensures Valid(Base32()) && MaxChar !in Base32().init && Base32().fini == []
  {
    Sizes();
    Base32Alphabet();
    StandardFacts(5, Base32Chars());
  }

  lemma Base32HexTable()
    ensures Valid(Base32Hex()) && MaxChar !in Base32Hex().init && Base32Hex().fini == []
  {
    Sizes();
    Base32HexAlphabet();
    StandardFacts(5, Base32HexChars());
  }

  lemma HexTable()
    ensures Valid(Hex()) && MaxChar !in Hex().init && Hex().fini == []
  {
    Sizes();
    HexAlphabet();
    StandardFacts(4, HexChars());
  }

  /** All five standard tables are well-formed. */
  lemma StandardValid()
    ensures Valid(Base64()) && Valid(Base64Url()) && Valid(Base32()) && Valid(Base32Hex()) && Valid(Hex())
  {
    Base64Table();
    Base64UrlTable();
    Base32Table();
    Base32HexTable();
    HexTable();
  }

  /** The tests `base64`, `base32` and `base16`: every standard table
      encodes exactly as unpadded RFC 4648 does with its alphabet. */
  lemma StandardIsRfc4648(data: seq<byte>)
    ensures Encoding(Base64(), data) == Encode(Base64Chars(), 6, data)
    ensures Encoding(Base64Url(), data) == Encode(Base64UrlChars(), 6, data)
    ensures Encoding(Base32(), data) == Encode(Base32Chars(), 5, data)
    ensures Encoding(Base32Hex(), data) == Encode(Base32HexChars(), 5, data)
    ensures Encoding(Hex(), data) == Encode(HexChars(), 4, data)
  {
    EncodingIs(Base64(), data);
    EncodingIs(Base64Url(), data);
    EncodingIs(Base32(), data);
    EncodingIs(Base32Hex(), data);
    EncodingIs(Hex(), data);
  }

  /** The test `test` for the standard tables: decoding an encoding gives
      the bytes back. */
  lemma StandardRoundTrip(data: seq<byte>)
    ensures Collect(Decoding(Base64(), Encoding(Base64(), data))) == Ok(data)
    ensures Collect(Decoding(Base64Url(), Encoding(Base64Url(), data))) == Ok(data)
    ensures Collect(Decoding(Base32(), Encoding(Base32(), data))) == Ok(data)
    ensures Collect(Decoding(Base32Hex(), Encoding(Base32Hex(), data))) == Ok(data)
    ensures Collect(Decoding(Hex(), Encoding(Hex(), data))) == Ok(data)
  {
    Base64Table();
    Base64UrlTable();
    Base32Table();
    Base32HexTable();
    HexTable();
    RoundTrip.RoundTrip(Base64(), data);
    RoundTrip.RoundTrip(Base64Url(), data);
    RoundTrip.RoundTrip(Base32(), data);
    RoundTrip.RoundTrip(Base32Hex(), data);
    RoundTrip.RoundTrip(Hex(), data);
  }

  /** The test `decode_err` for the standard tables: a string ending in
      U+10FFFF yields an error item last. */
  lemma StandardDecodeErr(cs: seq<char>)
    ensures var items := Decoding(Base64(), cs + [MaxChar]);
      |items| > 0 && items[|items| - 1] == Err(MaxChar)
    ensures var items := Decoding(Base64Url(), cs + [MaxChar]);
      |items| > 0 && items[|items| - 1] == Err(MaxChar)
    ensures var items := Decoding(Base32(), cs + [MaxChar]);
      |items| > 0 && items[|items| - 1] == Err(MaxChar)
    ensures var items := Decoding(Base32Hex(), cs + [MaxChar]);
      |items| > 0 && items[|items| - 1] == Err(MaxChar)
    ensures var items := Decoding(Hex(), cs + [MaxChar]);
      |items| > 0 && items[|items| - 1] == Err(MaxChar)
  {
    Base64Table();
    EndsInError(Base64(), cs);
    Base64UrlTable();
    EndsInError(Base64Url(), cs);
    Base32Table();
    EndsInError(Base32(), cs);
    Base32HexTable();
    EndsInError(Base32Hex(), cs);
    HexTable();
    EndsInError(Hex(), cs);
  }
}
