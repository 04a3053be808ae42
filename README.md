# base_any in Dafny

A model of the core of `base_any`, a Rust crate that turns bytes into text
and back over alphabets of `2^bits` Unicode characters (1 to 15 bits per
character), with proofs about it.

- **Table** (`Tables`, table.dfy). The code width `bits`, the initial
  alphabet `init` of `2^bits` characters, the final alphabet `fini` of
  `2^(bits-8)` characters when `bits > 8` (otherwise empty), and a decode
  index. The index has 17 buckets, one per Unicode plane. Each bucket is
  sorted by the low 16 bits of the character and maps it to a 15-bit code
  plus a final flag. `Decode` is the bucket lookup and binary search.
  `Valid` states what build.rs guarantees of every generated table.
  `With(bits)` is the test fixture `Table::with`.
- **Encoder** (`Encoders`, encode.dfy). A class with the source's fields
  `buf`, `len`, `mask` and a cursor into the byte source. `Next` is the
  pull loop:
  - while fewer than `bits` bits are pending, it pulls a byte;
  - with at least `bits` bits pending, it emits a character of `init`;
  - when the source runs dry, it emits one zero-padded final character,
    from `init` if more than `bits - 8` bits are left, else from `fini`.

  Everything is proved against `EncodeBits`, a reference encoding over
  bit strings taken most significant bit first.
- **Decoder** (`Decoders`, decode.dfy). A class with `buf`, `len` and a
  cursor into the character source. `Next` looks each character up and
  appends its bits: `bits` of them, or `bits - 8` for a final character. It yields a
  byte whenever 8 bits are pending. A character the table does not hold is
  yielded as an error item; the pending bits stay as they are (as
  src/decode.rs:39-41 does). Bits left when the input runs out are
  dropped. It is proved against `DecodeFrom`, a reference decoding.
- **Round trip** (`RoundTrip`, roundtrip.dfy). `decode(encode(data)) ==
  data` for every valid table and every byte string, byte for byte and
  with no error item. Also covered: the size hints on an encoding, and the
  error item for U+10FFFF.
- **Table compiler** (build.rs: `Sources`, `Candidates`, `Buckets`,
  `Build`). The steps of the build script are modelled as functions and
  methods, each proved against a reference statement:
  - reading a table file: comment lines dropped, doc lines, size line,
    separators, the two blocks;
  - tagging;
  - `sort_unstable` and `dedup_by_key`;
  - re-sorting by block and position, the partition point and re-indexing;
  - the per-plane fold into the decode index.

  The reference statement: the initial alphabet is the initial block's
  characters in first-occurrence order. The final alphabet is the final
  block's characters, in first-occurrence order, that are not initial.
  Every count mismatch the script asserts is an error outcome. Every table
  the compiler accepts is `Valid`.
- **Standard tables** (`Rfc4648`, `Standard`, `Scenarios`). The crate's
  `BASE64`, `BASE64URL`, `BASE32`, `BASE32HEX` and `HEX` tables are built
  from the alphabets of RFC 4648 (sections 4 to 8; hex in lower case). The
  model proves each encodes exactly as unpadded RFC 4648 does. RFC 4648 is
  stated on numbers: the input is one big-endian number, shifted left to
  complete the last group, written as base-`2^k` digits. Each table also
  decodes its encodings back. The scenarios check known test vectors (for
  example `"foobar"` → `"Zm9vYmFy"`, `"MZXW6YTBOI"`, `"666f6f626172"`).
- **Size hints** (`SizeHints`, hints.dfy). `Decode::size_hint` is sound on
  an encoder's output, which is what the crate's tests feed it, but not in
  general (see Findings). A corrected bound is proved sound for every input.

Integer widths: `buf` is an unbounded `nat`. The source's `u32` keeps only
its low 32 bits, but only the low `len` bits are ever read, and `len` stays
below `bits + 8` (at most 22). `usize` bounds are explicit (`USIZE_MAX`,
2^64 − 1). The `u128` arithmetic of the size hints cannot overflow, so it is
plain `nat`.

## Model

| member | source | states |
|---|---|---|
| Tables.Search | src/table.rs:17 | A found index lies in the range and holds the key; on a sorted bucket, `None` means no entry in the range has the key |
| Tables.Decode | src/table.rs:15-20 | The code found is below 2^15 |
| Tables.Unpack | src/table.rs:19 | Splits a codeword into a code below 2^15 and a flag, and packing them again gives the codeword back |
| Tables.UnpackFlag | src/table.rs:19 | A codeword below bit 15 is an initial code; one with bit 15 set is that code minus 2^15, flagged final |
| Tables.PlaneLow | src/table.rs:16-17 | A character equals its plane times 65536 plus its low 16 bits, so bucket and key determine it |
| Tables.PlaneMonotone | build.rs:78 | Planes do not decrease as characters increase, so a character-sorted list splits into consecutive planes |
| Tables.DecodeFound | src/table.rs:15-20 | `decode` succeeds exactly when the character's bucket has an entry with its low 16 bits (the "only if" half on a sorted bucket), and returns that entry's unpacked codeword |
| Tables.DecodeSound | src/table.rs:15-20 | On a valid table, what `decode` returns names the character: the flag picks `fini` or `init`, and the code is the character's position there |
| Tables.DecodeListed | src/table.rs:17-19 | A character listed under a codeword is decoded to exactly that codeword: keys are unique in a sorted bucket |
| Tables.DecodeInit | src/lib.rs:27-30 | `decode(init[c]) == Some((c, false))` for every code `c` of the initial alphabet |
| Tables.DecodeFini | src/lib.rs:36-39 | `decode(fini[c]) == Some((c, true))` for every code `c` of the final alphabet |
| Tables.DecodeForeign | src/lib.rs:48-52 | A character in neither alphabet decodes to `None` |
| Tables.AlphabetsDistinct | src/lib.rs:48-52 | The characters of `init` and `fini` are pairwise distinct, within and across the two alphabets |
| Tables.AlphabetBounds | src/lib.rs:41-46 | Codes at or past `2^bits` are absent from `init`, codes at or past the final size are absent from `fini`, and both alphabets fit 15-bit codes |
| Tables.With | src/table.rs:64-78 | The fixture's final alphabet is U+0000.. and its initial alphabet follows it, with the sizes `bits` calls for |
| Tables.WithBound | src/table.rs:65-66 | For 1 to 15 bits the fixture's alphabet sizes fit the 15-bit code and the 7-bit final code |
| Tables.WithValid | src/table.rs:64-78 | `Table::with(bits)` is a valid table for every width from 1 to 15 |
| Tables.DealtValid | src/table.rs:67-71 | A table laid out as the fixture deals it (every entry in bucket 0, in character order) is valid |
| Encoders.Encoder.constructor | src/encode.rs:18-26 | A new encoder holds no pending bits, and the characters it will produce are exactly the reference encoding of its input |
| Encoders.Encoder.Next | src/encode.rs:35-60 | Returns `None` exactly when no characters remain; otherwise the character returned is the first one of the remaining encoding, and the rest follow. After `None` the source is used up and nothing is pending, so every later call returns `None` too |
| Encoders.Encoder.PullByte | src/encode.rs:38-41 | Taking the next byte into the accumulator leaves the bits still to encode as they were, and adds 8 pending bits |
| Encoders.Encoder.FinalStep | src/encode.rs:42-52 | With fewer than `bits` bits pending and the source dry, the character emitted is the whole remaining encoding, and afterwards nothing is pending |
| Encoders.Encoder.FullStep | src/encode.rs:57-59 | With at least `bits` bits pending, the character emitted is the first of the remaining encoding |
| Encoders.EncoderRemaining | src/encode.rs:62-71 | An encoder has exactly `ceil((8 · bytes left + len) / bits)` characters left, and its size hint is that count whenever it fits `usize` |
| Encoders.EncodeHintSound | src/encode.rs:62-71 | Whenever the inner source's bounds hold, so do the encoder's |
| Encoders.EncodeStr | src/table.rs:44-49 | `encode_str` returns the reference encoding of its input |
| Encoders.EncodeLength | src/encode.rs:35-60 | An encoding has `ceil(n / bits)` characters for `n` input bits |
| Encoders.EncodeAt | src/encode.rs:57-59 | The `k`-th character of an encoding whose `k`-th group is whole is the `init` character named by that group, most significant bit first |
| Encoders.EncodeLast | src/encode.rs:42-52 | With `n mod bits != 0` input bits, the encoding ends in the final character of the last `n mod bits` bits |
| Encoders.NarrowUsesInitOnly | src/encode.rs:43-48 | For widths up to 8 every character of an encoding is from `init`; `fini` is never used |
| Encoders.InitBeforeLast | src/encode.rs:35-60 | Every character of an encoding except the last is from `init` |
| Encoders.PullByteBits | src/encode.rs:39-41 | `(buf << 8) + byte` with 8 more pending bits is the old pending bits followed by the byte |
| Encoders.PaddedCode | src/encode.rs:50 | `(buf << w >> len) & (2^w − 1)` is the code of the `len` pending bits followed by zeros up to `w` bits |
| Encoders.FinalCharIsFinalSymbol | src/encode.rs:42-52 | The last step's character is the reference encoding of the pending bits: `init` padded to `bits` when more than `bits − 8` bits are left, else `fini` padded to `bits − 8` |
| Encoders.FullGroup | src/encode.rs:57-59 | `len -= bits; init[(buf >> len) & mask]` is the first character of the encoding of the pending bits and what follows them |
| Decoders.Decoder.constructor | src/decode.rs:17-24 | A new decoder holds no pending bits, and the items it will yield are exactly the reference decoding of its input |
| Decoders.Decoder.Next | src/decode.rs:33-50 | Returns `None` exactly when no items remain; otherwise the item returned is the first of the remaining decoding, and the rest follow. After `None` the input is used up and `len == 0`, so every later call returns `None` too |
| Decoders.Decoder.RejectChar | src/decode.rs:39-41 | A character the table lacks is yielded as an error item and consumed, leaving `buf` and `len` as they were |
| Decoders.Decoder.PushChar | src/decode.rs:42-46 | Reading a table character into the accumulator leaves the items still to come as they were |
| Decoders.Decoder.PopByte | src/decode.rs:48-49 | With at least 8 bits pending, the byte yielded is the first remaining item |
| Decoders.PushStep | src/decode.rs:42-46 | `(buf << w) + code` with `len + w` pending bits is the old pending bits followed by the character's `w` bits |
| Decoders.ByteOf | src/decode.rs:48-49 | `(buf >> len) as u8` with `len + 8` bits pending is their first 8 bits, and the other `len` stay pending |
| Decoders.CodeFits | src/decode.rs:42-46 | A valid table's codes fit the width their alphabet carries, and that width is at most `bits` |
| Decoders.DecodeVec | src/table.rs:54-59 | `decode_vec` gives the bytes the input's bits make up (the fewer than 8 leftover bits dropped), or fails with the input's first character missing from the table |
| Decoders.DecodingCollected | src/table.rs:54-59 | Collecting the decoder's items gives the whole bytes of the input's bits, or the first foreign character |
| Decoders.CollectDecodeFrom | src/decode.rs:33-50 | The same with some bits already pending |
| Decoders.DecodeFromValid | src/decode.rs:33-50 | A string of table characters yields nothing but byte items: the whole bytes of the pending bits followed by the string's bits |
| Decoders.DecodeEndsInError | src/decode.rs:39-41 | A string ending in a character the table lacks yields an error item for it last |
| Decoders.CanonicalBits | src/decode.rs:52-63 | A string shaped like an encoding carries `bits` bits per character, less 8 when the last is final; that happens only for widths over 8 |
| Decoders.DecodeHintSound | src/decode.rs:52-63 | On a string shaped like an encoding, when the inner source's bounds hold, the items still to come lie within the decoder's size hint |
| RoundTrip.RoundTrip | src/lib.rs:108-113 | For every valid table and all data, decoding the encoding collects to `Ok(data)` |
| RoundTrip.RoundTripItems | src/lib.rs:108-113 | Decoding an encoding yields exactly one `Ok` item per byte of the data, in order, and no error item |
| RoundTrip.WithRoundTrip | src/lib.rs:72-81 | The round trip holds for `Table::with(bits)` at every width from 1 to 15 |
| RoundTrip.SymbolBits | src/encode.rs:57-59 | The character naming a whole group decodes back to that group's bits |
| RoundTrip.FinalSymbolBits | src/encode.rs:42-52 | The final character decodes back to the last partial group followed by the zero bits that padded it |
| RoundTrip.PadLenSmall | src/decode.rs:34-37 | Padding is under 8 bits, so the decoder drops it and produces no extra byte |
| RoundTrip.EncodeCharsBits | src/encode.rs:35-60 | The bits of an encoding's characters are the input bits followed by the padding |
| RoundTrip.EncodingCanonical | src/encode.rs:35-60 | Every character of an encoding is from `init`, except that the last may be from `fini` |
| RoundTrip.DecoderHintOnEncoding | src/lib.rs:115-116 | At every step of a decoder reading an encoding, the number of items still to come lies within its size hint |
| RoundTrip.EndsInError | src/lib.rs:132-140 | For any valid table without U+10FFFF, a string ending in U+10FFFF yields an error item last |
| RoundTrip.WithDecodeErr | src/lib.rs:132-140 | The same for `Table::with(bits)` at every width |
| RoundTrip.WithForeign | src/table.rs:64-78 | U+10FFFF is in neither alphabet of the fixture |
| Sources.Uncommented | build.rs:12 | Exactly the lines that do not start with `"-- "` are kept |
| Sources.UncommentedIdempotent | build.rs:12 | Filtering comments twice is filtering them once |
| Sources.SplitAtSeparator | build.rs:14 | The lines before the first `----` and those after it; with no separator, every line and nothing after |
| Sources.SplitUnique | build.rs:14 | Lines without a separator, followed by a separator and more lines, split back into those two parts |
| Sources.ParseSize | build.rs:22 | A parsed size fits `usize` |
| Sources.ParseDecimal | build.rs:22 | A decimal numeral with or without a leading `+` parses to its value |
| Sources.ParseRefuses | build.rs:22 | An empty line, a lone `+`, a leading `-` or a non-digit after the first character does not parse |
| Sources.PowerOfTwo | build.rs:23-24 | `2^k` is a power of two and its `ilog2` is `k`; every power of two is `2^ilog2` |
| Sources.ReadSource | build.rs:12-44 | An accepted table file has a width from 1 to 15 |
| Sources.ReadLayout | build.rs:12-44 | A file laid out as docs, `----`, size `2^bits`, `----`, initial block, `----`, final block reads back as those parts |
| Sources.ReadIgnoresComments | build.rs:12 | Comment lines never change what a file reads as |
| Candidates.LessOrder | build.rs:46 | The tuple orders of both sorts are strict orders: irreflexive, asymmetric, transitive, with a transitive complement |
| Candidates.Sort | build.rs:46 | Sorting is a permutation |
| Candidates.SortSorted | build.rs:46 | Sorting gives a sorted list |
| Candidates.SortedUnique | build.rs:50 | Two strictly sorted lists with the same members are equal, so the unstable sort's result is determined |
| Candidates.Dedup | build.rs:47 | Deduplication never lengthens the list |
| Candidates.DedupMembers | build.rs:47 | On a character-sorted list, what deduplication keeps is exactly the least triple of each character |
| Candidates.DedupAscending | build.rs:47 | Deduplication leaves characters strictly ascending |
| Candidates.FinPrefix | build.rs:51 | `partition_point`: every entry before it is final, and the entry at it is not |
| Buckets.PlaneLen | build.rs:78 | The entries before the split are in the plane, and the entry at it is not |
| Buckets.Fold | build.rs:77-88 | The fold makes one bucket per remaining plane |
| Buckets.Index | build.rs:75-88 | The decode index has 17 buckets |
| Buckets.FoldBuckets | build.rs:77-88 | Over an ascending list, the fold's bucket for plane `q` is the packed entries of that plane |
| Buckets.FoldDealt | build.rs:77-88 | The fold deals an ascending list out by plane, each bucket ascending |
| Buckets.IndexDealt | build.rs:75-88 | The index built from distinct alphabets deals the re-sorted entries out by plane |
| Buckets.PackedSorted | build.rs:81-84 | Packing the entries of one plane, in ascending order, gives a bucket sorted strictly by low 16 bits |
| Buckets.IndexValid | build.rs:75-88 | Distinct alphabets of the right sizes with their index form a valid table |
| Build.TaggingMember | build.rs:30-44 | A triple is tagged exactly when it names a character of its block at its position |
| Build.FirstSeenMembers | build.rs:46-47 | A character survives exactly when it is in the block and not excluded |
| Build.FirstSeenDistinct | build.rs:46-47 | The surviving characters are distinct |
| Build.FirstSeenOfDistinct | build.rs:46-47 | A block without repeats survives whole, in order |
| Build.Winners | build.rs:46-47 | A character's least triple is its first initial occurrence if it has one, else its first final occurrence |
| Build.DedupWinners | build.rs:46-47 | After sort and dedup exactly those first occurrences remain, characters ascending |
| Build.SurvivorsOrder | build.rs:50 | Re-sorting by `(!fin, idx)` lists the final survivors, then the initial ones, each in first-occurrence order |
| Build.SurvivorsSplit | build.rs:51 | The partition point is the number of final survivors |
| Build.DedupCount | build.rs:48 | The deduplicated length is the sizes of the two reference alphabets added |
| Build.SurvivorsShape | build.rs:50-54 | The re-sorted list is the final alphabet, flagged final, then the initial one, flagged initial |
| Build.Reindex | build.rs:56-61 | Re-indexing keeps character and flag, and numbers each half from 0 |
| Build.Reindexed | build.rs:56-61 | The re-indexed list is the tagging of the two alphabets it holds |
| Build.OutcomeCount | build.rs:48 | A file whose distinct characters do not number `size + fin_size` is refused with that mismatch |
| Build.OutcomeFinalCount | build.rs:53 | A file with the right total but the wrong number of final characters is refused with that mismatch |
| Build.OutcomeTable | build.rs:46-88 | A file with the right counts compiles to the table of its two reference alphabets and their index |
| Build.OutcomeValid | build.rs:46-88 | Every table the compiler accepts is valid |
| Build.OutcomeAlphabets | build.rs:30-54 | A compiled table's `init` holds exactly the initial block's characters, and `fini` exactly the final block's characters that are not initial |
| Build.CompileSource | build.rs:30-88 | The compiling method (sort, dedup, checks, re-sort, split, re-index, sort, fold) computes the reference outcome, and the table is valid |
| Build.Compile | build.rs:12-88 | A table file compiles to the reference outcome of what it reads as, or fails with its reading error |
| Rfc4648.ByteBitsValue | src/encode.rs:38-41 | The bits of a byte string, most significant first, are those of its big-endian value |
| Rfc4648.EncodeDigits | src/encode.rs:57-59 | Encoding the low `m · bits` bits of a number gives its `m` base-`2^bits` digits |
| Rfc4648.EncodePadded | src/encode.rs:50 | Without a final alphabet, encoding bits or the same bits zero-padded to whole groups gives the same text |
| Rfc4648.EncodingIs | src/encode.rs:35-60 | For every table of at most 8 bits and all data, the encoder's output is unpadded RFC 4648 encoding with that table's alphabet |
| Standard.StandardTable | build.rs:27 | A standard table has width 1 to 8, the given alphabet as `init` and no final alphabet |
| Standard.Base64Alphabet | build.rs:46-48 | The base64 alphabet has no repeats and is ASCII |
| Standard.Base64UrlAlphabet | build.rs:46-48 | The URL-safe base64 alphabet has no repeats and is ASCII |
| Standard.Base32Alphabet | build.rs:46-48 | The base32 alphabet has no repeats and is ASCII |
| Standard.Base32HexAlphabet | build.rs:46-48 | The base32hex alphabet has no repeats and is ASCII |
| Standard.HexAlphabet | build.rs:46-48 | The hex alphabet has no repeats and is ASCII |
| Standard.StandardBlocks | build.rs:46-47 | A distinct alphabet survives deduplication whole, and widths up to 8 have no final block |
| Standard.StandardCompiled | build.rs:22-88 | A file with size `2^bits`, a distinct initial block and an empty final block compiles to that alphabet's table |
| Standard.StandardFacts | src/lib.rs:23-54 | That table is valid, and an ASCII alphabet leaves U+10FFFF out |
| Standard.Base64Table | src/lib.rs:23-54 | `BASE64` is valid, has no final alphabet and lacks U+10FFFF |
| Standard.Base64UrlTable | src/lib.rs:23-54 | `BASE64URL` is valid, has no final alphabet and lacks U+10FFFF |
| Standard.Base32Table | src/lib.rs:23-54 | `BASE32` is valid, has no final alphabet and lacks U+10FFFF |
| Standard.Base32HexTable | src/lib.rs:23-54 | `BASE32HEX` is valid, has no final alphabet and lacks U+10FFFF |
| Standard.HexTable | src/lib.rs:23-54 | `HEX` is valid, has no final alphabet and lacks U+10FFFF |
| Standard.StandardValid | src/lib.rs:23-54 | All five standard tables are valid |
| Standard.StandardIsRfc4648 | src/lib.rs:142-170 | All five standard tables encode every byte string exactly as unpadded RFC 4648 does with their alphabets |
| Standard.StandardRoundTrip | src/lib.rs:124-130 | All five standard tables decode every encoding back to the data |
| Standard.StandardDecodeErr | src/lib.rs:132-140 | For all five standard tables, a string ending in U+10FFFF yields an error item last |
| Scenarios.HexDeadbeef | src/lib.rs:164-170 | `HEX` encodes DE AD BE EF as `deadbeef` and decodes it back |
| Scenarios.HexFoobar | src/lib.rs:164-170 | `HEX` encodes `foobar` as `666f6f626172` and decodes it back |
| Scenarios.Base64Abcd | src/lib.rs:142-151 | `BASE64` encodes 00 10 83 as `ABCD` and decodes it back |
| Scenarios.Base64Foobar | src/lib.rs:142-151 | `BASE64` encodes `foobar` as `Zm9vYmFy` and decodes it back |
| Scenarios.Base64Fbff | src/lib.rs:142-151 | `BASE64` encodes FB FF as `+/8` and decodes it back |
| Scenarios.Base64UrlFbff | src/lib.rs:142-151 | `BASE64URL` encodes FB FF as `-_8` and decodes it back |
| Scenarios.Base32Ff | src/lib.rs:153-162 | `BASE32` encodes FF as `74` and decodes it back |
| Scenarios.Base32Foobar | src/lib.rs:153-162 | `BASE32` encodes `foobar` as `MZXW6YTBOI` and decodes it back |
| Scenarios.Base32HexFoobar | src/lib.rs:153-162 | `BASE32HEX` encodes `foobar` as `CPNMUOJ1E8` and decodes it back |
| SizeHints.ForeignBeyondUpper | src/decode.rs:52-63 | With `Table::with(4)` and the one-character source `"z"` (inner bounds (1, Some(1))), one error item is yielded while the hint's upper bound is 0 |
| SizeHints.FinalBelowLower | src/decode.rs:52-63 | With `Table::with(9)` and an exact-size source of two U+0000 characters (inner bounds (2, Some(2))), no item is yielded while the hint's lower bound is 1 |
| SizeHints.ItemsBounds | src/decode.rs:33-50 | Any string yields at least its characters' fewest bits in bytes, and at most one item per character below 8 bits (otherwise its most bits in bytes) |
| SizeHints.SoundDecodeHintHolds | src/decode.rs:52-63 | The corrected hint bounds the items still to come for every string, whenever the inner source's bounds hold |
| SizeHints.SoundHintOnDecoder | src/decode.rs:52-63 | At every step of a decoder over any string, the items it will still yield lie within the corrected hint |

## Left out

- Decoders.DecodeHintSound: proved only for strings shaped like an encoding (hence `Canonical`). On other strings the source's bound fails; see Findings.
- `Decode::size_hint` and `Encode::size_hint` take any inner iterator's bounds. The classes model an exact-size inner source (a sequence and a cursor), which is what the crate's tests use. `EncodeHintSound` and `DecodeHintSound` still state the bound for arbitrary inner bounds.
- The generated table files under table/ (including `BASE8192` and `BASE1024`) are not part of this model. Their contents are only what build.rs guarantees of any file it accepts. The tests `base8192` and `base1024` (src/lib.rs:56-70) check Unicode properties (alphanumeric, XID), which the model has no database for.
- The five RFC 4648 tables are built from the alphabets RFC 4648 lists. The test oracles (the base64, base32 and base16ct crates) are replaced by a reference definition of unpadded RFC 4648 and by test-vector scenarios.
- build.rs file system access, `cargo:` directives and Rust source emission (`write!` of `fini`, `init`, `decode`, `ALL`) are left out. The model compiles one file's lines to the table that would be emitted. `lines()` splitting of the file text is not modelled: input is a list of lines.
- The panics of build.rs (`unwrap`, `assert!`) become error outcomes. Which panic message a file would produce is not modelled, only which check refuses it.
- The standard library's `binary_search_by_key` and `sort_unstable` are modelled by their results (a recursive search, an insertion sort). Their probe and swap orders are not. `SortedUnique` shows that any sort of distinct triples gives the same list.
- `Clone` and `FusedIterator` are not modelled as traits. The fused behaviour is the `Next` postcondition that after `None` every later call returns `None`.
- src/main.rs (the command-line tool) is not part of this model.
- `Table::with` at 0 or 16 bits and more is excluded (`1 <= bits <= 15`). There the source loops forever or overflows its `u16` codes.

## Findings

| source | as written | input that shows it | evidently intended | confidence | as-written member | corrected member |
|---|---|---|---|---|---|---|
| src/decode.rs:52-63 | The upper bound counts only the bits of the remaining characters; error items carry no bits | `Table::with(4)`, input `"z"`: one error item, upper bound 0 | An upper bound that holds for any input, counting an item per character when characters carry fewer than 8 bits | medium, not executed | SizeHints.ForeignBeyondUpper | SizeHints.SoundDecodeHintHolds |
| src/decode.rs:57 | The lower bound takes off 8 bits once, for a final character that is last; a final character can appear anywhere | `Table::with(9)` decoding `vec!['\0', '\0']` (an exact-size source, inner bounds (2, Some(2))): no item, lower bound 1 | A lower bound counting every character at its fewest bits | medium, not executed | SizeHints.FinalBelowLower | SizeHints.SoundDecodeHintHolds |
