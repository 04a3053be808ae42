/** Worked encodings for the hex and base-64 tables, and the test vectors
    of section 10 of RFC 4648. Each one
    is first computed on RFC 4648's arithmetic definition, then carried over
    to the encoder by `StandardIsRfc4648`, and decoded back by
    `StandardRoundTrip`. */
module Scenarios {
  import opened Wrappers
  import opened Bits
  import opened Encoders
  import opened Decoders
  import opened Rfc4648
  import opened Standard

  /** The hex table writes each byte as two lower-case digits. */
  lemma HexDeadbeef()
    ensures Encoding(Hex(), [0xDE, 0xAD, 0xBE, 0xEF]) == "deadbeef"
    ensures Collect(Decoding(Hex(), "deadbeef")) == Ok([0xDE, 0xAD, 0xBE, 0xEF])
  {
    StandardIsRfc4648([0xDE, 0xAD, 0xBE, 0xEF]);
    HexDeadbeefRfc();
    StandardRoundTrip([0xDE, 0xAD, 0xBE, 0xEF]);
  }

  /** The same encoding on the arithmetic definition of RFC 4648. */
  lemma HexDeadbeefRfc()
    ensures Encode(HexChars(), 4, [0xDE, 0xAD, 0xBE, 0xEF]) == "deadbeef"
  {
    Sizes();
    var data: seq<byte> := [0xDE, 0xAD, 0xBE, 0xEF];
    assert data[..4][..3] == data[..3] && data[..3][..2] == data[..2] && data[..2][..1] == data[..1] && data[..1][..0] == [];
    assert BigEndian(data[..1]) == 0xDE;
    assert BigEndian(data[..2]) == 0xDEAD;
    assert BigEndian(data[..3]) == 0xDEADBE;
    assert BigEndian(data) == 0xDEADBEEF;
    assert 32 % 4 == 0 && Fill(32, 4) == 0;
    assert Shl(0xDEADBEEF, 0) == 0xDEADBEEF;
    var a := HexChars();
    assert Digits(a, 4, 0xD, 1) == "d";
    assert Digits(a, 4, 0xDE, 2) == "de";
    assert Digits(a, 4, 0xDEA, 3) == "dea";
    assert Digits(a, 4, 0xDEAD, 4) == "dead";
    assert Digits(a, 4, 0xDEADB, 5) == "deadb";
    assert Digits(a, 4, 0xDEADBE, 6) == "deadbe";
    assert Digits(a, 4, 0xDEADBEE, 7) == "deadbee";
  }

  /** Three bytes are four base-64 characters. */
  lemma Base64Abcd()
    ensures Encoding(Base64(), [0x00, 0x10, 0x83]) == "ABCD"
    ensures Collect(Decoding(Base64(), "ABCD")) == Ok([0x00, 0x10, 0x83])
  {
    StandardIsRfc4648([0x00, 0x10, 0x83]);
    Base64AbcdRfc();
    StandardRoundTrip([0x00, 0x10, 0x83]);
  }

  /** The same encoding on the arithmetic definition of RFC 4648. */
  lemma Base64AbcdRfc()
    ensures Encode(Base64Chars(), 6, [0x00, 0x10, 0x83]) == "ABCD"
  {
    Sizes();
    var data: seq<byte> := [0x00, 0x10, 0x83];
    assert data[..3][..2] == data[..2] && data[..2][..1] == data[..1] && data[..1][..0] == [];
    assert BigEndian(data[..1]) == 0x0;
    assert BigEndian(data[..2]) == 0x10;
    assert BigEndian(data) == 0x1083;
    assert 24 % 6 == 0 && Fill(24, 6) == 0;
    assert Shl(0x1083, 0) == 0x1083;
    var a := Base64Chars();
    assert Digits(a, 6, 0x0, 1) == "A";
    assert Digits(a, 6, 0x1, 2) == "AB";
    assert Digits(a, 6, 0x42, 3) == "ABC";
  }

  /** A byte is two base-32 characters; the second is a zero-filled group
      drawn from the same alphabet, as the table has no final alphabet. */
  lemma Base32Ff()
    ensures Encoding(Base32(), [0xFF]) == "74"
    ensures Collect(Decoding(Base32(), "74")) == Ok([0xFF])
  {
    StandardIsRfc4648([0xFF]);
    Base32FfRfc();
    StandardRoundTrip([0xFF]);
  }

  /** The same encoding on the arithmetic definition of RFC 4648. */
  lemma Base32FfRfc()
    ensures Encode(Base32Chars(), 5, [0xFF]) == "74"
  {
    Sizes();
    var data: seq<byte> := [0xFF];
    assert data[..0] == [];
    assert BigEndian(data) == 0xFF;
    assert 8 % 5 == 3 && Fill(8, 5) == 2;
    assert Shl(0xFF, 2) == 0x3FC;
    var a := Base32Chars();
    assert Digits(a, 5, 0x1F, 1) == "7";
  }

  /** Section 10 of RFC 4648, BASE64("foobar"). */
  lemma Base64Foobar()
    ensures Encoding(Base64(), [0x66, 0x6F, 0x6F, 0x62, 0x61, 0x72]) == "Zm9vYmFy"
    ensures Collect(Decoding(Base64(), "Zm9vYmFy")) == Ok([0x66, 0x6F, 0x6F, 0x62, 0x61, 0x72])
  {
    StandardIsRfc4648([0x66, 0x6F, 0x6F, 0x62, 0x61, 0x72]);
    Base64FoobarRfc();
    StandardRoundTrip([0x66, 0x6F, 0x6F, 0x62, 0x61, 0x72]);
  }

  /** The same encoding on the arithmetic definition of RFC 4648. */
  lemma Base64FoobarRfc()
    ensures Encode(Base64Chars(), 6, [0x66, 0x6F, 0x6F, 0x62, 0x61, 0x72]) == "Zm9vYmFy"
  {
    Sizes();
    var data: seq<byte> := [0x66, 0x6F, 0x6F, 0x62, 0x61, 0x72];
    assert data[..6][..5] == data[..5] && data[..5][..4] == data[..4] && data[..4][..3] == data[..3] && data[..3][..2] == data[..2] && data[..2][..1] == data[..1] && data[..1][..0] == [];
    assert BigEndian(data[..1]) == 0x66;
    assert BigEndian(data[..2]) == 0x666F;
    assert BigEndian(data[..3]) == 0x666F6F;
    assert BigEndian(data[..4]) == 0x666F6F62;
    assert BigEndian(data[..5]) == 0x666F6F6261;
    assert BigEndian(data) == 0x666F6F626172;
    assert 48 % 6 == 0 && Fill(48, 6) == 0;
    assert Shl(0x666F6F626172, 0) == 0x666F6F626172;
    var a := Base64Chars();
    assert Digits(a, 6, 0x19, 1) == "Z";
    assert Digits(a, 6, 0x666, 2) == "Zm";
    assert Digits(a, 6, 0x199BD, 3) == "Zm9";
    assert Digits(a, 6, 0x666F6F, 4) == "Zm9v";
    assert Digits(a, 6, 0x199BDBD8, 5) == "Zm9vY";
    assert Digits(a, 6, 0x666F6F626, 6) == "Zm9vYm";
    assert Digits(a, 6, 0x199BDBD8985, 7) == "Zm9vYmF";
  }

  /** Section 10 of RFC 4648, BASE32("foobar") without its padding. */
  lemma Base32Foobar()
    ensures Encoding(Base32(), [0x66, 0x6F, 0x6F, 0x62, 0x61, 0x72]) == "MZXW6YTBOI"
    ensures Collect(Decoding(Base32(), "MZXW6YTBOI")) == Ok([0x66, 0x6F, 0x6F, 0x62, 0x61, 0x72])
  {
    StandardIsRfc4648([0x66, 0x6F, 0x6F, 0x62, 0x61, 0x72]);
    Base32FoobarRfc();
    StandardRoundTrip([0x66, 0x6F, 0x6F, 0x62, 0x61, 0x72]);
  }

  /** The same encoding on the arithmetic definition of RFC 4648. */
  lemma Base32FoobarRfc()
    ensures Encode(Base32Chars(), 5, [0x66, 0x6F, 0x6F, 0x62, 0x61, 0x72]) == "MZXW6YTBOI"
  {
    Sizes();
    var data: seq<byte> := [0x66, 0x6F, 0x6F, 0x62, 0x61, 0x72];
    assert data[..6][..5] == data[..5] && data[..5][..4] == data[..4] && data[..4][..3] == data[..3] && data[..3][..2] == data[..2] && data[..2][..1] == data[..1] && data[..1][..0] == [];
    assert BigEndian(data[..1]) == 0x66;
    assert BigEndian(data[..2]) == 0x666F;
    assert BigEndian(data[..3]) == 0x666F6F;
    assert BigEndian(data[..4]) == 0x666F6F62;
    assert BigEndian(data[..5]) == 0x666F6F6261;
    assert BigEndian(data) == 0x666F6F626172;
    assert 48 % 5 == 3 && Fill(48, 5) == 2;
    assert Shl(0x666F6F626172, 2) == 0x199BDBD8985C8;
    var a := Base32Chars();
    assert Digits(a, 5, 0xC, 1) == "M";
    assert Digits(a, 5, 0x199, 2) == "MZ";
    assert Digits(a, 5, 0x3337, 3) == "MZX";
    assert Digits(a, 5, 0x666F6, 4) == "MZXW";
    assert Digits(a, 5, 0xCCDEDE, 5) == "MZXW6";
    assert Digits(a, 5, 0x199BDBD8, 6) == "MZXW6Y";
    assert Digits(a, 5, 0x3337B7B13, 7) == "MZXW6YT";
    assert Digits(a, 5, 0x666F6F6261, 8) == "MZXW6YTB";
    assert Digits(a, 5, 0xCCDEDEC4C2E, 9) == "MZXW6YTBO";
  }

  /** Section 10 of RFC 4648, BASE32-HEX("foobar") without its padding. */
  lemma Base32HexFoobar()
    ensures Encoding(Base32Hex(), [0x66, 0x6F, 0x6F, 0x62, 0x61, 0x72]) == "CPNMUOJ1E8"
    ensures Collect(Decoding(Base32Hex(), "CPNMUOJ1E8")) == Ok([0x66, 0x6F, 0x6F, 0x62, 0x61, 0x72])
  {
    StandardIsRfc4648([0x66, 0x6F, 0x6F, 0x62, 0x61, 0x72]);
    Base32HexFoobarRfc();
    StandardRoundTrip([0x66, 0x6F, 0x6F, 0x62, 0x61, 0x72]);
  }

  /** The same encoding on the arithmetic definition of RFC 4648. */
  lemma Base32HexFoobarRfc()
    ensures Encode(Base32HexChars(), 5, [0x66, 0x6F, 0x6F, 0x62, 0x61, 0x72]) == "CPNMUOJ1E8"
  {
    Sizes();
    var data: seq<byte> := [0x66, 0x6F, 0x6F, 0x62, 0x61, 0x72];
    assert data[..6][..5] == data[..5] && data[..5][..4] == data[..4] && data[..4][..3] == data[..3] && data[..3][..2] == data[..2] && data[..2][..1] == data[..1] && data[..1][..0] == [];
    assert BigEndian(data[..1]) == 0x66;
    assert BigEndian(data[..2]) == 0x666F;
    assert BigEndian(data[..3]) == 0x666F6F;
    assert BigEndian(data[..4]) == 0x666F6F62;
    assert BigEndian(data[..5]) == 0x666F6F6261;
    assert BigEndian(data) == 0x666F6F626172;
    assert 48 % 5 == 3 && Fill(48, 5) == 2;
    assert Shl(0x666F6F626172, 2) == 0x199BDBD8985C8;
    var a := Base32HexChars();
    assert Digits(a, 5, 0xC, 1) == "C";
    assert Digits(a, 5, 0x199, 2) == "CP";
    assert Digits(a, 5, 0x3337, 3) == "CPN";
    assert Digits(a, 5, 0x666F6, 4) == "CPNM";
    assert Digits(a, 5, 0xCCDEDE, 5) == "CPNMU";
    assert Digits(a, 5, 0x199BDBD8, 6) == "CPNMUO";
    assert Digits(a, 5, 0x3337B7B13, 7) == "CPNMUOJ";
    assert Digits(a, 5, 0x666F6F6261, 8) == "CPNMUOJ1";
    assert Digits(a, 5, 0xCCDEDEC4C2E, 9) == "CPNMUOJ1E";
  }

  /** Section 10 of RFC 4648, BASE16("foobar"), in lower case. */
  lemma HexFoobar()
    ensures Encoding(Hex(), [0x66, 0x6F, 0x6F, 0x62, 0x61, 0x72]) == "666f6f626172"
    ensures Collect(Decoding(Hex(), "666f6f626172")) == Ok([0x66, 0x6F, 0x6F, 0x62, 0x61, 0x72])
  {
    StandardIsRfc4648([0x66, 0x6F, 0x6F, 0x62, 0x61, 0x72]);
    HexFoobarRfc();
    StandardRoundTrip([0x66, 0x6F, 0x6F, 0x62, 0x61, 0x72]);
  }

  /** The same encoding on the arithmetic definition of RFC 4648. */
  lemma HexFoobarRfc()
    ensures Encode(HexChars(), 4, [0x66, 0x6F, 0x6F, 0x62, 0x61, 0x72]) == "666f6f626172"
  {
    Sizes();
    var data: seq<byte> := [0x66, 0x6F, 0x6F, 0x62, 0x61, 0x72];
    assert data[..6][..5] == data[..5] && data[..5][..4] == data[..4] && data[..4][..3] == data[..3] && data[..3][..2] == data[..2] && data[..2][..1] == data[..1] && data[..1][..0] == [];
    assert BigEndian(data[..1]) == 0x66;
    assert BigEndian(data[..2]) == 0x666F;
    assert BigEndian(data[..3]) == 0x666F6F;
    assert BigEndian(data[..4]) == 0x666F6F62;
    assert BigEndian(data[..5]) == 0x666F6F6261;
    assert BigEndian(data) == 0x666F6F626172;
    assert 48 % 4 == 0 && Fill(48, 4) == 0;
    assert Shl(0x666F6F626172, 0) == 0x666F6F626172;
    var a := HexChars();
    assert Digits(a, 4, 0x6, 1) == "6";
    assert Digits(a, 4, 0x66, 2) == "66";
    assert Digits(a, 4, 0x666, 3) == "666";
    assert Digits(a, 4, 0x666F, 4) == "666f";
    assert Digits(a, 4, 0x666F6, 5) == "666f6";
    assert Digits(a, 4, 0x666F6F, 6) == "666f6f";
    assert Digits(a, 4, 0x666F6F6, 7) == "666f6f6";
    assert Digits(a, 4, 0x666F6F62, 8) == "666f6f62";
    assert Digits(a, 4, 0x666F6F626, 9) == "666f6f626";
    assert Digits(a, 4, 0x666F6F6261, 10) == "666f6f6261";
    assert Digits(a, 4, 0x666F6F62617, 11) == "666f6f62617";
  }

  /** Values 62 and 63 of the base-64 alphabet. */
  lemma Base64Fbff()
    ensures Encoding(Base64(), [0xFB, 0xFF]) == "+/8"
    ensures Collect(Decoding(Base64(), "+/8")) == Ok([0xFB, 0xFF])
  {
    StandardIsRfc4648([0xFB, 0xFF]);
    Base64FbffRfc();
    StandardRoundTrip([0xFB, 0xFF]);
  }

  /** The same encoding on the arithmetic definition of RFC 4648. */
  lemma Base64FbffRfc()
    ensures Encode(Base64Chars(), 6, [0xFB, 0xFF]) == "+/8"
  {
    Sizes();
    var data: seq<byte> := [0xFB, 0xFF];
    assert data[..2][..1] == data[..1] && data[..1][..0] == [];
    assert BigEndian(data[..1]) == 0xFB;
    assert BigEndian(data) == 0xFBFF;
    assert 16 % 6 == 4 && Fill(16, 6) == 2;
    assert Shl(0xFBFF, 2) == 0x3EFFC;
    var a := Base64Chars();
    assert Digits(a, 6, 0x3E, 1) == "+";
    assert Digits(a, 6, 0xFBF, 2) == "+/";
  }

  /** Values 62 and 63 of the URL-safe alphabet (section 5 of RFC 4648). */
  lemma Base64UrlFbff()
    ensures Encoding(Base64Url(), [0xFB, 0xFF]) == "-_8"
    ensures Collect(Decoding(Base64Url(), "-_8")) == Ok([0xFB, 0xFF])
  {
    StandardIsRfc4648([0xFB, 0xFF]);
    Base64UrlFbffRfc();
    StandardRoundTrip([0xFB, 0xFF]);
  }

  /** The same encoding on the arithmetic definition of RFC 4648. */
  lemma Base64UrlFbffRfc()
    ensures Encode(Base64UrlChars(), 6, [0xFB, 0xFF]) == "-_8"
  {
    Sizes();
    var data: seq<byte> := [0xFB, 0xFF];
    assert data[..2][..1] == data[..1] && data[..1][..0] == [];
    assert BigEndian(data[..1]) == 0xFB;
    assert BigEndian(data) == 0xFBFF;
    assert 16 % 6 == 4 && Fill(16, 6) == 2;
    assert Shl(0xFBFF, 2) == 0x3EFFC;
    var a := Base64UrlChars();
    assert Digits(a, 6, 0x3E, 1) == "-";
    assert Digits(a, 6, 0xFBF, 2) == "-_";
  }
}
