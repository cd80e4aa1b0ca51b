/**
  The ToBase64 string extension: the padded Base64 encoding of section 4 of
  RFC 4648 applied to the bytes of a string, together with the matching
  decoder, which serves as the encoder's inverse in the proofs.
 */
module StringExtensions {
  import opened Wrappers
  import opened Strings

  type byte = x: int | 0 <= x < 256
  type Sextet = x: int | 0 <= x < 64

  /** The table of section 4 of RFC 4648: value i is written Alphabet[i]. */
  const Alphabet: string := AlphabetRow0 + AlphabetRow1 + AlphabetRow2 + AlphabetRow3
  const AlphabetRow0: string := "ABCDEFGHIJKLMNOP"
  const AlphabetRow1: string := "QRSTUVWXYZabcdef"
  const AlphabetRow2: string := "ghijklmnopqrstuv"
  const AlphabetRow3: string := "wxyz0123456789+/"
  const Pad: char := '='

  /** The character that writes the 6-bit value v, by ranges of the table:
      an alphabet character that SextetValue reads back as v. */
  function SextetChar(v: Sextet): (c: char)
    ensures IsAlphabetChar(c) && SextetValue(c) == v
  {
    if v < 26 then ('A' as int + v) as char
    else if v < 52 then ('a' as int + (v - 26)) as char
    else if v < 62 then ('0' as int + (v - 52)) as char
    else if v == 62 then '+'
    else '/'
  }

  predicate IsAlphabetChar(c: char) {
    ('A' <= c <= 'Z') || ('a' <= c <= 'z') || ('0' <= c <= '9') || c == '+' || c == '/'
  }

  /** The 6-bit value an alphabet character stands for. */
  function SextetValue(c: char): Sextet
    requires IsAlphabetChar(c)
  {
    if 'A' <= c <= 'Z' then c as int - 'A' as int
    else if 'a' <= c <= 'z' then c as int - 'a' as int + 26
    else if '0' <= c <= '9' then c as int - '0' as int + 52
    else if c == '+' then 62
    else 63
  }

  /** SextetChar agrees with one row of sixteen entries of the table. */
  predicate RowAgrees(row: string, base: nat)
    requires base <= 48
  {
    |row| == 16 && forall i :: 0 <= i < 16 ==> SextetChar(base + i) == row[i]
  }

  lemma Row0Agrees() ensures RowAgrees(AlphabetRow0, 0) {}
  lemma Row1Agrees() ensures RowAgrees(AlphabetRow1, 16) {}
  lemma Row2Agrees() ensures RowAgrees(AlphabetRow2, 32) {}
  lemma Row3Agrees() ensures RowAgrees(AlphabetRow3, 48) {}

  /** SextetChar is exactly the RFC's table. */
  lemma SextetCharIsAlphabet(v: Sextet)
    ensures |Alphabet| == 64 && SextetChar(v) == Alphabet[v]
  {
    Row0Agrees();
    Row1Agrees();
    Row2Agrees();
    Row3Agrees();
    if v < 16 {
      assert Alphabet[v] == AlphabetRow0[v];
    } else if v < 32 {
      assert Alphabet[v] == AlphabetRow1[v - 16];
    } else if v < 48 {
      assert Alphabet[v] == AlphabetRow2[v - 32];
    } else {
      assert Alphabet[v] == AlphabetRow3[v - 48];
    }
  }

  /** The number of '=' that end the encoding of n bytes. */
  function Padding(n: nat): nat {
    (3 - n % 3) % 3
  }

  /** The four characters of one complete 24-bit group. */
  function EncodeGroup(b0: byte, b1: byte, b2: byte): string {
    [SextetChar(b0 / 4), SextetChar((b0 % 4) * 16 + b1 / 16),
     SextetChar((b1 % 16) * 4 + b2 / 64), SextetChar(b2 % 64)]
  }

  /** The final group when two bytes remain: one '='. */
  function EncodeTwo(b0: byte, b1: byte): string {
    [SextetChar(b0 / 4), SextetChar((b0 % 4) * 16 + b1 / 16), SextetChar((b1 % 16) * 4), Pad]
  }

  /** The final group when one byte remains: two '='. */
  function EncodeOne(b0: byte): string {
    [SextetChar(b0 / 4), SextetChar((b0 % 4) * 16), Pad, Pad]
  }

  /** Padded Base64 of a byte string: four characters per started group of
      three bytes, alphabet characters, and '=' only as the final padding. */
  function Encode(b: seq<byte>): (r: string)
    ensures |r| == 4 * ((|b| + 2) / 3)
    ensures forall i :: 0 <= i < |r| - Padding(|b|) ==> IsAlphabetChar(r[i])
    ensures forall i :: |r| - Padding(|b|) <= i < |r| ==> r[i] == Pad
  {
    if |b| == 0 then []
    else if |b| == 1 then EncodeOne(b[0])
    else if |b| == 2 then EncodeTwo(b[0], b[1])
    else
      var g, rest := EncodeGroup(b[0], b[1], b[2]), Encode(b[3..]);
      assert Padding(|b|) == Padding(|b| - 3);
      assert IsAlphabetChar(g[0]) && IsAlphabetChar(g[1]) && IsAlphabetChar(g[2]) && IsAlphabetChar(g[3]);
      g + rest
  }

  /** Decodes one complete group, which holds no padding. */
  function DecodeGroup(g: string): (r: Option<seq<byte>>)
    requires |g| == 4
    ensures r.Some? ==> |r.value| == 3
  {
    if IsAlphabetChar(g[0]) && IsAlphabetChar(g[1]) && IsAlphabetChar(g[2]) && IsAlphabetChar(g[3]) then
      var v0, v1, v2, v3 := SextetValue(g[0]), SextetValue(g[1]), SextetValue(g[2]), SextetValue(g[3]);
      Some([v0 * 4 + v1 / 16, (v1 % 16) * 16 + v2 / 4, (v2 % 4) * 64 + v3])
    else None
  }

  /** Decodes the last group, which may end in one or two '='; bits that
      padding leaves unused must be zero, as in the canonical encoding. */
  function DecodeLast(g: string): (r: Option<seq<byte>>)
    requires |g| == 4
    ensures r.Some? ==> 1 <= |r.value| <= 3
  {
    if g[2] == Pad && g[3] == Pad then
      if IsAlphabetChar(g[0]) && IsAlphabetChar(g[1]) && SextetValue(g[1]) % 16 == 0 then
        Some([SextetValue(g[0]) * 4 + SextetValue(g[1]) / 16])
      else None
    else if g[3] == Pad then
      if IsAlphabetChar(g[0]) && IsAlphabetChar(g[1]) && IsAlphabetChar(g[2]) && SextetValue(g[2]) % 4 == 0 then
        var v0, v1, v2 := SextetValue(g[0]), SextetValue(g[1]), SextetValue(g[2]);
        Some([v0 * 4 + v1 / 16, (v1 % 16) * 16 + v2 / 4])
      else None
    else DecodeGroup(g)
  }

  /** Decodes canonical padded Base64; None for anything else. */
  function Decode(s: string): (r: Option<seq<byte>>)
    decreases |s|
  {
    if s == [] then Some([])
    else if |s| < 4 then None
    else if |s| == 4 then DecodeLast(s)
    else match DecodeGroup(s[..4])
      case None => None
      case Some(head) =>
        match Decode(s[4..])
        case None => None
        case Some(tail) => Some(head + tail)
  }

  /** Two bit fields packed side by side come apart again. */
  lemma Unpack4(hi: int, lo: int)
    requires 0 <= lo < 4
    ensures (hi * 4 + lo) / 4 == hi && (hi * 4 + lo) % 4 == lo
  {
  }

  lemma Unpack16(hi: int, lo: int)
    requires 0 <= lo < 16
    ensures (hi * 16 + lo) / 16 == hi && (hi * 16 + lo) % 16 == lo
  {
  }

  /** Regrouping three bytes into four sextets loses nothing. */
  lemma BytesToSextets(b0: int, b1: int, b2: int)
    requires 0 <= b0 < 256 && 0 <= b1 < 256 && 0 <= b2 < 256
    ensures var v0, v1, v2, v3 := b0 / 4, (b0 % 4) * 16 + b1 / 16, (b1 % 16) * 4 + b2 / 64, b2 % 64;
      && 0 <= v1 < 64 && 0 <= v2 < 64
      && v0 * 4 + v1 / 16 == b0 && (v1 % 16) * 16 + v2 / 4 == b1 && (v2 % 4) * 64 + v3 == b2
  {
    Unpack16(b0 % 4, b1 / 16);
    Unpack4(b1 % 16, b2 / 64);
  }

  /** Regrouping four sextets into three bytes loses nothing. */
  lemma SextetsToBytes(v0: int, v1: int, v2: int, v3: int)
    requires 0 <= v0 < 64 && 0 <= v1 < 64 && 0 <= v2 < 64 && 0 <= v3 < 64
    ensures var b0, b1, b2 := v0 * 4 + v1 / 16, (v1 % 16) * 16 + v2 / 4, (v2 % 4) * 64 + v3;
      && 0 <= b0 < 256 && 0 <= b1 < 256 && 0 <= b2 < 256
      && b0 / 4 == v0 && (b0 % 4) * 16 + b1 / 16 == v1
      && (b1 % 16) * 4 + b2 / 64 == v2 && b2 % 64 == v3
  {
    Unpack4(v0, v1 / 16);
    Unpack16(v1 % 16, v2 / 4);
    var b2 := (v2 % 4) * 64 + v3;
    assert b2 / 64 == v2 % 4 && b2 % 64 == v3;
  }

  lemma GroupRoundTrip(b0: byte, b1: byte, b2: byte)
    ensures DecodeGroup(EncodeGroup(b0, b1, b2)) == Some([b0, b1, b2])
  {
    BytesToSextets(b0, b1, b2);
  }

  /** The encodings of one, two and three bytes, group by group. */
  lemma EncodeShort(b: seq<byte>)
    requires 1 <= |b| <= 3
    ensures |b| == 1 ==> Encode(b) == EncodeOne(b[0])
    ensures |b| == 2 ==> Encode(b) == EncodeTwo(b[0], b[1])
    ensures |b| == 3 ==> Encode(b) == EncodeGroup(b[0], b[1], b[2])
  {
    if |b| == 3 {
      assert b[3..] == [];
    }
  }

  /** An alphabet character is written by the value it stands for. */
  lemma CharRoundTrip(c: char)
    requires IsAlphabetChar(c)
    ensures SextetChar(SextetValue(c)) == c
  {
  }

  lemma ThreeRoundTrip(b: seq<byte>)
    requires |b| == 3
    ensures DecodeLast(Encode(b)) == Some(b)
  {
    EncodeShort(b);
    var g := EncodeGroup(b[0], b[1], b[2]);
    assert g[3] != Pad;
    GroupRoundTrip(b[0], b[1], b[2]);
    assert b == [b[0], b[1], b[2]];
  }

  /** How DecodeLast reads a group that ends in one '='. */
  lemma DecodeLastTwo(c0: char, c1: char, c2: char)
    requires IsAlphabetChar(c0) && IsAlphabetChar(c1) && IsAlphabetChar(c2)
    requires SextetValue(c2) % 4 == 0
    ensures var v0, v1, v2 := SextetValue(c0), SextetValue(c1), SextetValue(c2);
      DecodeLast([c0, c1, c2, Pad]) == Some([v0 * 4 + v1 / 16, (v1 % 16) * 16 + v2 / 4])
  {
  }

  lemma EncodeTwoRoundTrip(b0: byte, b1: byte)
    ensures DecodeLast(EncodeTwo(b0, b1)) == Some([b0, b1])
  {
    BytesToSextets(b0, b1, 0);
    var v0, v1, v2 := b0 / 4, (b0 % 4) * 16 + b1 / 16, (b1 % 16) * 4;
    var c0, c1, c2 := SextetChar(v0), SextetChar(v1), SextetChar(v2);
    DecodeLastTwo(c0, c1, c2);
  }

  lemma TwoRoundTrip(b: seq<byte>)
    requires |b| == 2
    ensures DecodeLast(Encode(b)) == Some(b)
  {
    assert b == [b[0], b[1]];
    EncodeShort(b);
    EncodeTwoRoundTrip(b[0], b[1]);
  }

  lemma OneRoundTrip(b: seq<byte>)
    requires |b| == 1
    ensures DecodeLast(Encode(b)) == Some(b)
  {
    EncodeShort(b);
    BytesToSextets(b[0], 0, 0);
    assert b == [b[0]];
  }

  lemma GroupOfDecoded(g: string)
    requires |g| == 4 && DecodeGroup(g).Some?
    ensures var b := DecodeGroup(g).value; EncodeGroup(b[0], b[1], b[2]) == g
  {
    var v0, v1, v2, v3 := SextetValue(g[0]), SextetValue(g[1]), SextetValue(g[2]), SextetValue(g[3]);
    CharRoundTrip(g[0]);
    CharRoundTrip(g[1]);
    CharRoundTrip(g[2]);
    CharRoundTrip(g[3]);
    SextetsToBytes(v0, v1, v2, v3);
    var b := DecodeGroup(g).value;
    assert b[0] / 4 == v0 && (b[0] % 4) * 16 + b[1] / 16 == v1;
    assert (b[1] % 16) * 4 + b[2] / 64 == v2 && b[2] % 64 == v3;
    assert EncodeGroup(b[0], b[1], b[2]) == [SextetChar(v0), SextetChar(v1), SextetChar(v2), SextetChar(v3)];
  }

  lemma OneOfDecoded(g: string)
    requires |g| == 4 && g[2] == Pad && g[3] == Pad && DecodeLast(g).Some?
    ensures Encode(DecodeLast(g).value) == g
  {
    var v0: int, v1: int := SextetValue(g[0]), SextetValue(g[1]);
    SextetsToBytes(v0, v1, 0, 0);
    var b0: byte := v0 * 4 + v1 / 16;
    assert DecodeLast(g) == Some([b0]);
    EncodeShort([b0]);
    CharRoundTrip(g[0]);
    CharRoundTrip(g[1]);
    assert EncodeOne(b0) == [g[0], g[1], g[2], g[3]];
  }

  lemma TwoOfDecoded(g: string)
    requires |g| == 4 && g[2] != Pad && g[3] == Pad && DecodeLast(g).Some?
    ensures Encode(DecodeLast(g).value) == g
  {
    var v0: int, v1: int, v2: int := SextetValue(g[0]), SextetValue(g[1]), SextetValue(g[2]);
    SextetsToBytes(v0, v1, v2, 0);
    var b0: byte, b1: byte := v0 * 4 + v1 / 16, (v1 % 16) * 16 + v2 / 4;
    assert DecodeLast(g) == Some([b0, b1]);
    EncodeShort([b0, b1]);
    assert (b1 % 16) * 4 == v2;
    CharRoundTrip(g[0]);
    CharRoundTrip(g[1]);
    CharRoundTrip(g[2]);
    assert EncodeTwo(b0, b1) == [g[0], g[1], g[2], g[3]];
  }

  lemma ThreeOfDecoded(g: string)
    requires |g| == 4 && g[3] != Pad && DecodeLast(g).Some?
    ensures Encode(DecodeLast(g).value) == g
  {
    assert DecodeLast(g) == DecodeGroup(g);
    var b := DecodeLast(g).value;
    GroupOfDecoded(g);
    EncodeShort(b);
  }

  lemma LastOfDecoded(g: string)
    requires |g| == 4 && DecodeLast(g).Some?
    ensures Encode(DecodeLast(g).value) == g
  {
    if g[3] != Pad {
      ThreeOfDecoded(g);
    } else if g[2] == Pad {
      OneOfDecoded(g);
    } else {
      TwoOfDecoded(g);
    }
  }

  lemma LastRoundTrip(b: seq<byte>)
    requires 1 <= |b| <= 3
    ensures DecodeLast(Encode(b)) == Some(b)
  {
    if |b| == 1 {
      OneRoundTrip(b);
    } else if |b| == 2 {
      TwoRoundTrip(b);
    } else {
      ThreeRoundTrip(b);
    }
  }

  /** The encoding of more than three bytes is the first group's encoding
      followed by the encoding of the rest. */
  lemma EncodeSplit(b: seq<byte>)
    requires |b| > 3
    ensures |Encode(b)| > 4
    ensures Encode(b)[..4] == EncodeGroup(b[0], b[1], b[2]) && Encode(b)[4..] == Encode(b[3..])
  {
  }

  /** Decoding more than four characters decodes the first group, then the rest. */
  lemma DecodeSplit(s: string, head: seq<byte>, tail: seq<byte>)
    requires |s| > 4 && DecodeGroup(s[..4]) == Some(head) && Decode(s[4..]) == Some(tail)
    ensures Decode(s) == Some(head + tail)
  {
  }

  lemma FirstThree(b: seq<byte>)
    requires |b| >= 3
    ensures b == [b[0], b[1], b[2]] + b[3..]
  {
  }

  /** One step of DecodeEncode: a leading group that round-trips, followed
      by a rest that round-trips. */
  lemma DecodeEncodeStep(b: seq<byte>)
    requires |b| > 3 && Decode(Encode(b[3..])) == Some(b[3..])
    ensures Decode(Encode(b)) == Some(b)
  {
    var s, head, tail := Encode(b), [b[0], b[1], b[2]], b[3..];
    FirstThree(b);
    EncodeSplit(b);
    GroupRoundTrip(b[0], b[1], b[2]);
    DecodeSplit(s, head, tail);
  }

  /** Decoding undoes encoding. */
  lemma {:induction false} DecodeEncode(b: seq<byte>)
    ensures Decode(Encode(b)) == Some(b)
  {
    if |b| == 0 {
    } else if |b| <= 3 {
      LastRoundTrip(b);
    } else {
      DecodeEncode(b[3..]);
      DecodeEncodeStep(b);
    }
  }

  /** Every string the decoder accepts is the encoding of what it decodes to:
      with DecodeEncode, Encode is a bijection onto canonical Base64. */
  lemma {:induction false} EncodeDecode(s: string)
    requires Decode(s).Some?
    ensures Encode(Decode(s).value) == s
    decreases |s|
  {
    if s == [] {
    } else if |s| == 4 {
      LastOfDecoded(s);
    } else {
      var head := DecodeGroup(s[..4]).value;
      var tail := Decode(s[4..]).value;
      EncodeDecode(s[4..]);
      GroupOfDecoded(s[..4]);
      var b := head + tail;
      assert b[3..] == tail;
      assert s == s[..4] + s[4..];
    }
  }

  /** Distinct byte strings have distinct encodings. */
  lemma EncodeInjective(a: seq<byte>, b: seq<byte>)
    requires Encode(a) == Encode(b)
    ensures a == b
  {
    DecodeEncode(a);
    DecodeEncode(b);
  }

  /** The bytes of an ASCII string, one per character. */
  function AsciiBytes(s: string): (b: seq<byte>)
    requires IsAscii(s)
    ensures |b| == |s| && forall i :: 0 <= i < |s| ==> b[i] == s[i] as int
  {
    seq(|s|, i requires 0 <= i < |s| => s[i] as int)
  }

  lemma AsciiBytesInjective(s: string, t: string)
    requires IsAscii(s) && IsAscii(t) && AsciiBytes(s) == AsciiBytes(t)
    ensures s == t
  {
    assert |s| == |t|;
    forall i | 0 <= i < |s| ensures s[i] == t[i] {
      assert s[i] as int == AsciiBytes(s)[i] == t[i] as int;
    }
  }

  /** Thrown for a null receiver. */
  datatype ArgumentNullException = ArgumentNullException

  /** string.ToBase64(): the Base64 of the string's bytes, or an
      ArgumentNullException for a null string. */
  function ToBase64(s: Option<string>): (r: Result<string, ArgumentNullException>)
    requires s.Some? ==> IsAscii(s.value)
    ensures r.Failure? <==> s.None?
    ensures s.Some? ==> Decode(r.value) == Some(AsciiBytes(s.value))
    ensures s.Some? ==> |r.value| == 4 * ((|s.value| + 2) / 3)
  {
    match s
    case None => Failure(ArgumentNullException)
    case Some(str) =>
      DecodeEncode(AsciiBytes(str));
      Success(Encode(AsciiBytes(str)))
  }

  /** Distinct strings have distinct Base64 encodings. */
  lemma ToBase64Injective(s: string, t: string)
    requires IsAscii(s) && IsAscii(t)
    requires ToBase64(Some(s)) == ToBase64(Some(t))
    ensures s == t
  {
    EncodeInjective(AsciiBytes(s), AsciiBytes(t));
    AsciiBytesInjective(s, t);
  }

  /** An input longer than one group encodes as its first group followed by
      the encoding of the rest. */
  lemma EncodeFirstGroup(b: seq<byte>, g: string, t: string)
    requires |b| > 3 && EncodeGroup(b[0], b[1], b[2]) == g && Encode(b[3..]) == t
    ensures Encode(b) == g + t
  {
  }

  // The known vector of the test suite, proved group by group. Each lemma
  // takes its literal as a parameter pinned by a requires, and the slicing
  // and joining steps (VectorTail, VectorJoin) are lemmas of their own: a
  // literal written inside one proof is unfolded character by character,
  // and doing it all in one lemma runs out of the verifier's resources.

  // The four complete groups of the known vector.
  lemma GroupSGVs(b0: byte, b1: byte, b2: byte)
    requires b0 == 72 && b1 == 101 && b2 == 108
    ensures EncodeGroup(b0, b1, b2) == "SGVs"
  {
    assert b0 / 4 == 18 && (b0 % 4) * 16 + b1 / 16 == 6;
    assert (b1 % 16) * 4 + b2 / 64 == 21 && b2 % 64 == 44;
  }

  lemma GroupbG8s(b0: byte, b1: byte, b2: byte)
    requires b0 == 108 && b1 == 111 && b2 == 44
    ensures EncodeGroup(b0, b1, b2) == "bG8s"
  {
    assert b0 / 4 == 27 && (b0 % 4) * 16 + b1 / 16 == 6;
    assert (b1 % 16) * 4 + b2 / 64 == 60 && b2 % 64 == 44;
  }

  lemma GroupIFdv(b0: byte, b1: byte, b2: byte)
    requires b0 == 32 && b1 == 87 && b2 == 111
    ensures EncodeGroup(b0, b1, b2) == "IFdv"
  {
    assert b0 / 4 == 8 && (b0 % 4) * 16 + b1 / 16 == 5;
    assert (b1 % 16) * 4 + b2 / 64 == 29 && b2 % 64 == 47;
  }

  lemma Groupcmxk(b0: byte, b1: byte, b2: byte)
    requires b0 == 114 && b1 == 108 && b2 == 100
    ensures EncodeGroup(b0, b1, b2) == "cmxk"
  {
    assert b0 / 4 == 28 && (b0 % 4) * 16 + b1 / 16 == 38;
    assert (b1 % 16) * 4 + b2 / 64 == 49 && b2 % 64 == 36;
  }

  // The known vector, group by group from the end: "rld!", " World!",
  // "lo, World!" and "Hello, World!".
  lemma VectorFrom9(b: seq<byte>)
    requires b == [114, 108, 100, 33]
    ensures Encode(b) == "cmxkIQ=="
  {
    assert Encode(b[3..]) == "IQ==" by {
      assert b[3..] == [33];
    }
    Groupcmxk(b[0], b[1], b[2]);
    EncodeFirstGroup(b, "cmxk", "IQ==");
  }

  lemma VectorFrom6(b: seq<byte>)
    requires b == [32, 87, 111, 114, 108, 100, 33]
    ensures Encode(b) == "IFdvcmxkIQ=="
  {
    assert b[3..] == [114, 108, 100, 33];
    VectorFrom9(b[3..]);
    GroupIFdv(b[0], b[1], b[2]);
    EncodeFirstGroup(b, "IFdv", "cmxkIQ==");
  }

  lemma VectorFrom3(b: seq<byte>)
    requires b == [108, 111, 44, 32, 87, 111, 114, 108, 100, 33]
    ensures Encode(b) == "bG8sIFdvcmxkIQ=="
  {
    assert b[3..] == [32, 87, 111, 114, 108, 100, 33];
    VectorFrom6(b[3..]);
    GroupbG8s(b[0], b[1], b[2]);
    EncodeFirstGroup(b, "bG8s", "IFdvcmxkIQ==");
  }

  lemma VectorFrom0(b: seq<byte>)
    requires b == [72, 101, 108, 108, 111, 44, 32, 87, 111, 114, 108, 100, 33]
    ensures Encode(b) == "SGVsbG8sIFdvcmxkIQ=="
  {
    VectorTail(b);
    VectorFrom3(b[3..]);
    GroupSGVs(b[0], b[1], b[2]);
    EncodeFirstGroup(b, "SGVs", "bG8sIFdvcmxkIQ==");
    VectorJoin();
  }

  lemma VectorTail(b: seq<byte>)
    requires b == [72, 101, 108, 108, 111, 44, 32, 87, 111, 114, 108, 100, 33]
    ensures b[3..] == [108, 111, 44, 32, 87, 111, 114, 108, 100, 33]
  {
  }

  lemma VectorJoin()
    ensures "SGVs" + "bG8sIFdvcmxkIQ==" == "SGVsbG8sIFdvcmxkIQ=="
  {
  }

  /** The known vector: "Hello, World!" is "SGVsbG8sIFdvcmxkIQ==". */
  lemma HelloWorldVector()
    ensures ToBase64(Some("Hello, World!")) == Success("SGVsbG8sIFdvcmxkIQ==")
  {
    VectorFrom0(AsciiBytes("Hello, World!"));
  }

  /** The empty string encodes to the empty string; null is an error. */
  lemma EmptyAndNull()
    ensures ToBase64(Some("")) == Success("")
    ensures ToBase64(None) == Failure(ArgumentNullException)
  {
  }
}
