/** The hand-written base64 decoder for inline samples (crates/diar-server/src/main.rs), against
    the encoding of section 4 of RFC 4648. */
module SampleCodec {
  import opened Wrappers
  import opened Bytes

  type Sextet = v: int | 0 <= v < 64

  // ---------------------------------------------------------------- the alphabet

  /** Table 1 of RFC 4648: `A`-`Z`, `a`-`z`, `0`-`9`, `+`, `/`. */
  function Alphabet(v: Sextet): Byte {
    if v < 26 then 65 + v
    else if v < 52 then 97 + (v - 26)
    else if v < 62 then 48 + (v - 52)
    else if v == 62 then 43
    else 47
  }

  ghost predicate InAlphabet(c: Byte) {
    exists v: Sextet :: Alphabet(v) == c
  }

  const PAD: Byte := 61

  /** The bytes the decoder drops: space, newline, carriage return, tab and the pad. */
  predicate Ignored(c: Byte) {
    c == 32 || c == 10 || c == 13 || c == 9 || c == PAD
  }

  const INVALID: Byte := 255

  /** The reverse table, in closed form. */
  function Reverse(c: Byte): Byte {
    if 65 <= c <= 90 then c - 65
    else if 97 <= c <= 122 then c - 97 + 26
    else if 48 <= c <= 57 then c - 48 + 52
    else if c == 43 then 62
    else if c == 47 then 63
    else INVALID
  }

  /** The alphabet runs from `A` to `Z`, from `a` to `z` and from `0` to `9`, then `+` and `/`. */
  lemma AlphabetIsTheTable(v: Sextet)
    ensures Alphabet(0) == 'A' as int && Alphabet(25) == 'Z' as int && Alphabet(26) == 'a' as int
    ensures Alphabet(51) == 'z' as int && Alphabet(52) == '0' as int && Alphabet(61) == '9' as int
    ensures Alphabet(62) == '+' as int && Alphabet(63) == '/' as int
    ensures v !in {25, 51, 61, 62, 63} ==> Alphabet(v + 1) == Alphabet(v) + 1
  {
  }

  lemma ReverseInvertsAlphabet(v: Sextet)
    ensures Reverse(Alphabet(v)) == v && !Ignored(Alphabet(v))
  {
  }

  lemma ReverseIsPartialInverse(c: Byte)
    ensures Reverse(c) != INVALID <==> InAlphabet(c)
    ensures InAlphabet(c) ==> Reverse(c) < 64 && Alphabet(Reverse(c)) == c
  {
    if Reverse(c) != INVALID {
      assert Alphabet(Reverse(c)) == c;
    }
  }

  function Letters(vals: seq<Sextet>): seq<Byte> {
    seq(|vals|, i requires 0 <= i < |vals| => Alphabet(vals[i]))
  }

  predicate AllValid(text: seq<Byte>) {
    forall i :: 0 <= i < |text| ==> Reverse(text[i]) != INVALID
  }

  function Values(text: seq<Byte>): (vals: seq<Sextet>)
    requires AllValid(text)
    ensures |vals| == |text|
  {
    seq(|text|, i requires 0 <= i < |text| && Reverse(text[i]) != INVALID => Reverse(text[i]))
  }

  lemma ValuesInvertLetters(vals: seq<Sextet>)
    ensures AllValid(Letters(vals)) && Values(Letters(vals)) == vals
    ensures forall i :: 0 <= i < |vals| ==> !Ignored(Letters(vals)[i])
  {
    forall i | 0 <= i < |vals| ensures Reverse(Letters(vals)[i]) == vals[i] && !Ignored(Letters(vals)[i]) {
      ReverseInvertsAlphabet(vals[i]);
    }
  }

  lemma LettersInvertValues(text: seq<Byte>)
    requires AllValid(text)
    ensures Letters(Values(text)) == text
  {
    forall i | 0 <= i < |text| ensures Alphabet(Values(text)[i]) == text[i] {
      ReverseIsPartialInverse(text[i]);
    }
  }

  // ---------------------------------------------------------------- bytes as 6-bit digits

  /** The 6-bit digits of RFC 4648: four for three bytes, a zero-filled two or three at the end. */
  function DigitsOf(bs: seq<Byte>): seq<Sextet> {
    if |bs| == 0 then []
    else if |bs| == 1 then [bs[0] / 4, bs[0] % 4 * 16]
    else if |bs| == 2 then [bs[0] / 4, bs[0] % 4 * 16 + bs[1] / 16, bs[1] % 16 * 4]
    else
      [bs[0] / 4, bs[0] % 4 * 16 + bs[1] / 16, bs[1] % 16 * 4 + bs[2] / 64, bs[2] % 64] + DigitsOf(bs[3..])
  }

  function Padding(r: nat): seq<Byte> {
    match r case 1 => [PAD, PAD] case 2 => [PAD] case _ => []
  }

  /** The padded encoding. */
  function Encode(bs: seq<Byte>): seq<Byte> {
    Letters(DigitsOf(bs)) + Padding(|bs| % 3)
  }

  /** The number whose big-endian base-64 digits are `vals`. */
  function Number(vals: seq<Sextet>): nat {
    if vals == [] then 0 else 64 * Number(vals[..|vals| - 1]) + vals[|vals| - 1]
  }

  function Power64(k: nat): nat {
    if k == 0 then 1 else 64 * Power64(k - 1)
  }

  /** A chunk of 1 to 4 digits stands for 0 to 3 bytes: the high bits of 24. */
  function ChunkBytes(vals: seq<Sextet>): (bs: seq<Byte>)
    requires 1 <= |vals| <= 4
    ensures |bs| == |vals| - 1
  {
    var acc := Number(vals) * Power64(4 - |vals|);
    [acc / 65536 % 256, acc / 256 % 256, acc % 256][..|vals| - 1]
  }

  /** The bytes that a whole text of digits stands for, four digits at a time. */
  function BytesOf(vals: seq<Sextet>): seq<Byte> {
    if vals == [] then []
    else if |vals| < 4 then ChunkBytes(vals)
    else ChunkBytes(vals[..4]) + BytesOf(vals[4..])
  }

  lemma NumberUnfold(a: Sextet, b: Sextet, c: Sextet, d: Sextet)
    ensures Number([a, b, c, d]) == ((a * 64 + b) * 64 + c) * 64 + d
    ensures Number([a, b, c]) == (a * 64 + b) * 64 + c
    ensures Number([a, b]) == a * 64 + b
    ensures Number([a]) == a
  {
    assert [a][..0] == [];
    assert Number([a]) == a;
    assert [a, b][..1] == [a];
    assert Number([a, b]) == a * 64 + b;
    assert [a, b, c][..2] == [a, b];
    assert Number([a, b, c]) == (a * 64 + b) * 64 + c;
    assert [a, b, c, d][..3] == [a, b, c];
  }

  lemma PowersOf64()
    ensures Power64(0) == 1 && Power64(1) == 64 && Power64(2) == 4096 && Power64(3) == 262144 && Power64(4) == 0x100_0000
  {
    assert Power64(2) == 64 * Power64(1);
    assert Power64(4) == 64 * Power64(3);
  }

  lemma ThreeBytes(b0: Byte, b1: Byte, b2: Byte, acc: nat)
    requires acc == 65536 * b0 + 256 * b1 + b2
    ensures acc / 65536 % 256 == b0 && acc / 256 % 256 == b1 && acc % 256 == b2
  {
    assert acc / 256 == 256 * b0 + b1;
  }

  /** 24 bits, cut into digits and into bytes. */
  lemma SameBits(a: Sextet, b: Sextet, c: Sextet, d: Sextet)
    ensures 4 * a + b / 16 < 256 && b % 16 * 16 + c / 4 < 256 && c % 4 * 64 + d < 256
    ensures ((a * 64 + b) * 64 + c) * 64 + d == 65536 * (4 * a + b / 16) + 256 * (b % 16 * 16 + c / 4) + (c % 4 * 64 + d)
  {
    assert b == 16 * (b / 16) + b % 16 && c == 4 * (c / 4) + c % 4;
  }

  /** Four digits as three bytes, bit by bit. */
  lemma FourDigits(a: Sextet, b: Sextet, c: Sextet, d: Sextet)
    ensures ChunkBytes([a, b, c, d]) == [4 * a + b / 16, b % 16 * 16 + c / 4, c % 4 * 64 + d]
  {
    NumberUnfold(a, b, c, d);
    PowersOf64();
    SameBits(a, b, c, d);
    ThreeBytes(4 * a + b / 16, b % 16 * 16 + c / 4, c % 4 * 64 + d, ((a * 64 + b) * 64 + c) * 64 + d);
  }

  lemma ThreeDigits(a: Sextet, b: Sextet, c: Sextet)
    ensures ChunkBytes([a, b, c]) == [4 * a + b / 16, b % 16 * 16 + c / 4]
  {
    NumberUnfold(a, b, c, 0);
    PowersOf64();
    SameBits(a, b, c, 0);
    ThreeBytes(4 * a + b / 16, b % 16 * 16 + c / 4, c % 4 * 64, ((a * 64 + b) * 64 + c) * 64);
  }

  lemma TwoDigits(a: Sextet, b: Sextet)
    ensures ChunkBytes([a, b]) == [4 * a + b / 16]
  {
    NumberUnfold(a, b, 0, 0);
    PowersOf64();
    SameBits(a, b, 0, 0);
    ThreeBytes(4 * a + b / 16, b % 16 * 16, 0, (a * 64 + b) * 4096);
  }

  /** The digits of three bytes are digits, and give the bytes back. */
  lemma BitsRoundTrip(b0: Byte, b1: Byte, b2: Byte)
    ensures var a, b, c, d := b0 / 4, b0 % 4 * 16 + b1 / 16, b1 % 16 * 4 + b2 / 64, b2 % 64;
            && 0 <= a < 64 && 0 <= b < 64 && 0 <= c < 64 && 0 <= d < 64
            && 4 * a + b / 16 == b0 && b % 16 * 16 + c / 4 == b1 && c % 4 * 64 + d == b2
  {
  }

  lemma {:induction false} BytesInvertDigits(bs: seq<Byte>)
    ensures BytesOf(DigitsOf(bs)) == bs
  {
    if |bs| == 0 {
    } else if |bs| == 1 {
      BitsRoundTrip(bs[0], 0, 0);
      TwoDigits(bs[0] / 4, bs[0] % 4 * 16);
      assert bs == [bs[0]];
    } else if |bs| == 2 {
      BitsRoundTrip(bs[0], bs[1], 0);
      ThreeDigits(bs[0] / 4, bs[0] % 4 * 16 + bs[1] / 16, bs[1] % 16 * 4);
      assert bs == [bs[0], bs[1]];
    } else {
      BytesInvertDigits(bs[3..]);
      GroupBytes(bs[0], bs[1], bs[2], bs[3..]);
      assert bs == [bs[0], bs[1], bs[2]] + bs[3..];
    }
  }

  lemma GroupDigits(b0: Byte, b1: Byte, b2: Byte) returns (head: seq<Sextet>)
    ensures head == [b0 / 4, b0 % 4 * 16 + b1 / 16, b1 % 16 * 4 + b2 / 64, b2 % 64]
    ensures ChunkBytes(head) == [b0, b1, b2]
  {
    BitsRoundTrip(b0, b1, b2);
    var a, b, c, d := b0 / 4, b0 % 4 * 16 + b1 / 16, b1 % 16 * 4 + b2 / 64, b2 % 64;
    FourDigits(a, b, c, d);
    head := [a, b, c, d];
  }

  lemma {:induction false} GroupBytes(b0: Byte, b1: Byte, b2: Byte, rest: seq<Byte>)
    ensures BytesOf(DigitsOf([b0, b1, b2] + rest)) == [b0, b1, b2] + BytesOf(DigitsOf(rest))
  {
    var head := GroupDigits(b0, b1, b2);
    assert ([b0, b1, b2] + rest)[3..] == rest;
    BytesStep(head, DigitsOf(rest));
  }

  lemma {:induction false} BytesStep(head: seq<Sextet>, rest: seq<Sextet>)
    requires |head| == 4
    ensures BytesOf(head + rest) == ChunkBytes(head) + BytesOf(rest)
  {
    assert (head + rest)[..4] == head && (head + rest)[4..] == rest;
  }

  /** No dangling digit, and the unused low bits of a last partial chunk are zero. */
  predicate Canonical(vals: seq<Sextet>) {
    && |vals| % 4 != 1
    && (|vals| % 4 == 2 ==> vals[|vals| - 1] % 16 == 0)
    && (|vals| % 4 == 3 ==> vals[|vals| - 1] % 4 == 0)
  }

  lemma BitsRoundTripBack(a: Sextet, b: Sextet, c: Sextet, d: Sextet)
    ensures var b0, b1, b2 := 4 * a + b / 16, b % 16 * 16 + c / 4, c % 4 * 64 + d;
            && 0 <= b0 < 256 && 0 <= b1 < 256 && 0 <= b2 < 256
            && b0 / 4 == a && b0 % 4 * 16 + b1 / 16 == b && b1 % 16 * 4 + b2 / 64 == c && b2 % 64 == d
            && b0 % 4 * 16 == b - b % 16 && b1 % 16 * 4 == c - c % 4
  {
  }

  lemma CanonicalTail(vals: seq<Sextet>)
    requires |vals| >= 4
    ensures Canonical(vals) <==> Canonical(vals[4..])
  {
    assert |vals[4..]| % 4 == |vals| % 4;
  }

  lemma {:induction false} DigitsInvertBytes(vals: seq<Sextet>)
    ensures DigitsOf(BytesOf(vals)) == vals <==> Canonical(vals)
  {
    if |vals| < 2 {
    } else if |vals| == 2 {
      DigitsOfPartial(vals[0], vals[1], 0);
      assert vals == [vals[0], vals[1]];
    } else if |vals| == 3 {
      DigitsOfPartial(vals[0], vals[1], vals[2]);
      assert vals == [vals[0], vals[1], vals[2]];
    } else {
      DigitsInvertBytes(vals[4..]);
      CanonicalTail(vals);
      DigitsStep(vals[0], vals[1], vals[2], vals[3], vals[4..]);
      var head := [vals[0], vals[1], vals[2], vals[3]];
      assert vals == head + vals[4..];
      assert (head + DigitsOf(BytesOf(vals[4..])))[4..] == DigitsOf(BytesOf(vals[4..]));
    }
  }

  lemma {:induction false} DigitsOfPartial(a: Sextet, b: Sextet, c: Sextet)
    ensures DigitsOf(BytesOf([a, b])) == [a, b - b % 16]
    ensures DigitsOf(BytesOf([a, b, c])) == [a, b, c - c % 4]
  {
    ThreeDigits(a, b, c);
    TwoDigits(a, b);
    BitsRoundTripBack(a, b, c, 0);
  }

  lemma {:induction false} DigitsStep(a: Sextet, b: Sextet, c: Sextet, d: Sextet, rest: seq<Sextet>)
    ensures DigitsOf(BytesOf([a, b, c, d] + rest)) == [a, b, c, d] + DigitsOf(BytesOf(rest))
  {
    BytesStep([a, b, c, d], rest);
    FourDigits(a, b, c, d);
    BitsRoundTripBack(a, b, c, d);
    var bs: seq<Byte> := [4 * a + b / 16, b % 16 * 16 + c / 4, c % 4 * 64 + d];
    assert (bs + BytesOf(rest))[3..] == BytesOf(rest);
  }

  function DecodedLength(n: nat): nat {
    3 * (n / 4) + if n % 4 == 0 then 0 else n % 4 - 1
  }

  lemma BytesLength(vals: seq<Sextet>)
    ensures |BytesOf(vals)| == DecodedLength(|vals|)
  {
  }

  // ---------------------------------------------------------------- what decoding results in

  datatype DecodeError = InvalidBase64 | LengthNotMultipleOfFour

  function Strip(s: seq<Byte>): seq<Byte> {
    if s == [] then []
    else Strip(s[..|s| - 1]) + if Ignored(s[|s| - 1]) then [] else [s[|s| - 1]]
  }

  function Decode(text: seq<Byte>): Result<seq<Word>, DecodeError> {
    var clean := Strip(text);
    if !AllValid(clean) then Err(InvalidBase64)
    else
      var bs := BytesOf(Values(clean));
      if |bs| % 4 == 0 then Ok(FromLeAll(bs)) else Err(LengthNotMultipleOfFour)
  }

  lemma {:induction false} StripConcat(a: seq<Byte>, b: seq<Byte>)
    ensures Strip(a + b) == Strip(a) + Strip(b)
  {
    if b == [] {
      assert a + b == a;
    } else {
      StripConcat(a, b[..|b| - 1]);
      assert (a + b)[..|a + b| - 1] == a + b[..|b| - 1];
    }
  }

  lemma {:induction false} StripAllIgnored(noise: seq<Byte>)
    requires forall i :: 0 <= i < |noise| ==> Ignored(noise[i])
    ensures Strip(noise) == []
  {
    if noise != [] {
      StripAllIgnored(noise[..|noise| - 1]);
    }
  }

  lemma {:induction false} StripNoneIgnored(s: seq<Byte>)
    requires forall i :: 0 <= i < |s| ==> !Ignored(s[i])
    ensures Strip(s) == s
  {
    if s != [] {
      StripNoneIgnored(s[..|s| - 1]);
      assert s == s[..|s| - 1] + [s[|s| - 1]];
    }
  }

  /** Ignored bytes may be inserted anywhere without changing the result. */
  lemma {:induction false} InsertIgnored(text: seq<Byte>, i: nat, noise: seq<Byte>)
    requires i <= |text| && forall j :: 0 <= j < |noise| ==> Ignored(noise[j])
    ensures Decode(text[..i] + noise + text[i..]) == Decode(text)
  {
    StripAllIgnored(noise);
    StripConcat(text[..i], noise);
    StripConcat(text[..i] + noise, text[i..]);
    StripConcat(text[..i], text[i..]);
    assert text[..i] + text[i..] == text;
    assert Strip(text[..i]) + [] == Strip(text[..i]);
  }

  /** MAIN RESULT. The bytes that may be inserted anywhere in any text without changing the result are
      exactly space, line feed, carriage return, tab and `=`. */
  lemma InsertableExactlyWhen(c: Byte)
    ensures (forall text: seq<Byte>, i: nat :: i <= |text| ==> Decode(text[..i] + [c] + text[i..]) == Decode(text)) <==>
            c in {32, 10, 13, 9, 61}
  {
    if Ignored(c) {
      forall text: seq<Byte>, i: nat | i <= |text|
        ensures Decode(text[..i] + [c] + text[i..]) == Decode(text)
      {
        InsertIgnored(text, i, [c]);
      }
    } else {
      var a: Byte := 65;
      assert [a][..1] + [c] + [a][1..] == [a, c];
      DecodeOfTwo(a, c);
    }
  }

  /** After `A` another significant byte is foreign or makes a sample of one byte. */
  lemma DecodeOfTwo(a: Byte, c: Byte)
    requires a == 65 && !Ignored(c)
    ensures Decode([a]) == Ok([]) && Decode([a, c]).Err?
  {
    StripNoneIgnored([a]);
    StripNoneIgnored([a, c]);
    DecodeSucceedsExactlyWhen([a]);
    DecodeSucceedsExactlyWhen([a, c]);
  }

  lemma {:induction false} StripEncode(bs: seq<Byte>)
    ensures Strip(Encode(bs)) == Letters(DigitsOf(bs)) == Strip(Letters(DigitsOf(bs)))
  {
    StripPadded(DigitsOf(bs), Padding(|bs| % 3));
  }

  lemma {:induction false} StripPadded(digits: seq<Sextet>, pads: seq<Byte>)
    requires forall j :: 0 <= j < |pads| ==> Ignored(pads[j])
    ensures Strip(Letters(digits) + pads) == Letters(digits) == Strip(Letters(digits))
  {
    ValuesInvertLetters(digits);
    StripNoneIgnored(Letters(digits));
    StripAllIgnored(pads);
    StripConcat(Letters(digits), pads);
    assert Letters(digits) + [] == Letters(digits);
  }

  /** The first test vectors of section 10 of RFC 4648: `f`, `fo` and `foo`. */
  lemma Rfc4648Vectors()
    ensures Encode([102]) == ['Z' as int, 'g' as int, '=' as int, '=' as int]
    ensures Encode([102, 111]) == ['Z' as int, 'm' as int, '8' as int, '=' as int]
    ensures Encode([102, 111, 111]) == ['Z' as int, 'm' as int, '9' as int, 'v' as int]
  {
    assert DigitsOf([]) == [];
    assert DigitsOf([102]) == [25, 32];
    assert DigitsOf([102, 111]) == [25, 38, 60];
    assert [102, 111, 111][3..] == [];
    assert DigitsOf([102, 111, 111]) == [25, 38, 61, 47];
  }

  /** MAIN RESULT. Any text whose significant characters are those of the RFC 4648 encoding of
      some samples (so with or without padding, with white space anywhere) decodes to them. */
  lemma DecodeInvertsEncode(samples: seq<Word>, text: seq<Byte>)
    requires Strip(text) == Strip(Encode(ToLeAll(samples)))
    ensures Decode(text) == Ok(samples)
  {
    var bs := ToLeAll(samples);
    StripEncode(bs);
    ValuesInvertLetters(DigitsOf(bs));
    BytesInvertDigits(bs);
    FromLeAllInvertsToLeAll(samples);
  }

  /** MAIN RESULT. Decoding succeeds exactly when every significant byte is in the alphabet and
      their number stands for a multiple of four bytes; it then yields a quarter as many samples. */
  lemma DecodeSucceedsExactlyWhen(text: seq<Byte>)
    ensures var clean := Strip(text);
            && (Decode(text).Ok? <==> (forall c <- clean :: InAlphabet(c)) && DecodedLength(|clean|) % 4 == 0)
            && (Decode(text) == Err(InvalidBase64) <==> exists c <- clean :: !InAlphabet(c))
            && (Decode(text).Ok? ==> |Decode(text).value| == DecodedLength(|clean|) / 4)
  {
    var clean := Strip(text);
    forall i | 0 <= i < |clean|
      ensures Reverse(clean[i]) != INVALID <==> InAlphabet(clean[i])
    {
      ReverseIsPartialInverse(clean[i]);
    }
    if AllValid(clean) {
      BytesLength(Values(clean));
    }
  }

  /** Encoding the decoded samples gives the significant text back exactly when it was canonical;
      the decoder also accepts dangling digits and stray low bits, which it ignores. */
  lemma EncodeInvertsDecodeExactlyWhen(text: seq<Byte>)
    requires Decode(text).Ok?
    ensures Strip(Encode(ToLeAll(Decode(text).value))) == Strip(text) <==> Canonical(Values(Strip(text)))
  {
    var clean := Strip(text);
    var vals := Values(clean);
    ToLeAllInvertsFromLeAll(BytesOf(vals));
    StripEncode(BytesOf(vals));
    DigitsInvertBytes(vals);
    LettersInvertValues(clean);
    ValuesInvertLetters(DigitsOf(BytesOf(vals)));
  }

  // ---------------------------------------------------------------- the decoder

  method ReverseTable() returns (table: seq<Byte>)
    ensures |table| == 256
    ensures forall c :: 0 <= c < 256 ==> table[c] == Reverse(c)
  {
    var rev := new Byte[256](_ => INVALID);
    for i := 0 to 64
      invariant forall c :: 0 <= c < 256 ==> rev[c] == if Reverse(c) < i then Reverse(c) else INVALID
    {
      ReverseInvertsAlphabet(i);
      forall c: Byte ensures Reverse(c) == i ==> c == Alphabet(i) {
        ReverseIsPartialInverse(c);
      }
      rev[Alphabet(i)] := i;
    }
    return rev[..];
  }

  method StripIgnored(text: seq<Byte>) returns (clean: seq<Byte>)
    ensures clean == Strip(text)
  {
    clean := [];
    for i := 0 to |text|
      invariant clean == Strip(text[..i])
    {
      assert text[..i + 1][..i] == text[..i];
      if !Ignored(text[i]) {
        clean := clean + [text[i]];
      }
    }
    assert text[..|text|] == text;
  }

  lemma NumberBelow(vals: seq<Sextet>)
    ensures Number(vals) < Power64(|vals|)
  {
  }

  lemma NumberStep(vals: seq<Sextet>, i: nat)
    requires i < |vals| <= 4
    ensures Number(vals[..i + 1]) == 64 * Number(vals[..i]) + vals[i] < 0x100_0000
  {
    assert vals[..i + 1][..i] == vals[..i];
    NumberBelow(vals[..i + 1]);
    PowersOf64();
  }

  lemma ShiftStaysIn24Bits(vals: seq<Sextet>)
    requires 1 <= |vals| <= 4
    ensures Number(vals) * Power64(4 - |vals|) < 0x100_0000
  {
    NumberBelow(vals);
    PowersOf64();
  }

  lemma NoBitLost(x: nat)
    requires x < 0x100_0000
    ensures x % WORD_LIMIT == x
  {
  }

  /** The 32-bit accumulator never exceeds 24 bits, so no shift loses a bit. */
  method Accumulate(vals: seq<Sextet>) returns (acc: Word)
    requires 1 <= |vals| <= 4
    ensures acc == Number(vals) * Power64(4 - |vals|)
  {
    acc := 0;
    for i := 0 to |vals|
      invariant acc == Number(vals[..i]) < 0x100_0000
    {
      NumberStep(vals, i);
      NoBitLost(acc * 64);
      acc := acc * 64 % WORD_LIMIT + vals[i];
    }
    assert vals[..|vals|] == vals;
    ShiftStaysIn24Bits(vals);
    NoBitLost(acc * Power64(4 - |vals|));
    acc := acc * Power64(4 - |vals|) % WORD_LIMIT;
  }

  method DecodeChunk(table: seq<Byte>, chunk: seq<Byte>) returns (r: Option<seq<Byte>>)
    requires |table| == 256 && forall c :: 0 <= c < 256 ==> table[c] == Reverse(c)
    requires 1 <= |chunk| <= 4
    ensures r == if AllValid(chunk) then Some(ChunkBytes(Values(chunk))) else None
  {
    var vals: seq<Byte> := [];
    for i := 0 to |chunk|
      invariant |vals| == i && forall j :: 0 <= j < i ==> vals[j] == Reverse(chunk[j])
    {
      vals := vals + [table[chunk[i]]];
    }
    if exists i :: 0 <= i < |vals| && vals[i] == INVALID {
      return None;
    }
    assert vals == Values(chunk);
    var acc := Accumulate(vals);
    var out: seq<Byte> := [acc / 65536 % 256, acc / 256 % 256, acc % 256];
    return Some(out[..|vals| - 1]);
  }

  /** `as_chunks::<4>` and `from_le_bytes`. */
  method WordsOf(bytes: seq<Byte>) returns (samples: seq<Word>)
    requires |bytes| % 4 == 0
    ensures samples == FromLeAll(bytes)
  {
    samples := [];
    for i := 0 to |bytes| / 4
      invariant samples + FromLeAll(bytes[4 * i..]) == FromLeAll(bytes)
    {
      var rest := bytes[4 * i..];
      assert rest[4..] == bytes[4 * (i + 1)..];
      samples := samples + [FromLe(rest[0], rest[1], rest[2], rest[3])];
    }
  }

  /** What `bytes` followed by the still undecoded text stands for, if it is valid. */
  function Pending(bytes: seq<Byte>, rest: seq<Byte>): Option<seq<Byte>> {
    if AllValid(rest) then Some(bytes + BytesOf(Values(rest))) else None
  }

  lemma {:induction false} BytesFirst(vals: seq<Sextet>, n: nat)
    requires vals != [] && n == if |vals| < 4 then |vals| else 4
    ensures BytesOf(vals) == ChunkBytes(vals[..n]) + BytesOf(vals[n..])
  {
    if |vals| < 4 {
      assert vals[..n] == vals && vals[n..] == [];
    }
  }

  lemma {:induction false} PendingChunk(bytes: seq<Byte>, rest: seq<Byte>, n: nat)
    requires rest != [] && n == if |rest| < 4 then |rest| else 4
    ensures Pending(bytes, rest) ==
              if AllValid(rest[..n]) then Pending(bytes + ChunkBytes(Values(rest[..n])), rest[n..]) else None
  {
    assert rest == rest[..n] + rest[n..];
    assert AllValid(rest) <==> AllValid(rest[..n]) && AllValid(rest[n..]);
    if AllValid(rest) {
      assert Values(rest)[..n] == Values(rest[..n]) && Values(rest)[n..] == Values(rest[n..]);
      BytesFirst(Values(rest), n);
      assert bytes + (ChunkBytes(Values(rest[..n])) + BytesOf(Values(rest[n..])))
          == bytes + ChunkBytes(Values(rest[..n])) + BytesOf(Values(rest[n..]));
    }
  }

  method DecodeSamplesB64(text: seq<Byte>) returns (r: Result<seq<Word>, DecodeError>)
    ensures r == Decode(text)
  {
    var table := ReverseTable();
    var clean := StripIgnored(text);
    var bytes: seq<Byte> := [];
    var rest := clean;
    assert AllValid(clean) ==> [] + BytesOf(Values(clean)) == BytesOf(Values(clean));
    while rest != []
      invariant Pending(bytes, rest) == if AllValid(clean) then Some(BytesOf(Values(clean))) else None
      decreases |rest|
    {
      var n := if |rest| < 4 then |rest| else 4;
      PendingChunk(bytes, rest, n);
      var chunk := DecodeChunk(table, rest[..n]);
      if chunk.None? {
        return Err(InvalidBase64);
      }
      bytes, rest := bytes + chunk.value, rest[n..];
    }
    assert bytes + [] == bytes;
    if |bytes| % 4 != 0 {
      return Err(LengthNotMultipleOfFour);
    }
    var samples := WordsOf(bytes);
    return Ok(samples);
  }
}
