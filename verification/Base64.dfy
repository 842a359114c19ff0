/** encoding/base64 with padding, and its URL-safe alphabet: section 5 of RFC 4648. */
module Base64 {
  import opened Wrappers
  import opened Text

  const PAD: Byte := 61
  const LF: Byte := 10
  const CR: Byte := 13

  type Sextet = x: int | 0 <= x < 64

  /** An alphabet: the character of each sextet, and the sextet of a character that has one. */
  datatype Encoding = Encoding(letter: Sextet -> Byte, value: Byte -> Option<Sextet>)

  function UrlChar(x: Sextet): Byte {
    if x < 26 then 65 + x            // A-Z
    else if x < 52 then 97 + x - 26  // a-z
    else if x < 62 then 48 + x - 52  // 0-9
    else if x == 62 then 45          // -
    else 95                          // _
  }

  function UrlValue(b: Byte): Option<Sextet> {
    if 65 <= b < 91 then Some(b - 65)
    else if 97 <= b < 123 then Some(b - 97 + 26)
    else if 48 <= b < 58 then Some(b - 48 + 52)
    else if b == 45 then Some(62)
    else if b == 95 then Some(63)
    else None
  }

  /** base64.URLEncoding. */
  const URL_ENCODING := Encoding(UrlChar, UrlValue)

  /** Characters determine sextets, and neither padding nor a line break is a character. */
  ghost predicate Proper(e: Encoding) {
    && (forall x: Sextet :: e.value(e.letter(x)) == Some(x))
    && e.value(PAD).None? && e.value(LF).None? && e.value(CR).None?
  }

  lemma UrlEncodingProper()
    ensures Proper(URL_ENCODING)
  {
    forall x: Sextet ensures URL_ENCODING.value(URL_ENCODING.letter(x)) == Some(x) {
      assert UrlValue(UrlChar(x)) == Some(x);
    }
  }

  // the four sextets of three bytes, and back
  function S0(a: Byte): Sextet { a / 4 }
  function S1(a: Byte, b: Byte): Sextet { a % 4 * 16 + b / 16 }
  function S2(b: Byte, c: Byte): Sextet { b % 16 * 4 + c / 64 }
  function S3(c: Byte): Sextet { c % 64 }
  function B0(x: Sextet, y: Sextet): Byte { x * 4 + y / 16 }
  function B1(y: Sextet, z: Sextet): Byte { y % 16 * 16 + z / 4 }
  function B2(z: Sextet, w: Sextet): Byte { z % 4 * 64 + w }

  function Encode(e: Encoding, s: Bytes): Bytes {
    if s == [] then []
    else if |s| == 1 then [e.letter(S0(s[0])), e.letter(S1(s[0], 0)), PAD, PAD]
    else if |s| == 2 then [e.letter(S0(s[0])), e.letter(S1(s[0], s[1])), e.letter(S2(s[1], 0)), PAD]
    else [e.letter(S0(s[0])), e.letter(S1(s[0], s[1])), e.letter(S2(s[1], s[2])), e.letter(S3(s[2]))]
         + Encode(e, s[3..])
  }

  /** The decoder skips line breaks wherever they stand. */
  function StripNewlines(s: Bytes): Bytes {
    if s == [] then []
    else (if s[0] == LF || s[0] == CR then [] else [s[0]]) + StripNewlines(s[1..])
  }

  /** The bytes of four characters; padding is allowed only in the last four. */
  function DecodeFour(e: Encoding, p: Byte, q: Byte, r: Byte, t: Byte, last: bool): Option<Bytes> {
    var x, y, z, w := e.value(p), e.value(q), e.value(r), e.value(t);
    if x.None? || y.None? then None
    else if r == PAD && t == PAD && last then Some([B0(x.value, y.value)])
    else if z.None? then None
    else if t == PAD && last then Some([B0(x.value, y.value), B1(y.value, z.value)])
    else if w.None? then None
    else Some([B0(x.value, y.value), B1(y.value, z.value), B2(z.value, w.value)])
  }

  function DecodeQuanta(e: Encoding, t: Bytes): Option<Bytes>
    decreases |t|
  {
    if t == [] then Some([])
    else if |t| < 4 then None
    else
      var four, rest := DecodeFour(e, t[0], t[1], t[2], t[3], |t| == 4), DecodeQuanta(e, t[4..]);
      if four.None? || rest.None? then None else Some(four.value + rest.value)
  }

  function Decode(e: Encoding, t: Bytes): Option<Bytes> { DecodeQuanta(e, StripNewlines(t)) }

  predicate InAlphabet(e: Encoding, b: Byte) { e.value(b).Some? || b == PAD }

  lemma {:induction false} EncodeAlphabet(e: Encoding, s: Bytes)
    requires Proper(e)
    ensures forall b <- Encode(e, s) :: InAlphabet(e, b)
  {
    if |s| >= 3 {
      EncodeAlphabet(e, s[3..]);
    }
  }

  lemma {:induction false} StripNothing(e: Encoding, t: Bytes)
    requires Proper(e) && forall b <- t :: InAlphabet(e, b)
    ensures StripNewlines(t) == t
  {
    if t != [] {
      assert InAlphabet(e, t[0]);
      StripNothing(e, t[1..]);
      assert [t[0]] + t[1..] == t;
    }
  }

  /** Three bytes survive the trip through four sextets. */
  lemma Regroup(a: Byte, b: Byte, c: Byte)
    ensures B0(S0(a), S1(a, b)) == a && B1(S1(a, b), S2(b, c)) == b && B2(S2(b, c), S3(c)) == c
  {
  }

  lemma FullFour(e: Encoding, x: Sextet, y: Sextet, z: Sextet, w: Sextet, last: bool)
    requires Proper(e)
    ensures DecodeFour(e, e.letter(x), e.letter(y), e.letter(z), e.letter(w), last)
         == Some([B0(x, y), B1(y, z), B2(z, w)])
  {
    assert e.value(e.letter(x)) == Some(x) && e.value(e.letter(y)) == Some(y);
    assert e.value(e.letter(z)) == Some(z) && e.value(e.letter(w)) == Some(w);
  }

  lemma PaddedFour(e: Encoding, x: Sextet, y: Sextet, z: Sextet)
    requires Proper(e)
    ensures DecodeFour(e, e.letter(x), e.letter(y), e.letter(z), PAD, true) == Some([B0(x, y), B1(y, z)])
    ensures DecodeFour(e, e.letter(x), e.letter(y), PAD, PAD, true) == Some([B0(x, y)])
  {
    assert e.value(e.letter(x)) == Some(x) && e.value(e.letter(y)) == Some(y);
    assert e.value(e.letter(z)) == Some(z);
  }

  /** A text made of one group and more decodes group by group. */
  lemma DecodeGroup(e: Encoding, p: Byte, q: Byte, r: Byte, t: Byte, rest: Bytes, first: Bytes, others: Bytes)
    requires DecodeFour(e, p, q, r, t, rest == []) == Some(first) && DecodeQuanta(e, rest) == Some(others)
    ensures DecodeQuanta(e, [p, q, r, t] + rest) == Some(first + others)
  {
    assert ([p, q, r, t] + rest)[4..] == rest;
  }

  lemma OneByte(e: Encoding, a: Byte)
    requires Proper(e)
    ensures DecodeQuanta(e, Encode(e, [a])) == Some([a])
  {
    var x, y := S0(a), S1(a, 0);
    assert B0(x, y) == a by { Regroup(a, 0, 0); }
    PaddedFour(e, x, y, 0);
    assert Encode(e, [a]) == [e.letter(x), e.letter(y), PAD, PAD] + [];
    DecodeGroup(e, e.letter(x), e.letter(y), PAD, PAD, [], [a], []);
    assert [a] + [] == [a];
  }

  lemma TwoBytes(e: Encoding, a: Byte, b: Byte)
    requires Proper(e)
    ensures DecodeQuanta(e, Encode(e, [a, b])) == Some([a, b])
  {
    var x, y, z := S0(a), S1(a, b), S2(b, 0);
    assert B0(x, y) == a && B1(y, z) == b by { Regroup(a, b, 0); }
    PaddedFour(e, x, y, z);
    assert Encode(e, [a, b]) == [e.letter(x), e.letter(y), e.letter(z), PAD] + [];
    DecodeGroup(e, e.letter(x), e.letter(y), e.letter(z), PAD, [], [a, b], []);
    assert [a, b] + [] == [a, b];
  }

  lemma ThreeBytes(e: Encoding, a: Byte, b: Byte, c: Byte, rest: Bytes, others: Bytes)
    requires Proper(e) && DecodeQuanta(e, rest) == Some(others)
    ensures DecodeQuanta(e, [e.letter(S0(a)), e.letter(S1(a, b)), e.letter(S2(b, c)), e.letter(S3(c))] + rest)
         == Some([a, b, c] + others)
  {
    var x, y, z, w := S0(a), S1(a, b), S2(b, c), S3(c);
    assert B0(x, y) == a && B1(y, z) == b && B2(z, w) == c by { Regroup(a, b, c); }
    FullFour(e, x, y, z, w, rest == []);
    DecodeGroup(e, e.letter(x), e.letter(y), e.letter(z), e.letter(w), rest, [a, b, c], others);
  }

  lemma {:induction false} DecodeEncodeQuanta(e: Encoding, s: Bytes)
    requires Proper(e)
    ensures DecodeQuanta(e, Encode(e, s)) == Some(s)
  {
    if |s| == 1 {
      OneByte(e, s[0]);
      assert s == [s[0]];
    } else if |s| == 2 {
      TwoBytes(e, s[0], s[1]);
      assert s == [s[0], s[1]];
    } else if |s| >= 3 {
      DecodeEncodeQuanta(e, s[3..]);
      ThreeBytes(e, s[0], s[1], s[2], Encode(e, s[3..]), s[3..]);
      assert s == [s[0], s[1], s[2]] + s[3..];
    }
  }

  /** Decoding undoes encoding. */
  lemma DecodeEncode(e: Encoding, s: Bytes)
    requires Proper(e)
    ensures Decode(e, Encode(e, s)) == Some(s)
  {
    EncodeAlphabet(e, s);
    StripNothing(e, Encode(e, s));
    DecodeEncodeQuanta(e, s);
  }

  lemma StripHead(x: Byte, s: Bytes)
    ensures StripNewlines([x] + s) == (if x == '\n' as int || x == '\r' as int then [] else [x]) + StripNewlines(s)
  {
    assert ([x] + s)[1..] == s;
  }

  lemma {:induction false} StripAppend(a: Bytes, b: Bytes)
    ensures StripNewlines(a + b) == StripNewlines(a) + StripNewlines(b)
  {
    if a == [] {
      assert a + b == b;
    } else {
      StripHead(a[0], a[1..] + b);
      StripHead(a[0], a[1..]);
      StripAppend(a[1..], b);
      assert a == [a[0]] + a[1..] && a + b == [a[0]] + (a[1..] + b);
    }
  }

  /** Line breaks are skipped wherever they stand. */
  lemma LineBreaksAreSkipped(e: Encoding, a: Bytes, b: Bytes, x: Byte)
    requires x == '\n' as int || x == '\r' as int
    ensures Decode(e, a + ([x] + b)) == Decode(e, a + b)
  {
    StripAppend(a, [x] + b);
    StripHead(x, b);
    StripAppend(a, b);
    assert [] + StripNewlines(b) == StripNewlines(b);
  }

  /** A text that does not come in groups of four characters is an error. */
  lemma {:induction false} OddLengthIsError(e: Encoding, t: Bytes)
    requires |t| % 4 != 0
    ensures DecodeQuanta(e, t).None?
    decreases |t|
  {
    if |t| >= 4 {
      OddLengthIsError(e, t[4..]);
    }
  }

  /** So is one with padding before its last group. */
  lemma {:induction false} EarlyPaddingIsError(e: Encoding, t: Bytes, k: nat)
    requires Proper(e) && k < |t| && t[k] == '=' as int && k / 4 * 4 + 4 < |t|
    ensures DecodeQuanta(e, t).None?
    decreases |t|
  {
    if k >= 4 {
      EarlyPaddingIsError(e, t[4..], k - 4);
    } else {
      assert DecodeFour(e, t[0], t[1], t[2], t[3], false).None?;
    }
  }

  /** The URL-safe alphabet, in order: table 2 of RFC 4648. */
  lemma UrlAlphabet(x: Sextet)
    ensures x < 26 ==> URL_ENCODING.letter(x) == 'A' as int + x
    ensures 26 <= x < 52 ==> URL_ENCODING.letter(x) == 'a' as int + (x - 26)
    ensures 52 <= x < 62 ==> URL_ENCODING.letter(x) == '0' as int + (x - 52)
    ensures x == 62 ==> URL_ENCODING.letter(x) == '-' as int
    ensures x == 63 ==> URL_ENCODING.letter(x) == '_' as int
  {
  }

  /** The vectors of section 10 of RFC 4648. */
  lemma Vectors()
    ensures Encode(URL_ENCODING, []) == []
    ensures Encode(URL_ENCODING, Ascii("f")) == Ascii("Zg==") && Encode(URL_ENCODING, Ascii("fo")) == Ascii("Zm8=")
    ensures Encode(URL_ENCODING, Ascii("foo")) == Ascii("Zm9v")
    ensures Encode(URL_ENCODING, Ascii("foob")) == Ascii("Zm9vYg==")
  {
    assert Ascii("f") == [102] && Ascii("fo") == [102, 111] && Ascii("foo") == [102, 111, 111];
    assert Ascii("foob") == [102, 111, 111, 98] && Ascii("foob")[3..] == [98] && Ascii("foo")[3..] == [];
    assert Ascii("Zg==") == [90, 103, 61, 61] && Ascii("Zm8=") == [90, 109, 56, 61];
    assert Ascii("Zm9v") == [90, 109, 57, 118] && Ascii("Zm9vYg==") == [90, 109, 57, 118, 89, 103, 61, 61];
    assert Encode(URL_ENCODING, [98]) == [89, 103, 61, 61];
  }
}
