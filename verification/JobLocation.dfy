/**
  The Location header of a JobSink (cmd/jobsink/main.go): four values percent-encoded into a path
  and parsed back.  url.PathEscape and url.PathUnescape follow section 2.1 of RFC 3986.
 */
module JobLocation {
  import opened Wrappers
  import opened Text

  const SLASH: Byte := 47
  const PERCENT: Byte := 37

  /** Characters url.PathEscape leaves alone in a path segment. */
  predicate Unescaped(b: Byte) {
    || 48 <= b < 58 || 65 <= b < 91 || 97 <= b < 123     // letters and digits
    || b == 45 || b == 46 || b == 95 || b == 126         // - . _ ~
    || b == 36 || b == 38 || b == 43 || b == 58 || b == 61 || b == 64 // $ & + : = @
  }

  type Nibble = x: int | 0 <= x < 16

  function Hex(n: Nibble): Byte { if n < 10 then 48 + n else 65 + n - 10 }

  function Unhex(b: Byte): Option<Nibble> {
    if 48 <= b < 58 then Some(b - 48)
    else if 97 <= b < 103 then Some(b - 97 + 10)
    else if 65 <= b < 71 then Some(b - 65 + 10)
    else None
  }

  function PathEscape(s: Bytes): Bytes {
    if s == [] then []
    else (if Unescaped(s[0]) then [s[0]] else [PERCENT, Hex(s[0] / 16), Hex(s[0] % 16)]) + PathEscape(s[1..])
  }

  /** None is the error for a '%' that two hexadecimal digits do not follow. */
  function PathUnescape(s: Bytes): Option<Bytes>
    decreases |s|
  {
    if s == [] then Some([])
    else if s[0] == PERCENT then
      if |s| < 3 || Unhex(s[1]).None? || Unhex(s[2]).None? then None
      else match PathUnescape(s[3..])
           case None => None
           case Some(rest) => Some([Unhex(s[1]).value * 16 + Unhex(s[2]).value] + rest)
    else match PathUnescape(s[1..])
         case None => None
         case Some(rest) => Some([s[0]] + rest)
  }

  lemma UnhexHex(n: Nibble)
    ensures Unhex(Hex(n)) == Some(n)
  {
  }

  /** Unescaping undoes escaping, and an escaped value holds no '/'. */
  lemma {:induction false} UnescapeEscape(s: Bytes)
    ensures PathUnescape(PathEscape(s)) == Some(s) && SLASH !in PathEscape(s) && (PathEscape(s) == [] <==> s == [])
  {
    if s != [] {
      UnescapeEscape(s[1..]);
      assert s == [s[0]] + s[1..];
      var t := PathEscape(s);
      if Unescaped(s[0]) {
        assert t[1..] == PathEscape(s[1..]);
      } else {
        UnhexHex(s[0] / 16);
        UnhexHex(s[0] % 16);
        assert t[3..] == PathEscape(s[1..]);
      }
    }
  }

  datatype Location = Location(namespace: Bytes, name: Bytes, source: Bytes, id: Bytes)

  const NAMESPACES: Bytes := Ascii("namespaces")
  const NAME: Bytes := Ascii("name")
  const SOURCES: Bytes := Ascii("sources")
  const IDS: Bytes := Ascii("ids")

  function Segments(l: Location): seq<Bytes> {
    [[], NAMESPACES, PathEscape(l.namespace), NAME, PathEscape(l.name),
     SOURCES, PathEscape(l.source), IDS, PathEscape(l.id)]
  }

  /** locationHeader: /namespaces/<ns>/name/<name>/sources/<source>/ids/<id>. */
  function LocationHeader(l: Location): Bytes { JoinParts(Segments(l), SLASH) }

  function TrimSlash(s: Bytes): Bytes { if s != [] && s[|s| - 1] == SLASH then s[..|s| - 1] else s }

  /** parseLocation; the words between the values are not checked. */
  function ParseLocation(uri: Bytes): Option<Location> {
    var parts := Split(TrimSlash(uri), SLASH);
    if |parts| != 9 then None
    else
      var namespace, name := PathUnescape(parts[2]), PathUnescape(parts[4]);
      var source, id := PathUnescape(parts[6]), PathUnescape(parts[8]);
      if namespace.None? || name.None? || source.None? || id.None? then None
      else Some(Location(namespace.value, name.value, source.value, id.value))
  }

  /** The joined text ends with its last part, after a '/' if there are others. */
  lemma {:induction false} JoinEnds(parts: seq<Bytes>)
    requires |parts| > 1
    ensures JoinParts(parts, SLASH) == JoinParts(parts[..|parts| - 1], SLASH) + [SLASH] + parts[|parts| - 1]
  {
    var front, last := parts[..|parts| - 1], parts[|parts| - 1];
    if |parts| == 2 {
      assert parts[1..] == [last] && front == [parts[0]];
    } else {
      JoinEnds(parts[1..]);
      assert parts[1..][..|parts| - 2] == front[1..];
      assert parts[0] + [SLASH] + (JoinParts(front[1..], SLASH) + [SLASH] + last)
          == parts[0] + [SLASH] + JoinParts(front[1..], SLASH) + [SLASH] + last;
    }
  }

  lemma SegmentsHaveNoSlash(l: Location)
    ensures forall i | 0 <= i < 9 :: SLASH !in Segments(l)[i]
  {
    UnescapeEscape(l.namespace);
    UnescapeEscape(l.name);
    UnescapeEscape(l.source);
    UnescapeEscape(l.id);
  }

  /** The header is parsed back to the four values exactly when the id is not empty; otherwise it is rejected. */
  lemma LocationRoundTripIff(l: Location)
    ensures ParseLocation(LocationHeader(l)) == if l.id == [] then None else Some(l)
  {
    var parts, uri := Segments(l), LocationHeader(l);
    SegmentsHaveNoSlash(l);
    UnescapeEscape(l.namespace);
    UnescapeEscape(l.name);
    UnescapeEscape(l.source);
    UnescapeEscape(l.id);
    JoinEnds(parts);
    var last := parts[8];
    if l.id == [] {
      assert uri == JoinParts(parts[..8], SLASH) + [SLASH];
      assert TrimSlash(uri) == JoinParts(parts[..8], SLASH);
      SplitJoin(parts[..8], SLASH);
    } else {
      assert uri[|uri| - 1] == last[|last| - 1] && last[|last| - 1] in last;
      assert TrimSlash(uri) == uri;
      SplitJoin(parts, SLASH);
    }
  }

  // ---------- the texts themselves ----------

  predicate IsAlphanumeric(b: Byte) {
    || '0' as int <= b <= '9' as int || 'A' as int <= b <= 'Z' as int || 'a' as int <= b <= 'z' as int
  }

  /** Letters, digits and -_.~$&+:=@ stay; any other byte becomes '%' and two upper-case hexadecimal digits. */
  lemma EscapedText(b: Byte, s: Bytes)
    ensures PathEscape([]) == []
    ensures PathEscape([b] + s) == (
      if IsAlphanumeric(b) || b in Ascii("-_.~$&+:=@") then [b]
      else ['%' as int, Ascii("0123456789ABCDEF")[b / 16], Ascii("0123456789ABCDEF")[b % 16]]) + PathEscape(s)
  {
    assert ([b] + s)[1..] == s;
    var kept := Ascii("-_.~$&+:=@");
    assert kept == [45, 95, 46, 126, 36, 38, 43, 58, 61, 64];
    HexText(b / 16);
    HexText(b % 16);
  }

  /** Hexadecimal digits of either case are read, and nothing else. */
  lemma HexDigits(b: Byte)
    ensures Unhex(b)
         == if '0' as int <= b <= '9' as int then Some(b - '0' as int)
            else if 'a' as int <= b <= 'f' as int then Some(b - 'a' as int + 10)
            else if 'A' as int <= b <= 'F' as int then Some(b - 'A' as int + 10)
            else None
  {
  }

  /** What unescaping does with the front of a text: '%' takes two digits or is an error, another byte stays. */
  lemma UnescapedText(b: Byte, x: Byte, y: Byte, s: Bytes)
    ensures PathUnescape(['%' as int]) == None && PathUnescape(['%' as int, x]) == None
    ensures b != '%' as int ==>
      PathUnescape([b] + s) == match PathUnescape(s) case None => None case Some(t) => Some([b] + t)
    ensures PathUnescape(['%' as int, x, y] + s)
         == if Unhex(x).None? || Unhex(y).None? || PathUnescape(s).None? then None
            else Some([Unhex(x).value * 16 + Unhex(y).value] + PathUnescape(s).value)
  {
    assert ([b] + s)[1..] == s && (['%' as int, x, y] + s)[3..] == s;
  }

  /** A path with any number of '/' but eight, one at its end not counted, is an error. */
  lemma OtherPathsAreErrors(uri: Bytes)
    ensures
      var path := if uri != [] && uri[|uri| - 1] == '/' as int then uri[..|uri| - 1] else uri;
      Count<Byte>(path, '/' as int) != 8 ==> ParseLocation(uri) == None
  {
    SplitCount(TrimSlash(uri), SLASH);
  }

  lemma HexText(n: Nibble)
    ensures Ascii("0123456789ABCDEF")[n] == Hex(n)
  {
    assert Ascii("0123456789ABCDEF")[n] == "0123456789ABCDEF"[n] as int;
  }

  lemma HeaderText(l: Location)
    ensures LocationHeader(l)
         == Ascii("/namespaces/") + (PathEscape(l.namespace) + (Ascii("/name/") + (PathEscape(l.name)
            + (Ascii("/sources/") + (PathEscape(l.source) + (Ascii("/ids/") + PathEscape(l.id)))))))
  {
    var a, b, c, d := PathEscape(l.namespace), PathEscape(l.name), PathEscape(l.source), PathEscape(l.id);
    Words();
    JoinPairs(NAMESPACES, a, NAME, b, SOURCES, c, IDS, d);
  }

  lemma Words()
    ensures Ascii("/namespaces/") == Between(NAMESPACES) && Ascii("/name/") == Between(NAME)
    ensures Ascii("/sources/") == Between(SOURCES) && Ascii("/ids/") == Between(IDS)
  {
  }

  lemma JoinPairs(n: Bytes, a: Bytes, m: Bytes, b: Bytes, o: Bytes, c: Bytes, i: Bytes, d: Bytes)
    ensures JoinParts([[], n, a, m, b, o, c, i, d], SLASH)
         == Between(n) + (a + (Between(m) + (b + (Between(o) + (c + (Between(i) + d))))))
  {
    var ps := [[], n, a, m, b, o, c, i, d];
    assert ps[1..] == [n, a] + [m, b, o, c, i, d];
    assert [m, b, o, c, i, d] == [m, b] + [o, c, i, d] && [o, c, i, d] == [o, c] + [i, d];
    JoinPair(n, a, [m, b, o, c, i, d]);
    JoinPair(m, b, [o, c, i, d]);
    JoinPair(o, c, [i, d]);
    JoinLast(i, d);
    assert JoinParts(ps, SLASH) == [SLASH] + JoinParts(ps[1..], SLASH);
  }

  lemma JoinLast(word: Bytes, value: Bytes)
    ensures [SLASH] + JoinParts([word, value], SLASH) == Between(word) + value
  {
    assert [word, value][1..] == [value];
    assert [SLASH] + (word + [SLASH] + value) == Between(word) + value;
  }

  function Between(word: Bytes): Bytes { [SLASH] + word + [SLASH] }

  lemma JoinPair(word: Bytes, value: Bytes, rest: seq<Bytes>)
    requires rest != []
    ensures [SLASH] + JoinParts([word, value] + rest, SLASH)
         == Between(word) + (value + ([SLASH] + JoinParts(rest, SLASH)))
  {
    var ps, r := [word, value] + rest, JoinParts(rest, SLASH);
    assert ps[1..] == [value] + rest && ([value] + rest)[1..] == rest;
    assert JoinParts(ps, SLASH) == word + [SLASH] + (value + [SLASH] + r);
  }
}
