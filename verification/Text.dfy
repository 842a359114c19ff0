/** Go strings as byte sequences: strings.Split, decimal printing and strconv.ParseInt. */
module Text {
  import opened Wrappers

  type Byte = x: int | 0 <= x < 256
  type Bytes = seq<Byte>

  /** The bytes of a literal. */
  function Ascii(s: string): Bytes
    requires forall i | 0 <= i < |s| :: s[i] < 128 as char
  {
    seq(|s|, i requires 0 <= i < |s| => s[i] as int)
  }

  // ---------- strings.Split ----------

  function Split<T(==)>(s: seq<T>, sep: T): (parts: seq<seq<T>>)
    ensures |parts| >= 1
  {
    if s == [] then [[]]
    else
      var rest := Split(s[1..], sep);
      if s[0] == sep then [[]] + rest else [[s[0]] + rest[0]] + rest[1..]
  }

  function Count<T(==)>(s: seq<T>, x: T): nat {
    if s == [] then 0 else (if s[0] == x then 1 else 0) + Count(s[1..], x)
  }

  /** The first separator ends the first part. */
  lemma {:induction false} SplitAt<T>(a: seq<T>, sep: T, b: seq<T>)
    requires sep !in a
    ensures Split(a + [sep] + b, sep) == [a] + Split(b, sep)
  {
    if a == [] {
      assert (a + [sep] + b)[1..] == b;
    } else {
      SplitAt(a[1..], sep, b);
      assert (a + [sep] + b)[1..] == a[1..] + [sep] + b;
      assert [a[0]] + a[1..] == a;
    }
  }

  lemma {:induction false} SplitWhole<T>(a: seq<T>, sep: T)
    requires sep !in a
    ensures Split(a, sep) == [a]
  {
    if a != [] {
      SplitWhole(a[1..], sep);
      assert [a[0]] + a[1..] == a;
    }
  }

  function JoinParts<T>(parts: seq<seq<T>>, sep: T): seq<T>
    requires parts != []
  {
    if |parts| == 1 then parts[0] else parts[0] + [sep] + JoinParts(parts[1..], sep)
  }

  /** The parts, joined again, are the text, and none of them holds a separator. */
  lemma {:induction false} JoinSplit<T>(s: seq<T>, sep: T)
    ensures JoinParts(Split(s, sep), sep) == s && forall i | 0 <= i < |Split(s, sep)| :: sep !in Split(s, sep)[i]
  {
    if s != [] {
      var rest := Split(s[1..], sep);
      JoinSplit(s[1..], sep);
      assert s == [s[0]] + s[1..];
      if s[0] == sep {
        assert ([[]] + rest)[1..] == rest;
      } else if |rest| == 1 {
        assert Split(s, sep) == [[s[0]] + rest[0]];
      } else {
        var parts := [[s[0]] + rest[0]] + rest[1..];
        assert parts[1..] == rest[1..];
        assert [s[0]] + (rest[0] + [sep] + JoinParts(rest[1..], sep))
            == ([s[0]] + rest[0]) + [sep] + JoinParts(rest[1..], sep);
      }
    }
  }

  /** Parts without separators are got back from their join. */
  lemma {:induction false} SplitJoin<T>(parts: seq<seq<T>>, sep: T)
    requires parts != [] && forall i | 0 <= i < |parts| :: sep !in parts[i]
    ensures Split(JoinParts(parts, sep), sep) == parts
  {
    if |parts| == 1 {
      SplitWhole(parts[0], sep);
      assert parts == [parts[0]];
    } else {
      SplitJoin(parts[1..], sep);
      SplitAt(parts[0], sep, JoinParts(parts[1..], sep));
      assert parts == [parts[0]] + parts[1..];
    }
  }

  lemma JoinThree<T>(parts: seq<seq<T>>, sep: T)
    requires |parts| == 3
    ensures JoinParts(parts, sep) == parts[0] + [sep] + parts[1] + [sep] + parts[2]
  {
    assert JoinParts(parts[1..], sep) == parts[1] + [sep] + parts[2];
  }

  lemma SplitThree<T>(a: seq<T>, b: seq<T>, c: seq<T>, sep: T)
    requires sep !in a && sep !in b && sep !in c
    ensures Split(a + [sep] + b + [sep] + c, sep) == [a, b, c]
  {
    assert a + [sep] + b + [sep] + c == a + [sep] + (b + [sep] + c);
    SplitAt(a, sep, b + [sep] + c);
    SplitAt(b, sep, c);
    SplitWhole(c, sep);
  }

  lemma {:induction false} SplitCount<T>(s: seq<T>, sep: T)
    ensures |Split(s, sep)| == Count(s, sep) + 1
  {
    if s != [] {
      SplitCount(s[1..], sep);
    }
  }

  lemma {:induction false} CountAppend<T>(a: seq<T>, b: seq<T>, x: T)
    ensures Count(a + b, x) == Count(a, x) + Count(b, x)
  {
    if a == [] {
      assert a + b == b;
    } else {
      CountAppend(a[1..], b, x);
      assert (a + b)[1..] == a[1..] + b;
    }
  }

  lemma {:induction false} CountIsZero<T>(s: seq<T>, x: T)
    ensures Count(s, x) == 0 <==> x !in s
  {
    if s != [] {
      CountIsZero(s[1..], x);
      assert s == [s[0]] + s[1..];
    }
  }

  // ---------- decimal numbers ----------

  const MINUS: Byte := 45
  const PLUS: Byte := 43

  function Digit(d: nat): Byte requires d < 10 { 48 + d }
  predicate IsDigit(b: Byte) { 48 <= b < 58 }

  function PrintNat(n: nat): Bytes {
    if n < 10 then [Digit(n)] else PrintNat(n / 10) + [Digit(n % 10)]
  }

  function PrintInt(n: int): Bytes { if n < 0 then [MINUS] + PrintNat(-n) else PrintNat(n) }

  function ParseDigits(s: Bytes): Option<nat> {
    if s == [] then None
    else if !IsDigit(s[|s| - 1]) then None
    else if |s| == 1 then Some(s[0] - 48)
    else match ParseDigits(s[..|s| - 1])
         case None => None
         case Some(n) => Some(10 * n + s[|s| - 1] - 48)
  }

  /** strconv.ParseInt(s, 10, bits): None is a syntax or range error; bound is 2^(bits-1). */
  function ParseInt(s: Bytes, bound: nat): Option<int> {
    if s == [] then None
    else
      var negative := s[0] == MINUS;
      match ParseDigits(if negative || s[0] == PLUS then s[1..] else s)
      case None => None
      case Some(n) =>
        if negative then (if n <= bound then Some(0 - n) else None)
        else (if n < bound then Some(n) else None)
  }

  /** Digits are read exactly if there are some and nothing else. */
  lemma {:induction false} ParseDigitsIff(s: Bytes)
    ensures ParseDigits(s).Some? <==> s != [] && forall i | 0 <= i < |s| :: '0' as int <= s[i] <= '9' as int
  {
    if |s| > 1 {
      var front := s[..|s| - 1];
      ParseDigitsIff(front);
      assert forall i | 0 <= i < |front| :: front[i] == s[i];
    }
  }

  /** The value of digits, one by one. */
  lemma ParseDigitsValue(s: Bytes, d: Byte)
    requires '0' as int <= d <= '9' as int
    ensures ParseDigits([d]) == Some(d - '0' as int)
    ensures ParseDigits(s).Some? ==> ParseDigits(s + [d]) == Some(10 * ParseDigits(s).value + (d - '0' as int))
  {
    assert (s + [d])[..|s|] == s;
  }

  /** A number with or without a sign, and its range. */
  lemma ParseIntIs(s: Bytes, bound: nat)
    requires ParseDigits(s).Some?
    ensures
      var n := ParseDigits(s).value;
      && ParseInt(s, bound) == (if n < bound then Some(n) else None)
      && ParseInt(['+' as int] + s, bound) == (if n < bound then Some(n) else None)
      && ParseInt(['-' as int] + s, bound) == (if n <= bound then Some(0 - n) else None)
  {
    ParseDigitsIff(s);
    var plus, minus: Bytes := ['+' as int] + s, ['-' as int] + s;
    assert plus[1..] == s && minus[1..] == s && plus[0] == PLUS && minus[0] == MINUS;
  }

  /** Anything that does not start with a sign or a digit, or holds something else, is an error. */
  lemma ParseIntErrors(s: Bytes, bound: nat)
    ensures ParseInt([], bound) == None
    ensures s != [] && s[0] != '+' as int && s[0] != '-' as int && ParseDigits(s).None? ==> ParseInt(s, bound) == None
    ensures s != [] && (s[0] == '+' as int || s[0] == '-' as int) && ParseDigits(s[1..]).None? ==>
      ParseInt(s, bound) == None
  {
  }

  lemma {:induction false} ParsePrintNat(n: nat)
    ensures ParseDigits(PrintNat(n)) == Some(n)
    ensures PrintNat(n) != [] && forall b <- PrintNat(n) :: IsDigit(b)
  {
    if n >= 10 {
      ParsePrintNat(n / 10);
      assert PrintNat(n)[..|PrintNat(n)| - 1] == PrintNat(n / 10);
    }
  }

  /** Every integer that fits is parsed back from its print, which holds only digits and a sign. */
  lemma ParsePrintInt(n: int, bound: nat)
    requires 0 - bound <= n < bound
    ensures ParseInt(PrintInt(n), bound) == Some(n)
    ensures forall b <- PrintInt(n) :: IsDigit(b) || b == MINUS
  {
    ParsePrintNat(if n < 0 then -n else n);
    if n < 0 {
      assert PrintInt(n)[1..] == PrintNat(-n);
    } else {
      assert PrintNat(n)[0] in PrintNat(n);
    }
  }
}
