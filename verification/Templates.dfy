/**
  Attribute-value templates of an EventType, such as "/apis/{ns}/ps", and the regular
  expression pkg/graph builds from one.  Go's regexp library is a parameter; its behaviour is
  pinned down only on the patterns whose literal characters are ordinary characters or '.'.
 */
module Templates {
  import opened Wrappers

  /** One token of a template: an ordinary character, an escaped brace, or a {variable}. */
  datatype Token = Lit(c: char) | Esc(c: char) | Var(name: string)

  predicate IsBrace(c: char) { c == '{' || c == '}' }

  function RenderToken(t: Token): string {
    match t
    case Lit(c) => [c]
    case Esc(c) => ['\\', c]
    case Var(name) => "{" + name + "}"
  }

  function Render(toks: seq<Token>): string {
    if toks == [] then "" else RenderToken(toks[0]) + Render(toks[1..])
  }

  /** A template whose braces are balanced: the only reading of its text. */
  predicate Canonical(toks: seq<Token>) {
    toks == [] ||
    (&& (match toks[0]
         case Lit(c) => !IsBrace(c) && (c == '\\' && |toks| > 1 ==> !toks[1].Var?)
         case Esc(c) => IsBrace(c)
         case Var(name) => '}' !in name)
     && Canonical(toks[1..]))
  }

  function IndexOf(s: string, c: char): (r: Option<nat>)
    ensures r.Some? ==> r.value < |s| && s[r.value] == c && c !in s[..r.value]
    ensures r.None? ==> c !in s
  {
    if s == "" then None
    else if s[0] == c then Some(0)
    else match IndexOf(s[1..], c)
         case None => None
         case Some(k) => assert s[..k + 1] == [s[0]] + s[1..][..k]; Some(k + 1)
  }

  function Prepend(t: Token, rest: Option<seq<Token>>): Option<seq<Token>> {
    match rest case None => None case Some(ts) => Some([t] + ts)
  }

  /** The token at the front of s and its length; None is buildRegexForAttribute's error. */
  function FirstToken(s: string): (r: Option<(Token, nat)>)
    requires s != ""
    ensures r.Some? ==> 1 <= r.value.1 <= |s|
  {
    if s[0] == '\\' && 1 < |s| && IsBrace(s[1]) then Some((Esc(s[1]), 2))
    else if s[0] == '{' then
      match IndexOf(s, '}')
      case None => None
      case Some(k) => Some((Var(s[1..k]), k + 1))
    else if s[0] == '}' then None
    else Some((Lit(s[0]), 1))
  }

  /** The left-to-right scan of buildRegexForAttribute; None is its error return. */
  function Parse(s: string): Option<seq<Token>>
    decreases |s|
  {
    if s == "" then Some([])
    else match FirstToken(s)
         case None => None
         case Some((t, n)) => Prepend(t, Parse(s[n..]))
  }

  lemma FirstTokenText(s: string)
    requires s != "" && FirstToken(s).Some?
    ensures RenderToken(FirstToken(s).value.0) == s[..FirstToken(s).value.1]
    ensures FirstToken(s).value.0.Var? ==> '}' !in FirstToken(s).value.0.name
  {
    var (t, n) := FirstToken(s).value;
    if t.Var? {
      assert s[..n] == "{" + s[1..n - 1] + "}";
      assert forall j | 1 <= j < n - 1 :: s[j] == s[..n - 1][j];
    }
  }

  /** The text of a parsed template is the text that was parsed. */
  lemma {:induction false} ParseSound(s: string)
    ensures Parse(s).Some? ==> Canonical(Parse(s).value) && Render(Parse(s).value) == s
    decreases |s|
  {
    if s != "" && FirstToken(s).Some? {
      var (t, n) := FirstToken(s).value;
      FirstTokenText(s);
      ParseSound(s[n..]);
      assert s == s[..n] + s[n..];
    }
  }

  lemma FirstTokenOf(toks: seq<Token>)
    requires toks != [] && Canonical(toks)
    ensures Render(toks) != "" && FirstToken(Render(toks)) == Some((toks[0], |RenderToken(toks[0])|))
  {
    var s, rest := Render(toks), Render(toks[1..]);
    match toks[0]
    case Lit(c) =>
      if |toks| > 1 && c == '\\' {
        assert rest == RenderToken(toks[1]) + Render(toks[1..][1..]);
      }
    case Esc(c) =>
    case Var(name) =>
      var k := |name| + 1;
      assert s == "{" + name + "}" + rest;
      assert s[k] == '}' && s[..k] == "{" + name && s[1..k] == name;
      FirstIndex(s, '}', k);
  }

  lemma ParseStep(s: string, t: Token, n: nat)
    requires s != "" && FirstToken(s) == Some((t, n))
    ensures Parse(s) == Prepend(t, Parse(s[n..]))
  {
  }

  /** Every balanced template is parsed back to itself, so Parse fails only on unbalanced text. */
  lemma {:induction false} ParseComplete(toks: seq<Token>)
    requires Canonical(toks)
    ensures Parse(Render(toks)) == Some(toks)
  {
    if toks != [] {
      var n := |RenderToken(toks[0])|;
      FirstTokenOf(toks);
      ParseStep(Render(toks), toks[0], n);
      ParseComplete(toks[1..]);
      assert Render(toks)[n..] == Render(toks[1..]);
      assert toks == [toks[0]] + toks[1..];
    }
  }

  lemma FirstIndex(s: string, c: char, k: nat)
    requires k < |s| && s[k] == c && c !in s[..k]
    ensures IndexOf(s, c) == Some(k)
  {
    assert forall j | 0 <= j < k :: s[j] in s[..k];
    var r := IndexOf(s, c);
    assert r.Some? ==> forall j | 0 <= j < r.value :: s[j] in s[..r.value];
  }

  /** A template is rejected exactly when its text is not the text of any balanced template. */
  lemma ErrorIffUnbalanced(s: string)
    ensures Parse(s).None? <==> !exists toks :: Canonical(toks) && Render(toks) == s
  {
    ParseSound(s);
    forall toks | Canonical(toks) && Render(toks) == s
      ensures Parse(s).Some?
    {
      ParseComplete(toks);
    }
  }

  /** A variable, an escaped brace, a backslash that escapes nothing, and the two kinds of unbalanced brace. */
  lemma ReadExamples()
    ensures FirstToken("{ns}/x") == Some((Var("ns"), 4)) && FirstToken("\\{x") == Some((Esc('{'), 2))
    ensures FirstToken("\\x") == Some((Lit('\\'), 1)) && FirstToken("a{") == Some((Lit('a'), 1))
    ensures FirstToken("{x") == None && FirstToken("}x") == None
  {
    assert "{ns}/x"[1..3] == "ns";
    FirstIndex("{ns}/x", '}', 3);
  }

  // ---------- the regular expression ----------

  /** The character class that stands for a {variable} in the pattern. */
  const CLASS: string :=
    "[^" + (CONTROLS + (DELETE_TO_C1 + (NONCHARACTERS + ("\\x{fffe}" + "\\x{ffff}")))) + "]+"
  const CONTROLS := "\\x{0000}-\\x{001f}"
  const DELETE_TO_C1 := "\\x{007f}-\\x{009f}"
  const NONCHARACTERS := "\\x{fdd0}-\\x{fdef}"

  predicate Allowed(c: char) {
    var n := c as int;
    !(n <= 0x1f || 0x7f <= n <= 0x9f || 0xfdd0 <= n <= 0xfdef || n == 0xfffe || n == 0xffff)
  }

  predicate AllAllowed(s: string) { forall c <- s :: Allowed(c) }

  function PatternToken(class_: string, t: Token): string {
    match t
    case Lit(c) => [c]
    case Esc(c) => [c]
    case Var(_) => class_
  }

  /** The texts of the tokens, one after the other, with class_ for each variable. */
  function Body(class_: string, toks: seq<Token>): string {
    if toks == [] then "" else Body(class_, toks[..|toks| - 1]) + PatternToken(class_, toks[|toks| - 1])
  }

  function Pattern(toks: seq<Token>): string { "^" + Body(CLASS, toks) + "$" }

  lemma BodySnoc(class_: string, a: seq<Token>, t: Token)
    ensures Body(class_, a + [t]) == Body(class_, a) + PatternToken(class_, t)
  {
    assert (a + [t])[..|a|] == a;
  }

  function Join(chunks: seq<string>): string {
    if chunks == [] then "" else Join(chunks[..|chunks| - 1]) + chunks[|chunks| - 1]
  }

  function PatternFor(attribute: string): Option<string> {
    match Parse(attribute) case None => None case Some(toks) => Some(Pattern(toks))
  }

  ghost function After(done: seq<Token>, rest: Option<seq<Token>>): Option<seq<Token>> {
    match rest case None => None case Some(ts) => Some(done + ts)
  }

  /** Up to position i the scan of s has read the tokens done. */
  ghost predicate Scanned(s: string, i: nat, done: seq<Token>) {
    i <= |s| && Parse(s) == After(done, Parse(s[i..]))
  }

  lemma ScanStart(s: string)
    ensures Scanned(s, 0, [])
  {
    assert s[0..] == s;
    assert Parse(s).Some? ==> [] + Parse(s).value == Parse(s).value;
  }

  /** Reading one more token, at position i, keeps the two halves of the scan in step. */
  lemma {:induction false} ScanStep(s: string, i: nat, done: seq<Token>)
    requires Scanned(s, i, done) && i < |s|
    ensures match FirstToken(s[i..])
            case None => Parse(s).None?
            case Some((t, n)) => Scanned(s, i + n, done + [t])
  {
    match FirstToken(s[i..])
    case None =>
    case Some((t, n)) =>
      ParseStep(s[i..], t, n);
      assert s[i..][n..] == s[i + n..];
      AfterOneMore(done, t, Parse(s[i + n..]));
  }

  lemma AfterOneMore(done: seq<Token>, t: Token, rest: Option<seq<Token>>)
    ensures After(done, Prepend(t, rest)) == After(done + [t], rest)
  {
    if rest.Some? {
      assert done + ([t] + rest.value) == done + [t] + rest.value;
    }
  }

  lemma ScanEnd(s: string, done: seq<Token>)
    requires Scanned(s, |s|, done)
    ensures Parse(s) == Some(done)
  {
    assert s[|s|..] == "" && done + [] == done;
  }

  lemma JoinTwo(chunks: seq<string>, a: string, b: string)
    ensures Join(chunks + [a, b]) == Join(chunks) + a + b
  {
    assert (chunks + [a, b])[..|chunks| + 1] == chunks + [a];
    assert (chunks + [a])[..|chunks|] == chunks;
  }

  /** The chunks written so far spell the pattern of the tokens read so far. */
  ghost predicate Printed(class_: string, chunks: seq<string>, chunk: string, done: seq<Token>) {
    Join(chunks) + chunk == "^" + Body(class_, done)
  }

  lemma Associate(a: string, b: string, c: string)
    ensures a + (b + c) == (a + b) + c
  {
  }

  lemma PrintChar(class_: string, chunks: seq<string>, chunk: string, done: seq<Token>, t: Token)
    requires Printed(class_, chunks, chunk, done) && !t.Var?
    ensures Printed(class_, chunks, chunk + [t.c], done + [t])
  {
    BodySnoc(class_, done, t);
    Associate(Join(chunks), chunk, [t.c]);
    Associate("^", Body(class_, done), [t.c]);
  }

  lemma PrintVar(class_: string, chunks: seq<string>, chunk: string, done: seq<Token>, t: Token)
    requires Printed(class_, chunks, chunk, done) && t.Var?
    ensures Printed(class_, chunks + [chunk, class_], "", done + [t])
  {
    BodySnoc(class_, done, t);
    JoinTwo(chunks, chunk, class_);
    Associate("^", Body(class_, done), class_);
  }

  lemma PrintStart(class_: string)
    ensures Printed(class_, ["^"], "", [])
  {
    assert Join(["^"]) == "^";
  }

  lemma PrintEnd(class_: string, chunks: seq<string>, chunk: string, done: seq<Token>)
    requires Printed(class_, chunks, chunk, done)
    ensures Join(chunks + [chunk, "$"]) == "^" + Body(class_, done) + "$"
  {
    JoinTwo(chunks, chunk, "$");
  }

  /** buildRegexForAttribute, up to the final regexp.Compile. */
  method BuildRegexForAttribute(attribute: string) returns (pattern: Option<string>)
    ensures pattern == PatternFor(attribute)
  {
    pattern := JoinChunks(attribute, CLASS);
  }

  /** What buildRegexForAttribute does with the text from one position on: the cases of its loop. */
  method ReadToken(s: string) returns (r: Option<(Token, nat)>)
    requires s != ""
    ensures r == FirstToken(s)
  {
    if s[0] == '\\' && 1 < |s| && IsBrace(s[1]) {
      return Some((Esc(s[1]), 2));
    } else if s[0] == '{' {
      var offset := IndexOf(s, '}');
      if offset.None? {
        return None;
      }
      return Some((Var(s[1..offset.value]), offset.value + 1));
    } else if s[0] == '}' {
      return None;
    }
    r := Some((Lit(s[0]), 1));
  }

  /** What the loop writes for one token. */
  method Print(class_: string, chunks: seq<string>, chunk: string, ghost done: seq<Token>, t: Token)
      returns (chunks': seq<string>, chunk': string)
    requires Printed(class_, chunks, chunk, done)
    ensures Printed(class_, chunks', chunk', done + [t])
  {
    if t.Var? {
      PrintVar(class_, chunks, chunk, done, t);
      return chunks + [chunk, class_], "";
    }
    PrintChar(class_, chunks, chunk, done, t);
    return chunks, chunk + [t.c];
  }

  /** The scanning loop of buildRegexForAttribute: the chunks it collects, joined. */
  method JoinChunks(attribute: string, class_: string) returns (pattern: Option<string>)
    ensures pattern == match Parse(attribute)
                       case None => None
                       case Some(toks) => Some("^" + Body(class_, toks) + "$")
  {
    var chunks: seq<string> := ["^"];
    var chunk: string := "";
    var i := 0;
    ghost var done: seq<Token> := [];
    ScanStart(attribute);
    PrintStart(class_);
    while i < |attribute|
      invariant Scanned(attribute, i, done) && Printed(class_, chunks, chunk, done)
    {
      ScanStep(attribute, i, done);
      var r := ReadToken(attribute[i..]);
      if r.None? {
        return None;
      }
      var (t, n) := r.value;
      chunks, chunk := Print(class_, chunks, chunk, done, t);
      done := done + [t];
      i := i + n;
    }
    ScanEnd(attribute, done);
    PrintEnd(class_, chunks, chunk, done);
    chunks := chunks + [chunk, "$"];
    pattern := Some(Join(chunks));
  }

  // ---------- what the pattern accepts ----------

  predicate IsMeta(c: char) { c in "\\.+*?()|[]{}^$" }

  /** No character of the literal text is special in a regular expression. */
  predicate Plain(toks: seq<Token>) {
    forall t <- toks :: t.Var? || (t.Lit? && !IsMeta(t.c))
  }

  /** As Plain, but '.' is admitted: most attribute values contain one. */
  predicate PlainOrDot(toks: seq<Token>) {
    forall t <- toks :: t.Var? || (t.Lit? && (t.c == '.' || !IsMeta(t.c)))
  }

  predicate MatchesLiteral(pattern: char, c: char) {
    if pattern == '.' then c != '\n' else c == pattern
  }

  /** What a regular-expression engine does with the anchored pattern of toks. */
  predicate Accepts(toks: seq<Token>, s: string)
    decreases |toks|
  {
    if toks == [] then s == ""
    else match toks[0]
         case Lit(c) => s != "" && MatchesLiteral(c, s[0]) && Accepts(toks[1..], s[1..])
         case Esc(_) => false
         case Var(_) => exists j | 1 <= j <= |s| :: AllAllowed(s[..j]) && Accepts(toks[1..], s[j..])
  }

  // ---------- what a regular-expression library does ----------

  /** A regular-expression library: run(pattern, s) is None when the pattern does not compile. */
  type RegexLib = (string, string) -> Option<bool>

  /** Ranges of character codes, at least one. */
  datatype Ranges = Last(lo: nat, hi: nat) | And(lo: nat, hi: nat, more: Ranges)

  /** The parts of a pattern: an ordinary character, '.', and a run of characters outside some ranges. */
  datatype Piece = One(c: char) | AnyButNewline | RunOutside(ranges: Ranges)

  function HexDigit(n: nat): char
    requires n < 16
  {
    "0123456789abcdef"[n]
  }

  function CodeText(n: nat): string {
    "\\x{" + [HexDigit(n / 4096 % 16), HexDigit(n / 256 % 16), HexDigit(n / 16 % 16), HexDigit(n % 16)] + "}"
  }

  predicate GoodRanges(rs: Ranges) { rs.lo <= rs.hi < 0x1_0000 && (rs.And? ==> GoodRanges(rs.more)) }

  function RangeText(lo: nat, hi: nat): string {
    CodeText(lo) + if lo == hi then "" else "-" + CodeText(hi)
  }

  function RangesText(rs: Ranges): string {
    match rs
    case Last(lo, hi) => RangeText(lo, hi)
    case And(lo, hi, more) => RangeText(lo, hi) + RangesText(more)
  }

  predicate GoodPiece(p: Piece) {
    match p case One(c) => !IsMeta(c) case AnyButNewline => true case RunOutside(rs) => GoodRanges(rs)
  }

  function PieceText(p: Piece): string {
    match p
    case One(c) => [c]
    case AnyButNewline => "."
    case RunOutside(rs) => "[^" + RangesText(rs) + "]+"
  }

  function PiecesText(ps: seq<Piece>): string {
    if ps == [] then "" else PiecesText(ps[..|ps| - 1]) + PieceText(ps[|ps| - 1])
  }

  predicate Outside(rs: Ranges, c: char) {
    !(rs.lo <= c as int <= rs.hi) && (rs.And? ==> Outside(rs.more, c))
  }

  /** The whole of s is matched by the pieces, one after the other. */
  predicate MatchesPieces(ps: seq<Piece>, s: string)
    decreases |ps|
  {
    if ps == [] then s == ""
    else match ps[0]
         case One(c) => s != "" && s[0] == c && MatchesPieces(ps[1..], s[1..])
         case AnyButNewline => s != "" && s[0] != '\n' && MatchesPieces(ps[1..], s[1..])
         case RunOutside(rs) =>
           exists j | 1 <= j <= |s| :: (forall i | 0 <= i < j :: Outside(rs, s[i])) && MatchesPieces(ps[1..], s[j..])
  }

  /** The library reads the text of such patterns, between '^' and '$', in the standard way. */
  ghost predicate Standard(lib: RegexLib) {
    forall ps, s | forall p <- ps :: GoodPiece(p) :: lib("^" + PiecesText(ps) + "$", s) == Some(MatchesPieces(ps, s))
  }

  const EXCLUDED :=
    And(0, 0x1f, And(0x7f, 0x9f, And(0xfdd0, 0xfdef, And(0xfffe, 0xfffe, Last(0xffff, 0xffff)))))

  function PieceOf(rs: Ranges, t: Token): Piece
    requires t.Var? || t.Lit?
  {
    match t
    case Lit(c) => if c == '.' then AnyButNewline else One(c)
    case Var(_) => RunOutside(rs)
  }

  function PiecesOf(rs: Ranges, toks: seq<Token>): (ps: seq<Piece>)
    requires PlainOrDot(toks)
    ensures |ps| == |toks| && forall i | 0 <= i < |toks| :: ps[i] == PieceOf(rs, toks[i])
  {
    if toks == [] then [] else PiecesOf(rs, toks[..|toks| - 1]) + [PieceOf(rs, toks[|toks| - 1])]
  }

  lemma Codes()
    ensures CodeText(0) == "\\x{0000}" && CodeText(0x1f) == "\\x{001f}"
    ensures CodeText(0x7f) == "\\x{007f}" && CodeText(0x9f) == "\\x{009f}"
  {
  }

  lemma HighCodes()
    ensures CodeText(0xfdd0) == "\\x{fdd0}" && CodeText(0xfdef) == "\\x{fdef}"
  {
  }

  lemma LastCodes()
    ensures CodeText(0xfffe) == "\\x{fffe}" && CodeText(0xffff) == "\\x{ffff}"
  {
  }

  lemma LowRanges()
    ensures RangeText(0, 0x1f) == CONTROLS && RangeText(0x7f, 0x9f) == DELETE_TO_C1
  {
    Codes();
  }

  lemma HighRanges()
    ensures RangeText(0xfdd0, 0xfdef) == NONCHARACTERS
    ensures RangeText(0xfffe, 0xfffe) == "\\x{fffe}" && RangeText(0xffff, 0xffff) == "\\x{ffff}"
  {
    HighCodes();
    LastCodes();
  }

  /** The text of the class is that of a run of characters outside the excluded ranges. */
  lemma ClassText()
    ensures CLASS == PieceText(RunOutside(EXCLUDED))
  {
    LowRanges();
    HighRanges();
  }

  lemma PiecesSnoc(ps: seq<Piece>, p: Piece)
    ensures PiecesText(ps + [p]) == PiecesText(ps) + PieceText(p)
  {
    assert (ps + [p])[..|ps|] == ps;
  }

  lemma {:induction false} BodyText(class_: string, rs: Ranges, toks: seq<Token>)
    requires PlainOrDot(toks) && class_ == PieceText(RunOutside(rs))
    ensures Body(class_, toks) == PiecesText(PiecesOf(rs, toks))
  {
    if toks != [] {
      var front, last := toks[..|toks| - 1], toks[|toks| - 1];
      BodyText(class_, rs, front);
      PiecesSnoc(PiecesOf(rs, front), PieceOf(rs, last));
    }
  }

  lemma OutsideIsAllowed(c: char)
    ensures Outside(EXCLUDED, c) <==> Allowed(c)
  {
    var n, three := c as int, EXCLUDED.more.more;
    assert Outside(three.more.more, c) <==> n != 0xffff;
    assert Outside(three.more, c) <==> n != 0xfffe && n != 0xffff;
    assert Outside(three, c) <==> !(0xfdd0 <= n <= 0xfdef) && n != 0xfffe && n != 0xffff;
    assert Outside(EXCLUDED, c) <==> !(n <= 0x1f) && !(0x7f <= n <= 0x9f) && Outside(three, c);
  }

  lemma {:induction false} MatchesIsAccepts(toks: seq<Token>, s: string)
    requires PlainOrDot(toks)
    ensures MatchesPieces(PiecesOf(EXCLUDED, toks), s) <==> Accepts(toks, s)
    decreases |toks|
  {
    if toks != [] {
      assert PiecesOf(EXCLUDED, toks)[1..] == PiecesOf(EXCLUDED, toks[1..]);
      if toks[0].Var? {
        forall j | 1 <= j <= |s|
          ensures (forall i | 0 <= i < j :: Outside(EXCLUDED, s[i])) <==> AllAllowed(s[..j])
          ensures MatchesPieces(PiecesOf(EXCLUDED, toks[1..]), s[j..]) <==> Accepts(toks[1..], s[j..])
        {
          MatchesIsAccepts(toks[1..], s[j..]);
          RunIsAllowed(s, j);
        }
      } else if s != "" {
        MatchesIsAccepts(toks[1..], s[1..]);
      }
    }
  }

  lemma RunIsAllowed(s: string, j: nat)
    requires j <= |s|
    ensures (forall i | 0 <= i < j :: Outside(EXCLUDED, s[i])) <==> AllAllowed(s[..j])
  {
    forall i | 0 <= i < j ensures Outside(EXCLUDED, s[i]) <==> Allowed(s[i]) {
      OutsideIsAllowed(s[i]);
    }
    assert forall i | 0 <= i < j :: s[i] in s[..j];
  }

  lemma GoodPieces(toks: seq<Token>)
    requires PlainOrDot(toks)
    ensures forall p <- PiecesOf(EXCLUDED, toks) :: GoodPiece(p)
  {
    assert GoodRanges(EXCLUDED.more.more);
  }

  /** So a standard library accepts with the pattern of a template what the template's tokens accept. */
  lemma StandardAccepts(lib: RegexLib, toks: seq<Token>, s: string)
    requires Standard(lib) && PlainOrDot(toks)
    ensures lib(Pattern(toks), s) == Some(Accepts(toks, s))
  {
    ClassText();
    BodyText(CLASS, EXCLUDED, toks);
    GoodPieces(toks);
    MatchesIsAccepts(toks, s);
    assert Pattern(toks) == "^" + PiecesText(PiecesOf(EXCLUDED, toks)) + "$";
  }

  function Vars(toks: seq<Token>): nat {
    if toks == [] then 0 else (if toks[0].Var? then 1 else 0) + Vars(toks[1..])
  }

  /** The template with its variables replaced, left to right, by the given values. */
  function Fill(toks: seq<Token>, values: seq<string>): string
    requires |values| == Vars(toks)
  {
    if toks == [] then ""
    else if toks[0].Var? then values[0] + Fill(toks[1..], values[1..])
    else [toks[0].c] + Fill(toks[1..], values)
  }

  predicate GoodValues(values: seq<string>) {
    forall v <- values :: v != "" && AllAllowed(v)
  }

  /** s is the template with every {variable} replaced by a non-empty run of allowed characters. */
  ghost predicate Instance(toks: seq<Token>, s: string) {
    exists values :: |values| == Vars(toks) && GoodValues(values) && Fill(toks, values) == s
  }

  lemma {:induction false} FillIsAccepted(toks: seq<Token>, values: seq<string>)
    requires PlainOrDot(toks) && |values| == Vars(toks) && GoodValues(values)
    ensures Accepts(toks, Fill(toks, values))
    decreases |toks|
  {
    if toks != [] {
      var s := Fill(toks, values);
      if toks[0].Var? {
        assert forall v <- values[1..] :: v in values;
        FillIsAccepted(toks[1..], values[1..]);
        var j := |values[0]|;
        assert s[..j] == values[0] && s[j..] == Fill(toks[1..], values[1..]);
        assert AllAllowed(s[..j]) && Accepts(toks[1..], s[j..]);
      } else {
        FillIsAccepted(toks[1..], values);
        assert s[1..] == Fill(toks[1..], values);
      }
    }
  }

  lemma {:induction false} AcceptedIsFill(toks: seq<Token>, s: string) returns (values: seq<string>)
    requires Plain(toks) && Accepts(toks, s)
    ensures |values| == Vars(toks) && GoodValues(values) && Fill(toks, values) == s
    decreases |toks|
  {
    if toks == [] {
      values := [];
    } else if toks[0].Var? {
      var j :| 1 <= j <= |s| && AllAllowed(s[..j]) && Accepts(toks[1..], s[j..]);
      var rest := AcceptedIsFill(toks[1..], s[j..]);
      values := [s[..j]] + rest;
      assert values[1..] == rest;
    } else {
      values := AcceptedIsFill(toks[1..], s[1..]);
    }
  }

  /** With no special character in the literal text, the pattern accepts exactly the instances. */
  lemma PlainAcceptsExactlyInstances(toks: seq<Token>, s: string)
    requires Plain(toks)
    ensures Accepts(toks, s) <==> Instance(toks, s)
  {
    if Accepts(toks, s) {
      var values := AcceptedIsFill(toks, s);
    }
    forall values | |values| == Vars(toks) && GoodValues(values) && Fill(toks, values) == s
      ensures Accepts(toks, s)
    {
      FillIsAccepted(toks, values);
    }
  }

  /** 'x' for each variable and 'y' for each '.': accepted, and free of '.'. */
  function Dotless(toks: seq<Token>): string
    requires PlainOrDot(toks)
  {
    if toks == [] then ""
    else (if toks[0].Var? then "x" else if toks[0].c == '.' then "y" else [toks[0].c]) + Dotless(toks[1..])
  }

  lemma {:induction false} DotlessAccepted(toks: seq<Token>)
    requires PlainOrDot(toks)
    ensures Accepts(toks, Dotless(toks)) && '.' !in Dotless(toks)
  {
    if toks != [] {
      DotlessAccepted(toks[1..]);
      var s := Dotless(toks);
      assert s[1..] == Dotless(toks[1..]);
      assert s[..1] == [s[0]];
    }
  }

  lemma {:induction false} InstanceKeepsDot(toks: seq<Token>, values: seq<string>)
    requires |values| == Vars(toks) && Lit('.') in toks
    ensures '.' in Fill(toks, values)
  {
    if toks[0] != Lit('.') {
      assert Lit('.') in toks[1..];
      InstanceKeepsDot(toks[1..], if toks[0].Var? then values[1..] else values);
    }
  }

  /** The literal '.' is not escaped, so the pattern is exact precisely for templates without one. */
  lemma ExactIffNoDot(toks: seq<Token>)
    requires PlainOrDot(toks)
    ensures (forall s :: Accepts(toks, s) <==> Instance(toks, s)) <==> Lit('.') !in toks
  {
    if Lit('.') in toks {
      DotlessAccepted(toks);
      var s := Dotless(toks);
      forall values | |values| == Vars(toks) && GoodValues(values)
        ensures Fill(toks, values) != s
      {
        InstanceKeepsDot(toks, values);
      }
      assert Accepts(toks, s) && !Instance(toks, s);
    } else {
      forall s ensures Accepts(toks, s) <==> Instance(toks, s) {
        PlainAcceptsExactlyInstances(toks, s);
      }
    }
  }
}
