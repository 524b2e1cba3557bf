// Graphs written out as text, with any spelling of each token and any white space and comments in
// between.
module DotTexts {
  import opened Options
  import opened DotLexers
  import opened DotParsers
  import opened DotPlaces
  import opened DotGraphs
  import opened DotStrings

  // White space, a comment up to the end of its line, or one between /* and */
  datatype Skip = White(c: char) | LineComment(hash: bool, text: string) | BlockComment(text: string)

  type Gap = seq<Skip>

  function SkipText(x: Skip): (s: string)
    ensures s != []
  {
    match x
    case White(c) => [c]
    case LineComment(hash, text) => (if hash then "#" else "//") + text
    case BlockComment(text) => "/*" + text + "*/"
  }

  function GapText(gap: Gap): string
  {
    if gap == [] then [] else SkipText(gap[0]) + GapText(gap[1..])
  }

  // A token as it is written, behind a gap
  datatype Piece = Piece(gap: Gap, raw: string, token: Token)

  function Text(ps: seq<Piece>, last: Gap): string
  {
    if ps == [] then GapText(last) else GapText(ps[0].gap) + ps[0].raw + Text(ps[1..], last)
  }

  function TokensOf(ps: seq<Piece>): seq<Token>
  {
    if ps == [] then [] else [ps[0].token] + TokensOf(ps[1..])
  }

  predicate GoodSkip(x: Skip)
  {
    match x
    case White(c) => IsSpace(c)
    case LineComment(_, text) => forall c :: c in text ==> InLine(c)
    case BlockComment(text) => forall k :: 0 <= k < |text| - 1 ==> !(text[k] == '*' && text[k + 1] == '/')
  }

  // A gap in front of rest: a line comment ends with its line or the file.
  predicate GoodGap(gap: Gap, rest: string)
  {
    gap == []
    || (var after := GapText(gap[1..]) + rest;
        && GoodSkip(gap[0]) && GoodGap(gap[1..], rest)
        && (gap[0].LineComment? ==> after == [] || !InLine(after[0])))
  }

  predicate IsWord(raw: string)
  {
    raw != [] && IsIdStart(raw[0]) && forall c :: c in raw ==> IsIdChar(c)
  }

  predicate Digits(s: string)
  {
    forall c :: c in s ==> '0' <= c <= '9'
  }

  // Digits with a point behind them, in front of them or somewhere between them, or without one
  predicate IsUnsigned(body: string)
  {
    || (body != [] && Digits(body))
    || (|body| > 1 && exists k :: 0 <= k < |body| && body[k] == '.' && Digits(body[..k]) && Digits(body[k + 1..]))
  }

  // A numeral may have a minus sign.
  predicate IsNumeral(raw: string)
  {
    raw != [] && IsUnsigned(if raw[0] == '-' then raw[1..] else raw)
  }

  function Bracketed(s: string): string
  {
    ['<'] + s + ['>']
  }

  // Every bracket is closed before another one is opened; inside says whether one is open.
  predicate OneLevel(text: string, inside: bool)
  {
    if text == [] then !inside
    else if text[0] == '<' then !inside && OneLevel(text[1..], true)
    else if text[0] == '>' then inside && OneLevel(text[1..], false)
    else OneLevel(text[1..], inside)
  }

  // A string in quotes says this text.
  ghost predicate IsString(raw: string, text: string)
  {
    exists xs: seq<Part> :: GoodParts(xs) && raw == Quoted(xs) && text == Meant(xs)
  }

  // An identifier is a word that is no keyword, a numeral, a string or an HTML string.
  ghost predicate SpellsId(raw: string, text: string)
  {
    || (raw == text && IsWord(raw) && Literal(raw) == ID)
    || (raw == text && IsNumeral(raw))
    || IsString(raw, text)
    || (raw == Bracketed(text) && OneLevel(text, false))
  }

  // Symbols and keywords have one spelling.
  function Fixed(kind: Kind): string
  {
    match kind
    case LSQUARE => "["
    case RSQUARE => "]"
    case LCURLY => "{"
    case RCURLY => "}"
    case COMMA => ","
    case COLON => ":"
    case SEMI => ";"
    case EQUAL => "="
    case PLUS => "+"
    case STRICT => "strict"
    case GRAPH => "graph"
    case DIGRAPH => "digraph"
    case NODE => "node"
    case EDGE => "edge"
    case SUBGRAPH => "subgraph"
    case _ => ""
  }

  ghost predicate Spelled(raw: string, t: Token)
  {
    && t == Plain(t) && raw != []
    && match t.kind
       case ID => SpellsId(raw, t.text)
       case EDGE_OP => raw == "->" || raw == "--"
       case kind => raw == Fixed(kind)
  }

  // What follows does not lengthen a word or a numeral.
  predicate Apart(raw: string, rest: string)
  {
    rest != [] ==>
      && (IsWord(raw) ==> !IsIdChar(rest[0]))
      && (IsNumeral(raw) ==> !IsDigit(rest[0]) && ('.' in raw || rest[0] != '.'))
  }

  // Every piece spells its token and ends where it should.
  ghost predicate Writes(ps: seq<Piece>, last: Gap)
  {
    if ps == [] then GoodGap(last, [])
    else
      var rest := Text(ps[1..], last);
      && GoodGap(ps[0].gap, ps[0].raw + rest) && Spelled(ps[0].raw, ps[0].token) && Apart(ps[0].raw, rest)
      && Writes(ps[1..], last)
  }

  // ---------- every spelling is scanned whole ----------

  lemma {:induction false} RunIs(buf: string, p: nat, e: nat, f: char -> bool)
    requires p <= e <= |buf| && (forall k :: p <= k < e ==> f(buf[k])) && (e < |buf| ==> !f(buf[e]))
    ensures RunEnd(buf, p, f) == e
    decreases e - p
  {
    if p == e {
    } else {
      RunIs(buf, p + 1, e, f);
    }
  }

  // The text from p on is raw and then something that does not lengthen it.
  ghost predicate StandsApart(buf: string, p: nat, raw: string)
  {
    Stands(buf, p, raw) && Apart(raw, buf[p + |raw|..])
  }

  lemma RawRuns(buf: string, p: nat, raw: string, f: char -> bool)
    requires Stands(buf, p, raw) && (forall c :: c in raw ==> f(c))
    requires p + |raw| < |buf| ==> !f(buf[p + |raw|])
    ensures RunEnd(buf, p, f) == p + |raw|
  {
    forall j: nat | p <= j < p + |raw| ensures f(buf[j]) {
      StandsAt(buf, p, raw, j - p);
      assert raw[j - p] in raw;
    }
    RunIs(buf, p, p + |raw|, f);
  }

  lemma WordScans(buf: string, p: nat, word: string)
    requires IsWord(word) && StandsApart(buf, p, word)
    ensures Scan(buf, p) == (Literal(word), p + |word|)
  {
    hide RunEnd;
    StandsAt(buf, p, word, 0);
    RawRuns(buf, p, word, IsIdChar);
  }

  lemma DigitsRun(buf: string, p: nat, digits: string)
    requires Stands(buf, p, digits) && Digits(digits) && (p + |digits| < |buf| ==> !IsDigit(buf[p + |digits|]))
    ensures RunEnd(buf, p, IsDigit) == p + |digits|
  {
    RawRuns(buf, p, digits, IsDigit);
  }

  // The rule for numbers takes body, which stands at q, whole.
  ghost predicate TakenWhole(buf: string, q: nat, body: string)
    requires q < |buf|
  {
    var end := q + |body|;
    if buf[q] == '.' then RunEnd(buf, q + 1, IsDigit) == end > q + 1
    else
      var e := RunEnd(buf, q, IsDigit);
      IsDigit(buf[q]) && end == if e < |buf| && buf[e] == '.' then RunEnd(buf, e + 1, IsDigit) else e
  }

  // What stands behind body does not go on with it.
  ghost predicate StandsAlone(buf: string, q: nat, body: string)
  {
    && Stands(buf, q, body) && body != []
    && (q + |body| < |buf| ==> !IsDigit(buf[q + |body|]) && ('.' in body || buf[q + |body|] != '.'))
  }

  lemma WholeIsTaken(buf: string, q: nat, body: string)
    requires Digits(body) && StandsAlone(buf, q, body)
    ensures TakenWhole(buf, q, body)
  {
    hide RunEnd;
    StandsAt(buf, q, body, 0);
    assert body[0] in body && '.' !in body;
    DigitsRun(buf, q, body);
  }

  lemma PointIsTaken(buf: string, q: nat, front: string, back: string)
    requires Digits(front) && Digits(back) && front + back != []
    requires StandsAlone(buf, q, front + ['.'] + back)
    ensures TakenWhole(buf, q, front + ['.'] + back)
  {
    hide RunEnd, Digits, Stands;
    var body, p := front + ['.'] + back, q + |front|;
    assert body == front + (['.'] + back);
    StandsSplits(buf, q, front, ['.'] + back);
    StandsSplits(buf, p, ['.'], back);
    StandsAt(buf, p, ['.'], 0);
    PointIsThere(buf, p);
    DigitsRun(buf, p + 1, back);
    DigitsRun(buf, q, front);
    if front != [] {
      StandsAt(buf, q, front, 0);
      DigitIsDigit(front);
    }
  }

  lemma PointIsThere(buf: string, p: nat)
    requires Stands(buf, p, ['.'])
    ensures p < |buf| && !IsDigit('.')
  {
  }

  lemma DigitIsDigit(s: string)
    requires Digits(s) && s != []
    ensures IsDigit(s[0]) && s[0] != '.'
  {
    assert s[0] in s;
  }

  lemma UnsignedIsTaken(buf: string, q: nat, body: string)
    requires IsUnsigned(body) && StandsAlone(buf, q, body)
    ensures TakenWhole(buf, q, body)
  {
    hide TakenWhole, StandsAlone;
    if Digits(body) {
      WholeIsTaken(buf, q, body);
    } else {
      var k :| 0 <= k < |body| && body[k] == '.' && Digits(body[..k]) && Digits(body[k + 1..]);
      assert body == body[..k] + ['.'] + body[k + 1..];
      PointIsTaken(buf, q, body[..k], body[k + 1..]);
    }
  }

  lemma TakenIsEnd(buf: string, p: nat, q: nat, body: string)
    requires p <= q < |buf| && TakenWhole(buf, q, body)
    requires (q == p && buf[p] != '-') || (q == p + 1 && buf[p] == '-')
    ensures NumberEnd(buf, p) == Some(q + |body|)
  {
    hide RunEnd;
  }

  lemma UnsignedStarts(body: string)
    requires IsUnsigned(body)
    ensures body != [] && (body[0] == '.' || IsDigit(body[0]))
  {
    if Digits(body) {
      DigitIsDigit(body);
    } else {
      var k :| 0 <= k < |body| && body[k] == '.' && Digits(body[..k]) && Digits(body[k + 1..]);
      if k > 0 {
        DigitIsDigit(body[..k]);
      }
    }
  }

  lemma NumeralStarts(raw: string)
    requires IsNumeral(raw)
    ensures raw[0] == '-' || raw[0] == '.' || IsDigit(raw[0])
    ensures raw[0] == '-' ==> |raw| > 1 && (raw[1] == '.' || IsDigit(raw[1]))
  {
    hide IsUnsigned;
    UnsignedStarts(if raw[0] == '-' then raw[1..] else raw);
  }

  lemma NumberScans(buf: string, p: nat)
    requires p < |buf| && NumberEnd(buf, p).Some? && (buf[p] == '-' || buf[p] == '.' || IsDigit(buf[p]))
    ensures Scan(buf, p) == (ID, NumberEnd(buf, p).value)
  {
    hide RunEnd, CommentEnd, StringEnd, HtmlEnd, NumberEnd;
  }

  lemma NumeralStandsAlone(buf: string, p: nat, raw: string)
    requires IsNumeral(raw) && StandsApart(buf, p, raw) && raw != [] && (raw[0] == '-' ==> |raw| > 1)
    ensures if raw[0] == '-' then p + 1 < |buf| && StandsAlone(buf, p + 1, raw[1..]) else StandsAlone(buf, p, raw)
  {
    hide IsUnsigned, Digits, IsNumeral, IsWord, IsIdChar;
    if raw[0] == '-' {
      assert raw == ['-'] + raw[1..] && ('.' in raw ==> '.' in raw[1..]);
      StandsSplits(buf, p, ['-'], raw[1..]);
    }
  }

  lemma NumeralScans(buf: string, p: nat, raw: string)
    requires IsNumeral(raw) && StandsApart(buf, p, raw)
    ensures Scan(buf, p) == (ID, p + |raw|)
  {
    hide RunEnd, IsUnsigned, NumberEnd, Scan, TakenWhole, Digits;
    StandsAt(buf, p, raw, 0);
    NumeralStarts(raw);
    NumeralStandsAlone(buf, p, raw);
    hide Stands, StandsAlone;
    if raw[0] == '-' {
      UnsignedIsTaken(buf, p + 1, raw[1..]);
      TakenIsEnd(buf, p, p + 1, raw[1..]);
    } else {
      UnsignedIsTaken(buf, p, raw);
      TakenIsEnd(buf, p, p, raw);
    }
    NumberScans(buf, p);
  }

  // An open bracket is closed at k, with none in between.
  lemma {:induction false} BracketCloses(text: string) returns (k: nat)
    requires OneLevel(text, true)
    ensures k < |text| && text[k] == '>' && OneLevel(text[k + 1..], false)
    ensures forall c :: c in text[..k] ==> NoAngle(c)
    decreases |text|
  {
    if text[0] == '>' {
      k := 0;
    } else {
      var n := BracketCloses(text[1..]);
      k := n + 1;
      assert text[..k] == [text[0]] + text[1..][..n] && text[k + 1..] == text[1..][n + 1..];
    }
  }

  lemma AnglePasses(buf: string, p: nat)
    requires p + 1 < |buf| && NoAngle(buf[p])
    ensures HtmlEnd(buf, p) == HtmlEnd(buf, p + 1)
  {
    assert RunEnd(buf, p, NoAngle) == RunEnd(buf, p + 1, NoAngle);
  }

  lemma AngleStops(buf: string, p: nat)
    requires p < |buf| && !NoAngle(buf[p])
    ensures RunEnd(buf, p, NoAngle) == p
  {
  }

  lemma BracketEnds(buf: string, p: nat, k: nat)
    requires p < k < |buf| && buf[p] == '<' && buf[k] == '>' && RunEnd(buf, p + 1, NoAngle) == k
    ensures HtmlEnd(buf, p) == HtmlEnd(buf, k + 1)
  {
    hide RunEnd;
    AngleStops(buf, p);
  }

  // <inner> is passed as a whole.
  lemma BracketPasses(buf: string, p: nat, inner: string)
    requires (forall c :: c in inner ==> NoAngle(c)) && Stands(buf, p, ['<'] + inner + ['>'])
    ensures HtmlEnd(buf, p) == HtmlEnd(buf, p + |inner| + 2)
  {
    hide RunEnd, HtmlEnd, Stands;
    var end := p + 1 + |inner|;
    assert ['<'] + inner + ['>'] == ['<'] + (inner + ['>']);
    StandsSplits(buf, p, ['<'], inner + ['>']);
    StandsSplits(buf, p + 1, inner, ['>']);
    StandsAt(buf, p, ['<'], 0);
    StandsAt(buf, end, ['>'], 0);
    Room(buf, end, ['>']);
    RawRuns(buf, p + 1, inner, NoAngle);
    BracketEnds(buf, p, end);
  }

  lemma HtmlCloses(buf: string, p: nat)
    requires Stands(buf, p, ['>'])
    ensures HtmlEnd(buf, p) == Some(p + 1)
  {
    hide RunEnd;
    StandsAt(buf, p, ['>'], 0);
    AngleStops(buf, p);
  }

  lemma HtmlBracket(buf: string, p: nat, s: string, inner: string, rest: string)
    requires s == ['<'] + inner + ['>'] + rest && Stands(buf, p, s + ['>'])
    requires forall c :: c in inner ==> NoAngle(c)
    ensures HtmlEnd(buf, p) == HtmlEnd(buf, p + |inner| + 2) && Stands(buf, p + |inner| + 2, rest + ['>'])
  {
    hide HtmlEnd, Stands, NoAngle;
    assert s + ['>'] == (['<'] + inner + ['>']) + (rest + ['>']);
    StandsSplits(buf, p, ['<'] + inner + ['>'], rest + ['>']);
    BracketPasses(buf, p, inner);
  }

  lemma HtmlCharacter(buf: string, p: nat, c: char, rest: string)
    requires NoAngle(c) && Stands(buf, p, [c] + rest + ['>'])
    ensures HtmlEnd(buf, p) == HtmlEnd(buf, p + 1) && Stands(buf, p + 1, rest + ['>'])
  {
    hide HtmlEnd, Stands;
    assert [c] + rest + ['>'] == [c] + (rest + ['>']);
    StandsSplits(buf, p, [c], rest + ['>']);
    StandsAt(buf, p, [c], 0);
    Room(buf, p + 1, rest + ['>']);
    AnglePasses(buf, p);
  }

  lemma {:induction false} HtmlEnds(buf: string, p: nat, s: string)
    requires OneLevel(s, false) && Stands(buf, p, s + ['>'])
    ensures HtmlEnd(buf, p) == Some(p + |s| + 1)
    decreases |s|
  {
    hide Stands, HtmlEnd;
    if s == [] {
      assert s + ['>'] == ['>'];
      HtmlCloses(buf, p);
    } else if s[0] == '<' {
      var k := BracketCloses(s[1..]);
      HtmlBracket(buf, p, s, s[1..][..k], s[1..][k + 1..]);
      HtmlEnds(buf, p + k + 2, s[1..][k + 1..]);
    } else {
      assert s == [s[0]] + s[1..];
      HtmlCharacter(buf, p, s[0], s[1..]);
      HtmlEnds(buf, p + 1, s[1..]);
    }
  }

  lemma AngleScans(buf: string, p: nat)
    requires p < |buf| && buf[p] == '<' && HtmlEnd(buf, p + 1).Some?
    ensures Scan(buf, p) == (HTML_ID, HtmlEnd(buf, p + 1).value)
  {
    hide RunEnd, HtmlEnd, StringEnd, CommentEnd;
  }

  lemma HtmlScans(buf: string, p: nat, s: string)
    requires OneLevel(s, false) && Stands(buf, p, Bracketed(s))
    ensures Scan(buf, p) == (HTML_ID, p + |s| + 2)
  {
    hide RunEnd, HtmlEnd, StringEnd, CommentEnd, OneLevel, Stands;
    assert Bracketed(s) == ['<'] + (s + ['>']);
    StandsSplits(buf, p, ['<'], s + ['>']);
    StandsAt(buf, p, ['<'], 0);
    Room(buf, p, ['<']);
    HtmlEnds(buf, p + 1, s);
    AngleScans(buf, p);
  }

  lemma SymbolsAreApart(c: char)
    requires Symbol(c) != UNKNOWN
    ensures !IsSpace(c) && !IsIdStart(c) && !IsDigit(c) && c !in "/#.-\"<"
  {
  }

  lemma SymbolScans(buf: string, p: nat, c: char)
    requires Symbol(c) != UNKNOWN && Stands(buf, p, [c])
    ensures Scan(buf, p) == (Symbol(c), p + 1)
  {
    hide RunEnd, CommentEnd, StringEnd, HtmlEnd, Symbol, IsSpace, IsIdStart, IsDigit;
    SymbolsAreApart(c);
    StandsAt(buf, p, [c], 0);
  }

  lemma ArrowScans(buf: string, p: nat, raw: string)
    requires (raw == "->" || raw == "--") && Stands(buf, p, raw)
    ensures Scan(buf, p) == (EDGE_OP, p + 2)
  {
    StandsAt(buf, p, raw, 0);
    StandsAt(buf, p, raw, 1);
  }

  predicate IsSymbol(kind: Kind)
  {
    kind in {LSQUARE, RSQUARE, LCURLY, RCURLY, COMMA, COLON, SEMI, EQUAL, PLUS}
  }

  lemma FixedSymbolScans(buf: string, p: nat, kind: Kind)
    requires IsSymbol(kind) && Stands(buf, p, Fixed(kind))
    ensures Scan(buf, p) == (kind, p + |Fixed(kind)|)
  {
    hide Scan;
    SymbolScans(buf, p, Fixed(kind)[0]);
  }

  predicate IsKeyword(kind: Kind)
  {
    kind in {STRICT, GRAPH, DIGRAPH, NODE, EDGE, SUBGRAPH}
  }

  lemma KeywordIsWord(kind: Kind)
    requires IsKeyword(kind)
    ensures IsWord(Fixed(kind)) && Literal(Fixed(kind)) == kind
  {
  }

  lemma FixedScans(buf: string, p: nat, kind: Kind)
    requires kind != ID && kind != EDGE_OP && Fixed(kind) != [] && StandsApart(buf, p, Fixed(kind))
    ensures Scan(buf, p) == (kind, p + |Fixed(kind)|) && (IsSymbol(kind) || IsKeyword(kind))
  {
    if IsSymbol(kind) {
      hide Scan, Fixed;
      FixedSymbolScans(buf, p, kind);
    } else {
      hide Scan, Literal, IsWord;
      KeywordIsWord(kind);
      WordScans(buf, p, Fixed(kind));
    }
  }

  lemma QuotedHasQuotes(xs: seq<Part>)
    ensures |Quoted(xs)| >= 2 && Quoted(xs)[0] == '"'
  {
  }

  lemma IdScans(buf: string, p: nat, raw: string, text: string)
    requires SpellsId(raw, text) && StandsApart(buf, p, raw)
    ensures var (kind, e) := Scan(buf, p);
            && e == p + |raw| && (kind == ID || kind == STR_ID || kind == HTML_ID)
            && (kind == STR_ID || kind == HTML_ID ==> |raw| >= 2) && Filter(kind, raw) == (ID, text)
  {
    hide Scan, Replace, Quoted, Meant, GoodParts, IsWord, IsNumeral, Literal, Apart, OneLevel;
    if raw == text && IsWord(raw) && Literal(raw) == ID {
      WordScans(buf, p, raw);
    } else if raw == text && IsNumeral(raw) {
      NumeralScans(buf, p, raw);
    } else if IsString(raw, text) {
      var xs: seq<Part> :| GoodParts(xs) && raw == Quoted(xs) && text == Meant(xs);
      QuotedScans(buf, p, xs);
      QuotedFilters(xs);
      QuotedHasQuotes(xs);
    } else {
      HtmlScans(buf, p, text);
      assert Bracketed(text)[1..|Bracketed(text)| - 1] == text;
    }
  }

  // A spelling is scanned to its end and filtered to its token.
  lemma SpellingScans(buf: string, p: nat, raw: string, t: Token)
    requires Spelled(raw, t) && StandsApart(buf, p, raw)
    ensures var (kind, e) := Scan(buf, p);
            && e == p + |raw| && kind != UNKNOWN && kind != SKIP && kind != EOF
            && (kind == STR_ID || kind == HTML_ID ==> |raw| >= 2)
            && var (k, text) := Filter(kind, raw);
               k != EOF && Plain(Token(k, text, 0, 0)) == t
  {
    hide Scan, Replace, SpellsId, Fixed, Apart;
    match t.kind
    case ID => IdScans(buf, p, raw, t.text);
    case EDGE_OP => ArrowScans(buf, p, raw);
    case kind => FixedScans(buf, p, kind);
  }

  // ---------- every gap is skipped ----------

  lemma PieceStands(buf: string, pos: nat, piece: string, rest: string)
    requires pos <= |buf| && buf[pos..] == piece + rest
    ensures var e := pos + |piece|;
            && e <= |buf| && buf[pos..e] == piece && buf[e..] == rest
            && (e < |buf| ==> rest != [] && buf[e] == rest[0])
  {
    var e := pos + |piece|;
    assert |buf| - pos == |piece| + |rest|;
    assert buf[pos..e] == buf[pos..][..|piece|] && buf[e..] == buf[pos..][|piece|..];
  }

  lemma WhiteSteps(buf: string, pos: nat)
    requires pos < |buf| && IsSpace(buf[pos])
    ensures Skipped(buf, pos) == Skipped(buf, pos + 1)
  {
    hide RunEnd, CommentEnd, StringEnd, HtmlEnd, NumberEnd;
    assert Scan(buf, pos) == (SKIP, RunEnd(buf, pos, IsSpace));
    SpacesRun(buf, pos);
    if pos + 1 < |buf| && IsSpace(buf[pos + 1]) {
      assert Scan(buf, pos + 1) == (SKIP, RunEnd(buf, pos + 1, IsSpace));
    }
  }

  lemma SpacesRun(buf: string, pos: nat)
    requires pos < |buf| && IsSpace(buf[pos])
    ensures RunEnd(buf, pos, IsSpace)
         == if pos + 1 < |buf| && IsSpace(buf[pos + 1]) then RunEnd(buf, pos + 1, IsSpace) else pos + 1
  {
  }

  lemma SkipIsSkipped(buf: string, pos: nat, e: nat)
    requires pos < |buf| && SkipEnd(buf, pos) == Some(e)
    ensures e <= |buf| && Skipped(buf, pos) == Skipped(buf, e)
  {
    hide SkipEnd, IsIdStart, NumberEnd, StringEnd, HtmlEnd, Symbol;
    assert Scan(buf, pos) == (SKIP, e);
  }

  lemma HashSteps(buf: string, pos: nat, text: string, e: nat)
    requires (forall c :: c in text ==> InLine(c)) && Stands(buf, pos, "#" + text) && e == pos + 1 + |text|
    requires e < |buf| ==> !InLine(buf[e])
    ensures e <= |buf| && Skipped(buf, pos) == Skipped(buf, e)
  {
    hide RunEnd, Skipped, InLine, CommentEnd, Stands;
    StandsSplits(buf, pos, "#", text);
    StandsAt(buf, pos, "#", 0);
    RawRuns(buf, pos + 1, text, InLine);
    Room(buf, pos, "#");
    SkipIsSkipped(buf, pos, e);
  }

  lemma SlashesStep(buf: string, pos: nat, text: string, e: nat)
    requires (forall c :: c in text ==> InLine(c)) && Stands(buf, pos, "//" + text) && e == pos + 2 + |text|
    requires e < |buf| ==> !InLine(buf[e])
    ensures e <= |buf| && Skipped(buf, pos) == Skipped(buf, e)
  {
    hide RunEnd, Skipped, InLine, CommentEnd, Stands;
    StandsSplits(buf, pos, "//", text);
    StandsAt(buf, pos, "//", 0);
    StandsAt(buf, pos, "//", 1);
    RawRuns(buf, pos + 2, text, InLine);
    StandsInside(buf, pos, "//");
    SkipIsSkipped(buf, pos, e);
  }

  lemma StandsInside(buf: string, p: nat, text: string)
    requires Stands(buf, p, text)
    ensures p + |text| <= |buf|
  {
  }

  lemma {:induction false} CommentEnds(buf: string, p: nat, text: string)
    requires (forall k :: 0 <= k < |text| - 1 ==> !(text[k] == '*' && text[k + 1] == '/'))
    requires Stands(buf, p, text + "*/")
    ensures CommentEnd(buf, p) == Some(p + |text| + 2)
    decreases |text|
  {
    StandsAt(buf, p, text + "*/", 0);
    StandsAt(buf, p, text + "*/", 1);
    if text == [] {
    } else {
      assert text + "*/" == [text[0]] + (text[1..] + "*/");
      StandsSplits(buf, p, [text[0]], text[1..] + "*/");
      CommentEnds(buf, p + 1, text[1..]);
    }
  }

  lemma BlockCommentSteps(buf: string, pos: nat, text: string, e: nat)
    requires GoodSkip(BlockComment(text)) && Stands(buf, pos, "/*" + (text + "*/")) && e == pos + |text| + 4
    ensures e <= |buf| && Skipped(buf, pos) == Skipped(buf, e)
  {
    hide RunEnd, Skipped, CommentEnd, Stands;
    StandsSplits(buf, pos, "/*", text + "*/");
    StandsAt(buf, pos, "/*", 0);
    StandsAt(buf, pos, "/*", 1);
    StandsInside(buf, pos, "/*");
    CommentEnds(buf, pos + 2, text);
    SkipIsSkipped(buf, pos, e);
  }

  // One part of a gap, which ends at e
  lemma SkipSteps(buf: string, pos: nat, x: Skip, e: nat)
    requires GoodSkip(x) && Stands(buf, pos, SkipText(x)) && e == pos + |SkipText(x)|
    requires x.LineComment? && e < |buf| ==> !InLine(buf[e])
    ensures e <= |buf| && Skipped(buf, pos) == Skipped(buf, e)
  {
    hide Skipped, IsSpace, Stands, InLine;
    match x
    case White(c) =>
      StandsAt(buf, pos, [c], 0);
      Room(buf, pos, [c]);
      WhiteSteps(buf, pos);
    case LineComment(hash, text) =>
      if hash {
        HashSteps(buf, pos, text, e);
      } else {
        SlashesStep(buf, pos, text, e);
      }
    case BlockComment(text) =>
      assert SkipText(x) == "/*" + (text + "*/");
      BlockCommentSteps(buf, pos, text, e);
  }

  lemma GapUnfolds(gap: Gap, rest: string)
    requires gap != []
    ensures GapText(gap) + rest == SkipText(gap[0]) + (GapText(gap[1..]) + rest)
    ensures |GapText(gap)| == |SkipText(gap[0])| + |GapText(gap[1..])|
  {
    hide SkipText;
    var a, b := SkipText(gap[0]), GapText(gap[1..]);
    assert GapText(gap) == a + b;
    hide GapText;
    Associates(a, b, rest);
  }

  lemma Associates(a: string, b: string, c: string)
    ensures a + b + c == a + (b + c)
  {
  }

  lemma GoodGapUnfolds(gap: Gap, rest: string)
    requires gap != [] && GoodGap(gap, rest)
    ensures GoodSkip(gap[0]) && GoodGap(gap[1..], rest)
    ensures var after := GapText(gap[1..]) + rest;
            gap[0].LineComment? ==> after == [] || !InLine(after[0])
  {
    hide SkipText, GoodSkip, InLine;
  }

  lemma {:induction false} GapIsSkipped(buf: string, pos: nat, gap: Gap, rest: string, end: nat)
    requires GoodGap(gap, rest) && pos <= |buf| && buf[pos..] == GapText(gap) + rest && end == pos + |GapText(gap)|
    ensures end <= |buf| && Skipped(buf, pos) == Skipped(buf, end)
    decreases |gap|
  {
    hide Skipped, GoodSkip, SkipText, InLine;
    if gap == [] {
    } else {
      hide GapText, GoodGap;
      var x, after := gap[0], GapText(gap[1..]) + rest;
      var e := pos + |SkipText(x)|;
      GapUnfolds(gap, rest);
      GoodGapUnfolds(gap, rest);
      PieceStands(buf, pos, SkipText(x), after);
      SkipSteps(buf, pos, x, e);
      GapIsSkipped(buf, e, gap[1..], rest, end);
    }
  }

  lemma NothingIsSkipped(buf: string, p: nat)
    requires p <= |buf| && Scan(buf, p).0 != SKIP
    ensures Skipped(buf, p) == p
  {
    hide Scan;
  }

  lemma TokenAt(buf: string, pos: nat, p: nat)
    requires pos <= |buf| && Skipped(buf, pos) == p
    ensures var (kind, e) := Scan(buf, p);
            && EndFrom(buf, pos) == e && (kind == STR_ID || kind == HTML_ID ==> e >= p + 2)
            && (kind != UNKNOWN ==>
                  var t := TokenFrom(buf, pos);
                  t.Some? && (t.value.kind, t.value.text) == Filter(kind, buf[p..e]))
  {
    hide Scan, Filter, Track, Skipped;
    QuotedIsLong(buf, p);
  }

  lemma PlainForgets(t: Token, kind: Kind, text: string)
    requires t.kind == kind && t.text == text
    ensures Plain(t) == Plain(Token(kind, text, 0, 0))
  {
  }

  lemma OneTokenLexes(buf: string, pos: nat, x: Piece, rest: string)
    requires GoodGap(x.gap, x.raw + rest) && Spelled(x.raw, x.token) && Apart(x.raw, rest)
    requires pos <= |buf| && buf[pos..] == GapText(x.gap) + (x.raw + rest)
    ensures EndFrom(buf, pos) == pos + |GapText(x.gap)| + |x.raw|
    ensures var t := TokenFrom(buf, pos);
            t.Some? && Plain(t.value) == x.token && t.value.kind != EOF
  {
    hide Scan, Filter, Spelled, Track, GoodGap, Apart, Skipped, GapText, TokenFrom, EndFrom, Plain;
    var p := pos + |GapText(x.gap)|;
    GapIsSkipped(buf, pos, x.gap, x.raw + rest, p);
    PieceStands(buf, pos, GapText(x.gap), x.raw + rest);
    PieceStands(buf, p, x.raw, rest);
    SpellingScans(buf, p, x.raw, x.token);
    NothingIsSkipped(buf, p);
    TokenAt(buf, pos, p);
    var t := TokenFrom(buf, pos).value;
    PlainForgets(t, t.kind, t.text);
  }

  lemma NothingIsLeft(buf: string, pos: nat)
    requires pos <= |buf| && Skipped(buf, pos) == |buf|
    ensures TokensFrom(buf, pos) == [] && !EndsBadly(buf, pos)
  {
    hide Track;
  }

  lemma GapEnds(buf: string, pos: nat, gap: Gap)
    requires pos <= |buf| && GoodGap(gap, []) && buf[pos..] == GapText(gap)
    ensures TokensFrom(buf, pos) == [] && Project(TokensFrom(buf, pos)) == [] && !EndsBadly(buf, pos)
  {
    hide Track, GoodGap, Skipped, TokensFrom, EndsBadly, GapText;
    assert buf[pos..] == GapText(gap) + [];
    GapIsSkipped(buf, pos, gap, [], |buf|);
    NothingIsSkipped(buf, |buf|);
    NothingIsLeft(buf, pos);
  }

  lemma TokensStep(buf: string, pos: nat)
    requires pos <= |buf| && TokenFrom(buf, pos).Some? && TokenFrom(buf, pos).value.kind != EOF
    ensures Project(TokensFrom(buf, pos))
         == [Plain(TokenFrom(buf, pos).value)] + Project(TokensFrom(buf, EndFrom(buf, pos)))
    ensures EndsBadly(buf, pos) == EndsBadly(buf, EndFrom(buf, pos))
  {
    hide TokenFrom, EndFrom, Plain;
    var rest := TokensFrom(buf, EndFrom(buf, pos));
    assert ([TokenFrom(buf, pos).value] + rest)[1..] == rest;
  }

  lemma WrittenUnfolds(ps: seq<Piece>, last: Gap)
    requires ps != [] && Writes(ps, last)
    ensures var x, rest := ps[0], Text(ps[1..], last);
            && Text(ps, last) == GapText(x.gap) + (x.raw + rest) && Writes(ps[1..], last)
            && GoodGap(x.gap, x.raw + rest) && Spelled(x.raw, x.token) && Apart(x.raw, rest)
  {
    hide GapText, GoodGap, Spelled, Apart;
    var x, rest := ps[0], Text(ps[1..], last);
    assert Text(ps, last) == GapText(x.gap) + x.raw + rest;
    hide Text;
    Associates(GapText(x.gap), x.raw, rest);
  }

  // The first token, and where the others begin
  lemma PieceLexes(buf: string, pos: nat, x: Piece, rest: string)
    requires GoodGap(x.gap, x.raw + rest) && Spelled(x.raw, x.token) && Apart(x.raw, rest)
    requires pos <= |buf| && buf[pos..] == GapText(x.gap) + (x.raw + rest)
    ensures var e := pos + |GapText(x.gap)| + |x.raw|;
            && e <= |buf| && buf[e..] == rest && EndsBadly(buf, pos) == EndsBadly(buf, e)
            && Project(TokensFrom(buf, pos)) == [x.token] + Project(TokensFrom(buf, e))
  {
    hide TokenFrom, EndFrom, TokensFrom, EndsBadly, Project, Plain, Spelled, Apart, GoodGap, GapText;
    PieceStands(buf, pos, GapText(x.gap), x.raw + rest);
    PieceStands(buf, pos + |GapText(x.gap)|, x.raw, rest);
    OneTokenLexes(buf, pos, x, rest);
    TokensStep(buf, pos);
  }

  // The lexer gives back the tokens that were written.
  lemma {:induction false} WrittenLexes(buf: string, pos: nat, ps: seq<Piece>, last: Gap)
    requires Writes(ps, last) && pos <= |buf| && buf[pos..] == Text(ps, last)
    ensures Project(TokensFrom(buf, pos)) == TokensOf(ps) && !EndsBadly(buf, pos)
    decreases |ps|
  {
    hide TokenFrom, EndFrom, TokensFrom, EndsBadly, Project, Plain, Spelled, Apart, GoodGap, GapText;
    if ps == [] {
      GapEnds(buf, pos, last);
    } else {
      hide Text, Writes;
      var x, rest := ps[0], Text(ps[1..], last);
      WrittenUnfolds(ps, last);
      PieceLexes(buf, pos, x, rest);
      WrittenLexes(buf, pos + |GapText(x.gap)| + |x.raw|, ps[1..], last);
    }
  }

  // A graph written as text, however it is spelled, goes through lexer and parser to what it says,
  // or raises if there is a chain in it.
  lemma TextParses(ps: seq<Piece>, last: Gap, front: seq<Token>, ss: seq<Stmt>)
    requires Writes(ps, last) && TokensOf(ps) == GraphTokens(front, ss) && Braceless(front) && WellFormedAll(ss)
    ensures var buf := Text(ps, last);
            && Ahead(TokensFrom(buf, 0), LCURLY)
            && ParseOf(buf) == if AnyChained(ss) then Raised else Good(GraphOf(ss))
  {
    hide Parse, GraphTokens, GraphOf, WellFormedAll, AnyChained, Project, Writes, Text, TokensFrom, EndsBadly;
    var buf := Text(ps, last);
    assert buf[0..] == buf;
    WrittenLexes(buf, 0, ps, last);
    GraphParses(TokensFrom(buf, 0), front, ss);
  }
}
