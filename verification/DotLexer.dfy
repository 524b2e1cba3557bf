// The scanner and lexer of xdot.py: which text becomes which token, and where it stands.
module DotLexers {
  import opened Options

  datatype Kind =
    | EOF | SKIP | UNKNOWN
    | ID | STR_ID | HTML_ID | EDGE_OP
    | LSQUARE | RSQUARE | LCURLY | RCURLY | COMMA | COLON | SEMI | EQUAL | PLUS
    | STRICT | GRAPH | DIGRAPH | NODE | EDGE | SUBGRAPH

  const TABSIZE: nat := 8

  // ---------- the token rules ----------

  predicate IsSpace(c: char) { c == ' ' || c == '\t' || c as int == 12 || c == '\r' || c == '\n' || c as int == 11 }

  predicate InLine(c: char) { c != '\r' && c != '\n' }

  predicate IsDigit(c: char) { '0' <= c <= '9' }

  predicate IsIdStart(c: char) { 'a' <= c <= 'z' || 'A' <= c <= 'Z' || c == '_' || 0x80 <= c as int <= 0xff }

  predicate IsIdChar(c: char) { IsIdStart(c) || IsDigit(c) }

  predicate NoAngle(c: char) { c != '<' && c != '>' }

  // The end of the longest run of p from pos on
  function RunEnd(buf: string, pos: nat, p: char -> bool): (e: nat)
    requires pos <= |buf|
    ensures pos <= e <= |buf| && (e < |buf| ==> !p(buf[e]))
    ensures forall k :: pos <= k < e ==> p(buf[k])
    decreases |buf| - pos
  {
    if pos == |buf| || !p(buf[pos]) then pos else RunEnd(buf, pos + 1, p)
  }

  predicate StartsWith(buf: string, pos: nat, a: char, b: char)
  {
    pos + 2 <= |buf| && buf[pos] == a && buf[pos + 1] == b
  }

  // Behind the first */ from pos on
  function CommentEnd(buf: string, pos: nat): (e: Option<nat>)
    ensures e.Some? ==> pos + 2 <= e.value <= |buf| && buf[e.value - 1] == '/'
    decreases |buf| - pos
  {
    if pos + 2 > |buf| then None
    else if StartsWith(buf, pos, '*', '/') then Some(pos + 2)
    else CommentEnd(buf, pos + 1)
  }

  // Behind the closing quote of a string whose text goes on at pos
  function StringEnd(buf: string, pos: nat): (e: Option<nat>)
    ensures e.Some? ==> pos < e.value <= |buf| && buf[e.value - 1] == '"'
    decreases |buf| - pos
  {
    if pos >= |buf| then None
    else if buf[pos] == '"' then Some(pos + 1)
    else if buf[pos] == '\\' then if pos + 1 < |buf| then StringEnd(buf, pos + 2) else None
    else StringEnd(buf, pos + 1)
  }

  // Behind the closing bracket of an HTML string; one level of brackets may nest in it.
  function HtmlEnd(buf: string, pos: nat): (e: Option<nat>)
    ensures e.Some? ==> pos < e.value <= |buf| && buf[e.value - 1] == '>'
    decreases |buf| - pos
  {
    if pos >= |buf| then None
    else
      var j := RunEnd(buf, pos, NoAngle);
      if j == |buf| then None
      else if buf[j] == '>' then Some(j + 1)
      else
        var k := RunEnd(buf, j + 1, NoAngle);
        if k < |buf| && buf[k] == '>' then HtmlEnd(buf, k + 1) else None
  }

  function NumberEnd(buf: string, pos: nat): (e: Option<nat>)
    requires pos < |buf|
    ensures e.Some? ==> pos < e.value <= |buf| && (IsDigit(buf[e.value - 1]) || buf[e.value - 1] == '.')
  {
    var q := if buf[pos] == '-' then pos + 1 else pos;
    if q == |buf| then None
    else if buf[q] == '.' then
      var e := RunEnd(buf, q + 1, IsDigit);
      if e > q + 1 then Some(e) else None
    else if IsDigit(buf[q]) then
      var e := RunEnd(buf, q, IsDigit);
      if e < |buf| && buf[e] == '.' then Some(RunEnd(buf, e + 1, IsDigit)) else Some(e)
    else None
  }

  function Literal(text: string): Kind
  {
    if text == "strict" then STRICT
    else if text == "graph" then GRAPH
    else if text == "digraph" then DIGRAPH
    else if text == "node" then NODE
    else if text == "edge" then EDGE
    else if text == "subgraph" then SUBGRAPH
    else ID
  }

  function Symbol(c: char): Kind
  {
    match c
    case '[' => LSQUARE
    case ']' => RSQUARE
    case '{' => LCURLY
    case '}' => RCURLY
    case ',' => COMMA
    case ':' => COLON
    case ';' => SEMI
    case '=' => EQUAL
    case '+' => PLUS
    case _ => UNKNOWN
  }

  // Where white space or a comment at pos ends
  function SkipEnd(buf: string, pos: nat): (e: Option<nat>)
    requires pos < |buf|
    ensures e.Some? ==> pos < e.value <= |buf|
  {
    if IsSpace(buf[pos]) then Some(RunEnd(buf, pos, IsSpace))
    else if StartsWith(buf, pos, '/', '/') then Some(RunEnd(buf, pos + 2, InLine))
    else if StartsWith(buf, pos, '/', '*') then CommentEnd(buf, pos + 2)
    else if buf[pos] == '#' then Some(RunEnd(buf, pos + 1, InLine))
    else None
  }

  // Scanner.next: kind and end of what stands at pos
  function Scan(buf: string, pos: nat): (r: (Kind, nat))
    requires pos <= |buf|
    ensures if pos == |buf| then r == (EOF, pos) else r.0 != EOF && pos < r.1 <= |buf|
  {
    if pos == |buf| then (EOF, pos)
    else if SkipEnd(buf, pos).Some? then (SKIP, SkipEnd(buf, pos).value)
    else if IsIdStart(buf[pos]) then
      var e := RunEnd(buf, pos, IsIdChar);
      (Literal(buf[pos..e]), e)
    else if NumberEnd(buf, pos).Some? then (ID, NumberEnd(buf, pos).value)
    else if buf[pos] == '"' && StringEnd(buf, pos + 1).Some? then (STR_ID, StringEnd(buf, pos + 1).value)
    else if buf[pos] == '<' && HtmlEnd(buf, pos + 1).Some? then (HTML_ID, HtmlEnd(buf, pos + 1).value)
    else if StartsWith(buf, pos, '-', '>') || StartsWith(buf, pos, '-', '-') then (EDGE_OP, pos + 2)
    else (Symbol(buf[pos]), pos + 1)
  }

  // ---------- lines and columns ----------

  datatype Place = Place(line: int, col: int)

  const START := Place(1, 1)

  function NextTab(col: int): int
  {
    ((col - 1) / TABSIZE + 1) * TABSIZE + 1
  }

  // Where reading text leads, character by character; \r\n is one line end.
  function Track(text: string, at: Place): Place
    decreases |text|
  {
    if text == [] then at
    else if text[0] == '\r' && |text| > 1 && text[1] == '\n' then Track(text[2..], Place(at.line + 1, 1))
    else if text[0] == '\r' || text[0] == '\n' then Track(text[1..], Place(at.line + 1, 1))
    else if text[0] == '\t' then Track(text[1..], Place(at.line, NextTab(at.col)))
    else Track(text[1..], Place(at.line, at.col + 1))
  }

  // A line end is not cut in two between a and b.
  predicate CleanCut(a: string, b: string)
  {
    !(a != [] && a[|a| - 1] == '\r' && b != [] && b[0] == '\n')
  }

  lemma {:induction false} TrackInPieces(a: string, b: string, at: Place)
    requires CleanCut(a, b)
    ensures Track(a + b, at) == Track(b, Track(a, at))
    decreases |a|
  {
    if a == [] {
      assert a + b == b;
    } else if a[0] == '\r' && |a| > 1 && a[1] == '\n' {
      assert (a + b)[2..] == a[2..] + b;
      TrackInPieces(a[2..], b, Place(at.line + 1, 1));
    } else {
      assert (a + b)[1..] == a[1..] + b;
      var next := if a[0] == '\r' || a[0] == '\n' then Place(at.line + 1, 1)
                  else if a[0] == '\t' then Place(at.line, NextTab(at.col))
                  else Place(at.line, at.col + 1);
      TrackInPieces(a[1..], b, next);
    }
  }

  // A line end counts at its first character: \r\n, \r or \n.
  function LineEnds(text: string): nat
  {
    if text == [] then 0
    else
      var front, c := text[..|text| - 1], text[|text| - 1];
      LineEnds(front)
      + if c == '\r' || (c == '\n' && (front == [] || front[|front| - 1] != '\r')) then 1 else 0
  }

  lemma TrackOne(c: char, at: Place)
    ensures Track([c], at) == if c == '\r' || c == '\n' then Place(at.line + 1, 1)
                              else if c == '\t' then Place(at.line, NextTab(at.col))
                              else Place(at.line, at.col + 1)
  {
    assert [c][1..] == [];
  }

  // The last character of a text, or its line end of two, is read from where the rest of it leads.
  lemma TrackLast(front: string, c: char, at: Place)
    ensures !(front != [] && front[|front| - 1] == '\r' && c == '\n') ==>
              Track(front + [c], at) == Track([c], Track(front, at))
    ensures front != [] && front[|front| - 1] == '\r' && c == '\n' ==>
              Track(front + [c], at) == Track(front, at)
  {
    hide Track;
    if front != [] && front[|front| - 1] == '\r' && c == '\n' {
      var before := front[..|front| - 1];
      assert front == before + ['\r'] && front + [c] == before + ['\r', '\n'];
      TrackInPieces(before, ['\r', '\n'], at);
      TrackInPieces(before, ['\r'], at);
      TrackLineEnd(Track(before, at));
    } else {
      TrackInPieces(front, [c], at);
    }
  }

  lemma TrackLineEnd(at: Place)
    ensures Track(['\r', '\n'], at) == Track(['\r'], at) == Place(at.line + 1, 1)
  {
    assert ['\r', '\n'][2..] == [] && ['\r'][1..] == [];
  }

  // The line is that of the start and one more for every line end.
  lemma {:induction false} LinesAreCounted(text: string, at: Place)
    ensures Track(text, at).line == at.line + LineEnds(text)
    decreases |text|
  {
    if text == [] {
    } else {
      hide Track;
      var front, c := text[..|text| - 1], text[|text| - 1];
      LinesAreCounted(front, at);
      TrackLast(front, c, at);
      TrackOne(c, Track(front, at));
      assert text == front + [c];
    }
  }

  // The column is 1 behind a line end, goes on by one with every other character, and behind a tab
  // is the next one that leaves the remainder 1 when divided by 8.
  lemma ColumnsAreCounted(front: string, c: char, at: Place)
    requires at.col >= 1
    ensures var before, col := Track(front, at).col, Track(front + [c], at).col;
            && (c == '\n' || c == '\r' ==> col == 1)
            && (c != '\n' && c != '\r' && c != '\t' ==> col == before + 1)
            && (c == '\t' ==> before < col <= before + 8 && col % 8 == 1)
  {
    hide Track;
    TrackLast(front, c, at);
    TrackOne(c, Track(front, at));
    ColumnsArePositive(front, at);
    if front != [] && front[|front| - 1] == '\r' && c == '\n' {
      TrackLast(front[..|front| - 1], '\r', at);
      TrackOne('\r', Track(front[..|front| - 1], at));
      assert front == front[..|front| - 1] + ['\r'];
    }
  }

  lemma {:induction false} ColumnsArePositive(text: string, at: Place)
    requires at.col >= 1
    ensures Track(text, at).col >= 1
    decreases |text|
  {
    if text == [] {
    } else {
      hide Track;
      var front, c := text[..|text| - 1], text[|text| - 1];
      ColumnsArePositive(front, at);
      TrackLast(front, c, at);
      TrackOne(c, Track(front, at));
      assert text == front + [c];
    }
  }

  // Cutting a line end in two counts a line too many.
  lemma CutLineEndCountsTwice(at: Place)
    ensures Track("\n", Track("\r", at)).line == Track("\r\n", at).line + 1
  {
    assert "\r"[1..] == "" && "\n"[1..] == "" && "\r\n"[2..] == "";
  }

  // No token ends inside a line end.
  lemma TokensCutClean(buf: string, pos: nat)
    requires pos < |buf|
    ensures var e := Scan(buf, pos).1;
            CleanCut(buf[..e], buf[e..])
  {
    var e := Scan(buf, pos).1;
    assert buf[..e][e - 1] == buf[e - 1];
    assert e < |buf| ==> buf[e..][0] == buf[e];
  }

  // ---------- tokens ----------

  datatype Token = Token(kind: Kind, text: string, line: int, col: int)

  function Replace(s: string, what: string, substitute: string): string
    requires what != []
    decreases |s|
  {
    if |s| < |what| then s
    else if s[..|what|] == what then substitute + Replace(s[|what|..], what, substitute)
    else [s[0]] + Replace(s[1..], what, substitute)
  }

  // DotLexer.filter
  function Filter(kind: Kind, text: string): (Kind, string)
    requires kind == STR_ID || kind == HTML_ID ==> |text| >= 2
  {
    if kind == STR_ID then
      var inner := text[1..|text| - 1];
      (ID, Replace(Replace(Replace(Replace(inner, "\\\r\n", ""), "\\\r", ""), "\\\n", ""), "\\\"", "\""))
    else if kind == HTML_ID then (ID, text[1..|text| - 1])
    else (kind, text)
  }

  lemma QuotedIsLong(buf: string, pos: nat)
    requires pos <= |buf|
    ensures Scan(buf, pos).0 == STR_ID || Scan(buf, pos).0 == HTML_ID ==> Scan(buf, pos).1 >= pos + 2
  {
  }

  // Behind everything that is skipped from pos on
  function Skipped(buf: string, pos: nat): (p: nat)
    requires pos <= |buf|
    ensures pos <= p <= |buf| && Scan(buf, p).0 != SKIP
    decreases |buf| - pos
  {
    if Scan(buf, pos).0 == SKIP then Skipped(buf, Scan(buf, pos).1) else pos
  }

  // The token that Lexer.next delivers from pos on, None for an unexpected character, with its
  // place counted over the whole text in front of it
  function TokenFrom(buf: string, pos: nat): Option<Token>
    requires pos <= |buf|
  {
    var p := Skipped(buf, pos);
    var (kind, e) := Scan(buf, p);
    QuotedIsLong(buf, p);
    if kind == UNKNOWN then None
    else
      var (k, text) := Filter(kind, buf[p..e]);
      var at := Track(buf[..p], START);
      Some(Token(k, text, at.line, at.col))
  }

  function EndFrom(buf: string, pos: nat): (e: nat)
    requires pos <= |buf|
    ensures pos <= e <= |buf|
  {
    Scan(buf, Skipped(buf, pos)).1
  }

  // ---------- all tokens of a text ----------

  // The tokens that a lexer at pos still delivers in front of the end of file or of a bad character
  function TokensFrom(buf: string, pos: nat): seq<Token>
    requires pos <= |buf|
    decreases |buf| - pos
  {
    NextAdvances(buf, pos);
    match TokenFrom(buf, pos)
    case None => []
    case Some(t) => if t.kind == EOF then [] else [t] + TokensFrom(buf, EndFrom(buf, pos))
  }

  predicate EndsBadly(buf: string, pos: nat)
    requires pos <= |buf|
    decreases |buf| - pos
  {
    NextAdvances(buf, pos);
    match TokenFrom(buf, pos)
    case None => true
    case Some(t) => t.kind != EOF && EndsBadly(buf, EndFrom(buf, pos))
  }

  lemma NextAdvances(buf: string, pos: nat)
    requires pos <= |buf|
    ensures TokenFrom(buf, pos).Some? && TokenFrom(buf, pos).value.kind != EOF ==> EndFrom(buf, pos) > pos
    ensures TokenFrom(buf, pos).Some? && TokenFrom(buf, pos).value.kind == EOF ==>
              EndFrom(buf, pos) == |buf| && TokenFrom(buf, |buf|) == TokenFrom(buf, pos)
  {
    hide Track;
    QuotedIsLong(buf, Skipped(buf, pos));
  }

  lemma AtEnd(buf: string)
    ensures TokensFrom(buf, |buf|) == [] && !EndsBadly(buf, |buf|)
    ensures TokenFrom(buf, |buf|).Some? && TokenFrom(buf, |buf|).value.kind == EOF
  {
  }

  // What is left decides whether the lexer raises next.
  lemma Remaining(buf: string, pos: nat)
    requires pos <= |buf|
    ensures TokenFrom(buf, pos) == None <==> TokensFrom(buf, pos) == [] && EndsBadly(buf, pos)
    ensures TokensFrom(buf, pos) != [] ==> TokenFrom(buf, pos).Some? && TokenFrom(buf, pos).value.kind != EOF
    ensures pos == |buf| ==> TokensFrom(buf, pos) == [] && !EndsBadly(buf, pos)
  {
    hide EndFrom;
    NextAdvances(buf, pos);
    AtEnd(buf);
  }

  // ---------- tiling ----------

  // One call of next: where it starts, the text it skips, the kind and text it scans, and the
  // token it delivers
  datatype Lexeme = Lexeme(at: nat, gap: string, kind: Kind, raw: string, token: Token)

  function LexemesFrom(buf: string, pos: nat): seq<Lexeme>
    requires pos <= |buf|
    decreases |buf| - pos
  {
    NextAdvances(buf, pos);
    match TokenFrom(buf, pos)
    case None => []
    case Some(t) =>
      if t.kind == EOF then []
      else
        var p, e := Skipped(buf, pos), EndFrom(buf, pos);
        [Lexeme(pos, buf[pos..p], Scan(buf, p).0, buf[p..e], t)] + LexemesFrom(buf, e)
  }

  // Behind the last token
  function StopFrom(buf: string, pos: nat): (p: nat)
    requires pos <= |buf|
    ensures pos <= p <= |buf|
    decreases |buf| - pos
  {
    NextAdvances(buf, pos);
    match TokenFrom(buf, pos)
    case None => pos
    case Some(t) => if t.kind == EOF then pos else StopFrom(buf, EndFrom(buf, pos))
  }

  function Joined(ls: seq<Lexeme>): string
  {
    if ls == [] then [] else ls[0].gap + ls[0].raw + Joined(ls[1..])
  }

  // From p to q there is nothing but white space and comments.
  ghost predicate OnlySkips(buf: string, p: nat, q: nat)
    requires p <= |buf|
    decreases |buf| - p
  {
    p == q || (Scan(buf, p).0 == SKIP && Scan(buf, p).1 <= q && OnlySkips(buf, Scan(buf, p).1, q))
  }

  lemma {:induction false} SkippedIsSkips(buf: string, pos: nat)
    requires pos <= |buf|
    ensures OnlySkips(buf, pos, Skipped(buf, pos))
    decreases |buf| - pos
  {
    hide Scan;
    if Scan(buf, pos).0 != SKIP {
    } else {
      SkippedIsSkips(buf, Scan(buf, pos).1);
    }
  }

  // The token is the filtered text, behind nothing but skipped text.
  ghost predicate Lexed(buf: string, l: Lexeme)
  {
    && l.at <= |buf| && OnlySkips(buf, l.at, l.at + |l.gap|)
    && (l.kind == STR_ID || l.kind == HTML_ID ==> |l.raw| >= 2)
    && (l.token.kind, l.token.text) == Filter(l.kind, l.raw)
  }

  lemma LexemeIsLexed(buf: string, pos: nat)
    requires pos <= |buf| && TokenFrom(buf, pos).Some?
    ensures var p, e := Skipped(buf, pos), EndFrom(buf, pos);
            Lexed(buf, Lexeme(pos, buf[pos..p], Scan(buf, p).0, buf[p..e], TokenFrom(buf, pos).value))
  {
    hide Track, Scan, OnlySkips;
    SkippedIsSkips(buf, pos);
    QuotedIsLong(buf, Skipped(buf, pos));
  }

  lemma LexemesStep(buf: string, pos: nat)
    requires pos <= |buf|
    ensures EndFrom(buf, pos) <= |buf| && Skipped(buf, pos) <= EndFrom(buf, pos)
    ensures var t := TokenFrom(buf, pos);
            if t == None || t.value.kind == EOF then
              && LexemesFrom(buf, pos) == [] && TokensFrom(buf, pos) == [] && StopFrom(buf, pos) == pos
              && EndsBadly(buf, pos) == t.None?
            else
              var p, e := Skipped(buf, pos), EndFrom(buf, pos);
              && LexemesFrom(buf, pos)
                 == [Lexeme(pos, buf[pos..p], Scan(buf, p).0, buf[p..e], t.value)] + LexemesFrom(buf, e)
              && TokensFrom(buf, pos) == [t.value] + TokensFrom(buf, e)
              && StopFrom(buf, pos) == StopFrom(buf, e) && EndsBadly(buf, pos) == EndsBadly(buf, e)
  {
    hide Scan, Track, TokenFrom;
  }

  // The texts of the tokens that next delivers and the texts skipped in front of them tile the
  // buffer, each token is the filtered text of its piece, and behind the last one nothing is left
  // but skipped text and the end of the buffer or a rejected character.
  lemma {:induction false} LexemesTile(buf: string, pos: nat)
    requires pos <= |buf|
    ensures var ls, stop := LexemesFrom(buf, pos), StopFrom(buf, pos);
            && Joined(ls) == buf[pos..stop]
            && |ls| == |TokensFrom(buf, pos)|
            && (forall i :: 0 <= i < |ls| ==> Lexed(buf, ls[i]) && ls[i].token == TokensFrom(buf, pos)[i])
            && OnlySkips(buf, stop, Skipped(buf, stop))
            && (if EndsBadly(buf, pos) then Scan(buf, Skipped(buf, stop)).0 == UNKNOWN else Skipped(buf, stop) == |buf|)
    decreases |buf| - pos
  {
    hide Scan, Filter, Track, Lexed, OnlySkips, TokenFrom, Skipped, LexemesFrom, TokensFrom, StopFrom, EndsBadly;
    NextAdvances(buf, pos);
    LexemesStep(buf, pos);
    var t := TokenFrom(buf, pos);
    if t == None || t.value.kind == EOF {
      SkippedIsSkips(buf, pos);
      StopMeans(buf, pos);
    } else {
      var p, e := Skipped(buf, pos), EndFrom(buf, pos);
      LexemeIsLexed(buf, pos);
      LexemesTile(buf, e);
      assert buf[pos..StopFrom(buf, e)] == buf[pos..p] + buf[p..e] + buf[e..StopFrom(buf, e)];
    }
  }

  lemma StopMeans(buf: string, pos: nat)
    requires pos <= |buf|
    ensures TokenFrom(buf, pos) == None <==> Scan(buf, Skipped(buf, pos)).0 == UNKNOWN
    ensures TokenFrom(buf, pos).Some? && TokenFrom(buf, pos).value.kind == EOF ==> Skipped(buf, pos) == |buf|
  {
    hide Track;
  }

  // ---------- the program ----------

  // The next match of \r\n?|\n from pos on
  function LineEnd(text: string, pos: nat): (r: Option<(nat, nat)>)
    requires pos <= |text|
    ensures r.Some? ==> pos <= r.value.0 < r.value.1 <= |text|
  {
    var s := RunEnd(text, pos, InLine);
    if s == |text| then None
    else if text[s] == '\r' && s + 1 < |text| && text[s + 1] == '\n' then Some((s, s + 2))
    else Some((s, s + 1))
  }

  predicate NoTab(c: char) { c != '\t' }

  // Inside a line the column is what matters until the line ends.
  lemma {:induction false} TrackToLineEnd(text: string, pos: nat, at: Place)
    requires pos <= |text|
    ensures var e := LineEnd(text, pos);
            e.Some? ==> Track(text[pos..], at) == Track(text[e.value.1..], Place(at.line + 1, 1))
    decreases |text| - pos
  {
    if pos < |text| && InLine(text[pos]) {
      assert text[pos..][1..] == text[pos + 1..];
      var next := if text[pos] == '\t' then Place(at.line, NextTab(at.col)) else Place(at.line, at.col + 1);
      TrackToLineEnd(text, pos + 1, next);
    } else if pos < |text| {
      assert text[pos..][0] == text[pos] && (pos + 1 < |text| ==> text[pos..][1] == text[pos + 1]);
      assert text[pos..][1..] == text[pos + 1..];
      assert pos + 2 <= |text| ==> text[pos..][2..] == text[pos + 2..];
    }
  }

  lemma {:induction false} TrackToTab(text: string, pos: nat, at: Place)
    requires pos <= |text| && forall k :: pos <= k < |text| ==> InLine(text[k])
    ensures var t := RunEnd(text, pos, NoTab);
            Track(text[pos..], at) == Track(text[t..], Place(at.line, at.col + (t - pos)))
    decreases |text| - pos
  {
    if pos < |text| && NoTab(text[pos]) {
      assert text[pos..][1..] == text[pos + 1..];
      TrackToTab(text, pos + 1, Place(at.line, at.col + 1));
    }
  }

  class Lexer {
    const buf: string
    var pos: nat
    var line: int
    var col: int

    // Line and column are those of the whole text in front of pos, consumed at once.
    ghost predicate Valid()
      reads this
    {
      pos <= |buf| && Place(line, col) == Track(buf[..pos], START) && CleanCut(buf[..pos], buf[pos..])
    }

    constructor (buf: string)
      ensures Valid() && this.buf == buf && pos == 0
    {
      this.buf, pos, line, col := buf, 0, 1, 1;
    }

    // consume: count the line ends, then the tab stops behind the last one
    method Consume(text: string)
      modifies this`line, this`col
      ensures Place(line, col) == Track(text, old(Place(line, col)))
    {
      hide Track;
      ghost var target := Track(text, Place(line, col));
      var p := 0;
      var mo := LineEnd(text, 0);
      assert text[0..] == text;
      while mo.Some?
        invariant p <= |text| && mo == LineEnd(text, p)
        invariant Track(text[p..], Place(line, col)) == target
        decreases |text| - p
      {
        TrackToLineEnd(text, p, Place(line, col));
        line := line + 1;
        col := 1;
        p := mo.value.1;
        mo := LineEnd(text, p);
      }
      assert forall k :: p <= k < |text| ==> InLine(text[k]);
      while true
        invariant p <= |text| && (forall k :: p <= k < |text| ==> InLine(text[k]))
        invariant Track(text[p..], Place(line, col)) == target
        decreases |text| - p
      {
        var tabpos := RunEnd(text, p, NoTab);
        TrackToTab(text, p, Place(line, col));
        if tabpos == |text| {
          break;
        }
        TabStops(text, tabpos, Place(line, col + (tabpos - p)));
        col := col + (tabpos - p);
        col := ((col - 1) / TABSIZE + 1) * TABSIZE + 1;
        p := tabpos + 1;
      }
      NothingTracked(Place(line, col + (|text| - p)), text);
      col := col + (|text| - p);
    }

    // next: the following token, or None for an unexpected character
    method Next() returns (token: Option<Token>)
      requires Valid()
      modifies this`pos, this`line, this`col
      ensures Valid() && pos == EndFrom(buf, old(pos)) && token == TokenFrom(buf, old(pos))
    {
      hide Track, Scan, Filter;
      while true
        invariant Valid() && Skipped(buf, pos) == Skipped(buf, old(pos))
        decreases |buf| - pos
      {
        var start, startLine, startCol := pos, line, col;
        var (kind, endpos) := Scan(buf, start);
        Consume(buf[start..endpos]);
        StepTracks(buf, start);
        pos := endpos;
        if kind == SKIP {
          continue;
        }
        if kind == UNKNOWN {
          return None;
        }
        QuotedIsLong(buf, start);
        var (k, text) := Filter(kind, buf[start..endpos]);
        return Some(Token(k, text, startLine, startCol));
      }
    }
  }

  lemma TabStops(text: string, t: nat, at: Place)
    requires t < |text| && text[t] == '\t'
    ensures Track(text[t..], at) == Track(text[t + 1..], Place(at.line, NextTab(at.col)))
  {
    hide NextTab;
    assert text[t..][0] == '\t' && text[t..][1..] == text[t + 1..];
  }

  lemma NothingTracked(at: Place, text: string)
    ensures Track(text[|text|..], at) == at
  {
  }

  // Consuming one more piece keeps counting the whole text.
  lemma StepTracks(buf: string, pos: nat)
    requires pos <= |buf| && CleanCut(buf[..pos], buf[pos..])
    ensures var e := Scan(buf, pos).1;
            && Track(buf[pos..e], Track(buf[..pos], START)) == Track(buf[..e], START)
            && CleanCut(buf[..e], buf[e..])
  {
    hide Track, Scan;
    var e := Scan(buf, pos).1;
    assert buf[..pos] + buf[pos..e] == buf[..e];
    if pos < |buf| {
      TokensCutClean(buf, pos);
      assert buf[pos..e][0] == buf[pos] == buf[pos..][0];
    } else {
      assert buf[pos..e] == [];
    }
    TrackInPieces(buf[..pos], buf[pos..e], START);
  }
}
