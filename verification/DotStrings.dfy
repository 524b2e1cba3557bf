// Strings in quotes as they may be written, and what the lexer makes of them.
module DotStrings {
  import opened Options
  import opened DotLexers

  // ---------- text at a position ----------

  // text stands in buf at p.
  ghost predicate Stands(buf: string, p: nat, text: string)
  {
    p + |text| <= |buf| && buf[p..p + |text|] == text
  }

  lemma StandsSplits(buf: string, p: nat, a: string, b: string)
    requires Stands(buf, p, a + b)
    ensures Stands(buf, p, a) && Stands(buf, p + |a|, b)
  {
    assert buf[p..p + |a|] == buf[p..p + |a + b|][..|a|];
    assert buf[p + |a|..p + |a + b|] == buf[p..p + |a + b|][|a|..];
  }

  lemma StandsAt(buf: string, p: nat, text: string, k: nat)
    requires Stands(buf, p, text) && k < |text|
    ensures buf[p + k] == text[k]
  {
    assert buf[p..p + |text|][k] == text[k];
  }

  lemma Room(buf: string, p: nat, text: string)
    requires Stands(buf, p, text) && text != []
    ensures p < |buf|
  {
  }

  // ---------- strings ----------

  // A character, a quote behind a backslash, a line end that a backslash folds away, or a backslash
  // that stays in front of another character
  datatype Part = Char(c: char) | Quote | Fold(end: string) | Kept(c: char)

  predicate GoodPart(x: Part)
  {
    match x
    case Char(c) => c != '"' && c != '\\'
    case Quote => true
    case Fold(end) => end == "\r\n" || end == "\r" || end == "\n"
    case Kept(c) => c != '"' && c != '\\' && c != '\r' && c != '\n'
  }

  // A folded \r is not in front of \n, which would belong to it.
  predicate GoodParts(xs: seq<Part>)
  {
    xs == []
    || (GoodPart(xs[0]) && GoodParts(xs[1..]) && (|xs| > 1 && xs[0] == Fold("\r") ==> xs[1] != Char('\n')))
  }

  function PartText(x: Part): string
  {
    match x
    case Char(c) => [c]
    case Quote => ['\\', '"']
    case Fold(end) => ['\\'] + end
    case Kept(c) => ['\\', c]
  }

  function PartsText(xs: seq<Part>): string
  {
    if xs == [] then [] else PartText(xs[0]) + PartsText(xs[1..])
  }

  function Quoted(xs: seq<Part>): string
  {
    ['"'] + PartsText(xs) + ['"']
  }

  // What the string says
  function Meant(xs: seq<Part>): string
  {
    if xs == [] then []
    else
      (match xs[0]
       case Char(c) => [c]
       case Quote => ['"']
       case Fold(_) => []
       case Kept(c) => ['\\', c])
      + Meant(xs[1..])
  }

  // ---------- where it ends ----------

  lemma PartPasses(buf: string, p: nat, x: Part)
    requires GoodPart(x) && Stands(buf, p, PartText(x)) && p + |PartText(x)| < |buf|
    ensures StringEnd(buf, p) == StringEnd(buf, p + |PartText(x)|)
  {
    hide Stands;
    StandsAt(buf, p, PartText(x), 0);
    if x == Fold("\r\n") {
      StandsAt(buf, p, PartText(x), 2);
    }
  }

  lemma QuoteEnds(buf: string, p: nat)
    requires Stands(buf, p, ['"'])
    ensures StringEnd(buf, p) == Some(p + 1)
  {
    StandsAt(buf, p, ['"'], 0);
  }

  lemma PartsCons(xs: seq<Part>)
    requires xs != []
    ensures PartsText(xs) + ['"'] == PartText(xs[0]) + (PartsText(xs[1..]) + ['"'])
    ensures |PartsText(xs)| == |PartText(xs[0])| + |PartsText(xs[1..])|
  {
  }

  lemma {:induction false} PartsEnd(buf: string, p: nat, xs: seq<Part>)
    requires GoodParts(xs) && Stands(buf, p, PartsText(xs) + ['"'])
    ensures StringEnd(buf, p) == Some(p + |PartsText(xs)| + 1)
    decreases |xs|
  {
    hide Stands, StringEnd, PartText, GoodPart;
    if xs == [] {
      assert PartsText(xs) + ['"'] == ['"'];
      QuoteEnds(buf, p);
    } else {
      var first, rest := PartText(xs[0]), PartsText(xs[1..]) + ['"'];
      PartsCons(xs);
      StandsSplits(buf, p, first, rest);
      PartsEnd(buf, p + |first|, xs[1..]);
      Room(buf, p + |first|, rest);
      PartPasses(buf, p, xs[0]);
    }
  }

  lemma QuotedScans(buf: string, p: nat, xs: seq<Part>)
    requires GoodParts(xs) && Stands(buf, p, Quoted(xs))
    ensures Scan(buf, p) == (STR_ID, p + |Quoted(xs)|)
  {
    hide PartsText, GoodParts, RunEnd, CommentEnd, StringEnd, HtmlEnd;
    assert Quoted(xs) == ['"'] + (PartsText(xs) + ['"']);
    StandsSplits(buf, p, ['"'], PartsText(xs) + ['"']);
    StandsAt(buf, p, ['"'], 0);
    PartsEnd(buf, p + 1, xs);
  }

  // ---------- what it says ----------

  // The four replacements, and what is left of a part after n of them
  function Pattern(n: nat): (what: string)
    requires n < 4
    ensures |what| >= 2 && what[0] == '\\'
  {
    match n
    case 0 => "\\\r\n"
    case 1 => "\\\r"
    case 2 => "\\\n"
    case _ => "\\\""
  }

  function Substitute(n: nat): string
  {
    if n < 3 then "" else "\""
  }

  function Left(x: Part, n: nat): string
  {
    if (x == Fold("\r\n") && n > 0) || (x == Fold("\r") && n > 1) || (x == Fold("\n") && n > 2) then ""
    else if x == Quote && n > 3 then "\""
    else PartText(x)
  }

  function AllLeft(xs: seq<Part>, n: nat): string
  {
    if xs == [] then [] else Left(xs[0], n) + AllLeft(xs[1..], n)
  }

  lemma ReplacePasses(c: char, rest: string, what: string, substitute: string)
    requires what != [] && !(what <= [c] + rest)
    ensures Replace([c] + rest, what, substitute) == [c] + Replace(rest, what, substitute)
  {
    assert ([c] + rest)[1..] == rest;
  }

  lemma ReplaceHits(rest: string, what: string, substitute: string)
    requires what != []
    ensures Replace(what + rest, what, substitute) == substitute + Replace(rest, what, substitute)
  {
    assert (what + rest)[..|what|] == what && (what + rest)[|what|..] == rest;
  }

  // Two characters, of which only the first is a backslash, are passed unless they are how the
  // pattern begins.
  lemma PairPasses(c: char, rest: string, what: string, substitute: string)
    requires |what| >= 2 && what[0] == '\\' && c != '\\'
    requires c == what[1] ==> |what| > 2 && (rest == [] || rest[0] != what[2])
    ensures Replace(['\\', c] + rest, what, substitute) == ['\\', c] + Replace(rest, what, substitute)
  {
    hide Replace;
    var s := ['\\'] + ([c] + rest);
    assert ['\\', c] + rest == s && s[1] == c && (rest != [] ==> s[2] == rest[0]);
    ReplacePasses('\\', [c] + rest, what, substitute);
    assert ([c] + rest)[0] == c;
    ReplacePasses(c, rest, what, substitute);
  }

  lemma OtherPasses(c: char, rest: string, what: string, substitute: string)
    requires |what| >= 2 && what[0] == '\\' && c != '\\'
    ensures Replace([c] + rest, what, substitute) == [c] + Replace(rest, what, substitute)
  {
    assert ([c] + rest)[0] == c;
    ReplacePasses(c, rest, what, substitute);
  }

  // What follows a folded \r does not begin with \n.
  lemma NoLineFeed(xs: seq<Part>)
    requires xs != [] && GoodParts(xs) && xs[0] == Fold("\r")
    ensures AllLeft(xs[1..], 0) == [] || AllLeft(xs[1..], 0)[0] != '\n'
  {
    if |xs| > 1 {
      assert AllLeft(xs[1..], 0)[0] == PartText(xs[1])[0];
    }
  }

  lemma {:induction false} StageSteps(xs: seq<Part>, n: nat)
    requires GoodParts(xs) && n < 4
    ensures Replace(AllLeft(xs, n), Pattern(n), Substitute(n)) == AllLeft(xs, n + 1)
    decreases |xs|
  {
    if xs == [] {
    } else {
      hide Replace;
      var x, rest := xs[0], AllLeft(xs[1..], n);
      StageSteps(xs[1..], n);
      if x == Fold("\r") && n == 0 {
        NoLineFeed(xs);
      }
      PartSteps(x, n, rest);
    }
  }

  lemma PartSteps(x: Part, n: nat, rest: string)
    requires GoodPart(x) && n < 4 && (x == Fold("\r") && n == 0 ==> rest == [] || rest[0] != '\n')
    ensures Replace(Left(x, n) + rest, Pattern(n), Substitute(n))
         == Left(x, n + 1) + Replace(rest, Pattern(n), Substitute(n))
  {
    hide Replace;
    var what, sub := Pattern(n), Substitute(n);
    match x
    case Char(c) => OtherPasses(c, rest, what, sub);
    case Kept(c) => PairPasses(c, rest, what, sub);
    case Quote =>
      if n == 3 {
        ReplaceHits(rest, what, sub);
      } else {
        PairPasses('"', rest, what, sub);
      }
    case Fold(end) =>
      if Left(x, n) == [] {
        assert [] + rest == rest && [] + Replace(rest, what, sub) == Replace(rest, what, sub);
      } else if (end == "\r\n" && n == 0) || (end == "\r" && n == 1) || (end == "\n" && n == 2) {
        assert PartText(x) == what;
        ReplaceHits(rest, what, sub);
      } else {
        assert PartText(x) == ['\\', end[0]];
        PairPasses(end[0], rest, what, sub);
      }
  }

  lemma {:induction false} NothingReplaced(xs: seq<Part>)
    ensures AllLeft(xs, 0) == PartsText(xs)
    decreases |xs|
  {
    if xs == [] {
    } else {
      NothingReplaced(xs[1..]);
    }
  }

  lemma {:induction false} AllReplaced(xs: seq<Part>)
    requires GoodParts(xs)
    ensures AllLeft(xs, 4) == Meant(xs)
    decreases |xs|
  {
    if xs == [] {
    } else {
      AllReplaced(xs[1..]);
    }
  }

  // A string says what its parts mean.
  lemma QuotedFilters(xs: seq<Part>)
    requires GoodParts(xs)
    ensures Filter(STR_ID, Quoted(xs)) == (ID, Meant(xs))
  {
    hide Replace, PartsText, GoodParts, Meant, AllLeft;
    var raw := Quoted(xs);
    assert raw[1..|raw| - 1] == PartsText(xs);
    NothingReplaced(xs);
    StageSteps(xs, 0);
    StageSteps(xs, 1);
    StageSteps(xs, 2);
    StageSteps(xs, 3);
    AllReplaced(xs);
  }
}
