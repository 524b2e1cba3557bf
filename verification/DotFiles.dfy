// Two small files: one with a chain of edges, one with the same edges in two statements.
module DotFiles {
  import opened DotLexers
  import opened DotParsers
  import opened DotPlaces
  import opened DotGraphs
  import opened DotTexts

  function Node(id: string): Ref
  {
    Ref(id, [])
  }

  // a -> b -> c in a graph
  const CHAIN := EdgeStmt(Node("a"), Node("b"), [Node("c")], [], false)

  lemma SingleStatement(s: Stmt)
    requires WellFormed(s)
    ensures First([]) == RCURLY && WellFormedAll([]) && (Fits(s, RCURLY) ==> WellFormedAll([s]))
    ensures AnyChained([s]) == Chained(s) && AllTokens([s]) == Tokens(s)
  {
    hide WellFormed, Chained, Tokens, Fits;
    assert [s][1..] == [];
    assert !AnyChained([]) && AllTokens([]) == [] && Tokens(s) + [] == Tokens(s);
  }

  lemma TwoStatements(s: Stmt, t: Stmt)
    requires WellFormed(s) && WellFormed(t)
    ensures Fits(s, Look(Tokens(t))) && Fits(t, RCURLY) ==> WellFormedAll([s, t])
    ensures AnyChained([s, t]) == (Chained(s) || Chained(t)) && AllTokens([s, t]) == Tokens(s) + Tokens(t)
  {
    hide WellFormed, Chained, Tokens, Fits;
    SingleStatement(t);
    assert [s, t][1..] == [t];
  }

  // The tokens of a -> b, and of what is written behind it
  lemma EdgeTokens(s: Stmt)
    requires s.EdgeStmt? && s.src.port == s.dst.port == [] && s.lists == [] && |s.more| <= 1
    requires s.more != [] ==> s.more[0].port == []
    ensures WellFormed(s) && (Chained(s) <==> s.more != [])
    ensures var more := if s.more == [] then [] else [T(EDGE_OP), Name(s.more[0].id)];
            Tokens(s) == [Name(s.src.id), T(EDGE_OP), Name(s.dst.id)] + more + Semi(s.semi)
  {
    assert RefTokens(s.src) == [Name(s.src.id)] && RefTokens(s.dst) == [Name(s.dst.id)];
    assert ListsTokens(s.lists) == [];
    if s.more != [] {
      assert s.more[1..] == [] && RefTokens(s.more[0]) == [Name(s.more[0].id)];
      assert ArrowTokens(s.more) == [T(EDGE_OP), Name(s.more[0].id)];
    }
  }

  lemma ChainTokens()
    ensures WellFormedAll([CHAIN]) && AnyChained([CHAIN])
    ensures GraphTokens([T(DIGRAPH)], [CHAIN])
         == [T(DIGRAPH), T(LCURLY), Name("a"), T(EDGE_OP), Name("b"), T(EDGE_OP), Name("c"), T(RCURLY)]
  {
    hide WellFormed, Chained, Tokens, AllTokens, WellFormedAll, AnyChained;
    EdgeTokens(CHAIN);
    SingleStatement(CHAIN);
  }

  // The same edges in two statements
  const EDGE_1 := EdgeStmt(Node("a"), Node("b"), [], [], true)
  const EDGE_2 := EdgeStmt(Node("b"), Node("c"), [], [], false)

  lemma EdgesTokens()
    ensures WellFormedAll([EDGE_1, EDGE_2]) && !AnyChained([EDGE_1, EDGE_2])
    ensures GraphTokens([T(DIGRAPH)], [EDGE_1, EDGE_2])
         == [T(DIGRAPH), T(LCURLY), Name("a"), T(EDGE_OP), Name("b"), T(SEMI),
             Name("b"), T(EDGE_OP), Name("c"), T(RCURLY)]
  {
    hide WellFormed, Chained, Tokens, AllTokens, WellFormedAll, AnyChained;
    EdgeTokens(EDGE_1);
    EdgeTokens(EDGE_2);
    TwoStatements(EDGE_1, EDGE_2);
  }

  lemma EdgeIsHandled(s: Stmt)
    requires s.EdgeStmt? && s.lists == []
    ensures HandledBy(s) == [HandleEdge(s.src.id, s.dst.id, map[])]
  {
    assert Flat([]) == [] && Dict([], map[]) == map[];
  }

  lemma EdgesMeaning()
    ensures GraphOf([EDGE_1, EDGE_2]).events == [HandleEdge("a", "b", map[]), HandleEdge("b", "c", map[])]
  {
    hide HandledBy, Written, Dict;
    EdgeIsHandled(EDGE_1);
    EdgeIsHandled(EDGE_2);
    assert [EDGE_1, EDGE_2][1..] == [EDGE_2] && [EDGE_2][1..] == [];
    assert Handled([EDGE_1, EDGE_2]) == HandledBy(EDGE_1) + Handled([EDGE_2]);
    assert Handled([EDGE_2]) == HandledBy(EDGE_2) + Handled([]);
  }

  lemma EmptyGap(rest: string)
    ensures GapText([]) == [] && GoodGap([], rest)
  {
  }

  lemma PiecesCons(x: Piece, ps: seq<Piece>)
    ensures Text([x] + ps, []) == GapText(x.gap) + x.raw + Text(ps, [])
    ensures TokensOf([x] + ps) == [x.token] + TokensOf(ps)
    ensures var rest := Text(ps, []);
            Writes([x] + ps, [])
            <==> GoodGap(x.gap, x.raw + rest) && Spelled(x.raw, x.token) && Apart(x.raw, rest) && Writes(ps, [])
  {
    hide GoodGap, GapText, Spelled, Apart;
    assert ([x] + ps)[1..] == ps;
  }

  lemma Prepends(raw: string, t: Token, ps: seq<Piece>, text: string, whole: string) returns (qs: seq<Piece>)
    requires Writes(ps, []) && Text(ps, []) == text && Spelled(raw, t) && Apart(raw, text) && raw + text == whole
    ensures Writes(qs, []) && Text(qs, []) == whole && TokensOf(qs) == [t] + TokensOf(ps)
  {
    hide Spelled, Apart, Writes, Text, TokensOf, GoodGap, GapText;
    var x := Piece([], raw, t);
    qs := [x] + ps;
    PiecesCons(x, ps);
    EmptyGap(raw + text);
  }

  lemma IdPrepends(id: string, ps: seq<Piece>, text: string, whole: string) returns (qs: seq<Piece>)
    requires id == "a" || id == "b" || id == "c"
    requires Writes(ps, []) && Text(ps, []) == text && text != [] && !IsIdChar(text[0]) && id + text == whole
    ensures Writes(qs, []) && Text(qs, []) == whole && TokensOf(qs) == [Name(id)] + TokensOf(ps)
  {
    hide Writes, Text, TokensOf;
    assert id[0] in id && !IsNumeral(id);
    assert IsWord(id) && Literal(id) == ID;
    qs := Prepends(id, Name(id), ps, text, whole);
  }

  lemma MarkPrepends(raw: string, kind: Kind, ps: seq<Piece>, text: string, whole: string) returns (qs: seq<Piece>)
    requires (raw == "->" && kind == EDGE_OP) || (raw == Fixed(kind) && IsSymbol(kind))
    requires Writes(ps, []) && Text(ps, []) == text && raw + text == whole
    ensures Writes(qs, []) && Text(qs, []) == whole && TokensOf(qs) == [T(kind)] + TokensOf(ps)
  {
    hide Writes, Text, TokensOf, IsNumeral;
    if IsNumeral(raw) {
      NumeralStarts(raw);
    }
    assert raw[0] in raw && !IsWord(raw);
    qs := Prepends(raw, T(kind), ps, text, whole);
  }

  lemma DigraphPrepends(ps: seq<Piece>, text: string, whole: string) returns (qs: seq<Piece>)
    requires Writes(ps, []) && Text(ps, []) == text && text != [] && text[0] == '{' && "digraph" + text == whole
    ensures Writes(qs, []) && Text(qs, []) == whole && TokensOf(qs) == [T(DIGRAPH)] + TokensOf(ps)
  {
    hide Writes, Text, TokensOf, IsNumeral, IsWord, Literal;
    var raw := "digraph";
    if IsNumeral(raw) {
      NumeralStarts(raw);
    }
    qs := Prepends(raw, T(DIGRAPH), ps, text, whole);
  }

  lemma NoPieces()
    ensures Writes([], []) && Text([], []) == "" && TokensOf([]) == []
  {
  }

  // b->c}
  lemma Tail() returns (ps: seq<Piece>)
    ensures Writes(ps, []) && Text(ps, []) == "b->c}"
    ensures TokensOf(ps) == [Name("b"), T(EDGE_OP), Name("c"), T(RCURLY)]
  {
    hide Writes, Text, TokensOf;
    NoPieces();
    ps := MarkPrepends("}", RCURLY, [], "", "}");
    ps := IdPrepends("c", ps, "}", "c}");
    ps := MarkPrepends("->", EDGE_OP, ps, "c}", "->c}");
    ps := IdPrepends("b", ps, "->c}", "b->c}");
  }

  // b;b->c}
  lemma LongTail() returns (ps: seq<Piece>)
    ensures Writes(ps, []) && Text(ps, []) == "b;b->c}"
    ensures TokensOf(ps) == [Name("b"), T(SEMI), Name("b"), T(EDGE_OP), Name("c"), T(RCURLY)]
  {
    hide Writes, Text, TokensOf;
    ps := Tail();
    ps := MarkPrepends(";", SEMI, ps, "b->c}", ";b->c}");
    ps := IdPrepends("b", ps, ";b->c}", "b;b->c}");
  }

  // digraph{a-> in front of that
  lemma HeadOf(ps: seq<Piece>, text: string) returns (qs: seq<Piece>)
    requires Writes(ps, []) && Text(ps, []) == text
    ensures Writes(qs, []) && Text(qs, []) == "digraph{a->" + text
    ensures TokensOf(qs) == [T(DIGRAPH), T(LCURLY), Name("a"), T(EDGE_OP)] + TokensOf(ps)
  {
    hide Writes, Text, TokensOf;
    qs := MarkPrepends("->", EDGE_OP, ps, text, "->" + text);
    qs := IdPrepends("a", qs, "->" + text, "a->" + text);
    qs := MarkPrepends("{", LCURLY, qs, "a->" + text, "{a->" + text);
    qs := DigraphPrepends(qs, "{a->" + text, "digraph{a->" + text);
  }

  lemma OnlyDigraph()
    ensures Braceless([T(DIGRAPH)])
  {
  }

  // The file with a chain is not accepted.
  lemma ChainFileRaises(buf: string)
    requires buf == "digraph{a->b->c}"
    ensures Ahead(TokensFrom(buf, 0), LCURLY) && ParseOf(buf) == Raised
  {
    hide Writes, Text, TokensOf, ParseOf, Parse, TokensFrom, EndsBadly, Ahead, GraphTokens, AnyChained, WellFormedAll,
        GraphOf, Braceless;
    var ps := Tail();
    ps := HeadOf(ps, "b->c}");
    ChainTokens();
    OnlyDigraph();
    assert buf == "digraph{a->" + "b->c}";
    TextParses(ps, [], [T(DIGRAPH)], [CHAIN]);
  }

  // With the edges in two statements it is, and both are handled.
  lemma EdgesFileParses(buf: string)
    requires buf == "digraph{a->b;b->c}"
    ensures Ahead(TokensFrom(buf, 0), LCURLY)
    ensures var r := ParseOf(buf);
            r.Good? && r.value.events == [HandleEdge("a", "b", map[]), HandleEdge("b", "c", map[])]
  {
    hide Writes, Text, TokensOf, ParseOf, Parse, TokensFrom, EndsBadly, Ahead, GraphTokens, AnyChained, WellFormedAll,
        GraphOf, Braceless;
    var ps := LongTail();
    ps := HeadOf(ps, "b;b->c}");
    EdgesTokens();
    EdgesMeaning();
    OnlyDigraph();
    assert buf == "digraph{a->" + "b;b->c}";
    TextParses(ps, [], [T(DIGRAPH)], [EDGE_1, EDGE_2]);
  }
}
