// The parser accepts nothing but graphs without chains.
module DotAccepted {
  import opened Options
  import opened DotLexers
  import opened DotParsers
  import opened DotPlaces
  import opened DotGraphs

  ghost predicate AllPlain(ts: seq<Token>)
  {
    forall k :: 0 <= k < |ts| ==> ts[k] == Plain(ts[k])
  }

  lemma ConsumeReads(ts: seq<Token>, bad: bool)
    requires AllPlain(ts) && ts != [] && ts[0].kind != ID && Consume(ts, bad).Good?
    ensures ts == [T(ts[0].kind)] + Consume(ts, bad).value && AllPlain(Consume(ts, bad).value)
  {
    assert ts[0] == Plain(ts[0]);
  }

  lemma IdReads(ts: seq<Token>, bad: bool)
    requires AllPlain(ts) && ParseId(ts, bad).Good?
    ensures var (id, rest) := ParseId(ts, bad).value;
            ts == [Name(id)] + rest && AllPlain(rest)
  {
    assert ts[0] == Plain(ts[0]);
  }

  lemma PortReads(ts: seq<Token>, bad: bool) returns (port: string)
    requires AllPlain(ts) && Look(ts) == COLON && Consume(ts, bad).Good? && ParseId(Consume(ts, bad).value, bad).Good?
    ensures var rest := ParseId(Consume(ts, bad).value, bad).value.1;
            ts == [T(COLON)] + ([Name(port)] + rest) && AllPlain(rest)
  {
    hide Consume, ParseId, AllPlain, Plain;
    ConsumeReads(ts, bad);
    IdReads(Consume(ts, bad).value, bad);
    port := ParseId(Consume(ts, bad).value, bad).value.0;
  }

  lemma RefReads(ts: seq<Token>, bad: bool) returns (r: Ref)
    requires AllPlain(ts) && ParseNodeId(ts, bad).Good?
    ensures var (id, rest) := ParseNodeId(ts, bad).value;
            GoodRef(r) && r.id == id && ts == RefTokens(r) + rest && AllPlain(rest)
  {
    hide Consume, ParseId, AllPlain, Plain;
    IdReads(ts, bad);
    var (id, t1) := ParseId(ts, bad).value;
    r := Ref(id, []);
    if Look(t1) == COLON {
      var port := PortReads(t1, bad);
      var t3 := ParseId(Consume(t1, bad).value, bad).value.1;
      r := Ref(id, [port]);
      if Look(t3) == COLON {
        var compass := PortReads(t3, bad);
        r := Ref(id, [port, compass]);
        assert PortTokens([port, compass][1..]) == [T(COLON), Name(compass)];
      }
    }
  }

  lemma AttrReads(ts: seq<Token>, bad: bool) returns (a: Attr)
    requires AllPlain(ts) && ParseAttr(ts, bad).Good?
    ensures var ((name, value), rest) := ParseAttr(ts, bad).value;
            && ts == AttrTokens(a) + rest && AllPlain(rest) && !a.comma
            && name == a.name && value == if a.value.Some? then a.value.value else "true"
  {
    hide Consume, ParseId, AllPlain, Plain;
    IdReads(ts, bad);
    var (name, t1) := ParseId(ts, bad).value;
    a := Attr(name, None, false);
    if Look(t1) == EQUAL {
      ConsumeReads(t1, bad);
      var t2 := Consume(t1, bad).value;
      IdReads(t2, bad);
      a := Attr(name, Some(ParseId(t2, bad).value.0), false);
    }
  }

  lemma SameAttr(a: Attr, b: Attr)
    requires b == a.(comma := b.comma)
    ensures AttrTokens(a) == AttrTokens(b)
  {
  }

  // One attribute of a list, with its comma
  lemma AttrCommaReads(ts: seq<Token>, bad: bool, m: Attrs) returns (a: Attr, rest: seq<Token>)
    requires AllPlain(ts) && Look(ts) != RSQUARE && ParseAttrList(ts, bad, m).Good?
    ensures ts == AttrTokens(a) + Comma(a.comma) + rest && AllPlain(rest) && |rest| < |ts|
    ensures ParseAttrList(ts, bad, m) == ParseAttrList(rest, bad, Dict([a], m))
  {
    hide Consume, ParseAttr, AllPlain, Plain, AttrTokens;
    a := AttrReads(ts, bad);
    var t1 := ParseAttr(ts, bad).value.1;
    rest := t1;
    if Look(t1) == COMMA {
      ConsumeReads(t1, bad);
      rest := Consume(t1, bad).value;
      SameAttr(a, a.(comma := true));
      a := a.(comma := true);
    }
    assert Dict([a][1..], m) == m;
  }

  lemma {:induction false} AttrListReads(ts: seq<Token>, bad: bool, m: Attrs) returns (attrs: seq<Attr>)
    requires AllPlain(ts) && ParseAttrList(ts, bad, m).Good?
    ensures var (d, rest) := ParseAttrList(ts, bad, m).value;
            ts == AttrsTokens(attrs) + rest && AllPlain(rest) && d == Dict(attrs, m) && Look(rest) == RSQUARE
    decreases |ts|
  {
    hide ParseAttrList, AllPlain, Plain, AttrTokens, AttrsTokens, Dict, Comma;
    if Look(ts) == RSQUARE {
      attrs := [];
      AttrListEnds(ts, bad, m);
    } else {
      var a, t2 := AttrCommaReads(ts, bad, m);
      var more := AttrListReads(t2, bad, Dict([a], m));
      attrs := [a] + more;
      AttrsCons(a, more, m);
    }
  }

  lemma OneListReads(ts: seq<Token>, bad: bool, m: Attrs) returns (attrs: seq<Attr>, rest: seq<Token>)
    requires AllPlain(ts) && Look(ts) == LSQUARE && ParseAttrs(ts, bad, m).Good?
    ensures ts == [T(LSQUARE)] + AttrsTokens(attrs) + [T(RSQUARE)] + rest && AllPlain(rest) && |rest| < |ts|
    ensures ParseAttrs(ts, bad, m) == ParseAttrs(rest, bad, Dict(attrs, m))
  {
    hide Consume, ParseAttrList, AllPlain, Plain, AttrsTokens, Dict;
    ConsumeReads(ts, bad);
    var t1 := Consume(ts, bad).value;
    attrs := AttrListReads(t1, bad, m);
    var t2 := ParseAttrList(t1, bad, m).value.1;
    ConsumeReads(t2, bad);
    rest := Consume(t2, bad).value;
  }

  lemma ListsCons(attrs: seq<Attr>, more: Lists, m: Attrs)
    ensures ListsTokens([attrs] + more) == [T(LSQUARE)] + AttrsTokens(attrs) + [T(RSQUARE)] + ListsTokens(more)
    ensures DictAll([attrs] + more, m) == DictAll(more, Dict(attrs, m))
  {
    hide AttrsTokens, Dict;
    assert ([attrs] + more)[1..] == more;
  }

  lemma ListsEnd(ts: seq<Token>, bad: bool, m: Attrs)
    requires Look(ts) != LSQUARE
    ensures ParseAttrs(ts, bad, m) == Good((m, ts)) && ts == ListsTokens([]) + ts && DictAll([], m) == m
  {
    assert ListsTokens([]) == [];
  }

  lemma {:induction false} ListsRead(ts: seq<Token>, bad: bool, m: Attrs) returns (lists: Lists)
    requires AllPlain(ts) && ParseAttrs(ts, bad, m).Good?
    ensures var (d, rest) := ParseAttrs(ts, bad, m).value;
            ts == ListsTokens(lists) + rest && AllPlain(rest) && d == DictAll(lists, m)
    decreases |ts|
  {
    hide ParseAttrs, AllPlain, Plain, AttrsTokens, ListsTokens, Dict, DictAll;
    if Look(ts) != LSQUARE {
      lists := [];
      ListsEnd(ts, bad, m);
    } else {
      var attrs, t3 := OneListReads(ts, bad, m);
      var more := ListsRead(t3, bad, Dict(attrs, m));
      lists := [attrs] + more;
      ListsCons(attrs, more, m);
    }
  }

  // A statement that can be written, without a chain and so far without a semicolon, that means
  // the step from st to st1
  ghost predicate Steps(s: Stmt, st: State, st1: State)
  {
    WellFormed(s) && !Chained(s) && !s.semi && Meaning(s, st) == st1
  }

  lemma EdgesRead(ts: seq<Token>, bad: bool, st: State, src: Ref) returns (s: Stmt)
    requires AllPlain(ts) && Look(ts) == EDGE_OP && GoodRef(src) && ParseEdges(ts, bad, st, src.id).Good?
    ensures var (st1, rest) := ParseEdges(ts, bad, st, src.id).value;
            s.EdgeStmt? && RefTokens(src) + ts == Head(s) + rest && AllPlain(rest) && Steps(s, st, st1)
  {
    hide Consume, ParseNodeId, ParseAttrs, ParseChain, AllPlain, Plain, RefTokens, ListsTokens, DictAll, HandleEdges;
    ConsumeReads(ts, bad);
    var t2 := Consume(ts, bad).value;
    var dst := RefReads(t2, bad);
    var t3 := ParseNodeId(t2, bad).value.1;
    ChainEndsOrRaises(t3, bad, [src.id, dst.id]);
    var lists := ListsRead(t3, bad, map[]);
    s := EdgeStmt(src, dst, [], lists, false);
    OneEdge(src.id, dst.id, ParseAttrs(t3, bad, map[]).value.0);
    var rest := ParseAttrs(t3, bad, map[]).value.1;
    assert Head(s) + rest == RefTokens(src) + [T(EDGE_OP)] + RefTokens(dst) + (ListsTokens(lists) + rest);
  }

  lemma NamedReads(ts: seq<Token>, bad: bool, st: State) returns (s: Stmt)
    requires AllPlain(ts) && ParseNamed(ts, bad, st).Good?
    ensures var (st1, rest) := ParseNamed(ts, bad, st).value;
            ts == Head(s) + rest && AllPlain(rest) && Steps(s, st, st1)
    ensures s.EdgeStmt? || s.NodeStmt? || s.Assign?
  {
    hide Consume, ParseId, ParseNodeId, ParseAttrs, ParseEdges, AllPlain, Plain, RefTokens, ListsTokens, DictAll;
    var src := RefReads(ts, bad);
    var (id, t1) := ParseNodeId(ts, bad).value;
    if Look(t1) == EDGE_OP {
      s := EdgesRead(t1, bad, st, src);
    } else if Look(t1) == EQUAL {
      ConsumeReads(t1, bad);
      var t2 := Consume(t1, bad).value;
      IdReads(t2, bad);
      s := Assign(src, ParseId(t2, bad).value.0, false);
    } else {
      var lists := ListsRead(t1, bad, map[]);
      s := NodeStmt(src, lists, false);
    }
  }

  lemma DefaultsRead(ts: seq<Token>, bad: bool, st: State) returns (s: Stmt)
    requires AllPlain(ts) && (Look(ts) == GRAPH || Look(ts) == NODE || Look(ts) == EDGE)
    requires ParseDefaults(ts, bad, st).Good?
    ensures var (st1, rest) := ParseDefaults(ts, bad, st).value;
            s.AttrStmt? && ts == Head(s) + rest && AllPlain(rest) && Steps(s, st, st1)
  {
    hide Consume, ParseAttrs, AllPlain, Plain, ListsTokens, DictAll;
    ConsumeReads(ts, bad);
    var lists := ListsRead(Consume(ts, bad).value, bad, map[]);
    s := AttrStmt(Look(ts), lists, false);
  }

  lemma SubHeadReads(ts: seq<Token>, bad: bool) returns (id: Option<string>)
    requires AllPlain(ts) && Look(ts) == SUBGRAPH && SubgraphName(ts, bad).Good?
    ensures var rest := SubgraphName(ts, bad).value;
            ts == SubHead(true, id) + rest && AllPlain(rest) && (id == None ==> Look(rest) != ID)
  {
    hide Consume, AllPlain, Plain;
    ConsumeReads(ts, bad);
    var t1 := Consume(ts, bad).value;
    id := None;
    if Look(t1) == ID {
      IdReads(t1, bad);
      id := Some(ParseId(t1, bad).value.0);
    }
  }

  lemma NoSubHead()
    ensures SubHead(false, None) == []
  {
  }

  lemma {:induction false} SubReads(ts: seq<Token>, bad: bool, st: State) returns (s: Stmt)
    requires AllPlain(ts) && (Look(ts) == SUBGRAPH || Look(ts) == LCURLY) && ParseSubgraph(ts, bad, st).Good?
    ensures var (st1, rest) := ParseSubgraph(ts, bad, st).value;
            && ts == Head(s) + rest && AllPlain(rest) && Steps(s, st, st1)
            && (s.SubName? ==> Look(rest) != LCURLY && (s.id_ == None ==> Look(rest) != ID))
    decreases |ts|, 0
  {
    hide Consume, ParseStmts, SubgraphName, AllPlain, Plain, AllTokens, SubHead, MeaningAll, WellFormedAll, AnyChained;
    var keyword, id, t1 := Look(ts) == SUBGRAPH, None, ts;
    if keyword {
      id := SubHeadReads(ts, bad);
      t1 := SubgraphName(ts, bad).value;
    }
    if Look(t1) != LCURLY {
      s := SubName(id, false);
    } else {
      ConsumeReads(t1, bad);
      var t2 := Consume(t1, bad).value;
      var body := StmtsRead(t2, bad, st);
      var t3 := ParseStmts(t2, bad, st).value.1;
      ConsumeReads(t3, bad);
      s := Sub(keyword, id, body, false);
      NoSubHead();
      var rest := Consume(t3, bad).value;
      assert ts == SubHead(keyword, id) + ([T(LCURLY)] + AllTokens(body) + [T(RCURLY)]) + rest;
    }
  }

  lemma {:induction false} BareReads(ts: seq<Token>, bad: bool, st: State) returns (s: Stmt)
    requires AllPlain(ts) && ts != [] && ParseBare(ts, bad, st).Good?
    ensures var (st1, rest) := ParseBare(ts, bad, st).value;
            && ts == Head(s) + rest && AllPlain(rest) && Steps(s, st, st1)
            && (s.SubName? ==> Look(rest) != LCURLY && (s.id_ == None ==> Look(rest) != ID))
    decreases |ts|, 1
  {
    hide ParseNamed, ParseDefaults, ParseSubgraph, AllPlain, Plain, Head, Steps;
    if Look(ts) == GRAPH || Look(ts) == NODE || Look(ts) == EDGE {
      s := DefaultsRead(ts, bad, st);
    } else if Look(ts) == SUBGRAPH || Look(ts) == LCURLY {
      s := SubReads(ts, bad, st);
    } else {
      s := NamedReads(ts, bad, st);
    }
  }

  lemma SemiReads(ts: seq<Token>, bad: bool)
    requires AllPlain(ts) && SkipSemi(ts, bad).Good?
    ensures var rest := SkipSemi(ts, bad).value;
            ts == Semi(Look(ts) == SEMI) + rest && AllPlain(rest) && (Look(ts) != SEMI ==> rest == ts)
  {
    hide Consume;
    if Look(ts) == SEMI {
      ConsumeReads(ts, bad);
    }
  }

  // The semicolon changes nothing else.
  lemma Closed(s: Stmt, semi: bool)
    ensures var c := s.(semi := semi);
            && Head(c) == Head(s) && Tokens(c) == Head(s) + Semi(semi) && WellFormed(c) == WellFormed(s)
            && Chained(c) == Chained(s)
    ensures forall st: State :: Meaning(s.(semi := semi), st) == Meaning(s, st)
  {
  }

  lemma Closes(s: Stmt, st: State, st1: State, t1: seq<Token>, rest: seq<Token>)
    requires Steps(s, st, st1) && (s.SubName? ==> Look(t1) != LCURLY && (s.id_ == None ==> Look(t1) != ID))
    requires t1 == Semi(Look(t1) == SEMI) + rest && (Look(t1) != SEMI ==> rest == t1)
    ensures var c := s.(semi := Look(t1) == SEMI);
            && Tokens(c) + rest == Head(s) + t1 && WellFormed(c) && !Chained(c) && Meaning(c, st) == st1
            && (Starts(Look(rest)) ==> Fits(c, Look(rest)))
  {
    hide Head, Tokens, WellFormed, Chained, Meaning, Semi, Starts;
    Closed(s, Look(t1) == SEMI);
  }

  lemma {:induction false} StmtReads(ts: seq<Token>, bad: bool, st: State) returns (s: Stmt)
    requires AllPlain(ts) && ParseStmt(ts, bad, st).Good?
    ensures var (st1, rest) := ParseStmt(ts, bad, st).value;
            && ts == Tokens(s) + rest && AllPlain(rest) && WellFormed(s) && !Chained(s) && Meaning(s, st) == st1
            && (Starts(Look(rest)) ==> Fits(s, Look(rest)))
    decreases |ts|, 2
  {
    hide ParseBare, ParseStmt, AllPlain, Plain, Head, Tokens, WellFormed, Chained, Meaning, SkipSemi, Semi, Starts,
        Fits, Steps, Look;
    BareThenSemi(ts, bad, st);
    var bare := BareReads(ts, bad, st);
    var (st1, t1) := ParseBare(ts, bad, st).value;
    SemiReads(t1, bad);
    Closes(bare, st, st1, t1, SkipSemi(t1, bad).value);
    s := bare.(semi := Look(t1) == SEMI);
  }

  lemma FirstStarts(ss: seq<Stmt>)
    requires WellFormedAll(ss)
    ensures Starts(First(ss))
  {
    hide Tokens, WellFormed, Fits;
    if ss != [] {
      HeadFirst(ss[0], []);
    }
  }

  lemma {:induction false} StmtsRead(ts: seq<Token>, bad: bool, st: State) returns (ss: seq<Stmt>)
    requires AllPlain(ts) && ParseStmts(ts, bad, st).Good?
    ensures var (st1, rest) := ParseStmts(ts, bad, st).value;
            && ts == AllTokens(ss) + rest && AllPlain(rest) && Look(rest) == RCURLY && rest != []
            && WellFormedAll(ss) && !AnyChained(ss) && MeaningAll(ss, st) == st1
    decreases |ts|, 3
  {
    hide ParseStmt, AllPlain, Plain, Tokens, WellFormed, Chained, Meaning, Fits, First;
    if Look(ts) == RCURLY {
      ss := [];
    } else {
      var s := StmtReads(ts, bad, st);
      var (st1, t1) := ParseStmt(ts, bad, st).value;
      var more := StmtsRead(t1, bad, st1);
      var rest := ParseStmts(t1, bad, st1).value.1;
      FirstLooks(more, rest);
      ss := [s] + more;
      assert ss[1..] == more;
      assert Starts(First(more)) by {
        FirstStarts(more);
      }
    }
  }

  lemma PlainTail(ts: seq<Token>)
    requires AllPlain(ts) && ts != []
    ensures AllPlain(ts[1..])
  {
    hide Plain;
  }

  lemma BracelessCons(t: Token, front: seq<Token>)
    requires t.kind != LCURLY && Braceless(front)
    ensures Braceless([t] + front)
  {
  }

  lemma SkipStops(ts: seq<Token>, bad: bool)
    requires Ahead(ts, LCURLY)
    ensures Look(ts) == LCURLY ==> SkipTo(ts, bad, LCURLY) == Good(ts)
    ensures Braceless([]) && [] + ts == ts
  {
  }

  // skip passes over the first token.
  lemma SkipPasses(ts: seq<Token>, bad: bool)
    requires Ahead(ts, LCURLY) && Look(ts) != LCURLY
    ensures Ahead(ts[1..], LCURLY) && SkipTo(ts, bad, LCURLY) == SkipTo(ts[1..], bad, LCURLY)
  {
  }

  lemma {:induction false} SkipReads(ts: seq<Token>, bad: bool) returns (front: seq<Token>)
    requires AllPlain(ts) && Ahead(ts, LCURLY)
    ensures var rest := SkipTo(ts, bad, LCURLY).value;
            ts == front + rest && AllPlain(rest) && Braceless(front) && rest != []
    decreases |ts|
  {
    hide Plain, AllPlain, Braceless, SkipTo;
    SkipStops(ts, bad);
    if Look(ts) == LCURLY {
      front := [];
    } else {
      PlainTail(ts);
      SkipPasses(ts, bad);
      var more := SkipReads(ts[1..], bad);
      front := [ts[0]] + more;
      BracelessCons(ts[0], more);
      assert ts == [ts[0]] + ts[1..];
    }
  }

  // No token in front of the end is an end of file.
  ghost predicate NoEOF(ts: seq<Token>)
  {
    forall k :: 0 <= k < |ts| ==> ts[k].kind != EOF
  }

  lemma OnlyTheEndIsEOF(a: seq<Token>, b: seq<Token>)
    requires NoEOF(a + b)
    ensures b != [] ==> Look(b) != EOF
  {
    if b != [] {
      assert (a + b)[|a|] == b[0];
    }
  }

  lemma BraceReads(ts: seq<Token>, bad: bool, kind: Kind)
    requires AllPlain(ts) && ts != [] && Look(ts) == kind && kind != ID && Consume(ts, bad).Good?
    ensures var rest := Consume(ts, bad).value;
            ts == [T(kind)] + rest && AllPlain(rest) && (bad ==> rest != [])
  {
    ConsumeReads(ts, bad);
  }

  lemma GraphReads(ts: seq<Token>, bad: bool) returns (front: seq<Token>, ss: seq<Stmt>)
    requires AllPlain(ts) && NoEOF(ts) && SkipEnds(ts, bad, LCURLY) && Parse(ts, bad).Good?
    ensures !bad && Braceless(front) && WellFormedAll(ss) && !AnyChained(ss) && ts == GraphTokens(front, ss)
  {
    hide ParseStmts, AllTokens, WellFormedAll, AnyChained, MeaningAll, AllPlain, Plain, SkipTo, Braceless;
    assert SkipTo(ts, bad, LCURLY).Good?;
    front := SkipReads(ts, bad);
    var t1 := SkipTo(ts, bad, LCURLY).value;
    BraceReads(t1, bad, LCURLY);
    var t2 := Consume(t1, bad).value;
    ss := StmtsRead(t2, bad, EMPTY);
    var t3 := ParseStmts(t2, bad, EMPTY).value.1;
    BraceReads(t3, bad, RCURLY);
    var t4 := Consume(t3, bad).value;
    assert ts == front + [T(LCURLY)] + AllTokens(ss) + [T(RCURLY)] + t4;
    OnlyTheEndIsEOF(front + [T(LCURLY)] + AllTokens(ss) + [T(RCURLY)], t4);
  }

  lemma {:induction false} ProjectIsPlain(ts: seq<Token>)
    ensures AllPlain(Project(ts)) && (NoEOF(ts) ==> NoEOF(Project(ts)))
  {
    if ts == [] {
    } else {
      ProjectIsPlain(ts[1..]);
      assert NoEOF(ts) ==> NoEOF(ts[1..]);
      assert Plain(Plain(ts[0])) == Plain(ts[0]);
    }
  }

  lemma {:induction false} NoEOFBefore(buf: string, pos: nat)
    requires pos <= |buf|
    ensures NoEOF(TokensFrom(buf, pos))
    decreases |buf| - pos
  {
    hide TokenFrom, EndFrom;
    NextAdvances(buf, pos);
    var t := TokenFrom(buf, pos);
    if t == None || t.value.kind == EOF {
    } else {
      NoEOFBefore(buf, EndFrom(buf, pos));
    }
  }

  ghost predicate Spells(buf: string, front: seq<Token>, ss: seq<Stmt>)
  {
    && Braceless(front) && WellFormedAll(ss) && !AnyChained(ss)
    && Project(TokensFrom(buf, 0)) == GraphTokens(front, ss)
  }

  // The text of a file is that of a graph without chains.
  ghost predicate IsGraph(buf: string)
  {
    && !EndsBadly(buf, 0)
    && exists front, ss :: Spells(buf, front, ss)
  }

  // The parser accepts exactly the graphs without chains, and nothing else.
  lemma AcceptsExactlyGraphs(buf: string)
    requires EndsBadly(buf, 0) || Ahead(TokensFrom(buf, 0), LCURLY)
    ensures ParseOf(buf).Good? <==> IsGraph(buf)
  {
    hide Parse, GraphTokens, WellFormedAll, AnyChained, Project, TokensFrom, EndsBadly, Braceless;
    var ts, bad := TokensFrom(buf, 0), EndsBadly(buf, 0);
    if ParseOf(buf).Good? {
      ParseProjects(ts, bad);
      ProjectIsPlain(ts);
      NoEOFBefore(buf, 0);
      var front, ss := GraphReads(Project(ts), bad);
      assert Spells(buf, front, ss);
    }
    if IsGraph(buf) {
      var front, ss :| Spells(buf, front, ss);
      GraphParses(ts, front, ss);
    }
  }
}
