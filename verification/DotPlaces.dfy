// Parsing looks at the kinds of tokens and at the texts of identifiers, not at their places.
module DotPlaces {
  import opened DotLexers
  import opened DotParsers

  function T(kind: Kind): Token
  {
    Token(kind, "", 0, 0)
  }

  function Name(id: string): Token
  {
    Token(ID, id, 0, 0)
  }

  // A token without its place, and without a text that the parser does not use
  function Plain(t: Token): Token
  {
    if t.kind == ID then Name(t.text) else T(t.kind)
  }

  function Project(ts: seq<Token>): (us: seq<Token>)
    ensures |us| == |ts| && (ts != [] ==> us[0] == Plain(ts[0])) && Look(us) == Look(ts)
  {
    if ts == [] then [] else [Plain(ts[0])] + Project(ts[1..])
  }

  // The same result, with the projected rest
  function Projected<X>(r: Parsed<X>): Parsed<X>
  {
    match r
    case Good((v, rest)) => Good((v, Project(rest)))
    case Raised => Raised
  }

  function ProjectedRest(r: Outcome<seq<Token>>): Outcome<seq<Token>>
  {
    match r
    case Good(rest) => Good(Project(rest))
    case Raised => Raised
  }

  lemma ConsumeProjects(ts: seq<Token>, bad: bool)
    ensures Consume(Project(ts), bad) == ProjectedRest(Consume(ts, bad))
  {
  }

  lemma IdProjects(ts: seq<Token>, bad: bool)
    ensures ParseId(Project(ts), bad) == Projected(ParseId(ts, bad))
  {
    hide Consume, Project;
    ConsumeProjects(ts, bad);
  }

  // An identifier behind the lookahead
  lemma NextIdProjects(ts: seq<Token>, bad: bool)
    ensures Consume(Project(ts), bad) == ProjectedRest(Consume(ts, bad))
    ensures var t := Consume(ts, bad);
            t.Good? ==> ParseId(Project(t.value), bad) == Projected(ParseId(t.value, bad))
  {
    hide Consume, Project, ParseId;
    ConsumeProjects(ts, bad);
    if Consume(ts, bad).Good? {
      IdProjects(Consume(ts, bad).value, bad);
    }
  }

  lemma NodeIdProjects(ts: seq<Token>, bad: bool)
    ensures ParseNodeId(Project(ts), bad) == Projected(ParseNodeId(ts, bad))
  {
    hide Consume, Project, ParseId;
    IdProjects(ts, bad);
    var id := ParseId(ts, bad);
    if id.Good? && Look(id.value.1) == COLON {
      NextIdProjects(id.value.1, bad);
      var t := Consume(id.value.1, bad);
      if t.Good? {
        var port := ParseId(t.value, bad);
        if port.Good? {
          NextIdProjects(port.value.1, bad);
        }
      }
    }
  }

  lemma AttrProjects(ts: seq<Token>, bad: bool)
    ensures ParseAttr(Project(ts), bad) == Projected(ParseAttr(ts, bad))
  {
    hide Consume, Project, ParseId;
    IdProjects(ts, bad);
    var name := ParseId(ts, bad);
    if name.Good? {
      NextIdProjects(name.value.1, bad);
    }
  }

  lemma {:induction false} AttrListProjects(ts: seq<Token>, bad: bool, attrs: Attrs)
    ensures ParseAttrList(Project(ts), bad, attrs) == Projected(ParseAttrList(ts, bad, attrs))
    decreases |ts|
  {
    hide Consume, Project, ParseAttr;
    if Look(ts) == RSQUARE {
    } else {
      AttrProjects(ts, bad);
      var a := ParseAttr(ts, bad);
      if a.Good? {
        var ((name, value), t1) := a.value;
        ConsumeProjects(t1, bad);
        var t2 := if Look(t1) == COMMA then Consume(t1, bad) else Good(t1);
        if t2.Good? {
          AttrListProjects(t2.value, bad, attrs[name := value]);
        }
      }
    }
  }

  lemma {:induction false} AttrsProject(ts: seq<Token>, bad: bool, attrs: Attrs)
    ensures ParseAttrs(Project(ts), bad, attrs) == Projected(ParseAttrs(ts, bad, attrs))
    decreases |ts|
  {
    hide Consume, Project, ParseAttrList;
    if Look(ts) != LSQUARE {
    } else {
      ConsumeProjects(ts, bad);
      var t1 := Consume(ts, bad);
      if t1.Good? {
        AttrListProjects(t1.value, bad, attrs);
        var more := ParseAttrList(t1.value, bad, attrs);
        if more.Good? {
          ConsumeProjects(more.value.1, bad);
          var t3 := Consume(more.value.1, bad);
          if t3.Good? {
            AttrsProject(t3.value, bad, more.value.0);
          }
        }
      }
    }
  }

  lemma {:induction false} ChainProjects(ts: seq<Token>, bad: bool, ids: seq<string>)
    ensures ParseChain(Project(ts), bad, ids) == Projected(ParseChain(ts, bad, ids))
  {
    ChainEndsOrRaises(ts, bad, ids);
    ChainEndsOrRaises(Project(ts), bad, ids);
  }

  lemma EdgesProject(ts: seq<Token>, bad: bool, st: State, id: string)
    ensures ParseEdges(Project(ts), bad, st, id) == Projected(ParseEdges(ts, bad, st, id))
  {
    hide Consume, Project, ParseNodeId, ParseChain, ParseAttrs, HandleEdges;
    ConsumeProjects(ts, bad);
    var t2 := Consume(ts, bad);
    if t2.Good? {
      NodeIdProjects(t2.value, bad);
      var dst := ParseNodeId(t2.value, bad);
      if dst.Good? {
        ChainProjects(dst.value.1, bad, [id, dst.value.0]);
        var ids := ParseChain(dst.value.1, bad, [id, dst.value.0]);
        if ids.Good? {
          AttrsProject(ids.value.1, bad, map[]);
        }
      }
    }
  }

  lemma NamedProjects(ts: seq<Token>, bad: bool, st: State)
    ensures ParseNamed(Project(ts), bad, st) == Projected(ParseNamed(ts, bad, st))
  {
    hide Consume, Project, ParseNodeId, ParseAttrs, ParseEdges, ParseId;
    NodeIdProjects(ts, bad);
    var id := ParseNodeId(ts, bad);
    if id.Good? {
      EdgesProject(id.value.1, bad, st, id.value.0);
      NextIdProjects(id.value.1, bad);
      AttrsProject(id.value.1, bad, map[]);
    }
  }

  lemma DefaultsProject(ts: seq<Token>, bad: bool, st: State)
    requires ts != []
    ensures ParseDefaults(Project(ts), bad, st) == Projected(ParseDefaults(ts, bad, st))
  {
    hide Consume, Project, ParseAttrs, Defaults;
    ConsumeProjects(ts, bad);
    if Consume(ts, bad).Good? {
      AttrsProject(Consume(ts, bad).value, bad, map[]);
    }
  }

  lemma SemiProjects(ts: seq<Token>, bad: bool)
    ensures SkipSemi(Project(ts), bad) == ProjectedRest(SkipSemi(ts, bad))
  {
    hide Consume, Project;
    ConsumeProjects(ts, bad);
  }

  lemma SubgraphNameProjects(ts: seq<Token>, bad: bool)
    requires Look(ts) == SUBGRAPH
    ensures SubgraphName(Project(ts), bad) == ProjectedRest(SubgraphName(ts, bad))
  {
    hide Consume, Project;
    ConsumeProjects(ts, bad);
    if Consume(ts, bad).Good? {
      ConsumeProjects(Consume(ts, bad).value, bad);
    }
  }

  lemma {:induction false} StmtProjects(ts: seq<Token>, bad: bool, st: State)
    ensures ParseStmt(Project(ts), bad, st) == Projected(ParseStmt(ts, bad, st))
    decreases |ts|, 1
  {
    hide Project, ParseNamed, ParseDefaults, ParseSubgraph, SkipSemi;
    var first: Parsed<State>;
    if Look(ts) == GRAPH || Look(ts) == NODE || Look(ts) == EDGE {
      DefaultsProject(ts, bad, st);
      first := ParseDefaults(ts, bad, st);
    } else if Look(ts) == SUBGRAPH || Look(ts) == LCURLY {
      SubgraphProjects(ts, bad, st);
      first := ParseSubgraph(ts, bad, st);
    } else {
      NamedProjects(ts, bad, st);
      first := ParseNamed(ts, bad, st);
    }
    if first.Good? {
      SemiProjects(first.value.1, bad);
    }
  }

  lemma {:induction false} StmtsProject(ts: seq<Token>, bad: bool, st: State)
    ensures ParseStmts(Project(ts), bad, st) == Projected(ParseStmts(ts, bad, st))
    decreases |ts|, 2
  {
    hide Project, ParseStmt;
    if Look(ts) == RCURLY {
    } else {
      StmtProjects(ts, bad, st);
      var r := ParseStmt(ts, bad, st);
      if r.Good? {
        StmtsProject(r.value.1, bad, r.value.0);
      }
    }
  }

  lemma {:induction false} SubgraphProjects(ts: seq<Token>, bad: bool, st: State)
    requires Look(ts) == SUBGRAPH || Look(ts) == LCURLY
    ensures ParseSubgraph(Project(ts), bad, st) == Projected(ParseSubgraph(ts, bad, st))
    decreases |ts|, 0
  {
    hide Consume, Project, ParseStmts, SubgraphName;
    if Look(ts) == SUBGRAPH {
      SubgraphNameProjects(ts, bad);
    }
    var t1 := if Look(ts) == SUBGRAPH then SubgraphName(ts, bad) else Good(ts);
    if t1.Good? && Look(t1.value) == LCURLY {
      ConsumeProjects(t1.value, bad);
      var t2 := Consume(t1.value, bad);
      if t2.Good? {
        StmtsProject(t2.value, bad, st);
        var r := ParseStmts(t2.value, bad, st);
        if r.Good? {
          ConsumeProjects(r.value.1, bad);
        }
      }
    }
  }

  lemma {:induction false} AheadProjects(ts: seq<Token>, kind: Kind)
    ensures Ahead(Project(ts), kind) <==> Ahead(ts, kind)
  {
    if ts == [] {
    } else {
      AheadProjects(ts[1..], kind);
      assert Project(ts)[1..] == Project(ts[1..]);
    }
  }

  lemma {:induction false} SkipProjects(ts: seq<Token>, bad: bool, kind: Kind)
    requires SkipEnds(ts, bad, kind)
    ensures SkipEnds(Project(ts), bad, kind)
    ensures SkipTo(Project(ts), bad, kind) == ProjectedRest(SkipTo(ts, bad, kind))
    decreases |ts|
  {
    hide Project, Consume, Ahead;
    AheadProjects(ts, kind);
    if Look(ts) == kind {
    } else {
      SkipStep(ts, bad, kind);
      SkipStep(Project(ts), bad, kind);
      ConsumeProjects(ts, bad);
      if Consume(ts, bad).Good? {
        SkipProjects(Consume(ts, bad).value, bad, kind);
      }
    }
  }

  lemma SkipStep(ts: seq<Token>, bad: bool, kind: Kind)
    requires SkipEnds(ts, bad, kind) && Look(ts) != kind
    ensures Consume(ts, bad).Good? ==>
              SkipEnds(Consume(ts, bad).value, bad, kind)
              && SkipTo(ts, bad, kind) == SkipTo(Consume(ts, bad).value, bad, kind)
    ensures Consume(ts, bad).Raised? ==> SkipTo(ts, bad, kind) == Raised
  {
  }

  // Parsing looks at kinds and at the texts of identifiers only.
  lemma ParseProjects(ts: seq<Token>, bad: bool)
    requires SkipEnds(ts, bad, LCURLY)
    ensures SkipEnds(Project(ts), bad, LCURLY) && Parse(Project(ts), bad) == Parse(ts, bad)
  {
    hide Project, Consume, ParseStmts, SkipTo, SkipEnds;
    SkipProjects(ts, bad, LCURLY);
    var t1 := SkipTo(ts, bad, LCURLY);
    if t1.Good? {
      ConsumeProjects(t1.value, bad);
      var t2 := Consume(t1.value, bad);
      if t2.Good? {
        StmtsProject(t2.value, bad, EMPTY);
        var r := ParseStmts(t2.value, bad, EMPTY);
        if r.Good? {
          ConsumeProjects(r.value.1, bad);
        }
      }
    }
  }
}
