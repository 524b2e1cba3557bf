// The recursive-descent parser of xdot.py.
module DotParsers {
  import opened Options
  import opened DotLexers

  // ParseError, from the parser or from the lexer in front of it
  datatype Outcome<+T> = Good(value: T) | Raised {
    predicate IsFailure() {
      Raised?
    }

    function PropagateFailure<U>(): Outcome<U>
      requires Raised?
    {
      Raised
    }

    function Extract(): T
      requires Good?
    {
      value
    }
  }

  type Attrs = map<string, string>

  datatype Event =
    | HandleGraph(attrs: Attrs)
    | HandleNode(id: string, attrs: Attrs)
    | HandleEdge(src: string, dst: string, attrs: Attrs)

  // The three dictionaries, and the handlers called so far
  datatype State = State(graphAttrs: Attrs, nodeAttrs: Attrs, edgeAttrs: Attrs, events: seq<Event>)

  const EMPTY := State(map[], map[], map[], [])

  type Parsed<+T> = Outcome<(T, seq<Token>)>

  // ---------- the grammar functions ----------
  // ts are the tokens from the lookahead on, in front of the end of file or, if bad, of a
  // character that the lexer rejects.

  function Look(ts: seq<Token>): Kind
  {
    if ts == [] then EOF else ts[0].kind
  }

  // consume: the lexer raises when it reaches the bad character; at end of file it stays there.
  function Consume(ts: seq<Token>, bad: bool): (r: Outcome<seq<Token>>)
    ensures r.Good? ==> |r.value| <= |ts| && (ts != [] ==> r.value == ts[1..])
  {
    if ts == [] then Good([]) else if |ts| == 1 && bad then Raised else Good(ts[1..])
  }

  function ParseId(ts: seq<Token>, bad: bool): (r: Parsed<string>)
    ensures r.Good? ==> |r.value.1| < |ts|
  {
    if Look(ts) != ID then Raised
    else
      var rest :- Consume(ts, bad);
      Good((ts[0].text, rest))
  }

  // Port and compass point are read and dropped.
  function ParseNodeId(ts: seq<Token>, bad: bool): (r: Parsed<string>)
    ensures r.Good? ==> |r.value.1| < |ts|
  {
    var (id, t1) :- ParseId(ts, bad);
    if Look(t1) != COLON then Good((id, t1))
    else
      var t2 :- Consume(t1, bad);
      var (_, t3) :- ParseId(t2, bad);
      if Look(t3) != COLON then Good((id, t3))
      else
        var t4 :- Consume(t3, bad);
        var (_, t5) :- ParseId(t4, bad);
        Good((id, t5))
  }

  function ParseAttr(ts: seq<Token>, bad: bool): (r: Parsed<(string, string)>)
    ensures r.Good? ==> |r.value.1| < |ts|
  {
    var (name, t1) :- ParseId(ts, bad);
    if Look(t1) != EQUAL then Good(((name, "true"), t1))
    else
      var t2 :- Consume(t1, bad);
      var (value, t3) :- ParseId(t2, bad);
      Good(((name, value), t3))
  }

  // The inner loop of parse_attrs, up to the closing bracket
  function ParseAttrList(ts: seq<Token>, bad: bool, attrs: Attrs): (r: Parsed<Attrs>)
    ensures r.Good? ==> |r.value.1| <= |ts|
    decreases |ts|
  {
    if Look(ts) == RSQUARE then Good((attrs, ts))
    else
      var ((name, value), t1) :- ParseAttr(ts, bad);
      var t2 :- if Look(t1) == COMMA then Consume(t1, bad) else Good(t1);
      ParseAttrList(t2, bad, attrs[name := value])
  }

  function ParseAttrs(ts: seq<Token>, bad: bool, attrs: Attrs): (r: Parsed<Attrs>)
    ensures r.Good? ==> |r.value.1| <= |ts|
    decreases |ts|
  {
    if Look(ts) != LSQUARE then Good((attrs, ts))
    else
      var t1 :- Consume(ts, bad);
      var (more, t2) :- ParseAttrList(t1, bad, attrs);
      var t3 :- Consume(t2, bad);
      ParseAttrs(t3, bad, more)
  }

  // A semicolon behind a statement may be there.
  function SkipSemi(ts: seq<Token>, bad: bool): (r: Outcome<seq<Token>>)
    ensures r.Good? ==> |r.value| <= |ts|
  {
    if Look(ts) == SEMI then Consume(ts, bad) else Good(ts)
  }

  // The loop over further edge operators. The operator is not consumed before the identifier
  // behind it is looked for.
  function ParseChain(ts: seq<Token>, bad: bool, ids: seq<string>): (r: Parsed<seq<string>>)
    ensures r.Good? ==> |r.value.1| <= |ts|
    decreases |ts|
  {
    if Look(ts) != EDGE_OP then Good((ids, ts))
    else
      var (id, rest) :- ParseNodeId(ts, bad);
      ParseChain(rest, bad, ids + [id])
  }

  function HandleEdges(ids: seq<string>, attrs: Attrs): seq<Event>
  {
    if |ids| < 2 then [] else [HandleEdge(ids[0], ids[1], attrs)] + HandleEdges(ids[1..], attrs)
  }

  // From an edge operator on
  function ParseEdges(ts: seq<Token>, bad: bool, st: State, id: string): (r: Parsed<State>)
    ensures r.Good? ==> |r.value.1| < |ts|
  {
    var t2 :- Consume(ts, bad);
    var (dst, t3) :- ParseNodeId(t2, bad);
    var (ids, t4) :- ParseChain(t3, bad, [id, dst]);
    var (attrs, t5) :- ParseAttrs(t4, bad, map[]);
    Good((st.(events := st.events + HandleEdges(ids, attrs)), t5))
  }

  // The last branch of parse_stmt: edges, an assignment or a node
  function ParseNamed(ts: seq<Token>, bad: bool, st: State): (r: Parsed<State>)
    ensures r.Good? ==> |r.value.1| < |ts|
  {
    var (id, t1) :- ParseNodeId(ts, bad);
    if Look(t1) == EDGE_OP then ParseEdges(t1, bad, st, id)
    else if Look(t1) == EQUAL then
      var t2 :- Consume(t1, bad);
      var (_, t3) :- ParseId(t2, bad);
      Good((st, t3))
    else
      var (attrs, t2) :- ParseAttrs(t1, bad, map[]);
      Good((st.(events := st.events + [HandleNode(id, attrs)]), t2))
  }

  function ParseStmt(ts: seq<Token>, bad: bool, st: State): (r: Parsed<State>)
    ensures r.Good? ==> |r.value.1| < |ts|
    decreases |ts|, 1
  {
    var (st1, t1) :-
      if Look(ts) == GRAPH || Look(ts) == NODE || Look(ts) == EDGE then ParseDefaults(ts, bad, st)
      else if Look(ts) == SUBGRAPH || Look(ts) == LCURLY then ParseSubgraph(ts, bad, st)
      else ParseNamed(ts, bad, st);
    var t2 :- SkipSemi(t1, bad);
    Good((st1, t2))
  }

  function ParseDefaults(ts: seq<Token>, bad: bool, st: State): (r: Parsed<State>)
    requires ts != []
    ensures r.Good? ==> |r.value.1| < |ts|
  {
    var t1 :- Consume(ts, bad);
    var (attrs, t2) :- ParseAttrs(t1, bad, map[]);
    Good((Defaults(st, Look(ts), attrs), t2))
  }

  function Defaults(st: State, target: Kind, attrs: Attrs): State
  {
    if target == GRAPH then st.(graphAttrs := st.graphAttrs + attrs, events := st.events + [HandleGraph(attrs)])
    else if target == NODE then st.(nodeAttrs := st.nodeAttrs + attrs)
    else st.(edgeAttrs := st.edgeAttrs + attrs)
  }

  // The loop over statements, up to the closing brace
  function ParseStmts(ts: seq<Token>, bad: bool, st: State): (r: Parsed<State>)
    ensures r.Good? ==> |r.value.1| <= |ts| && Look(r.value.1) == RCURLY
    decreases |ts|, 2
  {
    if Look(ts) == RCURLY then Good((st, ts))
    else
      var (st1, t1) :- ParseStmt(ts, bad, st);
      ParseStmts(t1, bad, st1)
  }

  function ParseSubgraph(ts: seq<Token>, bad: bool, st: State): (r: Parsed<State>)
    requires Look(ts) == SUBGRAPH || Look(ts) == LCURLY
    ensures r.Good? ==> |r.value.1| < |ts|
    decreases |ts|, 0
  {
    var t1 :- if Look(ts) == SUBGRAPH then SubgraphName(ts, bad) else Good(ts);
    if Look(t1) != LCURLY then Good((st, t1))
    else
      var t2 :- Consume(t1, bad);
      var (st1, t3) :- ParseStmts(t2, bad, st);
      var t4 :- Consume(t3, bad);
      Good((st1, t4))
  }

  function SubgraphName(ts: seq<Token>, bad: bool): (r: Outcome<seq<Token>>)
    requires Look(ts) == SUBGRAPH
    ensures r.Good? ==> |r.value| < |ts|
  {
    var t1 :- Consume(ts, bad);
    if Look(t1) == ID then Consume(t1, bad) else Good(t1)
  }

  // A token of this kind is still to come.
  predicate Ahead(ts: seq<Token>, kind: Kind)
  {
    ts != [] && (ts[0].kind == kind || Ahead(ts[1..], kind))
  }

  // skip(type) comes to an end: at a token of the kind, or because the lexer raises.
  predicate SkipEnds(ts: seq<Token>, bad: bool, kind: Kind)
  {
    Ahead(ts, kind) || (ts != [] && bad)
  }

  // skip
  function SkipTo(ts: seq<Token>, bad: bool, kind: Kind): (r: Outcome<seq<Token>>)
    requires SkipEnds(ts, bad, kind)
    ensures r.Good? <==> Ahead(ts, kind)
    ensures r.Good? ==> |r.value| <= |ts| && Look(r.value) == kind
    decreases |ts|
  {
    if Look(ts) == kind then Good(ts)
    else
      var rest :- Consume(ts, bad);
      SkipTo(rest, bad, kind)
  }

  // n rounds of the loop of skip
  function Rounds(ts: seq<Token>, bad: bool, n: nat): Outcome<seq<Token>>
  {
    if n == 0 then Good(ts)
    else
      var rest :- Consume(ts, bad);
      Rounds(rest, bad, n - 1)
  }

  // However many rounds are made, the loop goes on.
  ghost predicate NeverEnds(ts: seq<Token>, bad: bool, kind: Kind)
  {
    forall n: nat :: Rounds(ts, bad, n).Good? && Look(Rounds(ts, bad, n).value) != kind
  }

  lemma {:induction false} RoundsGoOn(ts: seq<Token>, bad: bool, kind: Kind, n: nat)
    requires !SkipEnds(ts, bad, kind) && kind != EOF
    ensures Rounds(ts, bad, n).Good? && Look(Rounds(ts, bad, n).value) != kind
    decreases n
  {
    if n == 0 {
    } else {
      RoundsGoOn(Consume(ts, bad).value, bad, kind, n - 1);
    }
  }

  lemma {:induction false} RoundsEnd(ts: seq<Token>, bad: bool, kind: Kind) returns (n: nat)
    requires SkipEnds(ts, bad, kind)
    ensures n <= |ts| && (Rounds(ts, bad, n).Raised? || Look(Rounds(ts, bad, n).value) == kind)
    decreases |ts|
  {
    if Look(ts) == kind {
      n := 0;
    } else if Consume(ts, bad).Raised? {
      n := 1;
    } else {
      n := RoundsEnd(ts[1..], bad, kind);
      n := n + 1;
    }
  }

  // skip never ends exactly when no token of the kind is ahead and no rejected character follows.
  lemma SkipNeverEnds(ts: seq<Token>, bad: bool, kind: Kind)
    requires kind != EOF
    ensures NeverEnds(ts, bad, kind) <==> !Ahead(ts, kind) && (ts == [] || !bad)
  {
    if SkipEnds(ts, bad, kind) {
      var n := RoundsEnd(ts, bad, kind);
    } else {
      forall n: nat ensures Rounds(ts, bad, n).Good? && Look(Rounds(ts, bad, n).value) != kind {
        RoundsGoOn(ts, bad, kind, n);
      }
    }
  }

  // parse on the tokens of a whole file
  function Parse(ts: seq<Token>, bad: bool): Outcome<State>
    requires SkipEnds(ts, bad, LCURLY)
  {
    var t1 :- SkipTo(ts, bad, LCURLY);
    var t2 :- Consume(t1, bad);
    var (st, t3) :- ParseStmts(t2, bad, EMPTY);
    var t4 :- Consume(t3, bad);
    if Look(t4) == EOF then Good(st) else Raised
  }

  // ---------- edge chains ----------

  // The loop over further edge operators never goes round: it is left at once, or it raises.
  lemma ChainEndsOrRaises(ts: seq<Token>, bad: bool, ids: seq<string>)
    ensures ParseChain(ts, bad, ids) == if Look(ts) == EDGE_OP then Raised else Good((ids, ts))
  {
  }

  lemma OneEdge(src: string, dst: string, attrs: Attrs)
    ensures HandleEdges([src, dst], attrs) == [HandleEdge(src, dst, attrs)]
  {
    assert [src, dst][1..] == [dst];
  }

  // So behind the first edge a second operator raises, and otherwise one edge is handled.
  lemma SecondOperatorRaises(ts: seq<Token>, bad: bool, st: State, src: string, t1: seq<Token>, t2: seq<Token>,
          dst: string, t3: seq<Token>)
    requires ParseNodeId(ts, bad) == Good((src, t1)) && Look(t1) == EDGE_OP && Consume(t1, bad) == Good(t2)
    requires ParseNodeId(t2, bad) == Good((dst, t3))
    ensures var r := ParseNamed(ts, bad, st);
            if Look(t3) == EDGE_OP then r == Raised
            else
              var attrs := ParseAttrs(t3, bad, map[]);
              && (r.Good? <==> attrs.Good?)
              && (r.Good? ==>
                    r.value == (st.(events := st.events + [HandleEdge(src, dst, attrs.value.0)]), attrs.value.1))
  {
    hide ParseNodeId, ParseAttrs, ParseChain;
    ChainEndsOrRaises(t3, bad, [src, dst]);
    var attrs := ParseAttrs(t3, bad, map[]);
    if attrs.Good? {
      OneEdge(src, dst, attrs.value.0);
    }
  }

  // ---------- the program ----------

  class DotParser {
    const lexer: Lexer
    var lookahead: Token
    var graphAttrs: Attrs
    var nodeAttrs: Attrs
    var edgeAttrs: Attrs
    var events: seq<Event>

    ghost predicate Valid()
      reads this`lookahead, lexer
      ensures Valid() ==> lexer.Valid()
    {
      lexer.Valid() && (lookahead.kind == EOF ==> lexer.pos == |lexer.buf| && !Bad())
    }

    // The tokens from the lookahead on, and what follows them
    ghost function Rest(): (ts: seq<Token>)
      requires lexer.Valid()
      reads this`lookahead, lexer
      ensures Look(ts) == lookahead.kind && (ts != [] ==> ts[0] == lookahead)
    {
      if lookahead.kind == EOF then [] else [lookahead] + TokensFrom(lexer.buf, lexer.pos)
    }

    ghost predicate Bad()
      requires lexer.Valid()
      reads lexer
    {
      EndsBadly(lexer.buf, lexer.pos)
    }

    ghost function St(): State
      reads this`graphAttrs, this`nodeAttrs, this`edgeAttrs, this`events
    {
      State(graphAttrs, nodeAttrs, edgeAttrs, events)
    }

    // The lookahead is read by Start.
    constructor (lexer: Lexer)
      ensures this.lexer == lexer && St() == EMPTY
    {
      this.lexer := lexer;
      lookahead := Token(EOF, "", 1, 1);
      graphAttrs, nodeAttrs, edgeAttrs, events := map[], map[], map[], [];
    }

    method Start() returns (r: Outcome<Kind>)
      requires lexer.Valid()
      modifies this`lookahead, lexer
      ensures lexer.Valid()
      ensures r.Good? <==> TokenFrom(lexer.buf, old(lexer.pos)).Some?
      ensures r.Good? ==>
                && Valid() && Rest() == TokensFrom(lexer.buf, old(lexer.pos))
                    && r.value == lookahead.kind == Look(Rest())
                && Bad() == EndsBadly(lexer.buf, old(lexer.pos))
    {
      hide TokenFrom, EndFrom;
      NextAdvances(lexer.buf, lexer.pos);
      var next := lexer.Next();
      if next == None {
        return Raised;
      }
      lookahead := next.value;
      if lookahead.kind == EOF {
        AtEnd(lexer.buf);
      }
      r := Good(lookahead.kind);
    }

    // consume
    method Advance() returns (r: Outcome<Token>)
      requires Valid()
      modifies this`lookahead, lexer
      ensures var spec := Consume(old(Rest()), old(Bad()));
              && (r.Good? <==> spec.Good?)
              && (r.Good? ==> Valid() && Bad() == old(Bad()) && Rest() == spec.value && r.value == old(lookahead))
    {
      hide TokenFrom, EndFrom, EndsBadly;
      ghost var pos := lexer.pos;
      Remaining(lexer.buf, pos);
      var token := lookahead;
      var kind :- Start();
      r := Good(token);
    }

    method ReadId() returns (r: Outcome<string>)
      requires Valid()
      modifies this`lookahead, lexer
      ensures var spec := ParseId(old(Rest()), old(Bad()));
              && (r.Good? <==> spec.Good?)
              && (r.Good? ==> Valid() && Bad() == old(Bad()) && spec.value == (r.value, Rest()))
    {
      if lookahead.kind != ID {
        return Raised;
      }
      var token :- Advance();
      r := Good(token.text);
    }

    method ReadNodeId() returns (r: Outcome<string>)
      requires Valid()
      modifies this`lookahead, lexer
      ensures var spec := ParseNodeId(old(Rest()), old(Bad()));
              && (r.Good? <==> spec.Good?)
              && (r.Good? ==> Valid() && Bad() == old(Bad()) && spec.value == (r.value, Rest()))
    {
      hide ParseId, Consume, TokensFrom, EndsBadly, Rest, Bad, Valid;
      var nodeId :- ReadId();
      if lookahead.kind == COLON {
        var _ :- Advance();
        var _ :- ReadId();
        if lookahead.kind == COLON {
          var _ :- Advance();
          var _ :- ReadId();
        }
      }
      r := Good(nodeId);
    }

    method ReadAttr() returns (r: Outcome<(string, string)>)
      requires Valid()
      modifies this`lookahead, lexer
      ensures var spec := ParseAttr(old(Rest()), old(Bad()));
              && (r.Good? <==> spec.Good?)
              && (r.Good? ==> Valid() && Bad() == old(Bad()) && spec.value == (r.value, Rest()))
    {
      hide ParseId, Consume, TokensFrom, EndsBadly, Rest, Bad, Valid;
      var name :- ReadId();
      var value := "true";
      if lookahead.kind == EQUAL {
        var _ :- Advance();
        value :- ReadId();
      }
      r := Good((name, value));
    }

    // The inner loop of parse_attrs
    method ReadAttrList(attrs0: Attrs) returns (r: Outcome<Attrs>)
      requires Valid()
      modifies this`lookahead, lexer
      ensures var spec := ParseAttrList(old(Rest()), old(Bad()), attrs0);
              && (r.Good? <==> spec.Good?)
              && (r.Good? ==> Valid() && Bad() == old(Bad()) && spec.value == (r.value, Rest()))
    {
      hide ParseAttr, TokensFrom, EndsBadly, Rest, Bad, Valid;
      var attrs := attrs0;
      while lookahead.kind != RSQUARE
        invariant Valid() && Bad() == old(Bad())
        invariant ParseAttrList(Rest(), Bad(), attrs) == ParseAttrList(old(Rest()), old(Bad()), attrs0)
        decreases |Rest()|
      {
        var attr :- ReadAttr();
        attrs := attrs[attr.0 := attr.1];
        if lookahead.kind == COMMA {
          var _ :- Advance();
        }
      }
      r := Good(attrs);
    }

    method ReadAttrs() returns (r: Outcome<Attrs>)
      requires Valid()
      modifies this`lookahead, lexer
      ensures var spec := ParseAttrs(old(Rest()), old(Bad()), map[]);
              && (r.Good? <==> spec.Good?)
              && (r.Good? ==> Valid() && Bad() == old(Bad()) && spec.value == (r.value, Rest()))
    {
      hide ParseAttrList, TokensFrom, EndsBadly, Rest, Bad, Valid;
      var attrs: Attrs := map[];
      while lookahead.kind == LSQUARE
        invariant Valid() && Bad() == old(Bad())
        invariant ParseAttrs(Rest(), Bad(), attrs) == ParseAttrs(old(Rest()), old(Bad()), map[])
        decreases |Rest()|
      {
        var _ :- Advance();
        attrs :- ReadAttrList(attrs);
        var _ :- Advance();
      }
      r := Good(attrs);
    }

    // The loop over further edge operators
    method ReadChain(ids0: seq<string>) returns (r: Outcome<seq<string>>)
      requires Valid()
      modifies this`lookahead, lexer
      ensures var spec := ParseChain(old(Rest()), old(Bad()), ids0);
              && (r.Good? <==> spec.Good?)
              && (r.Good? ==> Valid() && Bad() == old(Bad()) && spec.value == (r.value, Rest()))
    {
      hide ParseNodeId, TokensFrom, EndsBadly, Rest, Bad, Valid;
      var ids := ids0;
      while lookahead.kind == EDGE_OP
        invariant Valid() && Bad() == old(Bad())
        invariant ParseChain(Rest(), Bad(), ids) == ParseChain(old(Rest()), old(Bad()), ids0)
        decreases |Rest()|
      {
        var id :- ReadNodeId();
        ids := ids + [id];
      }
      r := Good(ids);
    }

    method HandleAll(ids: seq<string>, attrs: Attrs)
      modifies this`events
      ensures events == old(events) + HandleEdges(ids, attrs)
    {
      var i := 0;
      ghost var target := events + HandleEdges(ids, attrs);
      assert ids[0..] == ids;
      while i + 1 < |ids|
        invariant 0 <= i <= |ids| && (ids != [] ==> i < |ids|)
        invariant events + HandleEdges(ids[i..], attrs) == target
      {
        assert ids[i..][1..] == ids[i + 1..];
        assert events + ([HandleEdge(ids[i], ids[i + 1], attrs)] + HandleEdges(ids[i + 1..], attrs))
            == events + [HandleEdge(ids[i], ids[i + 1], attrs)] + HandleEdges(ids[i + 1..], attrs);
        events := events + [HandleEdge(ids[i], ids[i + 1], attrs)];
        i := i + 1;
      }
      assert HandleEdges(ids[i..], attrs) == [];
    }

    method ReadEdges(id: string) returns (r: Outcome<Kind>)
      requires Valid()
      modifies this, lexer
      ensures var spec := ParseEdges(old(Rest()), old(Bad()), old(St()), id);
              && (r.Good? <==> spec.Good?)
              && (r.Good? ==> Valid() && Bad() == old(Bad()) && spec.value == (St(), Rest()))
    {
      hide ParseNodeId, ParseAttrs, ParseChain, Consume, HandleEdges, TokensFrom, EndsBadly, Rest, Bad, Valid;
      var _ :- Advance();
      var dst :- ReadNodeId();
      var nodeIds :- ReadChain([id, dst]);
      var attrs :- ReadAttrs();
      HandleAll(nodeIds, attrs);
      r := Good(EDGE_OP);
    }

    method ReadNamed() returns (r: Outcome<Kind>)
      requires Valid()
      modifies this, lexer
      ensures var spec := ParseNamed(old(Rest()), old(Bad()), old(St()));
              && (r.Good? <==> spec.Good?)
              && (r.Good? ==> Valid() && Bad() == old(Bad()) && spec.value == (St(), Rest()))
    {
      hide ParseNodeId, ParseAttrs, ParseEdges, ParseId, Consume, TokensFrom, EndsBadly, Rest, Bad, Valid;
      var id :- ReadNodeId();
      if lookahead.kind == EDGE_OP {
        var _ :- ReadEdges(id);
      } else if lookahead.kind == EQUAL {
        var _ :- Advance();
        var _ :- ReadId();
      } else {
        var attrs :- ReadAttrs();
        events := events + [HandleNode(id, attrs)];
      }
      r := Good(ID);
    }

    // graph, node or edge with attributes
    method ReadDefaults() returns (r: Outcome<Kind>)
      requires Valid() && (lookahead.kind == GRAPH || lookahead.kind == NODE || lookahead.kind == EDGE)
      modifies this, lexer
      ensures var spec := ParseDefaults(old(Rest()), old(Bad()), old(St()));
              && (r.Good? <==> spec.Good?)
              && (r.Good? ==> Valid() && Bad() == old(Bad()) && spec.value == (St(), Rest()))
    {
      hide ParseAttrs, Consume, TokensFrom, EndsBadly, Rest, Bad, Valid;
      var target := lookahead.kind;
      var _ :- Advance();
      var attrs :- ReadAttrs();
      if target == GRAPH {
        graphAttrs := graphAttrs + attrs;
        events := events + [HandleGraph(attrs)];
      } else if target == NODE {
        nodeAttrs := nodeAttrs + attrs;
      } else {
        edgeAttrs := edgeAttrs + attrs;
      }
      r := Good(target);
    }

    method ReadStmt() returns (r: Outcome<Kind>)
      requires Valid()
      modifies this, lexer
      ensures var spec := ParseStmt(old(Rest()), old(Bad()), old(St()));
              && (r.Good? <==> spec.Good?)
              && (r.Good? ==> Valid() && Bad() == old(Bad()) && spec.value == (St(), Rest()))
      decreases |Rest()|, 1
    {
      hide ParseNamed, ParseDefaults, ParseSubgraph, SkipSemi, TokensFrom, EndsBadly, Rest, Bad, Valid;
      if lookahead.kind == GRAPH || lookahead.kind == NODE || lookahead.kind == EDGE {
        var _ :- ReadDefaults();
      } else if lookahead.kind == SUBGRAPH || lookahead.kind == LCURLY {
        var _ :- ReadSubgraph();
      } else {
        var _ :- ReadNamed();
      }
      r := ReadSemi();
    }

    method ReadSemi() returns (r: Outcome<Kind>)
      requires Valid()
      modifies this`lookahead, lexer
      ensures var spec := SkipSemi(old(Rest()), old(Bad()));
              && (r.Good? <==> spec.Good?)
              && (r.Good? ==> Valid() && Bad() == old(Bad()) && spec.value == Rest())
    {
      if lookahead.kind == SEMI {
        var _ :- Advance();
      }
      r := Good(SEMI);
    }

    // The loop over statements
    method ReadStmts() returns (r: Outcome<Kind>)
      requires Valid()
      modifies this, lexer
      ensures var spec := ParseStmts(old(Rest()), old(Bad()), old(St()));
              && (r.Good? <==> spec.Good?)
              && (r.Good? ==> Valid() && Bad() == old(Bad()) && spec.value == (St(), Rest()))
      decreases |Rest()|, 2
    {
      hide ParseStmt, TokensFrom, EndsBadly, Rest, Bad, Valid;
      ghost var n := |Rest()|;
      while lookahead.kind != RCURLY
        invariant Valid() && Bad() == old(Bad()) && |Rest()| <= n
        invariant ParseStmts(Rest(), Bad(), St()) == ParseStmts(old(Rest()), old(Bad()), old(St()))
        decreases |Rest()|
      {
        var _ :- ReadStmt();
      }
      r := Good(RCURLY);
    }

    method ReadSubgraph() returns (r: Outcome<Kind>)
      requires Valid() && (lookahead.kind == SUBGRAPH || lookahead.kind == LCURLY)
      modifies this, lexer
      ensures var spec := ParseSubgraph(old(Rest()), old(Bad()), old(St()));
              && (r.Good? <==> spec.Good?)
              && (r.Good? ==> Valid() && Bad() == old(Bad()) && spec.value == (St(), Rest()))
      decreases |Rest()|, 0
    {
      hide ParseStmts, TokensFrom, EndsBadly, Rest, Bad, Valid;
      if lookahead.kind == SUBGRAPH {
        var _ :- Advance();
        if lookahead.kind == ID {
          var _ :- Advance();
        }
      }
      if lookahead.kind == LCURLY {
        var _ :- Advance();
        var _ :- ReadStmts();
        var _ :- Advance();
      }
      r := Good(SUBGRAPH);
    }

    // parse. Without an opening brace or a rejected character the loop of skip never ends.
    method ParseFile() returns (r: Outcome<Kind>)
      requires Valid() && St() == EMPTY && SkipEnds(Rest(), Bad(), LCURLY)
      modifies this, lexer
      ensures var spec := Parse(old(Rest()), old(Bad()));
              (r.Good? <==> spec.Good?) && (r.Good? ==> spec.value == St())
    {
      hide ParseStmts, TokensFrom, EndsBadly, Rest, Bad, Valid;
      if lookahead.kind == STRICT {
        var _ :- Advance();
      }
      while lookahead.kind != LCURLY
        invariant Valid() && Bad() == old(Bad()) && St() == EMPTY && SkipEnds(Rest(), Bad(), LCURLY)
        invariant SkipTo(Rest(), Bad(), LCURLY) == SkipTo(old(Rest()), old(Bad()), LCURLY)
        decreases |Rest()|
      {
        var _ :- Advance();
      }
      var _ :- Advance();
      var _ :- ReadStmts();
      var _ :- Advance();
      r := if lookahead.kind == EOF then Good(EOF) else Raised;
    }
  }

  // A parser on a text. Its constructor reads the first token, and raises if that is rejected.
  function ParseOf(buf: string): Outcome<State>
    requires EndsBadly(buf, 0) || Ahead(TokensFrom(buf, 0), LCURLY)
  {
    if TokensFrom(buf, 0) == [] then Raised else Parse(TokensFrom(buf, 0), EndsBadly(buf, 0))
  }

  method ParseText(buf: string) returns (r: Outcome<State>)
    requires EndsBadly(buf, 0) || Ahead(TokensFrom(buf, 0), LCURLY)
    ensures r == ParseOf(buf)
  {
    hide TokensFrom, EndsBadly, TokenFrom, Parse;
    Remaining(buf, 0);
    var lexer := new Lexer(buf);
    var parser := new DotParser(lexer);
    var _ :- parser.Start();
    var _ :- parser.ParseFile();
    r := Good(State(parser.graphAttrs, parser.nodeAttrs, parser.edgeAttrs, parser.events));
  }

  // Two files without an opening brace: on one the loop of skip never ends, on the other a
  // rejected character ends it.
  lemma SkipOnSmallFiles()
    ensures NeverEnds(TokensFrom("a", 0), EndsBadly("a", 0), LCURLY)
    ensures EndsBadly("a @", 0) && !NeverEnds(TokensFrom("a @", 0), EndsBadly("a @", 0), LCURLY)
    ensures ParseOf("a @") == Raised
  {
    hide Track, Rounds, TokenFrom, EndFrom, SkipTo;
    LexesLetter("a");
    LexesLetter("a @");
    EndOfLetter();
    RejectsAt();
    SkipNeverEnds(TokensFrom("a", 0), EndsBadly("a", 0), LCURLY);
    SkipNeverEnds(TokensFrom("a @", 0), EndsBadly("a @", 0), LCURLY);
  }

  lemma LexesLetter(buf: string)
    requires buf == "a" || buf == "a @"
    ensures EndFrom(buf, 0) == 1 && TokenFrom(buf, 0).Some? && TokenFrom(buf, 0).value.kind == ID
  {
    hide Track;
    assert RunEnd(buf, 1, IsIdChar) == 1;
    assert RunEnd(buf, 0, IsIdChar) == 1;
    assert buf[0..1] == "a";
  }

  lemma EndOfLetter()
    ensures TokensFrom("a", 1) == [] && !EndsBadly("a", 1)
  {
    AtEnd("a");
  }

  lemma RejectsAt()
    ensures TokensFrom("a @", 1) == [] && EndsBadly("a @", 1)
  {
    hide Track;
    var buf := "a @";
    assert RunEnd(buf, 2, IsSpace) == 2;
    assert RunEnd(buf, 1, IsSpace) == 2;
    assert Scan(buf, 2) == (UNKNOWN, 3);
    assert Skipped(buf, 1) == Skipped(buf, 2) == 2;
  }
}
