// Graphs in dot as they may be written, and what parsing makes of them.
module DotGraphs {
  import opened Options
  import opened DotLexers
  import opened DotParsers
  import opened DotPlaces

  // A node with its port and compass point, which are dropped
  datatype Ref = Ref(id: string, port: seq<string>)

  // An attribute. Without a value it is "true"; the comma behind it is optional.
  datatype Attr = Attr(name: string, value: Option<string>, comma: bool)

  type Lists = seq<seq<Attr>>

  // A statement with its optional semicolon. A subgraph may come without keyword, without name
  // and without body; an edge has further operators in more.
  datatype Stmt =
    | AttrStmt(target: Kind, lists: Lists, semi: bool)
    | Sub(keyword: bool, id_: Option<string>, body: seq<Stmt>, semi: bool)
    | SubName(id_: Option<string>, semi: bool)
    | EdgeStmt(src: Ref, dst: Ref, more: seq<Ref>, lists: Lists, semi: bool)
    | NodeStmt(node: Ref, lists: Lists, semi: bool)
    | Assign(name: Ref, value: string, semi: bool)

  function PortTokens(port: seq<string>): seq<Token>
  {
    if port == [] then [] else [T(COLON), Name(port[0])] + PortTokens(port[1..])
  }

  function RefTokens(r: Ref): seq<Token>
  {
    [Name(r.id)] + PortTokens(r.port)
  }

  function Comma(there: bool): seq<Token>
  {
    if there then [T(COMMA)] else []
  }

  function Semi(there: bool): seq<Token>
  {
    if there then [T(SEMI)] else []
  }

  // name or name = value
  function AttrTokens(a: Attr): seq<Token>
  {
    [Name(a.name)] + (if a.value.Some? then [T(EQUAL), Name(a.value.value)] else [])
  }

  function AttrsTokens(attrs: seq<Attr>): seq<Token>
  {
    if attrs == [] then [] else AttrTokens(attrs[0]) + Comma(attrs[0].comma) + AttrsTokens(attrs[1..])
  }

  function ListsTokens(lists: Lists): seq<Token>
  {
    if lists == [] then [] else [T(LSQUARE)] + AttrsTokens(lists[0]) + [T(RSQUARE)] + ListsTokens(lists[1..])
  }

  function ArrowTokens(more: seq<Ref>): seq<Token>
  {
    if more == [] then [] else [T(EDGE_OP)] + RefTokens(more[0]) + ArrowTokens(more[1..])
  }

  function SubHead(keyword: bool, id: Option<string>): seq<Token>
  {
    (if keyword then [T(SUBGRAPH)] else []) + (if id.Some? then [Name(id.value)] else [])
  }

  // A statement without its semicolon
  function Head(s: Stmt): (ts: seq<Token>)
    ensures ts != []
    decreases s, 0
  {
    match s
    case AttrStmt(t, lists, _) => [T(t)] + ListsTokens(lists)
    case Sub(keyword, id, body, _) => SubHead(keyword, id) + ([T(LCURLY)] + AllTokens(body) + [T(RCURLY)])
    case SubName(id, _) => SubHead(true, id)
    case EdgeStmt(a, b, more, lists, _) =>
      RefTokens(a) + [T(EDGE_OP)] + RefTokens(b) + ArrowTokens(more) + ListsTokens(lists)
    case NodeStmt(node, lists, _) => RefTokens(node) + ListsTokens(lists)
    case Assign(name, value, _) => RefTokens(name) + [T(EQUAL), Name(value)]
  }

  function Tokens(s: Stmt): (ts: seq<Token>)
    ensures ts != []
    decreases s, 1
  {
    Head(s) + Semi(s.semi)
  }

  function AllTokens(ss: seq<Stmt>): seq<Token>
    decreases ss, 2
  {
    if ss == [] then [] else Tokens(ss[0]) + AllTokens(ss[1..])
  }

  // What a body goes on with: a statement or its closing brace
  predicate Starts(k: Kind)
  {
    k == ID || k == GRAPH || k == NODE || k == EDGE || k == SUBGRAPH || k == LCURLY || k == RCURLY
  }

  // Without a semicolon the statement must not run into what follows it.
  predicate Fits(s: Stmt, next: Kind)
  {
    s.semi || (Starts(next) && (s.SubName? ==> next != LCURLY && (s.id_ == None ==> next != ID)))
  }

  function First(ss: seq<Stmt>): Kind
  {
    if ss == [] then RCURLY else Look(Tokens(ss[0]))
  }

  predicate GoodRef(r: Ref)
  {
    |r.port| <= 2
  }

  predicate WellFormed(s: Stmt)
    decreases s
  {
    match s
    case AttrStmt(t, _, _) => t == GRAPH || t == NODE || t == EDGE
    case Sub(keyword, id, body, _) => (keyword || id == None) && WellFormedAll(body)
    case SubName(_, _) => true
    case EdgeStmt(a, b, _, _, _) => GoodRef(a) && GoodRef(b)
    case NodeStmt(node, _, _) => GoodRef(node)
    case Assign(name, _, _) => GoodRef(name)
  }

  predicate WellFormedAll(ss: seq<Stmt>)
    decreases ss
  {
    ss == [] || (WellFormed(ss[0]) && Fits(ss[0], First(ss[1..])) && WellFormedAll(ss[1..]))
  }

  // An edge with a second operator, at any depth
  predicate Chained(s: Stmt)
    decreases s
  {
    match s
    case Sub(_, _, body, _) => AnyChained(body)
    case EdgeStmt(_, _, more, _, _) => more != []
    case _ => false
  }

  predicate AnyChained(ss: seq<Stmt>)
    decreases ss
  {
    ss != [] && (Chained(ss[0]) || AnyChained(ss[1..]))
  }

  // A later attribute with the same name wins.
  function Dict(attrs: seq<Attr>, m: Attrs): Attrs
  {
    if attrs == [] then m
    else
      var a := attrs[0];
      Dict(attrs[1..], m[a.name := if a.value.Some? then a.value.value else "true"])
  }

  function DictAll(lists: Lists, m: Attrs): Attrs
  {
    if lists == [] then m else DictAll(lists[1..], Dict(lists[0], m))
  }

  // What a statement does to the three dictionaries and the calls of the handlers. With a chain in
  // it, it has no meaning.
  function Meaning(s: Stmt, st: State): State
    decreases s
  {
    match s
    case AttrStmt(t, lists, _) =>
      var more := DictAll(lists, map[]);
      (match t
       case GRAPH => st.(graphAttrs := st.graphAttrs + more, events := st.events + [HandleGraph(more)])
       case NODE => st.(nodeAttrs := st.nodeAttrs + more)
       case _ => st.(edgeAttrs := st.edgeAttrs + more))
    case Sub(_, _, body, _) => MeaningAll(body, st)
    case SubName(_, _) => st
    case EdgeStmt(a, b, _, lists, _) => st.(events := st.events + [HandleEdge(a.id, b.id, DictAll(lists, map[]))])
    case NodeStmt(node, lists, _) => st.(events := st.events + [HandleNode(node.id, DictAll(lists, map[]))])
    case Assign(_, _, _) => st
  }

  function MeaningAll(ss: seq<Stmt>, st: State): State
    decreases ss
  {
    if ss == [] then st else MeaningAll(ss[1..], Meaning(ss[0], st))
  }

  // ---------- the meaning of a whole graph ----------

  function Flat(lists: Lists): seq<Attr>
  {
    if lists == [] then [] else lists[0] + Flat(lists[1..])
  }

  // The attributes that a statement writes for this target, in order, nested subgraphs included
  function WrittenBy(s: Stmt, target: Kind): seq<Attr>
    decreases s
  {
    match s
    case AttrStmt(t, lists, _) => if t == target then Flat(lists) else []
    case Sub(_, _, body, _) => Written(body, target)
    case _ => []
  }

  function Written(ss: seq<Stmt>, target: Kind): seq<Attr>
    decreases ss
  {
    if ss == [] then [] else WrittenBy(ss[0], target) + Written(ss[1..], target)
  }

  // One call of a handler for each graph, node and edge statement, in order
  function HandledBy(s: Stmt): seq<Event>
    decreases s
  {
    match s
    case AttrStmt(t, lists, _) => if t == GRAPH then [HandleGraph(Dict(Flat(lists), map[]))] else []
    case Sub(_, _, body, _) => Handled(body)
    case EdgeStmt(a, b, _, lists, _) => [HandleEdge(a.id, b.id, Dict(Flat(lists), map[]))]
    case NodeStmt(node, lists, _) => [HandleNode(node.id, Dict(Flat(lists), map[]))]
    case _ => []
  }

  function Handled(ss: seq<Stmt>): seq<Event>
    decreases ss
  {
    if ss == [] then [] else HandledBy(ss[0]) + Handled(ss[1..])
  }

  // What a parser knows of a whole graph: each dictionary holds what the statements for its target
  // have written, a later attribute replacing an earlier one of the same name.
  function GraphOf(ss: seq<Stmt>): State
  {
    State(Dict(Written(ss, GRAPH), map[]), Dict(Written(ss, NODE), map[]), Dict(Written(ss, EDGE), map[]), Handled(ss))
  }

  // The last attribute of a name gives its value; without one the entry is as before.
  lemma {:induction false} LastAttributeWins(attrs: seq<Attr>, m: Attrs, name: string, k: int)
    requires -1 <= k < |attrs| && forall j :: k < j < |attrs| ==> attrs[j].name != name
    requires k >= 0 ==> attrs[k].name == name
    ensures var d := Dict(attrs, m);
            if k < 0 then (name in d <==> name in m) && (name in m ==> d[name] == m[name])
            else name in d && d[name] == if attrs[k].value.Some? then attrs[k].value.value else "true"
    decreases |attrs|
  {
    if attrs == [] {
    } else {
      var a := attrs[0];
      var m1 := m[a.name := if a.value.Some? then a.value.value else "true"];
      LastAttributeWins(attrs[1..], m1, name, if k > 0 then k - 1 else -1);
    }
  }

  lemma {:induction false} DictConcat(a: seq<Attr>, b: seq<Attr>, m: Attrs)
    ensures Dict(a + b, m) == Dict(b, Dict(a, m))
    decreases |a|
  {
    if a == [] {
      assert a + b == b;
    } else {
      assert (a + b)[1..] == a[1..] + b;
      DictConcat(a[1..], b, m[a[0].name := if a[0].value.Some? then a[0].value.value else "true"]);
    }
  }

  lemma {:induction false} DictUnion(attrs: seq<Attr>, n: Attrs, m: Attrs)
    ensures Dict(attrs, n + m) == n + Dict(attrs, m)
    decreases |attrs|
  {
    if attrs == [] {
    } else {
      var name, value := attrs[0].name, if attrs[0].value.Some? then attrs[0].value.value else "true";
      assert (n + m)[name := value] == n + m[name := value];
      DictUnion(attrs[1..], n, m[name := value]);
    }
  }

  // A union of dictionaries is what the attributes of both write.
  lemma DictOfBoth(a: seq<Attr>, b: seq<Attr>, n: Attrs)
    ensures n + Dict(a + b, map[]) == (n + Dict(a, map[])) + Dict(b, map[])
  {
    hide Dict;
    var d := Dict(a, map[]);
    DictConcat(a, b, map[]);
    assert d + map[] == d;
    DictUnion(b, d, map[]);
    assert n + (d + Dict(b, map[])) == (n + d) + Dict(b, map[]);
  }

  lemma {:induction false} DictOfLists(lists: Lists, m: Attrs)
    ensures DictAll(lists, m) == Dict(Flat(lists), m)
    decreases |lists|
  {
    if lists == [] {
    } else {
      hide Dict;
      DictConcat(lists[0], Flat(lists[1..]), m);
      DictOfLists(lists[1..], Dict(lists[0], m));
    }
  }

  // A state after these attributes and calls
  function Extended(st: State, graph: seq<Attr>, node: seq<Attr>, edge: seq<Attr>, events: seq<Event>): State
  {
    State(st.graphAttrs + Dict(graph, map[]), st.nodeAttrs + Dict(node, map[]), st.edgeAttrs + Dict(edge, map[]),
          st.events + events)
  }

  function After(st: State, ss: seq<Stmt>): State
  {
    Extended(st, Written(ss, GRAPH), Written(ss, NODE), Written(ss, EDGE), Handled(ss))
  }

  function AfterStmt(st: State, s: Stmt): State
  {
    Extended(st, WrittenBy(s, GRAPH), WrittenBy(s, NODE), WrittenBy(s, EDGE), HandledBy(s))
  }

  lemma NothingIsWritten(st: State)
    ensures After(st, []) == st
  {
    assert forall m: Attrs :: m + map[] == m;
  }

  lemma OneAfterAnother(st: State, ss: seq<Stmt>)
    requires ss != []
    ensures After(AfterStmt(st, ss[0]), ss[1..]) == After(st, ss)
  {
    hide Dict, WrittenBy, HandledBy;
    var s, rest := ss[0], ss[1..];
    DictOfBoth(WrittenBy(s, GRAPH), Written(rest, GRAPH), st.graphAttrs);
    DictOfBoth(WrittenBy(s, NODE), Written(rest, NODE), st.nodeAttrs);
    DictOfBoth(WrittenBy(s, EDGE), Written(rest, EDGE), st.edgeAttrs);
    assert st.events + (HandledBy(s) + Handled(rest)) == st.events + HandledBy(s) + Handled(rest);
  }

  lemma EmptyDict()
    ensures Dict([], map[]) == map[] && forall m: Attrs :: m + map[] == m
  {
  }

  lemma AttrStmtWrites(s: Stmt, st: State)
    requires s.AttrStmt? && WellFormed(s)
    ensures Meaning(s, st) == AfterStmt(st, s)
  {
    hide Dict, DictAll, Flat;
    EmptyDict();
    DictOfLists(s.lists, map[]);
  }

  lemma {:induction false} StmtWrites(s: Stmt, st: State)
    requires WellFormed(s)
    ensures Meaning(s, st) == AfterStmt(st, s)
    decreases s
  {
    hide Dict, DictAll, Flat, Handled, Written, WellFormedAll, MeaningAll, GoodRef;
    EmptyDict();
    match s
    case AttrStmt(_, _, _) => AttrStmtWrites(s, st);
    case Sub(_, _, body, _) => StmtsWrite(body, st);
    case EdgeStmt(_, _, _, lists, _) => DictOfLists(lists, map[]);
    case NodeStmt(_, lists, _) => DictOfLists(lists, map[]);
    case _ =>
  }

  lemma {:induction false} StmtsWrite(ss: seq<Stmt>, st: State)
    requires WellFormedAll(ss)
    ensures MeaningAll(ss, st) == After(st, ss)
    decreases ss
  {
    hide After, AfterStmt, Meaning, WellFormed, Fits;
    if ss == [] {
      NothingIsWritten(st);
    } else {
      StmtWrites(ss[0], st);
      StmtsWrite(ss[1..], Meaning(ss[0], st));
      OneAfterAnother(st, ss);
    }
  }

  // Read one after another, the statements of a graph make just that.
  lemma MeaningIsGraph(ss: seq<Stmt>)
    requires WellFormedAll(ss)
    ensures MeaningAll(ss, EMPTY) == GraphOf(ss)
  {
    hide MeaningAll, WellFormedAll, Dict, Written, Handled;
    StmtsWrite(ss, EMPTY);
    assert forall m: Attrs :: map[] + m == m;
  }

  // ---------- written statements parse to their meaning ----------

  lemma NextParses(t: Token, rest: seq<Token>, bad: bool)
    requires rest != []
    ensures Look([t] + rest) == t.kind && Consume([t] + rest, bad) == Good(rest)
    ensures t.kind == ID ==> ParseId([t] + rest, bad) == Good((t.text, rest))
  {
    assert ([t] + rest)[1..] == rest;
  }

  lemma PortsUnfold(r: Ref, rest: seq<Token>)
    requires rest != []
    ensures RefTokens(r) + rest == [Name(r.id)] + (PortTokens(r.port) + rest)
    ensures PortTokens(r.port) + rest
         == if r.port == [] then rest
            else [T(COLON)] + ([Name(r.port[0])] + (PortTokens(r.port[1..]) + rest))
    ensures PortTokens(r.port) + rest != []
  {
    if r.port == [] {
      assert PortTokens(r.port) + rest == rest;
    } else {
      assert PortTokens(r.port) == [T(COLON), Name(r.port[0])] + PortTokens(r.port[1..]);
    }
  }

  lemma PortParses(port: string, rest: seq<Token>, bad: bool)
    requires rest != []
    ensures var ts := [T(COLON)] + ([Name(port)] + rest);
            && Look(ts) == COLON && Consume(ts, bad) == Good([Name(port)] + rest)
            && ParseId([Name(port)] + rest, bad) == Good((port, rest))
  {
    hide Consume, ParseId;
    NextParses(T(COLON), [Name(port)] + rest, bad);
    NextParses(Name(port), rest, bad);
  }

  lemma RefParses(r: Ref, rest: seq<Token>, bad: bool)
    requires GoodRef(r) && rest != [] && Look(rest) != COLON
    ensures ParseNodeId(RefTokens(r) + rest, bad) == Good((r.id, rest))
  {
    hide ParseId, Consume, RefTokens, PortTokens;
    var tail := PortTokens(r.port) + rest;
    assert RefTokens(r) + rest == [Name(r.id)] + tail by {
      PortsUnfold(r, rest);
    }
    PortsUnfold(r, rest);
    NextParses(Name(r.id), tail, bad);
    if r.port != [] {
      var tail1 := PortTokens(r.port[1..]) + rest;
      PortParses(r.port[0], tail1, bad);
      PortsUnfold(Ref(r.id, []), rest);
      if |r.port| == 2 {
        PortsUnfold(Ref(r.id, r.port[1..]), rest);
        assert r.port[1..][1..] == [];
        PortParses(r.port[1], rest, bad);
      } else {
        assert r.port[1..] == [];
      }
    }
  }

  lemma AttrParses(a: Attr, rest: seq<Token>, bad: bool)
    requires rest != [] && (a.value == None ==> Look(rest) != EQUAL)
    ensures var value := if a.value.Some? then a.value.value else "true";
            ParseAttr(AttrTokens(a) + rest, bad) == Good(((a.name, value), rest))
  {
    hide ParseId, Consume;
    if a.value == None {
      assert AttrTokens(a) + rest == [Name(a.name)] + rest;
      NextParses(Name(a.name), rest, bad);
    } else {
      var t2 := [Name(a.value.value)] + rest;
      assert AttrTokens(a) + rest == [Name(a.name)] + ([T(EQUAL)] + t2);
      NextParses(Name(a.name), [T(EQUAL)] + t2, bad);
      NextParses(T(EQUAL), t2, bad);
      NextParses(Name(a.value.value), rest, bad);
    }
  }

  lemma AttrFirst(a: Attr, rest: seq<Token>)
    ensures AttrTokens(a) + rest != [] && Look(AttrTokens(a) + rest) == ID
  {
  }

  lemma AttrsGoOn(attrs: seq<Attr>, rest: seq<Token>)
    requires rest != [] && Look(rest) == RSQUARE
    ensures var ts := AttrsTokens(attrs) + rest;
            ts != [] && Look(ts) != EQUAL && Look(ts) != COMMA
  {
  }

  lemma AttrCommaParses(a: Attr, m: Attrs, rest: seq<Token>, bad: bool)
    requires rest != [] && Look(rest) != EQUAL && Look(rest) != COMMA
    ensures ParseAttrList(AttrTokens(a) + (Comma(a.comma) + rest), bad, m) == ParseAttrList(rest, bad, Dict([a], m))
  {
    hide ParseAttr, AttrTokens, Consume;
    var tail := Comma(a.comma) + rest;
    if a.comma {
      NextParses(T(COMMA), rest, bad);
    } else {
      assert tail == rest;
    }
    AttrParses(a, tail, bad);
    AttrFirst(a, tail);
    assert Dict([a][1..], m) == m;
  }

  lemma AttrsCons(a: Attr, more: seq<Attr>, m: Attrs)
    ensures AttrsTokens([a] + more) == AttrTokens(a) + Comma(a.comma) + AttrsTokens(more)
    ensures Dict([a] + more, m) == Dict(more, Dict([a], m))
  {
    hide AttrTokens;
    assert ([a] + more)[1..] == more && [a][1..] == [];
  }

  lemma AttrListEnds(ts: seq<Token>, bad: bool, m: Attrs)
    requires Look(ts) == RSQUARE
    ensures ParseAttrList(ts, bad, m) == Good((m, ts)) && ts == AttrsTokens([]) + ts && Dict([], m) == m
  {
    assert AttrsTokens([]) == [];
  }

  lemma {:induction false} AttrsParse(attrs: seq<Attr>, m: Attrs, rest: seq<Token>, bad: bool)
    requires rest != [] && Look(rest) == RSQUARE
    ensures ParseAttrList(AttrsTokens(attrs) + rest, bad, m) == Good((Dict(attrs, m), rest))
    decreases |attrs|
  {
    hide ParseAttrList, AttrTokens, AttrsTokens, Comma, Dict;
    AttrListEnds(rest, bad, m);
    if attrs == [] {
    } else {
      var a, tail := attrs[0], AttrsTokens(attrs[1..]) + rest;
      assert attrs == [a] + attrs[1..];
      AttrsCons(a, attrs[1..], m);
      AttrsGoOn(attrs[1..], rest);
      assert AttrsTokens(attrs) + rest == AttrTokens(a) + (Comma(a.comma) + tail);
      AttrCommaParses(a, m, tail, bad);
      AttrsParse(attrs[1..], Dict([a], m), rest, bad);
    }
  }

  lemma {:induction false} ListsParse(lists: Lists, m: Attrs, rest: seq<Token>, bad: bool)
    requires rest != [] && Look(rest) != LSQUARE
    ensures ParseAttrs(ListsTokens(lists) + rest, bad, m) == Good((DictAll(lists, m), rest))
    decreases |lists|
  {
    hide AttrsTokens, ParseAttrList, Consume, Dict;
    if lists == [] {
      assert ListsTokens(lists) + rest == rest;
    } else {
      var tail := ListsTokens(lists[1..]) + rest;
      var close := [T(RSQUARE)] + tail;
      assert ListsTokens(lists) + rest == [T(LSQUARE)] + (AttrsTokens(lists[0]) + close);
      NextParses(T(LSQUARE), AttrsTokens(lists[0]) + close, bad);
      AttrsParse(lists[0], m, close, bad);
      NextParses(T(RSQUARE), tail, bad);
      ListsParse(lists[1..], Dict(lists[0], m), rest, bad);
    }
  }

  // Behind a statement stands a semicolon, another statement or a closing brace.
  predicate Ends(k: Kind)
  {
    k == SEMI || Starts(k)
  }

  lemma ListsGoOn(lists: Lists, rest: seq<Token>)
    requires rest != [] && Ends(Look(rest))
    ensures var ts := ListsTokens(lists) + rest;
            ts != [] && Look(ts) != COLON && Look(ts) != EDGE_OP && Look(ts) != EQUAL
  {
  }

  lemma NodeParses(node: Ref, lists: Lists, st: State, rest: seq<Token>, bad: bool, semi: bool)
    requires GoodRef(node) && rest != [] && Ends(Look(rest))
    ensures var s := NodeStmt(node, lists, semi);
            ParseNamed(Head(s) + rest, bad, st) == Good((Meaning(s, st), rest))
  {
    hide ParseNodeId, ParseAttrs, RefTokens, ListsTokens, DictAll;
    assert Head(NodeStmt(node, lists, semi)) + rest == RefTokens(node) + (ListsTokens(lists) + rest);
    ListsGoOn(lists, rest);
    RefParses(node, ListsTokens(lists) + rest, bad);
    ListsParse(lists, map[], rest, bad);
  }

  lemma AssignParses(name: Ref, value: string, st: State, rest: seq<Token>, bad: bool, semi: bool)
    requires GoodRef(name) && rest != []
    ensures var s := Assign(name, value, semi);
            ParseNamed(Head(s) + rest, bad, st) == Good((Meaning(s, st), rest))
  {
    hide ParseNodeId, ParseAttrs, RefTokens, ParseId, Consume;
    var tail := [T(EQUAL)] + ([Name(value)] + rest);
    assert Head(Assign(name, value, semi)) + rest == RefTokens(name) + tail;
    RefParses(name, tail, bad);
    NextParses(T(EQUAL), [Name(value)] + rest, bad);
    NextParses(Name(value), rest, bad);
  }

  lemma NoArrows()
    ensures ArrowTokens([]) == []
  {
  }

  lemma NotABracket(k: Kind)
    requires Ends(k)
    ensures k != LSQUARE
  {
  }

  lemma ArrowsGoOn(more: seq<Ref>, rest: seq<Token>)
    requires rest != [] && Look(rest) != COLON && Look(rest) != EDGE_OP
    ensures var ts := ArrowTokens(more) + rest;
            ts != [] && Look(ts) != COLON && (Look(ts) == EDGE_OP <==> more != [])
  {
  }

  lemma RefFirst(r: Ref, rest: seq<Token>)
    ensures RefTokens(r) + rest != [] && Look(RefTokens(r) + rest) == ID
  {
  }

  // An edge statement is handled exactly when it has a single operator, whatever follows a second.
  lemma EdgeParses(s: Stmt, st: State, rest: seq<Token>, bad: bool)
    requires s.EdgeStmt? && WellFormed(s) && rest != [] && Ends(Look(rest))
    ensures ParseNamed(Head(s) + rest, bad, st) == if s.more == [] then Good((Meaning(s, st), rest)) else Raised
  {
    hide ParseNodeId, ParseAttrs, RefTokens, ListsTokens, DictAll, Consume, ParseChain, HandleEdges, ParseNamed,
        ArrowTokens, Ends;
    var tail := ArrowTokens(s.more) + (ListsTokens(s.lists) + rest);
    ListsGoOn(s.lists, rest);
    ArrowsGoOn(s.more, ListsTokens(s.lists) + rest);
    assert Head(s) + rest == RefTokens(s.src) + ([T(EDGE_OP)] + (RefTokens(s.dst) + tail));
    RefFirst(s.dst, tail);
    RefParses(s.src, [T(EDGE_OP)] + (RefTokens(s.dst) + tail), bad);
    NextParses(T(EDGE_OP), RefTokens(s.dst) + tail, bad);
    RefParses(s.dst, tail, bad);
    SecondOperatorRaises(Head(s) + rest, bad, st, s.src.id, [T(EDGE_OP)] + (RefTokens(s.dst) + tail),
                         RefTokens(s.dst) + tail, s.dst.id, tail);
    if s.more == [] {
      OneEdge(s.src.id, s.dst.id, DictAll(s.lists, map[]));
      assert ArrowTokens([]) == [] && tail == ListsTokens(s.lists) + rest by {
        NoArrows();
      }
      NotABracket(Look(rest));
      ListsParse(s.lists, map[], rest, bad);
    }
  }

  lemma DefaultsParse(t: Kind, lists: Lists, st: State, rest: seq<Token>, bad: bool, semi: bool)
    requires (t == GRAPH || t == NODE || t == EDGE) && rest != [] && Ends(Look(rest))
    ensures var s := AttrStmt(t, lists, semi);
            ParseDefaults(Head(s) + rest, bad, st) == Good((Meaning(s, st), rest))
  {
    hide ParseAttrs, ListsTokens, DictAll, Consume;
    assert Head(AttrStmt(t, lists, semi)) + rest == [T(t)] + (ListsTokens(lists) + rest);
    ListsGoOn(lists, rest);
    NextParses(T(t), ListsTokens(lists) + rest, bad);
    ListsParse(lists, map[], rest, bad);
  }

  lemma SubHeadParses(id: Option<string>, rest: seq<Token>, bad: bool)
    requires rest != [] && (id == None ==> Look(rest) != ID)
    ensures var ts := SubHead(true, id) + rest;
            Look(ts) == SUBGRAPH && SubgraphName(ts, bad) == Good(rest)
  {
    hide Consume;
    if id == None {
      assert SubHead(true, id) + rest == [T(SUBGRAPH)] + rest;
      NextParses(T(SUBGRAPH), rest, bad);
    } else {
      assert SubHead(true, id) + rest == [T(SUBGRAPH)] + ([Name(id.value)] + rest);
      NextParses(T(SUBGRAPH), [Name(id.value)] + rest, bad);
      NextParses(Name(id.value), rest, bad);
    }
  }

  lemma SubParses(s: Stmt, st: State, rest: seq<Token>, bad: bool)
    requires s.Sub? && WellFormed(s) && rest != []
    requires ParseStmts(AllTokens(s.body) + ([T(RCURLY)] + rest), bad, st)
          == if AnyChained(s.body) then Raised else Good((MeaningAll(s.body, st), [T(RCURLY)] + rest))
    ensures var ts := Head(s) + rest;
            && (Look(ts) == SUBGRAPH || Look(ts) == LCURLY)
            && ParseSubgraph(ts, bad, st) == if Chained(s) then Raised else Good((Meaning(s, st), rest))
  {
    hide ParseStmts, AllTokens, MeaningAll, SubgraphName, Consume, WellFormedAll, AnyChained;
    var inner := AllTokens(s.body) + ([T(RCURLY)] + rest);
    var brace := [T(LCURLY)] + inner;
    assert Head(s) + rest == SubHead(s.keyword, s.id_) + brace;
    if s.keyword {
      SubHeadParses(s.id_, brace, bad);
    } else {
      assert SubHead(s.keyword, s.id_) + brace == brace;
    }
    NextParses(T(LCURLY), inner, bad);
    NextParses(T(RCURLY), rest, bad);
  }

  lemma SubNameParses(s: Stmt, st: State, rest: seq<Token>, bad: bool)
    requires s.SubName? && rest != [] && Look(rest) != LCURLY && (s.id_ == None ==> Look(rest) != ID)
    ensures var ts := Head(s) + rest;
            Look(ts) == SUBGRAPH && ParseSubgraph(ts, bad, st) == Good((Meaning(s, st), rest))
  {
    hide SubgraphName, SubHead;
    SubHeadParses(s.id_, rest, bad);
  }

  lemma SemiParses(s: Stmt, rest: seq<Token>, bad: bool)
    requires rest != [] && Fits(s, Look(rest))
    ensures var ts := Semi(s.semi) + rest;
            && ts != [] && Ends(Look(ts)) && SkipSemi(ts, bad) == Good(rest)
            && (s.SubName? ==> Look(ts) != LCURLY && (s.id_ == None ==> Look(ts) != ID))
  {
    hide Consume;
    if s.semi {
      NextParses(T(SEMI), rest, bad);
    } else {
      assert Semi(s.semi) + rest == rest;
    }
  }

  // parse_stmt in front of its optional semicolon
  function ParseBare(ts: seq<Token>, bad: bool, st: State): Parsed<State>
    requires ts != []
  {
    if Look(ts) == GRAPH || Look(ts) == NODE || Look(ts) == EDGE then ParseDefaults(ts, bad, st)
    else if Look(ts) == SUBGRAPH || Look(ts) == LCURLY then ParseSubgraph(ts, bad, st)
    else ParseNamed(ts, bad, st)
  }

  lemma BareThenSemi(ts: seq<Token>, bad: bool, st: State)
    requires ts != []
    ensures var bare := ParseBare(ts, bad, st);
            var semi := if bare.Good? then SkipSemi(bare.value.1, bad) else Raised;
            ParseStmt(ts, bad, st) == if semi.Good? then Good((bare.value.0, semi.value)) else Raised
  {
    hide ParseNamed, ParseDefaults, ParseSubgraph, SkipSemi;
  }

  lemma HeadFirst(s: Stmt, rest: seq<Token>)
    requires WellFormed(s)
    ensures var k := Look(Head(s) + rest);
            && k == Look(Head(s)) == Look(Tokens(s)) && Starts(k) && k != RCURLY
            && match s
               case AttrStmt(t, _, _) => k == t
               case Sub(_, _, _, _) => k == SUBGRAPH || k == LCURLY
               case SubName(_, _) => k == SUBGRAPH
               case _ => k == ID
  {
    hide ListsTokens, AllTokens, PortTokens, ArrowTokens, Semi;
  }

  lemma {:induction false} HeadParses(s: Stmt, st: State, rest: seq<Token>, bad: bool)
    requires WellFormed(s) && rest != [] && Ends(Look(rest))
    requires s.SubName? ==> Look(rest) != LCURLY && (s.id_ == None ==> Look(rest) != ID)
    ensures ParseBare(Head(s) + rest, bad, st) == if Chained(s) then Raised else Good((Meaning(s, st), rest))
    decreases s, 0
  {
    hide ParseNamed, ParseDefaults, ParseSubgraph, ParseStmts, Head, Meaning, Semi, AnyChained;
    HeadFirst(s, rest);
    match s
    case AttrStmt(t, lists, semi) => DefaultsParse(t, lists, st, rest, bad, semi);
    case Sub(_, _, body, _) =>
      StmtsParse(body, st, [T(RCURLY)] + rest, bad);
      SubParses(s, st, rest, bad);
    case SubName(_, _) => SubNameParses(s, st, rest, bad);
    case EdgeStmt(_, _, _, _, _) => EdgeParses(s, st, rest, bad);
    case NodeStmt(node, lists, semi) => NodeParses(node, lists, st, rest, bad, semi);
    case Assign(name, value, semi) => AssignParses(name, value, st, rest, bad, semi);
  }

  // What a statement means is what parsing its plain tokens does, unless there is a chain in it.
  lemma {:induction false} PlainStmtParses(s: Stmt, st: State, rest: seq<Token>, bad: bool)
    requires WellFormed(s) && rest != [] && Fits(s, Look(rest))
    ensures ParseStmt(Tokens(s) + rest, bad, st) == if Chained(s) then Raised else Good((Meaning(s, st), rest))
    decreases s, 1
  {
    hide ParseBare, ParseStmt, Head, Meaning, SkipSemi, Semi, Chained, WellFormed, Fits, Ends, Look;
    var tail := Semi(s.semi) + rest;
    SemiParses(s, rest, bad);
    assert Tokens(s) + rest == Head(s) + tail;
    HeadParses(s, st, tail, bad);
    BareThenSemi(Head(s) + tail, bad, st);
  }

  lemma FirstLooks(ss: seq<Stmt>, rest: seq<Token>)
    requires WellFormedAll(ss) && rest != [] && Look(rest) == RCURLY
    ensures Look(AllTokens(ss) + rest) == First(ss) && AllTokens(ss) + rest != []
    ensures First(ss) == RCURLY <==> ss == []
  {
    hide Tokens, WellFormed, Fits;
    if ss == [] {
      assert AllTokens(ss) + rest == rest;
    } else {
      assert AllTokens(ss) + rest == Tokens(ss[0]) + (AllTokens(ss[1..]) + rest);
      HeadFirst(ss[0], []);
    }
  }

  lemma {:induction false} StmtsParse(ss: seq<Stmt>, st: State, rest: seq<Token>, bad: bool)
    requires WellFormedAll(ss) && rest != [] && Look(rest) == RCURLY
    ensures ParseStmts(AllTokens(ss) + rest, bad, st)
         == if AnyChained(ss) then Raised else Good((MeaningAll(ss, st), rest))
    decreases ss, 2
  {
    hide ParseStmt, Tokens, Meaning, WellFormed, Chained, Fits, First;
    FirstLooks(ss, rest);
    if ss == [] {
      assert AllTokens(ss) + rest == rest;
    } else {
      var tail := AllTokens(ss[1..]) + rest;
      FirstLooks(ss[1..], rest);
      assert AllTokens(ss) + rest == Tokens(ss[0]) + tail;
      PlainStmtParses(ss[0], st, tail, bad);
      StmtsParse(ss[1..], Meaning(ss[0], st), rest, bad);
    }
  }

  // ---------- whole graphs ----------

  // The tokens of a whole graph, behind anything that holds no opening brace
  function GraphTokens(front: seq<Token>, ss: seq<Stmt>): seq<Token>
  {
    front + [T(LCURLY)] + AllTokens(ss) + [T(RCURLY)]
  }

  ghost predicate Braceless(front: seq<Token>)
  {
    forall k :: 0 <= k < |front| ==> front[k].kind != LCURLY
  }

  lemma {:induction false} SkipsFront(front: seq<Token>, rest: seq<Token>, bad: bool)
    requires rest != [] && Look(rest) == LCURLY && Braceless(front)
    ensures Ahead(front + rest, LCURLY) && SkipTo(front + rest, bad, LCURLY) == Good(rest)
    decreases |front|
  {
    if front == [] {
      assert front + rest == rest;
    } else {
      assert (front + rest)[1..] == front[1..] + rest;
      SkipsFront(front[1..], rest, bad);
    }
  }

  lemma PlainGraphParses(front: seq<Token>, ss: seq<Stmt>)
    requires WellFormedAll(ss) && Braceless(front)
    ensures Ahead(GraphTokens(front, ss), LCURLY)
    ensures Parse(GraphTokens(front, ss), false) == if AnyChained(ss) then Raised else Good(MeaningAll(ss, EMPTY))
  {
    hide AllTokens, ParseStmts, MeaningAll, SkipTo, WellFormedAll, AnyChained;
    var body := AllTokens(ss) + [T(RCURLY)];
    assert GraphTokens(front, ss) == front + ([T(LCURLY)] + body);
    SkipsFront(front, [T(LCURLY)] + body, false);
    NextParses(T(LCURLY), body, false);
    assert [T(RCURLY)][1..] == [];
    StmtsParse(ss, EMPTY, [T(RCURLY)], false);
  }

  // ---------- on the tokens of a file ----------

  // What a statement means is what parsing its tokens does, wherever they stand in a file; with a
  // chain in it, it raises.
  lemma StmtParses(s: Stmt, st: State, ts: seq<Token>, rest: seq<Token>, bad: bool)
    requires WellFormed(s) && rest != [] && Fits(s, Look(rest)) && Project(ts) == Tokens(s) + rest
    ensures var r := ParseStmt(ts, bad, st);
            if Chained(s) then r == Raised
            else r.Good? && r.value.0 == Meaning(s, st) && Project(r.value.1) == rest
  {
    hide ParseStmt, Tokens, Meaning, WellFormed, Project, Chained, Fits;
    PlainStmtParses(s, st, rest, bad);
    StmtProjects(ts, bad, st);
  }

  // An edge statement is accepted exactly when it has a single operator, however many there are,
  // whatever follows it and wherever it stands: a -> b -> c raises.
  lemma ChainsRaise(s: Stmt, st: State, ts: seq<Token>, rest: seq<Token>, bad: bool)
    requires s.EdgeStmt? && WellFormed(s) && rest != [] && Fits(s, Look(rest)) && Project(ts) == Tokens(s) + rest
    ensures ParseStmt(ts, bad, st).Good? <==> s.more == []
  {
    hide ParseStmt, Tokens, WellFormed, Project, Fits;
    StmtParses(s, st, ts, rest, bad);
  }

  // A graph without a chain parses to just that, however it is spelled: every handler is called
  // with its arguments, in order, and the dictionaries hold what was written. With a chain anywhere
  // in it, nested subgraphs included, it raises.
  lemma GraphParses(ts: seq<Token>, front: seq<Token>, ss: seq<Stmt>)
    requires WellFormedAll(ss) && Braceless(front) && Project(ts) == GraphTokens(front, ss)
    ensures Ahead(ts, LCURLY)
    ensures Parse(ts, false) == if AnyChained(ss) then Raised else Good(GraphOf(ss))
  {
    hide Parse, GraphTokens, MeaningAll, GraphOf, WellFormedAll, Project, AnyChained;
    PlainGraphParses(front, ss);
    MeaningIsGraph(ss);
    AheadProjects(ts, LCURLY);
    ParseProjects(ts, false);
  }
}
