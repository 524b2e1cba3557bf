// Fields by name: lookup, dotted lookup, merging objects and maps of fields.
module BsonFields {
  import opened Bytes
  import opened Options
  import opened BsonLayout
  import opened BsonDocuments
  import opened BsonPrint

  const DOT: Byte := 46

  // ---------- lookup in a document ----------

  // The first field with this name
  function Get(es: seq<Element>, name: seq<Byte>): (r: Option<Element>)
    ensures r.Some? ==> r.value.name == name && r.value in es
  {
    if es == [] then None
    else if es[0].name == name then Some(es[0])
    else Get(es[1..], name)
  }

  lemma {:induction false} GetIsFirst(es: seq<Element>, name: seq<Byte>, k: nat)
    requires k <= |es| && forall j :: 0 <= j < k ==> es[j].name != name
    requires k < |es| ==> es[k].name == name
    ensures Get(es, name) == if k < |es| then Some(es[k]) else None
    decreases k
  {
    if k == 0 {
    } else {
      GetIsFirst(es[1..], name, k - 1);
    }
  }

  function IndexOf(s: seq<Byte>, c: Byte): (i: nat)
    ensures i <= |s| && (i < |s| ==> s[i] == c) && c !in s[..i]
  {
    if s == [] || s[0] == c then 0
    else
      var i := IndexOf(s[1..], c);
      assert s[..i + 1] == [s[0]] + s[1..][..i];
      i + 1
  }

  // getObjectField: the fields of an embedded object or array; anything else counts as empty.
  function Inside(e: Option<Element>): seq<Element>
  {
    if e.Some? && e.value.value.Document? then e.value.value.fields else []
  }

  // getFieldDotted
  function GetDotted(es: seq<Element>, name: seq<Byte>): Option<Element>
    decreases |name|
  {
    var e := Get(es, name);
    var i := IndexOf(name, DOT);
    if e.Some? || i == |name| then e
    else
      var sub := Inside(Get(es, name[..i]));
      if sub == [] then None else GetDotted(sub, name[i + 1..])
  }

  function Split(name: seq<Byte>): (parts: seq<seq<Byte>>)
    ensures parts != []
    decreases |name|
  {
    var i := IndexOf(name, DOT);
    if i == |name| then [name] else [name[..i]] + Split(name[i + 1..])
  }

  // The parts hold no dots, and with dots between them they are the name again.
  function Join(parts: seq<seq<Byte>>): seq<Byte>
    requires parts != []
  {
    if |parts| == 1 then parts[0] else parts[0] + [DOT] + Join(parts[1..])
  }

  lemma {:induction false} SplitJoins(name: seq<Byte>)
    ensures Join(Split(name)) == name
    ensures forall part :: part in Split(name) ==> '.' as int !in part
    decreases |name|
  {
    var i := IndexOf(name, DOT);
    if i == |name| {
      assert name[..i] == name;
    } else {
      var rest := Split(name[i + 1..]);
      SplitJoins(name[i + 1..]);
      assert Split(name)[1..] == rest;
      assert name == name[..i] + [DOT] + name[i + 1..];
    }
  }

  // One first-match lookup per part
  function Descend(es: seq<Element>, parts: seq<seq<Byte>>): Option<Element>
    requires parts != []
    decreases |parts|
  {
    if |parts| == 1 then Get(es, parts[0]) else Descend(Inside(Get(es, parts[0])), parts[1..])
  }

  // A path leads into embedded objects and arrays alike, and into nothing else.
  lemma PathLeadsInside(v: Value, w: Value)
    ensures var inner := [Element([98], w)];
            GetDotted([Element([97], Document(true, inner))], [97, 46, 98]) == Some(inner[0])
            == GetDotted([Element([97], Document(false, inner))], [97, 46, 98])
    ensures !v.Document? ==> GetDotted([Element([97], v)], [97, 46, 98]) == None
  {
    var path: seq<Byte> := [97, 46, 98];
    assert path[..1] == [97] && path[2..] == [98] && path[1..][0] == 46;
    assert IndexOf(path, DOT) == 1 && IndexOf([98], DOT) == 1;
    assert forall e: Element :: [e][1..] == [];
  }

  predicate NoDots(v: Value)
    decreases v
  {
    v.Document? ==> NoDotsInside(v.fields)
  }

  predicate NoDotsElement(e: Element)
    decreases e
  {
    DOT !in e.name && NoDots(e.value)
  }

  predicate NoDotsInside(es: seq<Element>)
    decreases es
  {
    es == [] || (NoDotsElement(es[0]) && NoDotsInside(es[1..]))
  }

  lemma {:induction false} NoDotsMembers(es: seq<Element>, e: Element)
    requires NoDotsInside(es) && e in es
    ensures DOT !in e.name && NoDots(e.value)
  {
    if e == es[0] {
    } else {
      NoDotsMembers(es[1..], e);
    }
  }

  lemma {:induction false} NothingToDescend(parts: seq<seq<Byte>>)
    requires parts != []
    ensures Descend([], parts) == None
    decreases |parts|
  {
    if |parts| > 1 {
      NothingToDescend(parts[1..]);
    }
  }

  // At every level of the path: there is no dot left, or no field has the whole rest of the path
  // for its name.
  predicate NothingHides(es: seq<Element>, name: seq<Byte>)
    decreases |name|
  {
    var i := IndexOf(name, DOT);
    i == |name|
    || (Get(es, name) == None
        && var sub := Inside(Get(es, name[..i]));
           sub == [] || NothingHides(sub, name[i + 1..]))
  }

  lemma DescentSteps(es: seq<Element>, name: seq<Byte>)
    requires IndexOf(name, DOT) < |name|
    ensures var i := IndexOf(name, DOT);
            var sub := Inside(Get(es, name[..i]));
            && Descend(es, Split(name)) == Descend(sub, Split(name[i + 1..]))
            && (sub == [] ==> Descend(es, Split(name)) == None)
  {
    hide Get, IndexOf, Inside;
    var i := IndexOf(name, DOT);
    var parts := Split(name[i + 1..]);
    assert Split(name)[1..] == parts;
    NothingToDescend(parts);
  }

  // A hidden path is never found by descent: what descent finds is the last part's field, whose
  // name has no dot, while the field that hides it has one.
  lemma {:induction false} DescentFindsNoDot(es: seq<Element>, name: seq<Byte>)
    ensures var r := Descend(es, Split(name));
            r.Some? ==> DOT !in r.value.name
    decreases |name|
  {
    hide Descend, Get, Split;
    var i := IndexOf(name, DOT);
    if i == |name| {
      WholeName(es, name);
    } else {
      DescentSteps(es, name);
      DescentFindsNoDot(Inside(Get(es, name[..i])), name[i + 1..]);
    }
  }

  lemma WholeName(es: seq<Element>, name: seq<Byte>)
    requires IndexOf(name, DOT) == |name|
    ensures Descend(es, Split(name)) == Get(es, name) && DOT !in name && GetDotted(es, name) == Get(es, name)
  {
    assert name[..|name|] == name;
  }

  // Dotted lookup is descent along the parts of the path exactly when nothing hides the path.
  lemma {:induction false} DottedIsDescentExactly(es: seq<Element>, name: seq<Byte>)
    ensures GetDotted(es, name) == Descend(es, Split(name)) <==> NothingHides(es, name)
    decreases |name|
  {
    var i := IndexOf(name, DOT);
    if i == |name| {
      WholeName(es, name);
    } else {
      hide Descend, Split, Get, IndexOf;
      DescentSteps(es, name);
      DescentFindsNoDot(es, name);
      assert DOT in name;
      var sub := Inside(Get(es, name[..i]));
      if Get(es, name) == None {
        DottedDescends(es, name);
        DottedIsDescentExactly(sub, name[i + 1..]);
      }
    }
  }

  lemma {:induction false} NoDotsHideNothing(es: seq<Element>, name: seq<Byte>)
    requires NoDotsInside(es)
    ensures NothingHides(es, name)
    decreases |name|
  {
    hide Get, IndexOf;
    var i := IndexOf(name, DOT);
    if i == |name| {
    } else {
      var whole, left := Get(es, name), Get(es, name[..i]);
      assert DOT in name;
      if whole.Some? {
        NoDotsMembers(es, whole.value);
      }
      if left.Some? {
        NoDotsMembers(es, left.value);
      }
      NoDotsHideNothing(Inside(left), name[i + 1..]);
    }
  }

  // So it is without dots in field names.
  lemma DottedIsDescent(es: seq<Element>, name: seq<Byte>)
    requires NoDotsInside(es)
    ensures GetDotted(es, name) == Descend(es, Split(name))
  {
    NoDotsHideNothing(es, name);
    DottedIsDescentExactly(es, name);
  }

  // A field whose own name has a dot hides what a descent would find.
  lemma DottedNameHidesPath()
    ensures var one, two := Fixed(NULL, []), Fixed(UNDEFINED, []);
            var es := [Element([1, DOT, 2], one), Element([1], Document(false, [Element([2], two)]))];
            GetDotted(es, [1, DOT, 2]) == Some(Element([1, DOT, 2], one))
            && Descend(es, Split([1, DOT, 2])) == Some(Element([2], two))
  {
    var one, two := Fixed(NULL, []), Fixed(UNDEFINED, []);
    var name: seq<Byte> := [1, DOT, 2];
    var inner := [Element([2], two)];
    var es := [Element(name, one), Element([1], Document(false, inner))];
    assert name[1..] == [DOT, 2];
    assert IndexOf(name, DOT) == 1;
    assert name[..1] == [1] && name[2..] == [2];
    var last: seq<Byte> := [2];
    assert last[1..] == [] && IndexOf(last, DOT) == 1;
    assert Split([2]) == [[2]];
    assert Split(name) == [[1]] + [[2]];
    assert Split(name)[1..] == [[2]];
    assert Get(es, [1]) == Get(es[1..], [1]);
    assert Inside(Get(es, [1])) == inner;
  }

  // ---------- merging ----------

  function Without(xs: seq<Element>, names: set<seq<Byte>>): seq<Element>
  {
    if xs == [] then []
    else (if xs[0].name in names then [] else [xs[0]]) + Without(xs[1..], names)
  }

  function Names(es: seq<Element>): set<seq<Byte>>
  {
    if es == [] then {} else {es[0].name} + Names(es[1..])
  }

  lemma {:induction false} NamesAreFound(es: seq<Element>, name: seq<Byte>)
    ensures name in Names(es) <==> Get(es, name).Some?
  {
    if es == [] {
    } else {
      NamesAreFound(es[1..], name);
    }
  }

  lemma {:induction false} GetFromConcat(a: seq<Element>, b: seq<Element>, name: seq<Byte>)
    ensures Get(a + b, name) == if Get(a, name).Some? then Get(a, name) else Get(b, name)
    decreases |a|
  {
    if a == [] {
      assert a + b == b;
    } else {
      assert (a + b)[1..] == a[1..] + b;
      GetFromConcat(a[1..], b, name);
    }
  }

  lemma {:induction false} GetFromWithout(xs: seq<Element>, names: set<seq<Byte>>, name: seq<Byte>)
    ensures Get(Without(xs, names), name) == if name in names then None else Get(xs, name)
    decreases |xs|
  {
    if xs == [] {
    } else {
      GetFromWithout(xs[1..], names, name);
      var rest := Without(xs[1..], names);
      assert ([xs[0]] + rest)[1..] == rest;
      assert [] + rest == rest;
    }
  }

  // What appendElementsUnique leaves in a builder that held b
  function Unique(b: seq<Element>, xs: seq<Element>): seq<Element>
  {
    b + Without(xs, Names(b))
  }

  // First-match lookup in the result is a left-biased union.
  lemma UniqueIsLeftBiased(b: seq<Element>, xs: seq<Element>, name: seq<Byte>)
    ensures Get(Unique(b, xs), name) == if Get(b, name).Some? then Get(b, name) else Get(xs, name)
  {
    GetFromConcat(b, Without(xs, Names(b)), name);
    GetFromWithout(xs, Names(b), name);
    NamesAreFound(b, name);
  }

  // Everything of x is kept, repeated names included, exactly when none of its names is in b.
  lemma RepeatedFieldsAreKept(b: seq<Element>, xs: seq<Element>)
    ensures Unique(b, xs) == b + xs <==> Names(xs) !! Names(b)
  {
    WithoutKeepsAll(xs, Names(b));
    var kept := Without(xs, Names(b));
    if b + kept == b + xs {
      assert kept == (b + kept)[|b|..] == xs;
    }
  }

  lemma {:induction false} WithoutKeepsAll(xs: seq<Element>, names: set<seq<Byte>>)
    ensures |Without(xs, names)| <= |xs| && (Without(xs, names) == xs <==> Names(xs) !! names)
    decreases |xs|
  {
    if xs == [] {
    } else {
      var rest := Without(xs[1..], names);
      WithoutKeepsAll(xs[1..], names);
      assert xs == [xs[0]] + xs[1..];
      if xs[0].name in names {
        assert [] + rest == rest;
      } else {
        assert ([xs[0]] + rest)[1..] == rest;
      }
    }
  }

  // bson2map: a later field with the same name replaces an earlier one.
  function ToMap(es: seq<Element>, m: map<seq<Byte>, Element>): map<seq<Byte>, Element>
  {
    if es == [] then m else ToMap(es[1..], m[es[0].name := es[0]])
  }

  function Last(es: seq<Element>, name: seq<Byte>): Option<Element>
  {
    if es == [] then None
    else if Last(es[1..], name).Some? then Last(es[1..], name)
    else if es[0].name == name then Some(es[0])
    else None
  }

  lemma {:induction false} LastIsLast(es: seq<Element>, name: seq<Byte>, k: int)
    requires -1 <= k < |es| && forall j :: k < j < |es| ==> es[j].name != name
    requires k >= 0 ==> es[k].name == name
    ensures Last(es, name) == if k >= 0 then Some(es[k]) else None
    decreases |es|
  {
    if es == [] {
    } else {
      LastIsLast(es[1..], name, if k >= 0 then k - 1 else -1) by {
        assert k != 0 || forall j :: 0 <= j < |es[1..]| ==> es[1..][j].name != name;
      }
    }
  }

  lemma {:induction false} MapHoldsLast(es: seq<Element>, m: map<seq<Byte>, Element>, name: seq<Byte>)
    ensures var r := ToMap(es, m);
            if Last(es, name).Some? then name in r && r[name] == Last(es, name).value
            else (name in r <==> name in m) && (name in m ==> r[name] == m[name])
    decreases |es|
  {
    if es == [] {
    } else {
      MapHoldsLast(es[1..], m[es[0].name := es[0]], name);
    }
  }

  // ---------- the same on bytes ----------

  // A field at this position, none, or a walk that fails
  datatype Lookup = Missing | Found(q: nat) | Broken

  function NameBytes(mem: seq<Byte>, q: nat): seq<Byte>
    requires q < |mem|
  {
    match FieldNameSize(mem, q, UNCHECKED)
    case Size(k) => if k == 0 then [] else mem[q + 1..q + k]
    case _ => []
  }

  // getField from the cursor q on
  function FindFrom(mem: seq<Byte>, q: nat, end: nat, name: seq<Byte>): (r: Lookup)
    requires end <= |mem|
    ensures r.Found? ==> r.q < |mem|
    decreases end - q
  {
    if q >= end || mem[q] == 0 then Missing
    else
      match ElementSize(mem, q, UNCHECKED)
      case Size(n) =>
        if n <= 0 then Broken
        else if NameBytes(mem, q) == name then Found(q)
        else FindFrom(mem, q + n, end, name)
      case _ => Broken
  }

  // getField on the object at p
  function GetField(mem: seq<Byte>, p: nat, name: seq<Byte>): (r: Lookup)
    ensures r.Found? ==> r.q < |mem|
  {
    if p + 4 > |mem| then Broken
    else
      var size := I32(mem, p);
      if size <= 0 || p + size > |mem| then Broken else FindFrom(mem, p + 4, p + size, name)
  }

  // getFieldDotted on the object at p
  function GetFieldDotted(mem: seq<Byte>, p: nat, name: seq<Byte>): Lookup
    decreases |name|
  {
    var e := GetField(mem, p, name);
    var i := IndexOf(name, DOT);
    if !e.Missing? || i == |name| then e
    else
      match GetField(mem, p, name[..i])
      case Missing => Missing
      case Broken => Broken
      case Found(q) =>
        if mem[q] != OBJECT && mem[q] != ARRAY then Missing
        else
          match FieldNameSize(mem, q, UNCHECKED)
          case Size(k) =>
            var v := q + 1 + k;
            if v + 4 > |mem| || I32(mem, v) <= 0 || I32(mem, v) > MAX_INTERNAL_SIZE then Broken
            else if I32(mem, v) <= 5 then Missing
            else GetFieldDotted(mem, v, name[i + 1..])
          case _ => Broken
  }

  // A lookup in memory finds the encoding of what the lookup in the document finds.
  ghost predicate Finds(mem: seq<Byte>, r: Lookup, e: Option<Element>)
  {
    match e
    case None => r == Missing
    case Some(x) => r.Found? && At(mem, r.q, EncodeElement(x))
  }

  lemma NameIsThere(mem: seq<Byte>, q: nat, e: Element)
    requires WellFormedElement(e) && At(mem, q, EncodeElement(e))
    ensures FieldNameSize(mem, q, UNCHECKED) == Size(|e.name| + 1) && NameBytes(mem, q) == e.name
    ensures mem[q] == TypeByte(e.value) != EOO
  {
    hide EncodeElement, WellFormedValue, FieldNameSize;
    ElementParts(mem, q, e);
    TypeIsNotEOO(e.value);
    NameMeasures(mem, q, e, UNCHECKED);
    AtSplits(mem, q + 1, e.name, [0]);
  }

  lemma FindStops(mem: seq<Byte>, q: nat, end: nat, name: seq<Byte>)
    requires q < end <= |mem| && mem[q] == 0
    ensures FindFrom(mem, q, end, name) == Missing
  {
  }

  lemma FindSteps(mem: seq<Byte>, q: nat, n: nat, end: nat, name: seq<Byte>)
    requires q < end <= |mem| && mem[q] != 0 && n > 0 && ElementSize(mem, q, UNCHECKED) == Size(n)
    ensures FindFrom(mem, q, end, name)
         == if NameBytes(mem, q) == name then Found(q) else FindFrom(mem, q + n, end, name)
  {
    hide ElementSize, NameBytes;
  }

  lemma GetSteps(es: seq<Element>, name: seq<Byte>)
    requires es != []
    ensures Get(es, name) == if es[0].name == name then Some(es[0]) else Get(es[1..], name)
  {
  }

  lemma {:induction false} FindFinds(mem: seq<Byte>, q: nat, es: seq<Element>, end: nat, name: seq<Byte>)
    requires WellFormed(es) && At(mem, q, EncodeElements(es) + [0])
    requires end == q + |EncodeElements(es)| + 1 && |EncodeElements(es)| < TWO31
    ensures Finds(mem, FindFrom(mem, q, end, name), Get(es, name))
    decreases |es|
  {
    hide EncodeElement, ElementSize, WellFormedElement, NameBytes, FindFrom, Get;
    if es == [] {
      AtByte(mem, q, [0], 0);
      assert EncodeElements(es) + [0] == [0] && Get(es, name) == None;
      FindStops(mem, q, end, name);
    } else {
      hide At, EncodeElements;
      var e := EncodeElement(es[0]);
      FirstStands(mem, q, es);
      ElementMeasuresInObject(mem, q, es[0], end, false);
      NameIsThere(mem, q, es[0]);
      FindSteps(mem, q, |e|, end, name);
      GetSteps(es, name);
      FindFinds(mem, q + |e|, es[1..], end, name);
    }
  }

  lemma GetFieldFinds(mem: seq<Byte>, p: nat, es: seq<Element>, name: seq<Byte>)
    requires WellFormed(es) && Modest(es) && At(mem, p, Encode(es))
    ensures Finds(mem, GetField(mem, p, name), Get(es, name))
  {
    hide EncodeElements, I32, FindFrom, Finds, ModestElements;
    FrameSize(mem, p, EncodeElements(es));
    FindFinds(mem, p + 4, es, p + I32(mem, p), name);
  }

  lemma {:induction false} MembersAreGood(es: seq<Element>, e: Element)
    requires WellFormed(es) && ModestElements(es) && e in es
    ensures WellFormedElement(e) && ModestElement(e)
  {
    if e == es[0] {
    } else {
      MembersAreGood(es[1..], e);
    }
  }

  lemma DocumentStands(mem: seq<Byte>, q: nat, e: Element)
    requires WellFormedElement(e) && ModestElement(e) && At(mem, q, EncodeElement(e)) && e.value.Document?
    ensures var v := q + 2 + |e.name|;
            && At(mem, v, Encode(e.value.fields)) && v + 4 <= |mem|
            && I32(mem, v) == |EncodeElements(e.value.fields)| + 5 <= MAX_INTERNAL_SIZE
            && WellFormed(e.value.fields) && Modest(e.value.fields)
  {
    hide EncodeElement, EncodeElements, I32;
    ElementParts(mem, q, e);
    ModestDocument(e);
    FrameSize(mem, q + 2 + |e.name|, EncodeElements(e.value.fields));
  }

  lemma ModestDocument(e: Element)
    requires WellFormedElement(e) && ModestElement(e) && e.value.Document?
    ensures WellFormed(e.value.fields) && Modest(e.value.fields)
        && |EncodeElements(e.value.fields)| + 5 <= MAX_INTERNAL_SIZE
  {
    assert ModestValue(e.value);
    assert Modest(e.value.fields);
  }

  // A dotted lookup that goes into the document at the front of its path
  lemma DottedGoesInside(mem: seq<Byte>, p: nat, name: seq<Byte>, q: nat, k: nat)
    requires GetField(mem, p, name) == Missing && IndexOf(name, DOT) < |name|
    requires GetField(mem, p, name[..IndexOf(name, DOT)]) == Found(q) && q < |mem|
    requires FieldNameSize(mem, q, UNCHECKED) == Size(k)
    ensures mem[q] != OBJECT && mem[q] != ARRAY ==> GetFieldDotted(mem, p, name) == Missing
    ensures var v := q + 1 + k;
            v + 4 <= |mem| && 0 < I32(mem, v) <= MAX_INTERNAL_SIZE && (mem[q] == OBJECT || mem[q] == ARRAY) ==>
              GetFieldDotted(mem, p, name) ==
              if I32(mem, v) <= 5 then Missing else GetFieldDotted(mem, v, name[IndexOf(name, DOT) + 1..])
  {
    hide GetField, FieldNameSize, I32, IndexOf;
  }

  // getFieldDotted on an encoded document finds the encoding of what it finds in the document.
  lemma {:induction false} DottedFinds(mem: seq<Byte>, p: nat, es: seq<Element>, name: seq<Byte>)
    requires WellFormed(es) && Modest(es) && At(mem, p, Encode(es))
    ensures Finds(mem, GetFieldDotted(mem, p, name), GetDotted(es, name))
    decreases |name|
  {
    hide EncodeElement, EncodeElements, I32, GetField, WellFormedElement, ModestElement, Encode, ModestElements,
        FieldNameSize, Get, IndexOf, At;
    GetFieldFinds(mem, p, es, name);
    var i := IndexOf(name, DOT);
    if Get(es, name) == None && i < |name| {
      GetFieldFinds(mem, p, es, name[..i]);
      var left := Get(es, name[..i]);
      if left.Some? {
        var q := GetField(mem, p, name[..i]).q;
        MembersAreGood(es, left.value);
        NameIsThere(mem, q, left.value);
        DocumentOrNot(left.value);
        DottedGoesInside(mem, p, name, q, |left.value.name| + 1);
        if left.value.value.Document? {
          var fields := left.value.value.fields;
          DocumentStands(mem, q, left.value);
          EmptyOrNot(fields);
          DottedDescends(es, name);
          if fields != [] {
            DottedFinds(mem, q + 2 + |left.value.name|, fields, name[i + 1..]);
          }
        }
      }
    }
  }

  lemma DottedDescends(es: seq<Element>, name: seq<Byte>)
    requires Get(es, name) == None && IndexOf(name, DOT) < |name|
    ensures var sub := Inside(Get(es, name[..IndexOf(name, DOT)]));
            GetDotted(es, name) == if sub == [] then None else GetDotted(sub, name[IndexOf(name, DOT) + 1..])
  {
    hide Get, IndexOf, Inside;
  }

  lemma DocumentOrNot(e: Element)
    requires WellFormedElement(e)
    ensures e.value.Document? <==> TypeByte(e.value) == OBJECT || TypeByte(e.value) == ARRAY
  {
  }

  lemma EmptyOrNot(es: seq<Element>)
    ensures EncodeElements(es) == [] <==> es == []
  {
  }

  // ---------- the program ----------

  // The elements of es from the k-th on are still in front of the iterator.
  ghost predicate Ahead(mem: seq<Byte>, pos: int, end: nat, es: seq<Element>, k: nat)
  {
    && k <= |es| && 0 <= pos && end <= |mem| && WellFormed(es[k..])
    && At(mem, pos, EncodeElements(es[k..])) && pos + |EncodeElements(es[k..])| <= end
    && (pos + |EncodeElements(es[k..])| == end || mem[pos + |EncodeElements(es[k..])|] == 0)
    && |EncodeElements(es)| < TWO31 && |EncodeElements(es[k..])| < TWO31
  }

  lemma MoreMeans(mem: seq<Byte>, pos: int, end: nat, es: seq<Element>, k: nat)
    requires Ahead(mem, pos, end, es, k)
    ensures (pos < end && mem[pos] != 0) <==> k < |es|
  {
    hide EncodeElement, WellFormedElement;
    if k < |es| {
      var rest := es[k..];
      AtSplits(mem, pos, EncodeElement(rest[0]), EncodeElements(rest[1..]));
      NameIsThere(mem, pos, rest[0]);
    }
  }

  lemma NextMeans(mem: seq<Byte>, pos: int, end: nat, es: seq<Element>, k: nat)
    requires Ahead(mem, pos, end, es, k) && k < |es|
    ensures WellFormedElement(es[k]) && At(mem, pos, EncodeElement(es[k]))
    ensures ElementSize(mem, pos, UNCHECKED) == Size(|EncodeElement(es[k])|)
    ensures NameBytes(mem, pos) == es[k].name
    ensures Ahead(mem, pos + |EncodeElement(es[k])|, end, es, k + 1)
  {
    hide EncodeElement, WellFormedElement, ElementSize, NameBytes;
    var rest := es[k..];
    assert rest[0] == es[k] && rest[1..] == es[k + 1..];
    AtSplits(mem, pos, EncodeElement(rest[0]), EncodeElements(rest[1..]));
    ElementMeasuresInObject(mem, pos, es[k], end, false);
    NameIsThere(mem, pos, es[k]);
  }

  lemma {:induction false} NamesGrow(es: seq<Element>, k: nat)
    requires k < |es|
    ensures Names(es[..k]) + {es[k].name} == Names(es[..k + 1])
    decreases k
  {
    if k == 0 {
      assert es[..1] == [es[0]] && es[..0] == [];
      assert Names([es[0]][1..]) == {};
    } else {
      NamesGrow(es[1..], k - 1);
      assert es[..k][1..] == es[1..][..k - 1] && es[..k + 1][1..] == es[1..][..k];
    }
  }

  // A builder's buffer: four bytes for the size, then the elements appended so far.
  class BSONObjBuilder {
    var b: seq<Byte>

    ghost predicate Holds(es: seq<Element>)
      reads this
    {
      |b| == 4 + |EncodeElements(es)| < TWO31 && b[4..] == EncodeElements(es) && WellFormed(es)
    }

    constructor ()
      ensures Holds([])
    {
      b := [0, 0, 0, 0];
    }

    // The names of the fields appended so far
    method Have(ghost es: seq<Element>) returns (have: set<seq<Byte>>)
      requires Holds(es)
      ensures have == Names(es)
    {
      hide EncodeElements, EncodeElement, WellFormed, Ahead, ElementSize, Names, NameBytes;
      have := {};
      var i := new BSONObjIterator(b, 0, |b|);
      ghost var k := 0;
      assert es[..0] == [] && Names([]) == {} by {
        NoNames();
      }
      StartsAhead(b, 4, es);
      MoreMeans(b, 4, |b|, es, 0);
      var more := i.More();
      while more
        invariant k <= |es| && fresh(i) && i.mem == b && i.theEnd == |b| && Ahead(b, i.pos, |b|, es, k)
            && have == Names(es[..k])
        invariant more == (k < |es|) && 0 <= i.pos && (more ==> i.pos < |b|)
        decreases |es| - k
      {
        NextMeans(b, i.pos, |b|, es, k);
        NamesGrow(es, k);
        var e, r := i.Next(false);
        have := have + {NameBytes(b, e.data)};
        k := k + 1;
        MoreMeans(b, i.pos, |b|, es, k);
        IsInside(b, i.pos, |b|, es, k);
        more := i.More();
      }
      IsInside(b, i.pos, |b|, es, k);
      assert es[..k] == es;
    }

    // appendElementsUnique of the object that stands in mem at p
    method AppendElementsUnique(mem: seq<Byte>, p: nat, ghost es: seq<Element>, ghost xs: seq<Element>)
      requires Holds(es) && WellFormed(xs) && Modest(xs) && At(mem, p, Encode(xs))
      modifies this
      ensures b == old(b) + EncodeElements(Without(xs, Names(es)))
      ensures b[4..] == EncodeElements(Unique(es, xs))
    {
      hide EncodeElements, WellFormed, Names, Without, Unique, Modest, Encode, At;
      var have := Have(es);
      AppendMissing(mem, p, have, xs);
      UniqueEncodes(old(b), es, xs);
    }

    method AppendMissing(mem: seq<Byte>, p: nat, have: set<seq<Byte>>, ghost xs: seq<Element>)
      requires WellFormed(xs) && Modest(xs) && At(mem, p, Encode(xs))
      modifies this
      ensures b == old(b) + EncodeElements(Without(xs, have))
    {
      hide EncodeElements, EncodeElement, WellFormed, Ahead, ElementSize, NameBytes, I32, Without, Modest;
      ghost var start := b;
      ObjectAhead(mem, p, xs);
      var i := new BSONObjIterator(mem, p, p + I32(mem, p));
      ghost var k := 0;
      MoreMeans(mem, i.pos, i.theEnd, xs, 0);
      IsInside(mem, i.pos, i.theEnd, xs, 0);
      assert xs[0..] == xs && xs[..0] == [];
      var more := i.More();
      while more
        invariant k <= |xs| && fresh(i) && i.mem == mem && i.theEnd == p + I32(mem, p)
        invariant Ahead(mem, i.pos, i.theEnd, xs, k)
        invariant b + EncodeElements(Without(xs[k..], have)) == start + EncodeElements(Without(xs, have))
        invariant more == (k < |xs|) && 0 <= i.pos && (more ==> i.pos < i.theEnd)
        decreases |xs| - k
      {
        NextMeans(mem, i.pos, i.theEnd, xs, k);
        WithoutSteps(b, xs, k, have);
        var e, r := i.Next(false);
        if NameBytes(mem, e.data) !in have {
          b := b + mem[e.data..e.data + r.n];
        }
        k := k + 1;
        MoreMeans(mem, i.pos, i.theEnd, xs, k);
        IsInside(mem, i.pos, i.theEnd, xs, k);
        more := i.More();
      }
      IsInside(mem, i.pos, i.theEnd, xs, k);
      NothingLeft(xs[k..], have);
    }
  }

  lemma UniqueEncodes(b: seq<Byte>, es: seq<Element>, xs: seq<Element>)
    requires |b| >= 4 && b[4..] == EncodeElements(es)
    ensures (b + EncodeElements(Without(xs, Names(es))))[4..] == EncodeElements(Unique(es, xs))
  {
    EncodeConcat(es, Without(xs, Names(es)));
  }

  lemma {:induction false} EncodeConcat(a: seq<Element>, b: seq<Element>)
    ensures EncodeElements(a + b) == EncodeElements(a) + EncodeElements(b)
    decreases |a|
  {
    hide EncodeElement;
    if a == [] {
      assert a + b == b;
    } else {
      assert (a + b)[1..] == a[1..] + b;
      EncodeConcat(a[1..], b);
    }
  }

  // bson2map on the object that stands in mem at p: where the last field of each name is
  method Bson2Map(mem: seq<Byte>, p: nat, ghost xs: seq<Element>) returns (m: map<seq<Byte>, nat>)
    requires WellFormed(xs) && Modest(xs) && At(mem, p, Encode(xs))
    ensures Locates(mem, m, ToMap(xs, map[]))
  {
    hide EncodeElements, EncodeElement, WellFormed, Ahead, ElementSize, NameBytes, ModestElements, I32, At, Encode,
        Modest;
    m := map[];
    ghost var found: map<seq<Byte>, Element> := map[];
    assert Locates(mem, m, found);
    ObjectAhead(mem, p, xs);
    var i := new BSONObjIterator(mem, p, p + I32(mem, p));
    ghost var k := 0;
    MoreMeans(mem, i.pos, i.theEnd, xs, 0);
    IsInside(mem, i.pos, i.theEnd, xs, 0);
    assert xs[0..] == xs;
    var more := i.More();
    while more
      invariant k <= |xs| && fresh(i) && i.mem == mem && i.theEnd == p + I32(mem, p)
      invariant Ahead(mem, i.pos, i.theEnd, xs, k)
      invariant ToMap(xs[k..], found) == ToMap(xs, map[]) && Locates(mem, m, found)
      invariant more == (k < |xs|) && 0 <= i.pos && (more ==> i.pos < i.theEnd)
      decreases |xs| - k
    {
      NextMeans(mem, i.pos, i.theEnd, xs, k);
      assert xs[k..][1..] == xs[k + 1..];
      var e, r := i.Next(false);
      Relocates(mem, m, found, xs[k], e.data);
      m := m[NameBytes(mem, e.data) := e.data];
      found := found[xs[k].name := xs[k]];
      k := k + 1;
      MoreMeans(mem, i.pos, i.theEnd, xs, k);
      IsInside(mem, i.pos, i.theEnd, xs, k);
      more := i.More();
    }
    IsInside(mem, i.pos, i.theEnd, xs, k);
    assert xs[k..] == [];
  }

  // The places in m are those of the elements in found.
  ghost predicate Locates(mem: seq<Byte>, m: map<seq<Byte>, nat>, found: map<seq<Byte>, Element>)
  {
    m.Keys == found.Keys && forall name :: name in m ==> At(mem, m[name], EncodeElement(found[name]))
  }

  lemma Relocates(mem: seq<Byte>, m: map<seq<Byte>, nat>, found: map<seq<Byte>, Element>, e: Element, q: nat)
    requires Locates(mem, m, found) && At(mem, q, EncodeElement(e))
    ensures Locates(mem, m[e.name := q], found[e.name := e])
  {
    hide EncodeElement, At;
  }

  lemma NoNames()
    ensures Names([]) == {}
  {
  }

  lemma NothingLeft(xs: seq<Element>, have: set<seq<Byte>>)
    requires xs == []
    ensures EncodeElements(Without(xs, have)) == []
  {
  }

  lemma IsInside(mem: seq<Byte>, pos: int, end: nat, es: seq<Element>, k: nat)
    requires Ahead(mem, pos, end, es, k)
    ensures k <= |es| && 0 <= pos && end <= |mem|
  {
  }

  lemma StartsAhead(b: seq<Byte>, pos: nat, es: seq<Element>)
    requires pos <= |b| && b[pos..] == EncodeElements(es) && WellFormed(es) && |b| < TWO31
    ensures Ahead(b, pos, |b|, es, 0)
  {
    assert es[0..] == es;
  }

  lemma ObjectAhead(mem: seq<Byte>, p: nat, xs: seq<Element>)
    requires WellFormed(xs) && Modest(xs) && At(mem, p, Encode(xs))
    ensures p + 4 <= |mem| && p + I32(mem, p) <= |mem| && I32(mem, p) > 0 && Ahead(mem, p + 4, p + I32(mem, p), xs, 0)
  {
    hide EncodeElements, ModestElements, I32;
    FrameSize(mem, p, EncodeElements(xs));
    AtSplits(mem, p + 4, EncodeElements(xs), [0]);
    AtByte(mem, p + 4 + |EncodeElements(xs)|, [0], 0);
    assert xs[0..] == xs;
  }

  lemma WithoutSteps(done: seq<Byte>, xs: seq<Element>, k: nat, have: set<seq<Byte>>)
    requires k < |xs|
    ensures done + EncodeElements(Without(xs[k..], have)) ==
            (if xs[k].name in have then done else done + EncodeElement(xs[k]))
            + EncodeElements(Without(xs[k + 1..], have))
  {
    hide EncodeElement;
    var rest := Without(xs[k + 1..], have);
    assert xs[k..][1..] == xs[k + 1..];
    if xs[k].name in have {
      assert [] + rest == rest;
    } else {
      assert ([xs[k]] + rest)[1..] == rest;
      assert done + (EncodeElement(xs[k]) + EncodeElements(rest)) == done + EncodeElement(xs[k]) + EncodeElements(rest);
    }
  }
}
