// BSONObj::toString: the printer that checks before it descends. What it prints is left out; what
// it checks, what it descends into and how it ends are here.
module BsonPrint {
  import opened Bytes
  import opened Options
  import opened BsonLayout
  import opened BsonDocuments

  const MAX_INTERNAL_SIZE: nat := 16 * 1024 * 1024 + 16 * 1024
  const MAX_ELEMENT: nat := 0x4000_0000  // 1 << 30

  // Printed, or stopped by the massert with this number
  datatype Status = Printed | Failed(code: nat)

  // The object at p, with the size it claims, lies in memory.
  ghost predicate InMemory(mem: seq<Byte>, p: nat)
  {
    p + 4 <= |mem| && p + I32(mem, p) <= |mem|
  }

  // An element of n bytes at q
  ghost predicate Sound(mem: seq<Byte>, q: nat, limit: nat, n: int)
  {
    && 0 < limit && q + limit <= |mem| && 0 < n <= limit
    && ElementSize(mem, q, limit) == Size(n)
  }

  // Where the value of the element at q starts
  function ValueAt(mem: seq<Byte>, q: nat, limit: nat): (v: nat)
    requires 0 < limit && q + limit <= |mem|
  {
    match FieldNameSize(mem, q, limit)
    case Size(k) => q + 1 + k
    case _ => q
  }

  // BSONElement::validate on an element whose size has been checked
  function Validate(mem: seq<Byte>, q: nat, limit: nat, n: int): Status
    requires Sound(mem, q, limit, n)
  {
    var v := ValueAt(mem, q, limit);
    if mem[q] == STRING || mem[q] == CODE || mem[q] == SYMBOL || mem[q] == DB_REF then
      var x := R32(mem, v);
      if 0 < x < MAX_INTERNAL_SIZE && mem[v + 4 + x - 1] == 0 then Printed else Failed(10321)
    else if mem[q] == CODE_W_SCOPE then ValidateScoped(mem, v, q + n)
    else Printed
  }

  function ValidateScoped(mem: seq<Byte>, v: nat, end: nat): Status
    requires v + 4 <= |mem| && end <= |mem| && v + I32(mem, v) == end
  {
    var total := I32(mem, v);
    if total < 8 then Failed(10322)
    else
      var strSize := I32(mem, v + 4);
      if total < strSize + 8 then Failed(10323)
      else if strSize <= 0 || strSize - 1 != StrNLen(mem, v + 8, strSize) then Failed(10324)
      else if total < strSize + 12 then Failed(10325)
      else if total != 8 + strSize + I32(mem, v + 8 + strSize) then Failed(10326)
      else Printed
  }

  // Where the object inside an element starts, if there is one to descend into
  function Inner(mem: seq<Byte>, q: nat, limit: nat, n: int): (i: Option<nat>)
    requires Sound(mem, q, limit, n) && Validate(mem, q, limit, n) == Printed
    ensures i.Some? ==> q + 1 < i.value && i.value + 4 <= |mem| && i.value + I32(mem, i.value) == q + n
  {
    var v := ValueAt(mem, q, limit);
    if mem[q] == OBJECT || mem[q] == ARRAY then Some(v)
    else if mem[q] == CODE_W_SCOPE then Some(v + 8 + I32(mem, v + 4))
    else None
  }

  // The object an element holds is strictly smaller than the element.
  lemma InnerIsSmaller(mem: seq<Byte>, q: nat, limit: nat, n: int)
    requires Sound(mem, q, limit, n) && Validate(mem, q, limit, n) == Printed
    ensures Inner(mem, q, limit, n).Some? ==>
              var i := Inner(mem, q, limit, n).value;
              InMemory(mem, i) && I32(mem, i) < n - 1
  {
  }

  // An object, from its constructor on
  ghost function PrintObject(mem: seq<Byte>, p: nat): Status
    requires InMemory(mem, p)
    decreases if I32(mem, p) > 0 then I32(mem, p) else 0, 2
  {
    var size := I32(mem, p);
    if size <= 0 || size > MAX_INTERNAL_SIZE then Failed(10334)
    else if size <= 5 then Printed
    else PrintElements(mem, p, p + 4, size)
  }

  // The loop of toString with its cursor at q
  ghost function PrintElements(mem: seq<Byte>, p: nat, q: nat, size: nat): Status
    requires p <= q <= p + size <= |mem|
    decreases p + size - q, 1
  {
    var limit := p + size - q;
    if limit == 0 then Failed(10327)
    else
      match ElementSize(mem, q, limit)
      case Asserted(code) => Failed(code)
      case Unbounded => Failed(0)  // never, by CheckedSizeIsBounded
      case Size(n) =>
        if n <= 0 then Failed(10328)
        else if n >= MAX_ELEMENT then Failed(10329)
        else if n > limit then Failed(10330)
        else if Validate(mem, q, limit, n).Failed? then Validate(mem, q, limit, n)
        else if mem[q] == EOO then if n == limit then Printed else Failed(10331)
        else
          InnerIsSmaller(mem, q, limit, n);
          var inner := Inner(mem, q, limit, n);
          var status := if inner.Some? then PrintObject(mem, inner.value) else Printed;
          if status.Failed? then status else PrintElements(mem, p, q + n, size)
  }

  // ---------- what a successful run says ----------

  // Elements of the sizes that size() computes follow one another from q to end, EOO last.
  ghost predicate Tiled(mem: seq<Byte>, q: nat, end: nat)
    requires end <= |mem|
    decreases end - q
  {
    && q < end && ElementSize(mem, q, end - q).Size?
    && var n := ElementSize(mem, q, end - q).n;
       && 0 < n && q + n <= end
       && if mem[q] == EOO then q + n == end else Tiled(mem, q + n, end)
  }

  lemma {:induction false} PrintedIsTiled(mem: seq<Byte>, p: nat, q: nat, size: nat)
    requires p <= q <= p + size <= |mem| && PrintElements(mem, p, q, size) == Printed
    ensures Tiled(mem, q, p + size)
    decreases p + size - q
  {
    hide ElementSize, Validate, Inner, PrintObject;
    var limit := p + size - q;
    if limit > 0 && ElementSize(mem, q, limit).Size? && mem[q] != EOO {
      var n := ElementSize(mem, q, limit).n;
      if 0 < n <= limit && PrintElements(mem, p, q + n, size) == Printed {
        PrintedIsTiled(mem, p, q + n, size);
      }
    }
  }

  // A run without failed masserts on an object longer than five bytes means that its top-level
  // elements tile the bytes from 4 to objsize, with EOO at the very end.
  lemma PrintedObjectIsTiled(mem: seq<Byte>, p: nat)
    requires InMemory(mem, p) && I32(mem, p) > 5 && PrintObject(mem, p) == Printed
    ensures Tiled(mem, p + 4, p + I32(mem, p)) && mem[p + I32(mem, p) - 1] == EOO
  {
    hide ElementSize, Tiled, PrintElements, R32;
    PrintedIsTiled(mem, p, p + 4, I32(mem, p));
    TiledEndsWithEOO(mem, p + 4, p + I32(mem, p));
  }

  lemma {:induction false} TiledEndsWithEOO(mem: seq<Byte>, q: nat, end: nat)
    requires end <= |mem| && Tiled(mem, q, end)
    ensures end > 0 && mem[end - 1] == EOO
    decreases end - q
  {
    if mem[q] != EOO {
      hide ElementSize;
      TiledEndsWithEOO(mem, q + ElementSize(mem, q, end - q).n, end);
    }
  }

  // ---------- encoded documents are accepted ----------

  // Sizes that the printer accepts, all the way down
  predicate ModestValue(v: Value)
    decreases v
  {
    match v
    case Text(_, s) => |s| + 1 < MAX_INTERNAL_SIZE
    case Reference(ns, _) => |ns| + 1 < MAX_INTERNAL_SIZE
    case Document(_, fields) => Modest(fields)
    case Scoped(_, scope) => Modest(scope)
    case _ => true
  }

  predicate ModestElement(e: Element)
    decreases e
  {
    |EncodeElement(e)| < MAX_ELEMENT && ModestValue(e.value)
  }

  predicate ModestElements(es: seq<Element>)
    decreases es, 0
  {
    es == [] || (ModestElement(es[0]) && ModestElements(es[1..]))
  }

  predicate Modest(es: seq<Element>)
    decreases es, 1
  {
    |EncodeElements(es)| + 5 <= MAX_INTERNAL_SIZE && ModestElements(es)
  }

  // The checks on an encoded element
  lemma EncodedElementIsSound(mem: seq<Byte>, q: nat, e: Element, limit: nat)
    requires WellFormedElement(e) && At(mem, q, EncodeElement(e)) && |EncodeElement(e)| <= limit && q + limit <= |mem|
    requires |EncodeElement(e)| < TWO31
    ensures Sound(mem, q, limit, |EncodeElement(e)|) && ValueAt(mem, q, limit) == q + 2 + |e.name|
    ensures mem[q] == TypeByte(e.value) != EOO
  {
    hide EncodeElement, ElementSize, FieldNameSize, WellFormedValue;
    ElementParts(mem, q, e);
    TypeIsNotEOO(e.value);
    NameMeasures(mem, q, e, limit);
    EncodedElementMeasures(mem, q, e, limit);
  }

  lemma StringIsTerminated(mem: seq<Byte>, v: nat, s: seq<Byte>, rest: seq<Byte>)
    requires At(mem, v, LString(s) + rest) && |s| + 1 < MAX_INTERNAL_SIZE
    ensures R32(mem, v) == |s| + 1 && mem[v + 4 + |s|] == 0
  {
    hide W32, R32;
    AtSplits(mem, v, LString(s), rest);
    AtSplits(mem, v, W32(|s| + 1), CStr(s));
    WrittenFieldReads32(mem, v, |s| + 1);
    AtByte(mem, v + 4, CStr(s), |s|);
  }

  lemma ScopedParts(mem: seq<Byte>, v: nat, code: seq<Byte>, scope: seq<Byte>)
    requires At(mem, v, ScopedBytes(code, scope)) && |ScopedBytes(code, scope)| < TWO31
    ensures I32(mem, v) == 9 + |code| + |scope| && I32(mem, v + 4) == |code| + 1
    ensures At(mem, v + 8, CStr(code)) && At(mem, v + 9 + |code|, scope)
  {
    hide W32, I32;
    var n := 9 + |code| + |scope|;
    assert ScopedBytes(code, scope) == W32(n) + (W32(|code| + 1) + (CStr(code) + scope));
    AtSplits(mem, v, W32(n), W32(|code| + 1) + (CStr(code) + scope));
    AtSplits(mem, v + 4, W32(|code| + 1), CStr(code) + scope);
    AtSplits(mem, v + 8, CStr(code), scope);
    LengthReads(mem, v, n);
    LengthReads(mem, v + 4, |code| + 1);
  }

  lemma FrameSize(mem: seq<Byte>, p: nat, body: seq<Byte>)
    requires At(mem, p, Framed(body)) && |Framed(body)| < TWO31
    ensures I32(mem, p) == |body| + 5 && At(mem, p + 4, body + [0])
  {
    hide W32, I32;
    assert Framed(body) == W32(|body| + 5) + (body + [0]);
    AtSplits(mem, p, W32(|body| + 5), body + [0]);
    LengthReads(mem, p, |body| + 5);
  }

  lemma ScopedValidates(mem: seq<Byte>, v: nat, code: seq<Byte>, body: seq<Byte>)
    requires At(mem, v, ScopedBytes(code, Framed(body))) && |ScopedBytes(code, Framed(body))| < TWO31 && 0 !in code
    ensures var end := v + |ScopedBytes(code, Framed(body))|;
            v + I32(mem, v) == end <= |mem| && ValidateScoped(mem, v, end) == Printed
    ensures I32(mem, v + 4) == |code| + 1
  {
    hide I32, Framed;
    var scope := Framed(body);
    ScopedParts(mem, v, code, scope);
    CStringMeasures(mem, v + 8, code, |code| + 1);
    FrameSize(mem, v + 9 + |code|, body);
  }

  // The object that an encoded value holds, if any
  function Nested(v: Value): Option<(nat, seq<Element>)>
  {
    match v
    case Document(_, fields) => Some((0, fields))
    case Scoped(code, scope) => Some((9 + |code|, scope))
    case _ => None
  }

  // An encoded element passes validate, and what the printer descends into is its object.
  lemma EncodedElementValidates(mem: seq<Byte>, q: nat, e: Element, limit: nat)
    requires WellFormedElement(e) && ModestElement(e) && At(mem, q, EncodeElement(e))
    requires |EncodeElement(e)| <= limit && q + limit <= |mem|
    ensures Sound(mem, q, limit, |EncodeElement(e)|) && mem[q] != EOO
    ensures Validate(mem, q, limit, |EncodeElement(e)|) == Printed
    ensures var v := q + 2 + |e.name|;
            match Nested(e.value)
            case None => Inner(mem, q, limit, |EncodeElement(e)|) == None
            case Some((k, es)) =>
              Inner(mem, q, limit, |EncodeElement(e)|) == Some(v + k) && At(mem, v + k, Encode(es))
  {
    hide EncodeElement, ElementSize, FieldNameSize, I32, R32, W32, ValidateScoped, ValueAt, EncodeElements,
        WellFormed, Modest;
    var n, v := |EncodeElement(e)|, q + 2 + |e.name|;
    EncodedElementIsSound(mem, q, e, limit);
    ElementParts(mem, q, e);
    match e.value
    case Text(_, s) =>
      assert LString(s) + [] == LString(s);
      StringIsTerminated(mem, v, s, []);
    case Reference(ns, oid) => StringIsTerminated(mem, v, ns, oid);
    case Scoped(code, scope) =>
      var body := EncodeElements(scope);
      ScopedValidates(mem, v, code, body);
      ScopedParts(mem, v, code, Framed(body));
    case _ =>
  }

  lemma ModestIsSmall(e: Element)
    requires ModestElement(e)
    ensures |EncodeElement(e)| < MAX_ELEMENT
  {
  }

  lemma EOOPrints(mem: seq<Byte>, p: nat, q: nat, size: nat)
    requires p <= q && p + size == q + 1 <= |mem| && mem[q] == EOO
    ensures PrintElements(mem, p, q, size) == Printed
  {
  }

  ghost predicate PrintsInner(mem: seq<Byte>, q: nat, limit: nat, n: int)
    requires Sound(mem, q, limit, n) && Validate(mem, q, limit, n) == Printed
  {
    var inner := Inner(mem, q, limit, n);
    InnerIsSmaller(mem, q, limit, n);
    inner.Some? ==> PrintObject(mem, inner.value) == Printed
  }

  lemma StepGoesOn(mem: seq<Byte>, p: nat, q: nat, size: nat, n: nat)
    requires p <= q && q + n <= p + size <= |mem| && 0 < n < MAX_ELEMENT && mem[q] != EOO
    requires Sound(mem, q, p + size - q, n) && Validate(mem, q, p + size - q, n) == Printed
    requires PrintsInner(mem, q, p + size - q, n)
    ensures PrintElements(mem, p, q, size) == PrintElements(mem, p, q + n, size)
  {
    hide ElementSize, Validate, Inner, PrintObject;
  }

  // The loop comes behind elements that stand inside the object.
  lemma {:induction false} ElementsArePassed(mem: seq<Byte>, p: nat, q: nat, size: nat, es: seq<Element>)
    requires WellFormed(es) && ModestElements(es) && At(mem, q, EncodeElements(es))
    requires p <= q && q + |EncodeElements(es)| <= p + size <= |mem|
    ensures PrintElements(mem, p, q, size) == PrintElements(mem, p, q + |EncodeElements(es)|, size)
    decreases es, 0
  {
    hide EncodeElement, ElementSize, WellFormedElement, ModestElement, PrintObject, Inner, Validate;
    if es == [] {
    } else {
      hide PrintElements, Sound, PrintsInner, At, EncodeElements;
      var e := EncodeElement(es[0]);
      ElementsCons(es);
      AtSplits(mem, q, e, EncodeElements(es[1..]));
      EncodedElementValidates(mem, q, es[0], p + size - q);
      EncodedNestedPrints(mem, q, es[0], p + size - q);
      ElementsArePassed(mem, p, q + |e|, size, es[1..]);
      StepGoesOn(mem, p, q, size, |e|) by {
        ModestIsSmall(es[0]);
      }
    }
  }

  lemma ElementsCons(es: seq<Element>)
    requires es != []
    ensures EncodeElements(es) == EncodeElement(es[0]) + EncodeElements(es[1..])
    ensures |EncodeElements(es)| == |EncodeElement(es[0])| + |EncodeElements(es[1..])|
  {
    hide EncodeElement;
  }

  lemma EncodedElementsPrint(mem: seq<Byte>, p: nat, q: nat, size: nat, es: seq<Element>)
    requires WellFormed(es) && ModestElements(es) && At(mem, q, EncodeElements(es) + [0])
    requires p <= q && p + size == q + |EncodeElements(es)| + 1
    ensures PrintElements(mem, p, q, size) == Printed
    decreases es, 1
  {
    hide EncodeElements, PrintElements, WellFormed, ModestElements;
    var end := q + |EncodeElements(es)|;
    AtSplits(mem, q, EncodeElements(es), [0]);
    AtByte(mem, end, [0], 0);
    ElementsArePassed(mem, p, q, size, es);
    EOOPrints(mem, p, end, size);
  }

  lemma EncodedNestedPrints(mem: seq<Byte>, q: nat, e: Element, limit: nat)
    requires WellFormedElement(e) && ModestElement(e) && At(mem, q, EncodeElement(e))
    requires |EncodeElement(e)| <= limit && q + limit <= |mem|
    ensures Sound(mem, q, limit, |EncodeElement(e)|) && Validate(mem, q, limit, |EncodeElement(e)|) == Printed
    ensures PrintsInner(mem, q, limit, |EncodeElement(e)|)
    decreases e, 0
  {
    hide EncodeElement, Validate, Inner, Encode, Sound, InMemory, I32;
    EncodedElementValidates(mem, q, e, limit);
    InnerIsSmaller(mem, q, limit, |EncodeElement(e)|);
    var v := q + 2 + |e.name|;
    match e.value
    case Document(_, fields) => EncodedObjectPrints(mem, v, fields);
    case Scoped(code, scope) => EncodedObjectPrints(mem, v + 9 + |code|, scope);
    case _ =>
  }

  // Every encoded document of a permitted size is printed without complaint.
  lemma EncodedObjectPrints(mem: seq<Byte>, p: nat, es: seq<Element>)
    requires WellFormed(es) && Modest(es) && At(mem, p, Encode(es))
    ensures InMemory(mem, p) && PrintObject(mem, p) == Printed
    decreases es, 2
  {
    hide EncodeElements, WellFormed, ModestElements, PrintElements, I32;
    var body := EncodeElements(es);
    FrameSize(mem, p, body);
    if |body| > 0 {
      EncodedElementsPrint(mem, p, p + 4, |body| + 5, es);
    }
  }

  // Every part of a document is smaller than the document, so the size of the whole decides.
  lemma {:induction false} SmallValueIsModest(v: Value)
    requires |EncodeValue(v)| <= 16793600
    ensures ModestValue(v)
    decreases v
  {
    hide EncodeElements, W32;
    match v
    case Document(_, fields) => SmallIsModest(fields);
    case Scoped(_, scope) => SmallIsModest(scope);
    case _ =>
  }

  lemma {:induction false} SmallElementsAreModest(es: seq<Element>)
    requires |EncodeElements(es)| <= 16793600
    ensures ModestElements(es)
    decreases es, 0
  {
    if es == [] {
    } else {
      hide EncodeValue, ModestValue;
      SmallValueIsModest(es[0].value);
      SmallElementsAreModest(es[1..]);
    }
  }

  lemma {:induction false} SmallIsModest(es: seq<Element>)
    requires |EncodeElements(es)| <= 16793595
    ensures Modest(es)
    decreases es, 1
  {
    SmallElementsAreModest(es);
  }

  // An encoded document is printed without complaint up to 16793600 bytes, and refused for its
  // size, whatever it holds, from there on.
  lemma EncodedDocumentPrints(mem: seq<Byte>, p: nat, es: seq<Element>)
    requires WellFormed(es) && At(mem, p, Encode(es)) && |Encode(es)| < TWO31
    ensures InMemory(mem, p)
    ensures PrintObject(mem, p) == if |Encode(es)| <= 16793600 then Printed else Failed(10334)
  {
    hide EncodeElements, Modest, I32, PrintElements;
    FrameSize(mem, p, EncodeElements(es));
    if |Encode(es)| <= 16793600 {
      SmallIsModest(es);
      EncodedObjectPrints(mem, p, es);
    }
  }

  // ---------- how damaged objects are refused ----------

  // An object of this size that begins with these elements: the loop comes behind them.
  lemma ObjectBegins(mem: seq<Byte>, p: nat, size: nat, es: seq<Element>, rest: seq<Byte>)
    requires WellFormed(es) && At(mem, p, W32(size) + (EncodeElements(es) + rest))
    requires 5 < size <= 16793600 && p + size <= |mem| && 4 + |EncodeElements(es)| <= size
    ensures var q := p + 4 + |EncodeElements(es)|;
            && InMemory(mem, p) && At(mem, q, rest)
            && PrintObject(mem, p) == PrintElements(mem, p, q, size)
  {
    hide EncodeElements, W32, I32, PrintElements, ModestElements, WellFormed, At;
    AtSplits(mem, p, W32(size), EncodeElements(es) + rest);
    AtSplits(mem, p + 4, EncodeElements(es), rest);
    LengthReads(mem, p, size);
    SmallElementsAreModest(es);
    ElementsArePassed(mem, p, p + 4, size, es);
  }

  // An object without EOO, one that goes on behind its EOO, and one that ends inside the value of an
  // element: each is refused with a code of its own, whatever elements stand in front.
  lemma MissingEOOIsRefused(mem: seq<Byte>, p: nat, es: seq<Element>)
    requires WellFormed(es) && es != [] && 4 + |EncodeElements(es)| <= 16793600
    requires At(mem, p, W32(4 + |EncodeElements(es)|) + EncodeElements(es))
    ensures InMemory(mem, p) && PrintObject(mem, p) == Failed(10327)
  {
    hide EncodeElements, W32, PrintObject, WellFormed;
    var body, size := EncodeElements(es), 4 + |EncodeElements(es)|;
    assert W32(size) + body == W32(size) + (body + []);
    ElementsCons(es);
    ObjectBegins(mem, p, size, es, []);
  }

  lemma EarlyEOOIsRefused(mem: seq<Byte>, p: nat, es: seq<Element>, junk: seq<Byte>)
    requires WellFormed(es) && junk != [] && 5 + |EncodeElements(es)| + |junk| <= 16793600
    requires At(mem, p, W32(5 + |EncodeElements(es)| + |junk|) + (EncodeElements(es) + ([0] + junk)))
    ensures InMemory(mem, p) && PrintObject(mem, p) == Failed(10331)
  {
    hide EncodeElements, W32, PrintObject, WellFormed;
    var size := 5 + |EncodeElements(es)| + |junk|;
    ObjectBegins(mem, p, size, es, [0] + junk);
    AtByte(mem, p + 4 + |EncodeElements(es)|, [0] + junk, 0);
  }

  lemma CutElementIsRefused(mem: seq<Byte>, p: nat, size: nat, es: seq<Element>, t: Byte, name: seq<Byte>)
    requires WellFormed(es) && 0 !in name && t != 0 && Width(t).Some? && size <= 16793600 && p + size <= |mem|
    requires At(mem, p, W32(size) + (EncodeElements(es) + ([t] + CStr(name))))
    requires var inside := size - (6 + |EncodeElements(es)| + |name|); 0 <= inside < Width(t).value
    ensures InMemory(mem, p) && PrintObject(mem, p) == Failed(10330)
  {
    hide EncodeElements, W32, PrintObject, WellFormed, StrNLen, FieldNameSize, I32;
    var q := p + 4 + |EncodeElements(es)|;
    ObjectBegins(mem, p, size, es, [t] + CStr(name));
    NameInFront(mem, q, t, name, p + size - q);
  }

  lemma BadStringReads(mem: seq<Byte>, v: nat, text: seq<Byte>)
    requires At(mem, v, W32(|text|) + text) && text != [] && text[|text| - 1] != 0 && |text| < TWO31
    ensures v + 4 + |text| <= |mem| && R32(mem, v) == |text| && mem[v + 4 + |text| - 1] != 0
  {
    hide W32, R32;
    AtSplits(mem, v, W32(|text|), text);
    WrittenFieldReads32(mem, v, |text|);
    AtByte(mem, v + 4, text, |text| - 1);
  }

  // A string whose last byte is not zero has the size that its length says, and is refused; so is
  // the string of a reference, with its id behind it.
  lemma UnterminatedStringIsRefused(mem: seq<Byte>, q: nat, t: Byte, name: seq<Byte>, text: seq<Byte>,
          id: seq<Byte>, limit: nat)
    requires At(mem, q, [t] + CStr(name) + (W32(|text|) + text + id)) && 0 !in name
    requires if t == 0x0C then |id| == 12 else (t == 0x02 || t == 0x0D || t == 0x0E) && id == []
    requires text != [] && text[|text| - 1] != 0
    requires |name| + |text| + |id| + 6 <= limit && q + limit <= |mem| && |name| + |text| + |id| + 6 < TWO31
    ensures Sound(mem, q, limit, |name| + |text| + |id| + 6)
    ensures Validate(mem, q, limit, |name| + |text| + |id| + 6) == Failed(10321)
  {
    hide FieldNameSize, W32, R32, StrNLen, At;
    var v := q + 2 + |name|;
    AtSplits(mem, q, [t] + CStr(name), W32(|text|) + text + id);
    NameInFront(mem, q, t, name, limit);
    AtSplits(mem, v, W32(|text|) + text, id);
    BadStringReads(mem, v, text);
  }

  lemma {:induction false} LengthIsFirst(mem: seq<Byte>, p: nat, n: int)
    requires n <= 0 || p + n <= |mem|
    ensures var k := StrNLen(mem, p, n);
            k != -1 ==> forall j :: p <= j < p + k ==> mem[j] != 0
    decreases n
  {
    if n <= 0 || mem[p] == 0 {
    } else {
      LengthIsFirst(mem, p + 1, n - 1);
    }
  }

  // The length of a text of n bytes is that of all but its last byte exactly if that is the first
  // zero in it.
  lemma TerminatedMeasures(mem: seq<Byte>, p: nat, text: seq<Byte>)
    requires At(mem, p, text) && text != []
    ensures StrNLen(mem, p, |text|) == |text| - 1 <==> text[|text| - 1] == 0 && 0 !in text[..|text| - 1]
  {
    hide StrNLen;
    var n := |text|;
    var front := text[..n - 1];
    assert forall j :: p <= j < p + n ==> mem[j] == text[j - p];
    LengthIsFirst(mem, p, n);
    if text[n - 1] == 0 && 0 !in front {
      assert text == CStr(front);
      CStringMeasures(mem, p, front, n);
    } else if StrNLen(mem, p, n) == n - 1 {
      assert forall j :: 0 <= j < n - 1 ==> front[j] == mem[p + j];
    }
  }

  // Code with scope on any bytes behind its size: the length of the code must leave room, the code
  // must end where its length says and not earlier, and the scope must take exactly the rest.
  lemma ScopeIsChecked(mem: seq<Byte>, v: nat, n: nat, rest: seq<Byte>)
    requires At(mem, v, W32(8 + |rest|) + W32(n) + rest) && 8 + |rest| < TWO31 && n < TWO31
    ensures v + 8 + |rest| <= |mem| && I32(mem, v) == 8 + |rest|
    ensures ValidateScoped(mem, v, v + 8 + |rest|)
         == if n > |rest| then Failed(10323)
            else if n == 0 || rest[n - 1] != 0 || 0 in rest[..n - 1] then Failed(10324)
            else if n + 4 > |rest| then Failed(10325)
            else if ToInt(R32(rest, n)) != |rest| - n then Failed(10326)
            else Printed
  {
    hide W32, R32, ToInt, StrNLen, At;
    assert W32(8 + |rest|) + W32(n) + rest == W32(8 + |rest|) + (W32(n) + rest);
    AtSplits(mem, v, W32(8 + |rest|), W32(n) + rest);
    AtSplits(mem, v + 4, W32(n), rest);
    LengthReads(mem, v, 8 + |rest|);
    LengthReads(mem, v + 4, n);
    if 0 < n <= |rest| {
      assert rest == rest[..n] + rest[n..];
      AtSplits(mem, v + 8, rest[..n], rest[n..]);
      TerminatedMeasures(mem, v + 8, rest[..n]);
      assert rest[..n][..n - 1] == rest[..n - 1];
      if n + 4 <= |rest| {
        ScopeReads(mem, v + 8, rest, n);
      }
    }
  }

  lemma ScopeReads(mem: seq<Byte>, p: nat, rest: seq<Byte>, n: nat)
    requires At(mem, p, rest) && n + 4 <= |rest|
    ensures p + n + 4 <= |mem| && R32(mem, p + n) == R32(rest, n)
  {
    hide R32;
    assert rest[0..|rest|] == rest;
    ReadSlice(mem, p, rest, 0, |rest|, n);
  }

  // ---------- the program ----------

  method ToStringObject(mem: seq<Byte>, p: nat) returns (status: Status)
    requires InMemory(mem, p)
    ensures status == PrintObject(mem, p)
    decreases if I32(mem, p) > 0 then I32(mem, p) else 0, 2
  {
    var size := I32(mem, p);
    if size <= 0 || size > MAX_INTERNAL_SIZE {
      return Failed(10334);
    }
    if size <= 5 {
      return Printed;
    }
    status := ToStringLoop(mem, p, size);
  }

  method ToStringLoop(mem: seq<Byte>, p: nat, size: nat) returns (status: Status)
    requires p + size <= |mem| && size > 5
    ensures status == PrintElements(mem, p, p + 4, size)
    decreases size, 1
  {
    hide ElementSize, Validate, Inner, PrintObject;
    var i := new BSONObjIterator(mem, p, p + size);
    while true
      invariant i.mem == mem && i.theEnd == p + size && p + 4 <= i.pos <= p + size
      invariant PrintElements(mem, p, i.pos, size) == PrintElements(mem, p, p + 4, size)
      decreases p + size - i.pos
    {
      var more := i.MoreWithEOO();
      if !more {
        return Failed(10327);
      }
      var q, limit: nat := i.pos, p + size - i.pos;
      var e, r := i.Next(true);
      if !r.Size? {
        return Failed(if r.Asserted? then r.code else 0);
      }
      if r.n <= 0 {
        return Failed(10328);
      }
      if r.n >= MAX_ELEMENT {
        return Failed(10329);
      }
      if r.n > limit {
        return Failed(10330);
      }
      var valid := Validate(mem, q, limit, r.n);
      if valid.Failed? {
        return valid;
      }
      if mem[q] == EOO {
        return if r.n == limit then Printed else Failed(10331);
      }
      InnerIsSmaller(mem, q, limit, r.n);
      var inner := Inner(mem, q, limit, r.n);
      if inner.Some? {
        status := ToStringObject(mem, inner.value);
        if status.Failed? {
          return;
        }
      }
    }
  }
}
