// Documents as trees, their encoding by the grammar of bsonspec.org, and the walk over it.
module BsonDocuments {
  import opened Bytes
  import opened Options
  import opened BsonLayout

  // ---------- the grammar ----------

  datatype Value =
    | Fixed(ftype: Byte, payload: seq<Byte>)              // numbers, dates, ids, booleans and the empty types
    | Text(ttype: Byte, bytes: seq<Byte>)                 // string, code and symbol
    | Reference(ns: seq<Byte>, oid: seq<Byte>)            // DBRef
    | Binary(subtype: Byte, bytes: seq<Byte>)
    | Regex(pattern: seq<Byte>, options: seq<Byte>)
    | Document(array_: bool, fields: seq<Element>)
    | Scoped(code: seq<Byte>, scope: seq<Element>)        // code with scope

  datatype Element = Element(name: seq<Byte>, value: Value)

  function TypeByte(v: Value): Byte
  {
    match v
    case Fixed(t, _) => t
    case Text(t, _) => t
    case Reference(_, _) => 0x0C
    case Binary(_, _) => 0x05
    case Regex(_, _) => 0x0B
    case Document(a, _) => if a then 0x04 else 0x03
    case Scoped(_, _) => 0x0F
  }

  // The types of fixed width as the specification lists them: double, undefined, ObjectId, boolean,
  // UTC datetime, null, int32, timestamp, int64, max key and min key
  function Width(t: Byte): Option<nat>
  {
    match t
    case 0x01 => Some(8)
    case 0x06 => Some(0)
    case 0x07 => Some(12)
    case 0x08 => Some(1)
    case 0x09 => Some(8)
    case 0x0A => Some(0)
    case 0x10 => Some(4)
    case 0x11 => Some(8)
    case 0x12 => Some(8)
    case 0x7F => Some(0)
    case 0xFF => Some(0)
    case _ => None
  }

  function CStr(s: seq<Byte>): seq<Byte>
  {
    s + [0]
  }

  // A string with its length in front
  function LString(s: seq<Byte>): seq<Byte>
  {
    W32(|s| + 1) + CStr(s)
  }

  function EncodeValue(v: Value): seq<Byte>
    decreases v
  {
    match v
    case Fixed(_, payload) => payload
    case Text(_, s) => LString(s)
    case Reference(ns, oid) => LString(ns) + oid
    case Binary(subtype, bytes) => W32(|bytes|) + [subtype] + bytes
    case Regex(pattern, options) => CStr(pattern) + CStr(options)
    case Document(_, fields) => Framed(EncodeElements(fields))
    case Scoped(code, scope) => ScopedBytes(code, Framed(EncodeElements(scope)))
  }

  function Framed(body: seq<Byte>): (s: seq<Byte>)
    ensures |s| == |body| + 5
  {
    W32(|body| + 5) + body + [0]
  }

  function ScopedBytes(code: seq<Byte>, scope: seq<Byte>): (s: seq<Byte>)
    ensures |s| == 9 + |code| + |scope|
  {
    W32(9 + |code| + |scope|) + LString(code) + scope
  }

  function EncodeElement(e: Element): (s: seq<Byte>)
    ensures |s| >= 2 && s[0] == TypeByte(e.value)
    decreases e
  {
    [TypeByte(e.value)] + CStr(e.name) + EncodeValue(e.value)
  }

  function EncodeElements(es: seq<Element>): seq<Byte>
    decreases es
  {
    if es == [] then [] else EncodeElement(es[0]) + EncodeElements(es[1..])
  }

  function Encode(es: seq<Element>): seq<Byte>
  {
    Framed(EncodeElements(es))
  }

  // Names, patterns and scoped code hold no zero bytes; payloads have the width of their type, and
  // strings are string, code or symbol.
  predicate WellFormedValue(v: Value)
    decreases v
  {
    match v
    case Fixed(t, payload) => Width(t) == Some(|payload|)
    case Text(t, _) => t == 0x02 || t == 0x0D || t == 0x0E
    case Reference(_, oid) => |oid| == 12
    case Binary(_, _) => true
    case Regex(pattern, options) => 0 !in pattern && 0 !in options
    case Document(_, fields) => WellFormed(fields)
    case Scoped(code, scope) => 0 !in code && WellFormed(scope)
  }

  predicate WellFormedElement(e: Element)
    decreases e
  {
    0 !in e.name && WellFormedValue(e.value)
  }

  predicate WellFormed(es: seq<Element>)
    decreases es
  {
    es == [] || (WellFormedElement(es[0]) && WellFormed(es[1..]))
  }

  // ---------- bytes in memory ----------

  lemma AtByte(mem: seq<Byte>, p: nat, s: seq<Byte>, k: nat)
    requires At(mem, p, s) && k < |s|
    ensures mem[p + k] == s[k]
  {
    assert mem[p..p + |s|][k] == s[k];
  }

  lemma LengthReads(mem: seq<Byte>, p: nat, n: nat)
    requires At(mem, p, W32(n)) && n < TWO31
    ensures I32(mem, p) == n
  {
    hide W32, R32;
    WrittenFieldReads32(mem, p, n);
  }

  lemma {:induction false} CStringMeasures(mem: seq<Byte>, p: nat, s: seq<Byte>, n: int)
    requires At(mem, p, CStr(s)) && 0 !in s && |s| < n && p + n <= |mem|
    ensures StrNLen(mem, p, n) == |s|
    decreases |s|
  {
    AtByte(mem, p, CStr(s), 0);
    if s == [] {
    } else {
      assert CStr(s) == [s[0]] + CStr(s[1..]);
      AtSplits(mem, p, [s[0]], CStr(s[1..]));
      CStringMeasures(mem, p + 1, s[1..], n - 1);
    }
  }

  // ---------- sizes ----------

  // An element that stands at p, with its name's terminator and its value
  lemma ElementParts(mem: seq<Byte>, p: nat, e: Element)
    requires At(mem, p, EncodeElement(e))
    ensures mem[p] == TypeByte(e.value) && At(mem, p + 1, CStr(e.name))
    ensures At(mem, p + 2 + |e.name|, EncodeValue(e.value))
    ensures |EncodeElement(e)| == 2 + |e.name| + |EncodeValue(e.value)|
  {
    hide EncodeValue;
    var t, name, v := [TypeByte(e.value)], CStr(e.name), EncodeValue(e.value);
    assert EncodeElement(e) == t + (name + v);
    AtSplits(mem, p, t, name + v);
    AtSplits(mem, p + 1, name, v);
    AtByte(mem, p, t, 0);
  }

  lemma NameMeasures(mem: seq<Byte>, p: nat, e: Element, limit: int)
    requires WellFormedElement(e) && At(mem, p, EncodeElement(e)) && Limit(mem, p, limit)
    requires limit == UNCHECKED || |EncodeElement(e)| <= limit
    requires mem[p] != EOO
    ensures FieldNameSize(mem, p, limit) == Size(|e.name| + 1)
  {
    hide EncodeElement, WellFormedValue;
    ElementParts(mem, p, e);
    CStringMeasures(mem, p + 1, e.name, if limit == UNCHECKED then |mem| - p - 1 else limit - 1);
  }

  lemma TypeIsNotEOO(v: Value)
    requires WellFormedValue(v)
    ensures TypeByte(v) != EOO
  {
  }

  lemma PrefixedValueMeasures(mem: seq<Byte>, v: nat, n: nat, rest: seq<Byte>, remain: nat)
    requires At(mem, v, W32(n) + rest) && n < TWO31 && v + remain <= |mem| && 4 + |rest| <= remain
    ensures remain > 3 && I32(mem, v) == n
  {
    hide W32;
    AtSplits(mem, v, W32(n), rest);
    LengthReads(mem, v, n);
  }

  lemma CStrLength(s: seq<Byte>)
    ensures |CStr(s)| == |s| + 1
  {
  }

  lemma RegexMeasures(mem: seq<Byte>, v: nat, pattern: seq<Byte>, options: seq<Byte>, remain: nat, checked: bool)
    requires At(mem, v, CStr(pattern) + CStr(options)) && 0 !in pattern && 0 !in options
    requires |pattern| + |options| + 2 <= remain && v + remain <= |mem|
    ensures RegexSize(mem, v, remain, checked) == Size(|pattern| + |options| + 2)
  {
    hide At, CStr, StrNLen;
    assert |CStr(pattern)| == |pattern| + 1 by {
      CStrLength(pattern);
    }
    AtSplits(mem, v, CStr(pattern), CStr(options));
    CStringMeasures(mem, v, pattern, remain);
    CStringMeasures(mem, v + |pattern| + 1, options, remain - |pattern| - 1);
  }

  lemma ValueMeasures(mem: seq<Byte>, val: Value, v: nat, remain: nat, checked: bool)
    requires WellFormedValue(val) && At(mem, v, EncodeValue(val)) && |EncodeValue(val)| <= remain && v + remain <= |mem|
    requires |EncodeValue(val)| < TWO31
    ensures ValueSize(mem, TypeByte(val), v, remain, checked) == Size(|EncodeValue(val)|)
  {
    hide W32, I32, EncodeElements, WellFormed, RegexSize, StrNLen;
    match val
    case Fixed(_, _) =>
    case Text(_, s) => PrefixedValueMeasures(mem, v, |s| + 1, CStr(s), remain);
    case Reference(ns, oid) =>
      assert EncodeValue(val) == W32(|ns| + 1) + (CStr(ns) + oid);
      PrefixedValueMeasures(mem, v, |ns| + 1, CStr(ns) + oid, remain);
    case Binary(subtype, bytes) =>
      assert EncodeValue(val) == W32(|bytes|) + ([subtype] + bytes);
      PrefixedValueMeasures(mem, v, |bytes|, [subtype] + bytes, remain);
    case Regex(pattern, options) => RegexMeasures(mem, v, pattern, options, remain, checked);
    case Document(_, fields) => FrameMeasures(mem, v, EncodeElements(fields), remain);
    case Scoped(code, scope) =>
      var s := Framed(EncodeElements(scope));
      var n := 9 + |code| + |s|;
      assert EncodeValue(val) == W32(n) + (LString(code) + s);
      PrefixedValueMeasures(mem, v, n, LString(code) + s, remain);
  }

  lemma FrameMeasures(mem: seq<Byte>, v: nat, body: seq<Byte>, remain: nat)
    requires At(mem, v, Framed(body)) && |Framed(body)| < TWO31 && v + remain <= |mem| && |body| + 5 <= remain
    ensures remain > 3 && I32(mem, v) == |body| + 5
  {
    hide W32;
    assert Framed(body) == W32(|body| + 5) + (body + [0]);
    PrefixedValueMeasures(mem, v, |body| + 5, body + [0], remain);
  }

  // size() of an encoded element is its encoded length, for every type, with any limit that lets
  // it in and without one.
  lemma EncodedElementMeasures(mem: seq<Byte>, p: nat, e: Element, limit: int)
    requires WellFormedElement(e) && At(mem, p, EncodeElement(e)) && Limit(mem, p, limit)
    requires |EncodeElement(e)| < TWO31 && (limit == UNCHECKED || |EncodeElement(e)| <= limit)
    ensures ElementSize(mem, p, limit) == Size(|EncodeElement(e)|)
  {
    hide EncodeValue, EncodeElement, FieldNameSize, ValueSize, WellFormedValue;
    ElementParts(mem, p, e);
    TypeIsNotEOO(e.value);
    NameMeasures(mem, p, e, limit);
    var v := p + 2 + |e.name|;
    ValueMeasures(mem, e.value, v, if limit == UNCHECKED then |mem| - v else limit - |e.name| - 2, limit != UNCHECKED);
  }

  lemma NameInFront(mem: seq<Byte>, p: nat, t: Byte, name: seq<Byte>, limit: int)
    requires At(mem, p, [t] + CStr(name)) && 0 !in name && t != 0
    requires Limit(mem, p, limit) && |name| + 2 <= limit
    ensures FieldNameSize(mem, p, limit) == Size(|name| + 1) && mem[p] == t
  {
    hide StrNLen;
    AtSplits(mem, p, [t], CStr(name));
    AtByte(mem, p, [t], 0);
    CStringMeasures(mem, p + 1, name, limit - 1);
  }

  // With a limit, a type that the grammar does not have fails an assertion of its own, and so does
  // every value that begins with a length of which fewer than four bytes are left.
  lemma BadElementAsserts(mem: seq<Byte>, p: nat, t: Byte, name: seq<Byte>, limit: int)
    requires At(mem, p, [t] + CStr(name)) && 0 !in name && t != 0
    requires Limit(mem, p, limit) && |name| + 2 <= limit
    ensures 0x12 < t < 0x7F || 0x7F < t < 0xFF ==> ElementSize(mem, p, limit) == Asserted(10320)
    ensures limit < |name| + 6 && (t == 0x02 || t == 0x0D || t == 0x0E) ==>
              ElementSize(mem, p, limit) == Asserted(10313)
    ensures limit < |name| + 6 && t == 0x0F ==> ElementSize(mem, p, limit) == Asserted(10314)
    ensures limit < |name| + 6 && t == 0x0C ==> ElementSize(mem, p, limit) == Asserted(10315)
    ensures limit < |name| + 6 && (t == 0x03 || t == 0x04) ==> ElementSize(mem, p, limit) == Asserted(10316)
    ensures limit < |name| + 6 && t == 0x05 ==> ElementSize(mem, p, limit) == Asserted(10317)
  {
    hide FieldNameSize, I32, StrNLen;
    NameInFront(mem, p, t, name, limit);
  }

  // A name without its terminator in front of the limit
  lemma {:induction false} NoZeroNoLength(mem: seq<Byte>, p: nat, n: int)
    requires n <= 0 || p + n <= |mem|
    requires forall k :: p <= k < p + n ==> mem[k] != 0
    ensures StrNLen(mem, p, n) == -1
    decreases n
  {
    if n <= 0 {
    } else {
      NoZeroNoLength(mem, p + 1, n - 1);
    }
  }

  lemma UnterminatedNameAsserts(mem: seq<Byte>, p: nat, limit: int)
    requires Limit(mem, p, limit) && limit != UNCHECKED
    requires forall k :: p <= k < p + limit ==> mem[k] != 0
    ensures ElementSize(mem, p, limit) == Asserted(10333)
  {
    hide StrNLen;
    NoZeroNoLength(mem, p + 1, limit - 1);
  }

  // ---------- the walk ----------

  // What an iterator at q with this end delivers: the elements before EOO, and where it stops.
  datatype Walked = Walked(starts: seq<nat>, stop: int, failed: Option<Sized>)

  // more() and next() until more() is false
  function Walk(mem: seq<Byte>, q: nat, end: nat, checked: bool): Walked
    requires end <= |mem|
    decreases end - q
  {
    if q >= end || mem[q] == 0 then Walked([], q, None)
    else
      match ElementSize(mem, q, if checked then end - q else UNCHECKED)
      case Size(n) =>
        if n <= 0 then Walked([], q, Some(Size(n)))
        else
          var w := Walk(mem, q + n, end, checked);
          w.(starts := [q] + w.starts)
      case failed => Walked([], q, Some(failed))
  }

  function StartsOf(es: seq<Element>, q: nat): (s: seq<nat>)
    ensures |s| == |es|
  {
    if es == [] then [] else [q] + StartsOf(es[1..], q + |EncodeElement(es[0])|)
  }

  lemma WalkSteps(mem: seq<Byte>, q: nat, n: nat, end: nat, checked: bool)
    requires q < end <= |mem| && mem[q] != 0 && n > 0
    requires ElementSize(mem, q, if checked then end - q else UNCHECKED) == Size(n)
    ensures var w := Walk(mem, q + n, end, checked);
            Walk(mem, q, end, checked) == Walked([q] + w.starts, w.stop, w.failed)
  {
    hide ElementSize;
  }

  lemma ElementMeasuresInObject(mem: seq<Byte>, q: nat, e: Element, end: nat, checked: bool)
    requires WellFormedElement(e) && At(mem, q, EncodeElement(e)) && q + |EncodeElement(e)| <= end <= |mem|
    requires |EncodeElement(e)| < TWO31
    ensures mem[q] != 0 && ElementSize(mem, q, if checked then end - q else UNCHECKED) == Size(|EncodeElement(e)|)
  {
    hide EncodeElement, ElementSize, WellFormedValue;
    ElementParts(mem, q, e);
    TypeIsNotEOO(e.value);
    EncodedElementMeasures(mem, q, e, if checked then end - q else UNCHECKED);
  }

  // Iterating over an encoded object delivers exactly its elements in order, with and without
  // checks, and more() turns false exactly at EOO.
  lemma {:induction false} WalkFindsElements(mem: seq<Byte>, q: nat, es: seq<Element>, end: nat, checked: bool)
    requires WellFormed(es) && At(mem, q, EncodeElements(es) + [0])
    requires end == q + |EncodeElements(es)| + 1 && |EncodeElements(es)| < TWO31
    ensures Walk(mem, q, end, checked) == Walked(StartsOf(es, q), end - 1, None)
    decreases |es|
  {
    hide EncodeElement, ElementSize, WellFormedElement;
    if es == [] {
      AtByte(mem, q, [0], 0);
      assert EncodeElements(es) + [0] == [0];
    } else {
      hide Walk;
      var e, rest := EncodeElement(es[0]), EncodeElements(es[1..]) + [0];
      assert EncodeElements(es) + [0] == e + rest;
      AtSplits(mem, q, e, rest);
      ElementMeasuresInObject(mem, q, es[0], end, checked);
      WalkSteps(mem, q, |e|, end, checked);
      WalkFindsElements(mem, q + |e|, es[1..], end, checked);
    }
  }

  // The first element of a document, and what follows it
  lemma FirstStands(mem: seq<Byte>, q: nat, es: seq<Element>)
    requires es != [] && At(mem, q, EncodeElements(es) + [0])
    ensures var e, rest := EncodeElement(es[0]), EncodeElements(es[1..]);
            && At(mem, q, e) && At(mem, q + |e|, rest + [0])
            && |EncodeElements(es)| == |e| + |rest| && q + |e| + |rest| + 1 <= |mem|
  {
    hide EncodeElement;
    var e, rest := EncodeElement(es[0]), EncodeElements(es[1..]) + [0];
    assert EncodeElements(es) + [0] == e + rest;
    AtSplits(mem, q, e, rest);
  }

  lemma {:induction false} ElementsStand(mem: seq<Byte>, q: nat, es: seq<Element>, k: nat)
    requires At(mem, q, EncodeElements(es)) && k < |es|
    ensures At(mem, StartsOf(es, q)[k], EncodeElement(es[k]))
    decreases |es|
  {
    hide EncodeElement, At;
    var e := EncodeElement(es[0]);
    AtSplits(mem, q, e, EncodeElements(es[1..]));
    if k == 0 {
    } else {
      ElementsStand(mem, q + |e|, es[1..], k - 1);
    }
  }
}
