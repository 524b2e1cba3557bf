// What a Thrift protocol carries: a stream of tokens, the value trees it spells out, and skipping
// over them. Struct and field names are not on the wire.
module ThriftWire {
  import opened Bytes

  datatype TType =
    | T_BOOL | T_BYTE | T_DOUBLE | T_I16 | T_I32 | T_I64 | T_STRING | T_STRUCT | T_MAP | T_SET | T_LIST

  datatype TMessageType = T_CALL | T_REPLY | T_EXCEPTION | T_ONEWAY

  datatype Token =
    | MessageBegin(name: seq<Byte>, mtype: TMessageType, seqid: int) | MessageEnd
    | StructBegin | StructEnd
    | FieldBegin(ftype: TType, fid: int) | FieldEnd | FieldStop
    | ListBegin(etype: TType, size: nat) | ListEnd
    | SetBegin(etype: TType, size: nat) | SetEnd
    | MapBegin(ktype: TType, vtype: TType, size: nat) | MapEnd
    | Scalar(ttype: TType, n: int) | Text(bytes: seq<Byte>)

  // A value as its tokens describe it
  datatype Wire =
    | Num(ttype: TType, n: int)
    | Str(bytes: seq<Byte>)
    | Items(etype: TType, items: seq<Wire>)
    | Elements(etype: TType, items: seq<Wire>)
    | Pairs(ktype: TType, vtype: TType, pairs: seq<WirePair>)
    | Fields(fields: seq<WireField>)

  datatype WirePair = WirePair(key: Wire, value: Wire)
  datatype WireField = WireField(fid: int, value: Wire)

  function TypeOf(w: Wire): TType
  {
    match w
    case Num(t, _) => t
    case Str(_) => T_STRING
    case Items(_, _) => T_LIST
    case Elements(_, _) => T_SET
    case Pairs(_, _, _) => T_MAP
    case Fields(_) => T_STRUCT
  }

  predicate IsScalar(t: TType)
  {
    t == T_BOOL || t == T_BYTE || t == T_DOUBLE || t == T_I16 || t == T_I32 || t == T_I64
  }

  // Containers hold what their headers announce.
  predicate WellTyped(w: Wire)
    decreases w
  {
    match w
    case Num(t, _) => IsScalar(t)
    case Str(_) => true
    case Items(e, items) => WellTypedItems(e, items)
    case Elements(e, items) => WellTypedItems(e, items)
    case Pairs(k, v, pairs) => WellTypedPairs(k, v, pairs)
    case Fields(fields) => WellTypedFields(fields)
  }

  predicate WellTypedItems(e: TType, items: seq<Wire>)
    decreases items
  {
    items == [] || (TypeOf(items[0]) == e && WellTyped(items[0]) && WellTypedItems(e, items[1..]))
  }

  predicate WellTypedPair(k: TType, v: TType, p: WirePair)
    decreases p
  {
    TypeOf(p.key) == k && WellTyped(p.key) && TypeOf(p.value) == v && WellTyped(p.value)
  }

  predicate WellTypedPairs(k: TType, v: TType, pairs: seq<WirePair>)
    decreases pairs
  {
    pairs == [] || (WellTypedPair(k, v, pairs[0]) && WellTypedPairs(k, v, pairs[1..]))
  }

  predicate WellTypedField(f: WireField)
    decreases f
  {
    WellTyped(f.value)
  }

  predicate WellTypedFields(fields: seq<WireField>)
    decreases fields
  {
    fields == [] || (WellTypedField(fields[0]) && WellTypedFields(fields[1..]))
  }

  // ---------- spelling a value out ----------

  function Emit(w: Wire): (ts: seq<Token>)
    ensures ts != []
    decreases w
  {
    match w
    case Num(t, n) => [Scalar(t, n)]
    case Str(bytes) => [Text(bytes)]
    case Items(e, items) => [ListBegin(e, |items|)] + EmitItems(items) + [ListEnd]
    case Elements(e, items) => [SetBegin(e, |items|)] + EmitItems(items) + [SetEnd]
    case Pairs(k, v, pairs) => [MapBegin(k, v, |pairs|)] + EmitPairs(pairs) + [MapEnd]
    case Fields(fields) => [StructBegin] + EmitFields(fields) + [FieldStop, StructEnd]
  }

  function EmitItems(items: seq<Wire>): seq<Token>
    decreases items
  {
    if items == [] then [] else Emit(items[0]) + EmitItems(items[1..])
  }

  function EmitPair(p: WirePair): seq<Token>
    decreases p
  {
    Emit(p.key) + Emit(p.value)
  }

  function EmitPairs(pairs: seq<WirePair>): seq<Token>
    decreases pairs
  {
    if pairs == [] then [] else EmitPair(pairs[0]) + EmitPairs(pairs[1..])
  }

  function EmitField(f: WireField): (ts: seq<Token>)
    ensures ts != []
    decreases f
  {
    [FieldBegin(TypeOf(f.value), f.fid)] + Emit(f.value) + [FieldEnd]
  }

  function EmitFields(fields: seq<WireField>): seq<Token>
    decreases fields
  {
    if fields == [] then [] else EmitField(fields[0]) + EmitFields(fields[1..])
  }

  // ---------- reading, and skipping one ----------

  // INVALID_DATA, or a stream that does not go on as the reader expects.
  datatype Failure = InvalidData | BadStream

  datatype Outcome<+T> = Good(value: T) | Bad(err: Failure) {
    predicate IsFailure() {
      Bad?
    }

    function PropagateFailure<U>(): Outcome<U>
      requires Bad?
    {
      Bad(err)
    }

    function Extract(): T
      requires Good?
    {
      value
    }
  }

  // The stream behind its first token, if that is t
  function Expect(ts: seq<Token>, t: Token): (rest: Outcome<seq<Token>>)
    ensures rest.Good? ==> |rest.value| < |ts|
  {
    if ts != [] && ts[0] == t then Good(ts[1..]) else Bad(BadStream)
  }

  // skip: one value of type t, whatever it holds
  function Skip(t: TType, ts: seq<Token>): (rest: Outcome<seq<Token>>)
    ensures rest.Good? ==> |rest.value| < |ts|
    decreases |ts|, 0, 0
  {
    if ts == [] then Bad(BadStream)
    else
      match ts[0]
      case Scalar(u, _) => if t == u then Good(ts[1..]) else Bad(BadStream)
      case Text(_) => if t == T_STRING then Good(ts[1..]) else Bad(BadStream)
      case StructBegin => if t == T_STRUCT then SkipFields(ts[1..]) else Bad(BadStream)
      case ListBegin(e, n) =>
        if t != T_LIST then Bad(BadStream)
        else
          var rest :- SkipItems(e, n, ts[1..]);
          Expect(rest, ListEnd)
      case SetBegin(e, n) =>
        if t != T_SET then Bad(BadStream)
        else
          var rest :- SkipItems(e, n, ts[1..]);
          Expect(rest, SetEnd)
      case MapBegin(k, v, n) =>
        if t != T_MAP then Bad(BadStream)
        else
          var rest :- SkipPairs(k, v, n, ts[1..]);
          Expect(rest, MapEnd)
      case _ => Bad(BadStream)
  }

  function SkipItems(e: TType, n: nat, ts: seq<Token>): (rest: Outcome<seq<Token>>)
    ensures rest.Good? ==> |rest.value| <= |ts|
    decreases |ts|, 1, n
  {
    if n == 0 then Good(ts)
    else
      var rest :- Skip(e, ts);
      SkipItems(e, n - 1, rest)
  }

  function SkipPairs(k: TType, v: TType, n: nat, ts: seq<Token>): (rest: Outcome<seq<Token>>)
    ensures rest.Good? ==> |rest.value| <= |ts|
    decreases |ts|, 1, n
  {
    if n == 0 then Good(ts)
    else
      var mid :- Skip(k, ts);
      var rest :- Skip(v, mid);
      SkipPairs(k, v, n - 1, rest)
  }

  function SkipFields(ts: seq<Token>): (rest: Outcome<seq<Token>>)
    ensures rest.Good? ==> |rest.value| < |ts|
    decreases |ts|, 1, 0
  {
    if ts == [] then Bad(BadStream)
    else if ts[0] == FieldStop then Expect(ts[1..], StructEnd)
    else if !ts[0].FieldBegin? then Bad(BadStream)
    else
      var mid :- Skip(ts[0].ftype, ts[1..]);
      var rest :- Expect(mid, FieldEnd);
      SkipFields(rest)
  }

  // The first token of a value, and what stands behind it
  lemma EmitOpens(w: Wire, rest: seq<Token>)
    ensures var ts := Emit(w) + rest;
            && ts != []
            && match w
               case Num(t, n) => ts[0] == Scalar(t, n) && ts[1..] == rest
               case Str(bytes) => ts[0] == Text(bytes) && ts[1..] == rest
               case Items(e, items) =>
                 ts[0] == ListBegin(e, |items|) && ts[1..] == EmitItems(items) + ([ListEnd] + rest)
               case Elements(e, items) =>
                 ts[0] == SetBegin(e, |items|) && ts[1..] == EmitItems(items) + ([SetEnd] + rest)
               case Pairs(k, v, pairs) =>
                 ts[0] == MapBegin(k, v, |pairs|) && ts[1..] == EmitPairs(pairs) + ([MapEnd] + rest)
               case Fields(fields) =>
                 ts[0] == StructBegin && ts[1..] == EmitFields(fields) + ([FieldStop, StructEnd] + rest)
  {
    hide EmitItems, EmitPairs, EmitFields;
  }

  // ---------- skipping consumes exactly one value ----------

  lemma {:induction false} SkipsOneValue(w: Wire, rest: seq<Token>)
    requires WellTyped(w)
    ensures Skip(TypeOf(w), Emit(w) + rest) == Good(rest)
    decreases w
  {
    hide Emit, EmitItems, EmitPairs, EmitFields, SkipItems, SkipPairs, SkipFields;
    EmitOpens(w, rest);
    match w
    case Num(_, _) =>
    case Str(_) =>
    case Items(e, items) => SkipsItems(e, items, [ListEnd] + rest);
    case Elements(e, items) => SkipsItems(e, items, [SetEnd] + rest);
    case Pairs(k, v, pairs) => SkipsPairs(k, v, pairs, [MapEnd] + rest);
    case Fields(fields) => SkipsFields(fields, rest);
  }

  lemma {:induction false} SkipsItems(e: TType, items: seq<Wire>, rest: seq<Token>)
    requires WellTypedItems(e, items)
    ensures SkipItems(e, |items|, EmitItems(items) + rest) == Good(rest)
    decreases items
  {
    if items == [] {
      assert EmitItems(items) + rest == rest;
    } else {
      assert EmitItems(items) + rest == Emit(items[0]) + (EmitItems(items[1..]) + rest);
      SkipsOneValue(items[0], EmitItems(items[1..]) + rest);
      SkipsItems(e, items[1..], rest);
    }
  }

  lemma {:induction false} SkipsPairs(k: TType, v: TType, pairs: seq<WirePair>, rest: seq<Token>)
    requires WellTypedPairs(k, v, pairs)
    ensures SkipPairs(k, v, |pairs|, EmitPairs(pairs) + rest) == Good(rest)
    decreases pairs
  {
    if pairs == [] {
      assert EmitPairs(pairs) + rest == rest;
    } else {
      var tail := EmitPairs(pairs[1..]) + rest;
      assert EmitPairs(pairs) + rest == EmitPair(pairs[0]) + tail;
      SkipsPair(k, v, pairs[0], tail);
      SkipsPairs(k, v, pairs[1..], rest);
    }
  }

  lemma SkipsPair(k: TType, v: TType, p: WirePair, rest: seq<Token>)
    requires WellTypedPair(k, v, p)
    ensures Skip(k, EmitPair(p) + rest) == Good(Emit(p.value) + rest)
    ensures Skip(v, Emit(p.value) + rest) == Good(rest)
    decreases p
  {
    assert EmitPair(p) + rest == Emit(p.key) + (Emit(p.value) + rest);
    SkipsOneValue(p.key, Emit(p.value) + rest);
    SkipsOneValue(p.value, rest);
  }

  lemma {:induction false} SkipsFields(fields: seq<WireField>, rest: seq<Token>)
    requires WellTypedFields(fields)
    ensures SkipFields(EmitFields(fields) + ([FieldStop, StructEnd] + rest)) == Good(rest)
    decreases fields
  {
    var end := [FieldStop, StructEnd] + rest;
    if fields == [] {
      assert EmitFields(fields) + end == end && end[1..] == [StructEnd] + rest;
    } else {
      var f, tail := fields[0], EmitFields(fields[1..]) + end;
      assert EmitFields(fields) + end == EmitField(f) + tail;
      SkipsField(f, tail);
      SkipsFields(fields[1..], rest);
    }
  }

  lemma SkipsField(f: WireField, rest: seq<Token>)
    requires WellTypedField(f)
    ensures var ts := EmitField(f) + rest;
            ts[0] == FieldBegin(TypeOf(f.value), f.fid) && Skip(TypeOf(f.value), ts[1..]) == Good([FieldEnd] + rest)
    decreases f
  {
    assert EmitField(f) + rest == [FieldBegin(TypeOf(f.value), f.fid)] + (Emit(f.value) + ([FieldEnd] + rest));
    SkipsOneValue(f.value, [FieldEnd] + rest);
  }
}
