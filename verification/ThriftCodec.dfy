// The generated read and write functions of cassandra_types.cpp and Cassandra.cpp, driven by the
// shape of the struct they were generated for.
module ThriftCodec {
  import opened Bytes
  import opened Options
  import opened ThriftWire

  // ---------- shapes and values ----------

  datatype Shape =
    | Plain(ttype: TType)
    | Chars
    | ListOf(elem: Shape)
    | MapOf(value: Shape)
    | StructOf(fields: seq<Field>)

  datatype Field = Field(fid: int, required: bool, shape: Shape)

  // A struct has a slot per field; None is a field that is not set.
  datatype Val =
    | VNum(n: int)
    | VText(bytes: seq<Byte>)
    | VList(items: seq<Val>)
    | VMap(entries: seq<MapEntry>)
    | VStruct(slots: seq<Option<Val>>)

  datatype MapEntry = MapEntry(key: seq<Byte>, value: Val)

  function WireType(sh: Shape): TType
  {
    match sh
    case Plain(t) => t
    case Chars => T_STRING
    case ListOf(_) => T_LIST
    case MapOf(_) => T_MAP
    case StructOf(_) => T_STRUCT
  }

  // Field numbers are distinct, all the way down.
  ghost predicate Sound(sh: Shape)
    decreases sh
  {
    match sh
    case Plain(t) => IsScalar(t)
    case Chars => true
    case ListOf(e) => Sound(e)
    case MapOf(e) => Sound(e)
    case StructOf(fs) =>
      && (forall i :: 0 <= i < |fs| ==> Sound(fs[i].shape))
      && (forall i, j :: 0 <= i < j < |fs| ==> fs[i].fid != fs[j].fid)
  }

  // std::string compares bytes lexicographically.
  predicate Less(a: seq<Byte>, b: seq<Byte>)
  {
    b != [] && (a == [] || a[0] < b[0] || (a[0] == b[0] && Less(a[1..], b[1..])))
  }

  // The first difference decides, or the end of the shorter string.
  lemma {:induction false} FirstByteDecides(a: seq<Byte>, b: seq<Byte>, k: nat)
    requires k <= |a| && k < |b| && a[..k] == b[..k] && (k < |a| ==> a[k] < b[k])
    ensures Less(a, b) && !Less(b, a)
    decreases k
  {
    if k == 0 {
    } else {
      assert a[0] == a[..k][0] == b[..k][0] == b[0];
      assert a[1..][..k - 1] == a[..k][1..] && b[1..][..k - 1] == b[..k][1..];
      FirstByteDecides(a[1..], b[1..], k - 1);
    }
  }

  ghost predicate Sorted(m: seq<MapEntry>)
  {
    forall i, j :: 0 <= i < j < |m| ==> Less(m[i].key, m[j].key)
  }

  // A value that a C++ object of this shape can hold, with all its required fields.
  ghost predicate Typed(sh: Shape, v: Val)
    decreases sh
  {
    match sh
    case Plain(_) => v.VNum?
    case Chars => v.VText?
    case ListOf(e) => v.VList? && forall i :: 0 <= i < |v.items| ==> Typed(e, v.items[i])
    case MapOf(e) => v.VMap? && Sorted(v.entries) && forall i :: 0 <= i < |v.entries| ==> Typed(e, v.entries[i].value)
    case StructOf(fs) =>
      && v.VStruct? && |v.slots| == |fs|
      && forall i :: 0 <= i < |fs| ==>
           if v.slots[i].Some? then Typed(fs[i].shape, v.slots[i].value) else !fs[i].required
  }

  // The field switch: the field with this number
  function FieldIndex(fs: seq<Field>, fid: int): (i: nat)
    ensures i <= |fs| && (i < |fs| ==> fs[i].fid == fid)
    ensures forall j :: 0 <= j < i ==> fs[j].fid != fid
  {
    if fs == [] then 0
    else if fs[0].fid == fid then 0
    else 1 + FieldIndex(fs[1..], fid)
  }

  function Fresh(n: nat): (s: seq<Option<Val>>)
    ensures |s| == n
  {
    seq(n, _ => None)
  }

  // The object a nested read starts from
  function SlotsOf(fs: seq<Field>, prior: Option<Val>): (s: seq<Option<Val>>)
    ensures |s| == |fs|
  {
    if prior.Some? && prior.value.VStruct? && |prior.value.slots| == |fs| then prior.value.slots else Fresh(|fs|)
  }

  function Find(m: seq<MapEntry>, key: seq<Byte>): Option<Val>
  {
    if m == [] then None
    else if m[0].key == key then Some(m[0].value)
    else Find(m[1..], key)
  }

  // m[key] = v of std::map
  function Insert(m: seq<MapEntry>, key: seq<Byte>, v: Val): seq<MapEntry>
  {
    if m == [] || Less(key, m[0].key) then [MapEntry(key, v)] + m
    else if m[0].key == key then [MapEntry(key, v)] + m[1..]
    else [m[0]] + Insert(m[1..], key, v)
  }

  predicate AllRequired(fs: seq<Field>, seen: set<nat>)
  {
    forall i :: 0 <= i < |fs| && fs[i].required ==> i in seen
  }

  // ---------- read ----------

  type Parsed<+T> = Outcome<(T, seq<Token>)>

  // The fields of a struct and which of them have been read
  datatype Filled = Filled(slots: seq<Option<Val>>, isset: set<nat>)

  // read into an object of this shape that holds prior
  function ReadVal(sh: Shape, prior: Option<Val>, ts: seq<Token>): (r: Parsed<Val>)
    ensures r.Good? ==> |r.value.1| < |ts|
    decreases |ts|, 0, 0
  {
    if ts == [] then Bad(BadStream)
    else
      match sh
      case Plain(t) => if ts[0].Scalar? && ts[0].ttype == t then Good((VNum(ts[0].n), ts[1..])) else Bad(BadStream)
      case Chars => if ts[0].Text? then Good((VText(ts[0].bytes), ts[1..])) else Bad(BadStream)
      case ListOf(e) =>
        if !ts[0].ListBegin? then Bad(BadStream)
        else
          var (items, mid) :- ReadItems(e, ts[0].size, ts[1..]);
          var rest :- Expect(mid, ListEnd);
          Good((VList(items), rest))
      case MapOf(e) =>
        if !ts[0].MapBegin? then Bad(BadStream)
        else
          var (entries, mid) :- ReadEntries(e, ts[0].size, [], ts[1..]);
          var rest :- Expect(mid, MapEnd);
          Good((VMap(entries), rest))
      case StructOf(fs) =>
        if ts[0] != StructBegin then Bad(BadStream)
        else ReadFields(fs, SlotsOf(fs, prior), {}, ts[1..])
  }

  // clear, resize and the loop over the elements
  function ReadItems(e: Shape, n: nat, ts: seq<Token>): (r: Parsed<seq<Val>>)
    ensures r.Good? ==> |r.value.1| <= |ts|
    decreases |ts|, 1, n
  {
    if n == 0 then Good(([], ts))
    else
      var (v, mid) :- ReadVal(e, None, ts);
      var (vs, rest) :- ReadItems(e, n - 1, mid);
      Good(([v] + vs, rest))
  }

  // The loop over the entries; a key that comes again is read into the value it has.
  function ReadEntries(e: Shape, n: nat, m: seq<MapEntry>, ts: seq<Token>): (r: Parsed<seq<MapEntry>>)
    ensures r.Good? ==> |r.value.1| <= |ts|
    decreases |ts|, 1, n
  {
    if n == 0 then Good((m, ts))
    else if ts == [] || !ts[0].Text? then Bad(BadStream)
    else
      var (v, rest) :- ReadVal(e, Find(m, ts[0].bytes), ts[1..]);
      ReadEntries(e, n - 1, Insert(m, ts[0].bytes, v), rest)
  }

  // The loop over the fields, up to the end of the struct
  function ReadSlots(fs: seq<Field>, slots: seq<Option<Val>>, seen: set<nat>, ts: seq<Token>): (r: Parsed<Filled>)
    requires |slots| == |fs|
    ensures r.Good? ==> |r.value.0.slots| == |fs| && |r.value.1| < |ts|
    decreases |ts|, 1, 0
  {
    if ts == [] then Bad(BadStream)
    else if ts[0] == FieldStop then
      var rest :- Expect(ts[1..], StructEnd);
      Good((Filled(slots, seen), rest))
    else if !ts[0].FieldBegin? then Bad(BadStream)
    else
      var i := FieldIndex(fs, ts[0].fid);
      if i < |fs| && ts[0].ftype == WireType(fs[i].shape) then
        var (v, mid) :- ReadVal(fs[i].shape, slots[i], ts[1..]);
        var rest :- Expect(mid, FieldEnd);
        ReadSlots(fs, slots[i := Some(v)], seen + {i}, rest)
      else
        var mid :- Skip(ts[0].ftype, ts[1..]);
        var rest :- Expect(mid, FieldEnd);
        ReadSlots(fs, slots, seen, rest)
  }

  // The loop and the check for required fields behind it
  function ReadFields(fs: seq<Field>, slots: seq<Option<Val>>, seen: set<nat>, ts: seq<Token>): (r: Parsed<Val>)
    requires |slots| == |fs|
    ensures r.Good? ==> |r.value.1| < |ts|
    decreases |ts|, 2, 0
  {
    var (filled, rest) :- ReadSlots(fs, slots, seen, ts);
    if AllRequired(fs, filled.isset) then Good((VStruct(filled.slots), rest)) else Bad(InvalidData)
  }

  // ---------- the same on value trees ----------

  // A field that the switch knows, with the type it expects
  predicate Relevant(fs: seq<Field>, f: WireField)
  {
    var i := FieldIndex(fs, f.fid);
    i < |fs| && TypeOf(f.value) == WireType(fs[i].shape)
  }

  function Decode(sh: Shape, prior: Option<Val>, w: Wire): Outcome<Val>
    decreases sh, 0
  {
    match sh
    case Plain(t) => if w.Num? && w.ttype == t then Good(VNum(w.n)) else Bad(BadStream)
    case Chars => if w.Str? then Good(VText(w.bytes)) else Bad(BadStream)
    case ListOf(e) =>
      if !w.Items? then Bad(BadStream)
      else
        var items :- DecodeItems(e, w.items);
        Good(VList(items))
    case MapOf(e) =>
      if !w.Pairs? then Bad(BadStream)
      else
        var entries :- DecodePairs(e, [], w.pairs);
        Good(VMap(entries))
    case StructOf(fs) =>
      if !w.Fields? then Bad(BadStream) else DecodeFields(fs, SlotsOf(fs, prior), {}, w.fields)
  }

  function DecodeItems(e: Shape, ws: seq<Wire>): (r: Outcome<seq<Val>>)
    ensures r.Good? ==> |r.value| == |ws|
    decreases e, 1 + |ws|
  {
    if ws == [] then Good([])
    else
      var v :- Decode(e, None, ws[0]);
      var vs :- DecodeItems(e, ws[1..]);
      Good([v] + vs)
  }

  function DecodePairs(e: Shape, m: seq<MapEntry>, ps: seq<WirePair>): Outcome<seq<MapEntry>>
    decreases e, 1 + |ps|
  {
    if ps == [] then Good(m)
    else if !ps[0].key.Str? then Bad(BadStream)
    else
      var key := ps[0].key.bytes;
      var v :- Decode(e, Find(m, key), ps[0].value);
      DecodePairs(e, Insert(m, key, v), ps[1..])
  }

  function DecodeField(f: Field, prior: Option<Val>, w: Wire): Outcome<Val>
    decreases f, 0
  {
    Decode(f.shape, prior, w)
  }

  function DecodeFields(fs: seq<Field>, slots: seq<Option<Val>>, seen: set<nat>, ws: seq<WireField>): Outcome<Val>
    requires |slots| == |fs|
    decreases fs, 1 + |ws|
  {
    if ws == [] then if AllRequired(fs, seen) then Good(VStruct(slots)) else Bad(InvalidData)
    else if Relevant(fs, ws[0]) then
      var i := FieldIndex(fs, ws[0].fid);
      var v :- DecodeField(fs[i], slots[i], ws[0].value);
      DecodeFields(fs, slots[i := Some(v)], seen + {i}, ws[1..])
    else DecodeFields(fs, slots, seen, ws[1..])
  }

  // Behind a decoded value the stream goes on with rest.
  function Then<T>(r: Outcome<T>, rest: seq<Token>): Parsed<T>
  {
    match r
    case Good(v) => Good((v, rest))
    case Bad(x) => Bad(x)
  }

  // Reading the tokens of a value tree decodes the tree and consumes exactly those tokens.
  lemma {:induction false} ReadDecodes(sh: Shape, prior: Option<Val>, w: Wire, rest: seq<Token>)
    requires WellTyped(w)
    ensures ReadVal(sh, prior, Emit(w) + rest) == Then(Decode(sh, prior, w), rest)
    decreases sh, 0
  {
    hide ReadItems, ReadEntries, ReadFields, ReadSlots, DecodeItems, DecodePairs, DecodeFields, EmitItems, EmitPairs,
        EmitFields, SlotsOf, WellTypedItems, WellTypedPairs, WellTypedFields;
    hide Emit;
    EmitOpens(w, rest);
    match w
    case Num(_, _) =>
    case Str(_) =>
    case Items(t, items) =>
      if sh.ListOf? {
        ReadDecodesItems(sh.elem, t, items, [ListEnd] + rest);
      }
    case Elements(_, _) =>
    case Pairs(k, t, pairs) =>
      if sh.MapOf? {
        ReadDecodesPairs(sh.value, k, t, [], pairs, [MapEnd] + rest);
      }
    case Fields(fields) =>
      if sh.StructOf? {
        ReadDecodesFields(sh.fields, SlotsOf(sh.fields, prior), {}, fields, rest);
      }
  }

  lemma {:induction false} ReadDecodesItems(e: Shape, t: TType, ws: seq<Wire>, rest: seq<Token>)
    requires WellTypedItems(t, ws)
    ensures ReadItems(e, |ws|, EmitItems(ws) + rest) == Then(DecodeItems(e, ws), rest)
    decreases e, 1 + |ws|
  {
    hide ReadVal, Decode, Emit, WellTyped;
    if ws == [] {
      assert EmitItems(ws) + rest == rest;
    } else {
      var tail := EmitItems(ws[1..]) + rest;
      assert EmitItems(ws) + rest == Emit(ws[0]) + tail;
      ReadDecodes(e, None, ws[0], tail);
      ReadDecodesItems(e, t, ws[1..], rest);
    }
  }

  lemma {:induction false} ReadDecodesPairs(e: Shape, k: TType, t: TType, m: seq<MapEntry>, ps: seq<WirePair>,
          rest: seq<Token>)
    requires WellTypedPairs(k, t, ps)
    ensures ReadEntries(e, |ps|, m, EmitPairs(ps) + rest) == Then(DecodePairs(e, m, ps), rest)
    decreases e, 1 + |ps|
  {
    hide ReadVal, Decode, WellTyped, Find, Insert, EmitItems, EmitFields;
    if ps == [] {
      assert EmitPairs(ps) + rest == rest;
    } else {
      var tail := EmitPairs(ps[1..]) + rest;
      assert EmitPairs(ps) + rest == Emit(ps[0].key) + (Emit(ps[0].value) + tail);
      if ps[0].key.Str? {
        var key := ps[0].key.bytes;
        assert EmitPairs(ps) + rest == [Text(key)] + (Emit(ps[0].value) + tail);
        ReadDecodes(e, Find(m, key), ps[0].value, tail);
        var v := Decode(e, Find(m, key), ps[0].value);
        if v.Good? {
          ReadDecodesPairs(e, k, t, Insert(m, key, v.value), ps[1..], rest);
        }
      }
    }
  }

  lemma ReadDecodesField(f: Field, prior: Option<Val>, w: WireField, rest: seq<Token>)
    requires WellTypedField(w)
    ensures var ts := EmitField(w) + rest;
            && ts[0] == FieldBegin(TypeOf(w.value), w.fid)
            && ReadVal(f.shape, prior, ts[1..]) == Then(DecodeField(f, prior, w.value), [FieldEnd] + rest)
    decreases f, 1
  {
    hide ReadVal, Decode, Emit, WellTyped;
    assert EmitField(w) + rest == [FieldBegin(TypeOf(w.value), w.fid)] + (Emit(w.value) + ([FieldEnd] + rest));
    ReadDecodes(f.shape, prior, w.value, [FieldEnd] + rest);
  }

  // One field: it is read into its slot, or skipped.
  lemma OneFieldReads(fs: seq<Field>, slots: seq<Option<Val>>, seen: set<nat>, f: WireField, tail: seq<Token>)
    requires |slots| == |fs| && WellTypedField(f)
    ensures var ts, i := EmitField(f) + tail, FieldIndex(fs, f.fid);
            ReadFields(fs, slots, seen, ts) ==
            if !Relevant(fs, f) then ReadFields(fs, slots, seen, tail)
            else
              match DecodeField(fs[i], slots[i], f.value)
              case Good(v) => ReadFields(fs, slots[i := Some(v)], seen + {i}, tail)
              case Bad(x) => Bad(x)
    decreases fs, 0
  {
    hide ReadVal, DecodeField, EmitField, WellTyped, AllRequired, Skip;
    var i := FieldIndex(fs, f.fid);
    SkipsField(f, tail);
    assert ([FieldEnd] + tail)[1..] == tail;
    if Relevant(fs, f) {
      ReadDecodesField(fs[i], slots[i], f, tail);
    }
  }

  lemma NoFieldReads(fs: seq<Field>, slots: seq<Option<Val>>, seen: set<nat>, rest: seq<Token>)
    requires |slots| == |fs|
    ensures ReadFields(fs, slots, seen, [FieldStop, StructEnd] + rest) == Then(DecodeFields(fs, slots, seen, []), rest)
  {
    hide AllRequired;
    assert ([FieldStop, StructEnd] + rest)[1..] == [StructEnd] + rest;
  }

  lemma {:induction false} ReadDecodesFields(fs: seq<Field>, slots: seq<Option<Val>>, seen: set<nat>,
          ws: seq<WireField>, rest: seq<Token>)
    requires |slots| == |fs| && WellTypedFields(ws)
    ensures ReadFields(fs, slots, seen, EmitFields(ws) + ([FieldStop, StructEnd] + rest))
         == Then(DecodeFields(fs, slots, seen, ws), rest)
    decreases fs, 1 + |ws|
  {
    hide ReadFields, DecodeField, EmitField, WellTyped, AllRequired;
    var end := [FieldStop, StructEnd] + rest;
    if ws == [] {
      assert EmitFields(ws) + end == end;
      NoFieldReads(fs, slots, seen, rest);
    } else {
      var f, tail := ws[0], EmitFields(ws[1..]) + end;
      var i := FieldIndex(fs, f.fid);
      assert EmitFields(ws) + end == EmitField(f) + tail;
      OneFieldReads(fs, slots, seen, f, tail);
      if Relevant(fs, f) {
        var v := DecodeField(fs[i], slots[i], f.value);
        if v.Good? {
          ReadDecodesFields(fs, slots[i := Some(v.value)], seen + {i}, ws[1..], rest);
        }
      } else {
        ReadDecodesFields(fs, slots, seen, ws[1..], rest);
      }
    }
  }

  // ---------- write ----------

  function ToWire(sh: Shape, v: Val): Wire
    requires Typed(sh, v)
    decreases sh, 0
  {
    match sh
    case Plain(t) => Num(t, v.n)
    case Chars => Str(v.bytes)
    case ListOf(e) => Items(WireType(e), ToItems(e, v.items))
    case MapOf(e) => Pairs(T_STRING, WireType(e), ToPairs(e, v.entries))
    case StructOf(fs) => Fields(ToFields(fs, v.slots, 0))
  }

  function ToItems(e: Shape, vs: seq<Val>): (ws: seq<Wire>)
    requires forall i :: 0 <= i < |vs| ==> Typed(e, vs[i])
    ensures |ws| == |vs|
    decreases e, 1 + |vs|
  {
    if vs == [] then [] else [ToWire(e, vs[0])] + ToItems(e, vs[1..])
  }

  function ToPairs(e: Shape, m: seq<MapEntry>): (ps: seq<WirePair>)
    requires forall i :: 0 <= i < |m| ==> Typed(e, m[i].value)
    ensures |ps| == |m|
    decreases e, 1 + |m|
  {
    if m == [] then [] else [WirePair(Str(m[0].key), ToWire(e, m[0].value))] + ToPairs(e, m[1..])
  }

  function ToField(f: Field, v: Val): WireField
    requires Typed(f.shape, v)
    decreases f, 0
  {
    WireField(f.fid, ToWire(f.shape, v))
  }

  // The fields that are set, from field k on, in declaration order
  function ToFields(fs: seq<Field>, slots: seq<Option<Val>>, k: nat): seq<WireField>
    requires k <= |fs| == |slots|
    requires forall i :: 0 <= i < |fs| && slots[i].Some? ==> Typed(fs[i].shape, slots[i].value)
    decreases fs, 1 + |fs| - k
  {
    if k == |fs| then []
    else if slots[k] == None then ToFields(fs, slots, k + 1)
    else [ToField(fs[k], slots[k].value)] + ToFields(fs, slots, k + 1)
  }

  // ---------- round trip ----------

  lemma {:induction false} WrittenIsWellTyped(sh: Shape, v: Val)
    requires Sound(sh) && Typed(sh, v)
    ensures TypeOf(ToWire(sh, v)) == WireType(sh) && WellTyped(ToWire(sh, v))
    decreases sh, 0
  {
    match sh
    case Plain(_) =>
    case Chars =>
    case ListOf(e) => WrittenItems(e, v.items);
    case MapOf(e) => WrittenPairs(e, v.entries);
    case StructOf(fs) => WrittenFields(fs, v.slots, 0);
  }

  lemma {:induction false} WrittenItems(e: Shape, vs: seq<Val>)
    requires Sound(e) && forall i :: 0 <= i < |vs| ==> Typed(e, vs[i])
    ensures WellTypedItems(WireType(e), ToItems(e, vs))
    decreases e, 1 + |vs|
  {
    if vs == [] {
    } else {
      WrittenIsWellTyped(e, vs[0]);
      WrittenItems(e, vs[1..]);
    }
  }

  lemma {:induction false} WrittenPairs(e: Shape, m: seq<MapEntry>)
    requires Sound(e) && forall i :: 0 <= i < |m| ==> Typed(e, m[i].value)
    ensures WellTypedPairs(T_STRING, WireType(e), ToPairs(e, m))
    decreases e, 1 + |m|
  {
    if m == [] {
    } else {
      WrittenIsWellTyped(e, m[0].value);
      WrittenPairs(e, m[1..]);
    }
  }

  lemma {:induction false} WrittenFields(fs: seq<Field>, slots: seq<Option<Val>>, k: nat)
    requires k <= |fs| == |slots| && forall i :: 0 <= i < |fs| ==> Sound(fs[i].shape)
    requires forall i :: 0 <= i < |fs| && slots[i].Some? ==> Typed(fs[i].shape, slots[i].value)
    ensures WellTypedFields(ToFields(fs, slots, k))
    decreases fs, 1 + |fs| - k
  {
    if k == |fs| {
    } else {
      WrittenFields(fs, slots, k + 1);
      if slots[k].Some? {
        WrittenField(fs[k], slots[k].value);
      }
    }
  }

  lemma WrittenField(f: Field, v: Val)
    requires Sound(f.shape) && Typed(f.shape, v)
    ensures TypeOf(ToField(f, v).value) == WireType(f.shape) && WellTypedField(ToField(f, v))
    decreases f, 0
  {
    WrittenIsWellTyped(f.shape, v);
  }

  // What an object that holds prior holds after reading v: a field that v does not set stays, and
  // a nested struct is read into the one that is there.
  function Merge(sh: Shape, prior: Option<Val>, v: Val): Val
    requires Typed(sh, v)
    decreases sh, 0
  {
    match sh
    case StructOf(fs) => VStruct(MergeSlots(fs, SlotsOf(fs, prior), v.slots, |fs|))
    case _ => v
  }

  function MergeField(f: Field, prior: Option<Val>, v: Val): Val
    requires Typed(f.shape, v)
    decreases f, 0
  {
    Merge(f.shape, prior, v)
  }

  // The slots when the fields below k have been read
  function MergeSlots(fs: seq<Field>, before: seq<Option<Val>>, slots: seq<Option<Val>>, k: nat): (s: seq<Option<Val>>)
    requires |fs| == |slots| == |before|
    requires forall i :: 0 <= i < |fs| && slots[i].Some? ==> Typed(fs[i].shape, slots[i].value)
    ensures |s| == |fs|
    decreases fs, 1
  {
    seq(|fs|, i requires 0 <= i < |fs| =>
      if i < k && slots[i].Some? then Some(MergeField(fs[i], before[i], slots[i].value)) else before[i])
  }

  lemma {:induction false} DecodeMerges(sh: Shape, prior: Option<Val>, v: Val)
    requires Sound(sh) && Typed(sh, v)
    ensures Decode(sh, prior, ToWire(sh, v)) == Good(Merge(sh, prior, v))
    decreases sh, 0
  {
    hide DecodeItems, DecodePairs, DecodeFields, ToItems, ToPairs, ToFields, MergeSlots, SlotsOf;
    match sh
    case Plain(_) =>
    case Chars =>
    case ListOf(e) => DecodeInvertsItems(e, v.items);
    case MapOf(e) =>
      assert v.entries[..0] == [] && v.entries[0..] == v.entries;
      DecodeInvertsPairs(e, v.entries, 0);
    case StructOf(fs) =>
      NothingMerged(fs, SlotsOf(fs, prior), v.slots);
      DecodeMergesFields(fs, SlotsOf(fs, prior), v.slots, 0);
  }

  lemma NothingMerged(fs: seq<Field>, before: seq<Option<Val>>, slots: seq<Option<Val>>)
    requires |fs| == |slots| == |before|
    requires forall i :: 0 <= i < |fs| && slots[i].Some? ==> Typed(fs[i].shape, slots[i].value)
    ensures MergeSlots(fs, before, slots, 0) == before && SetBelow(slots, 0) == {}
  {
    hide MergeField;
  }

  lemma {:induction false} MergeIntoFresh(sh: Shape, v: Val)
    requires Typed(sh, v)
    ensures Merge(sh, None, v) == v
    decreases sh, 0
  {
    if sh.StructOf? {
      hide MergeField, Merge;
      forall i | 0 <= i < |sh.fields| && v.slots[i].Some?
        ensures MergeField(sh.fields[i], None, v.slots[i].value) == v.slots[i].value
      {
        FieldIntoFresh(sh.fields[i], v.slots[i].value);
      }
      MergeOfStruct(sh.fields, None, v);
      assert MergeSlots(sh.fields, Fresh(|sh.fields|), v.slots, |sh.fields|) == v.slots;
    }
  }

  lemma FieldIntoFresh(f: Field, v: Val)
    requires Typed(f.shape, v)
    ensures MergeField(f, None, v) == v
    decreases f, 0
  {
    MergeIntoFresh(f.shape, v);
  }

  lemma MergeOfStruct(fs: seq<Field>, prior: Option<Val>, v: Val)
    requires Typed(StructOf(fs), v)
    ensures Merge(StructOf(fs), prior, v) == VStruct(MergeSlots(fs, SlotsOf(fs, prior), v.slots, |fs|))
  {
    hide MergeSlots, SlotsOf;
  }

  lemma DecodeInvertsToWire(sh: Shape, v: Val)
    requires Sound(sh) && Typed(sh, v)
    ensures Decode(sh, None, ToWire(sh, v)) == Good(v)
    decreases sh, 1
  {
    hide Decode, ToWire, Merge;
    DecodeMerges(sh, None, v);
    MergeIntoFresh(sh, v);
  }

  lemma {:induction false} DecodeInvertsItems(e: Shape, vs: seq<Val>)
    requires Sound(e) && forall i :: 0 <= i < |vs| ==> Typed(e, vs[i])
    ensures DecodeItems(e, ToItems(e, vs)) == Good(vs)
    decreases e, 2 + |vs|
  {
    hide Decode, ToWire;
    if vs == [] {
    } else {
      DecodeInvertsToWire(e, vs[0]);
      DecodeInvertsItems(e, vs[1..]);
      assert [vs[0]] + vs[1..] == vs;
    }
  }

  // A larger key goes to the end of the map, where it was not before.
  lemma {:induction false} InsertLast(m: seq<MapEntry>, key: seq<Byte>, v: Val)
    requires forall i :: 0 <= i < |m| ==> Less(m[i].key, key)
    ensures Find(m, key) == None && Insert(m, key, v) == m + [MapEntry(key, v)]
  {
    if m == [] {
    } else {
      LessIsStrict(m[0].key, key);
      InsertLast(m[1..], key, v);
      assert m == [m[0]] + m[1..];
    }
  }

  lemma {:induction false} LessIsStrict(a: seq<Byte>, b: seq<Byte>)
    requires Less(a, b)
    ensures a != b && !Less(b, a)
  {
    if a != [] && a[0] == b[0] {
      LessIsStrict(a[1..], b[1..]);
    }
  }

  lemma {:induction false} DecodeInvertsPairs(e: Shape, m: seq<MapEntry>, k: nat)
    requires Sound(e) && k <= |m| && Sorted(m) && forall i :: 0 <= i < |m| ==> Typed(e, m[i].value)
    ensures DecodePairs(e, m[..k], ToPairs(e, m[k..])) == Good(m)
    decreases e, 2 + |m| - k
  {
    hide Decode, ToWire, Find, Insert, Less;
    if k == |m| {
      assert m[..k] == m;
    } else {
      var x := m[k];
      DecodeInvertsToWire(e, x.value);
      InsertLast(m[..k], x.key, x.value);
      assert m[..k] + [MapEntry(x.key, x.value)] == m[..k + 1] && m[k..][1..] == m[k + 1..];
      DecodeInvertsPairs(e, m, k + 1);
    }
  }

  ghost function SetBelow(slots: seq<Option<Val>>, k: nat): set<nat>
    requires k <= |slots|
  {
    set i: nat | i < k && slots[i].Some?
  }

  lemma MergeStep(fs: seq<Field>, before: seq<Option<Val>>, slots: seq<Option<Val>>, k: nat)
    requires k < |fs| == |slots| == |before|
    requires forall i :: 0 <= i < |fs| && slots[i].Some? ==> Typed(fs[i].shape, slots[i].value)
    ensures var merged, next := MergeSlots(fs, before, slots, k), MergeSlots(fs, before, slots, k + 1);
            if slots[k] == None then next == merged && SetBelow(slots, k + 1) == SetBelow(slots, k)
            else
              && merged[k] == before[k] && next == merged[k := Some(MergeField(fs[k], before[k], slots[k].value))]
              && SetBelow(slots, k + 1) == SetBelow(slots, k) + {k}
  {
    hide MergeField, Typed;
  }

  lemma {:induction false} DecodeMergesFields(fs: seq<Field>, before: seq<Option<Val>>, slots: seq<Option<Val>>, k: nat)
    requires Sound(StructOf(fs)) && Typed(StructOf(fs), VStruct(slots)) && k <= |fs| == |before|
    ensures DecodeFields(fs, MergeSlots(fs, before, slots, k), SetBelow(slots, k), ToFields(fs, slots, k))
         == Good(VStruct(MergeSlots(fs, before, slots, |fs|)))
    decreases fs, 1 + |fs| - k
  {
    hide DecodeField, ToField, WireType, MergeField;
    if k == |fs| {
    } else {
      MergeStep(fs, before, slots, k);
      DecodeMergesFields(fs, before, slots, k + 1);
      if slots[k].Some? {
        FieldMerges(fs[k], before[k], slots[k].value);
        assert FieldIndex(fs, fs[k].fid) == k;
        assert ToFields(fs, slots, k)[1..] == ToFields(fs, slots, k + 1);
      }
    }
  }

  lemma FieldMerges(f: Field, prior: Option<Val>, v: Val)
    requires Sound(f.shape) && Typed(f.shape, v)
    ensures ToField(f, v).fid == f.fid && TypeOf(ToField(f, v).value) == WireType(f.shape)
    ensures DecodeField(f, prior, ToField(f, v).value) == Good(MergeField(f, prior, v))
    decreases f, 0
  {
    WrittenField(f, v);
    DecodeMerges(f.shape, prior, v);
  }

  lemma SlotIsRead(fs: seq<Field>, slots: seq<Option<Val>>, seen: set<nat>, k: nat, w: WireField, tail: seq<Token>)
    requires |slots| == |fs| && k < |fs| && FieldIndex(fs, w.fid) == k
    requires WellTypedField(w) && TypeOf(w.value) == WireType(fs[k].shape)
    requires DecodeField(fs[k], slots[k], w.value).Good?
    ensures var v := DecodeField(fs[k], slots[k], w.value).value;
            ReadSlots(fs, slots, seen, EmitField(w) + tail) == ReadSlots(fs, slots[k := Some(v)], seen + {k}, tail)
  {
    hide ReadVal, DecodeField, EmitField, WellTypedField, WireType, FieldIndex, Skip;
    ReadDecodesField(fs[k], slots[k], w, tail);
  }

  // On the tokens of written fields the loop merges slot by slot and notes exactly the fields that
  // were written, whatever the slots held before.
  lemma {:induction false} WrittenFieldsFill(fs: seq<Field>, before: seq<Option<Val>>, slots: seq<Option<Val>>, k: nat,
          rest: seq<Token>)
    requires Sound(StructOf(fs)) && Typed(StructOf(fs), VStruct(slots)) && k <= |fs| == |before|
    ensures ReadSlots(fs, MergeSlots(fs, before, slots, k), SetBelow(slots, k),
                      EmitFields(ToFields(fs, slots, k)) + ([FieldStop, StructEnd] + rest))
         == Good((Filled(MergeSlots(fs, before, slots, |fs|), SetBelow(slots, |fs|)), rest))
    decreases |fs| - k
  {
    hide ReadSlots, DecodeField, ToField, EmitField, WellTypedField, WireType, MergeField, MergeSlots, SetBelow;
    var merged, end := MergeSlots(fs, before, slots, k), [FieldStop, StructEnd] + rest;
    var ws := ToFields(fs, slots, k);
    if k == |fs| {
      assert EmitFields(ws) + end == end;
      FieldsEnd(fs, merged, SetBelow(slots, k), rest);
    } else {
      MergeStep(fs, before, slots, k);
      WrittenFieldsFill(fs, before, slots, k + 1, rest);
      if slots[k].Some? {
        var tail := EmitFields(ws[1..]) + end;
        assert EmitFields(ws) + end == EmitField(ws[0]) + tail && ws[1..] == ToFields(fs, slots, k + 1);
        WrittenField(fs[k], slots[k].value);
        FieldMerges(fs[k], before[k], slots[k].value);
        assert FieldIndex(fs, fs[k].fid) == k;
        SlotIsRead(fs, merged, SetBelow(slots, k), k, ws[0], tail);
      }
    }
  }

  lemma FieldsEnd(fs: seq<Field>, slots: seq<Option<Val>>, seen: set<nat>, rest: seq<Token>)
    requires |slots| == |fs|
    ensures ReadSlots(fs, slots, seen, [FieldStop, StructEnd] + rest) == Good((Filled(slots, seen), rest))
  {
    assert ([FieldStop, StructEnd] + rest)[1..] == [StructEnd] + rest;
  }

  // Nothing in prior that v does not set, all the way down
  ghost predicate Covered(sh: Shape, prior: Option<Val>, v: Val)
    requires Typed(sh, v)
    decreases sh, 0
  {
    sh.StructOf? ==>
      var fs, before := sh.fields, SlotsOf(sh.fields, prior);
      forall i :: 0 <= i < |fs| ==>
        if v.slots[i].Some? then CoveredField(fs[i], before[i], v.slots[i].value) else before[i] == None
  }

  ghost predicate CoveredField(f: Field, prior: Option<Val>, v: Val)
    requires Typed(f.shape, v)
    decreases f, 0
  {
    Covered(f.shape, prior, v)
  }

  lemma {:induction false} MergeIsExact(sh: Shape, prior: Option<Val>, v: Val)
    requires Typed(sh, v)
    ensures Merge(sh, prior, v) == v <==> Covered(sh, prior, v)
    decreases sh, 0
  {
    if sh.StructOf? {
      hide MergeField, CoveredField, Merge, SlotsOf;
      var fs, before := sh.fields, SlotsOf(sh.fields, prior);
      forall i | 0 <= i < |fs| && v.slots[i].Some?
        ensures MergeField(fs[i], before[i], v.slots[i].value) == v.slots[i].value
           <==> CoveredField(fs[i], before[i], v.slots[i].value)
      {
        FieldMergeIsExact(fs[i], before[i], v.slots[i].value);
      }
      MergeOfStruct(fs, prior, v);
      var merged := MergeSlots(fs, before, v.slots, |fs|);
      assert merged == v.slots <==> forall i :: 0 <= i < |fs| ==> merged[i] == v.slots[i];
    }
  }

  lemma FieldMergeIsExact(f: Field, prior: Option<Val>, v: Val)
    requires Typed(f.shape, v)
    ensures MergeField(f, prior, v) == v <==> CoveredField(f, prior, v)
    decreases f, 0
  {
    MergeIsExact(f.shape, prior, v);
  }

  // Reading what write emitted into any object merges the two; the result is what was written
  // exactly when the object held nothing that the written value does not set.
  lemma ReadMerges(sh: Shape, prior: Option<Val>, v: Val, rest: seq<Token>)
    requires Sound(sh) && Typed(sh, v)
    ensures ReadVal(sh, prior, Emit(ToWire(sh, v)) + rest) == Good((Merge(sh, prior, v), rest))
    ensures Merge(sh, prior, v) == v <==> Covered(sh, prior, v)
  {
    hide ReadVal, ToWire, Merge, Covered;
    WrittenIsWellTyped(sh, v);
    ReadDecodes(sh, prior, ToWire(sh, v), rest);
    DecodeMerges(sh, prior, v);
    MergeIsExact(sh, prior, v);
  }

  // Reading what write emitted into a fresh object gives an equal object and leaves exactly the
  // tokens behind it.
  lemma ReadInvertsWrite(sh: Shape, v: Val, rest: seq<Token>)
    requires Sound(sh) && Typed(sh, v)
    ensures ReadVal(sh, None, Emit(ToWire(sh, v)) + rest) == Good((v, rest))
  {
    WrittenIsWellTyped(sh, v);
    ReadDecodes(sh, None, ToWire(sh, v), rest);
    DecodeInvertsToWire(sh, v);
  }
}
