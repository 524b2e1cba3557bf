// TProtocol as a queue of tokens, and the read and write loops that work on it.
module ThriftProtocol {
  import opened Options
  import opened ThriftWire
  import opened ThriftCodec

  // Writers append at the back, readers take from the front.
  class TProtocol {
    var tokens: seq<Token>

    constructor ()
      ensures tokens == []
    {
      tokens := [];
    }

    method Write(t: Token)
      modifies this
      ensures tokens == old(tokens) + [t]
    {
      tokens := tokens + [t];
    }

    method Read() returns (r: Outcome<Token>)
      modifies this
      ensures if old(tokens) == [] then r == Bad(BadStream) && tokens == []
              else r == Good(old(tokens)[0]) && tokens == old(tokens)[1..]
    {
      if tokens == [] {
        return Bad(BadStream);
      }
      r := Good(tokens[0]);
      tokens := tokens[1..];
    }

    method ReadEnd(t: Token) returns (r: Outcome<Token>)
      modifies this
      ensures Agrees(r, Expect(old(tokens), t))
      ensures r.Good? ==> Expect(old(tokens), t) == Good(tokens)
    {
      var u :- Read();
      r := if u == t then Good(u) else Bad(BadStream);
    }

    // ---------- skip ----------

    method SkipValue(ftype: TType) returns (r: Outcome<TType>)
      modifies this
      ensures Agrees(r, Skip(ftype, old(tokens)))
      ensures r.Good? ==> Skip(ftype, old(tokens)) == Good(tokens)
      decreases |tokens|, 0
    {
      hide SkipFields, SkipItems, SkipPairs, Expect;
      var t :- Read();
      match t
      case Scalar(u, _) => r := if u == ftype then Good(ftype) else Bad(BadStream);
      case Text(_) => r := if ftype == T_STRING then Good(ftype) else Bad(BadStream);
      case StructBegin =>
        if ftype != T_STRUCT {
          return Bad(BadStream);
        }
        r := SkipStruct();
      case ListBegin(e, n) =>
        if ftype != T_LIST {
          return Bad(BadStream);
        }
        var _ :- SkipElements(e, n);
        var _ :- ReadEnd(ListEnd);
        r := Good(ftype);
      case SetBegin(e, n) =>
        if ftype != T_SET {
          return Bad(BadStream);
        }
        var _ :- SkipElements(e, n);
        var _ :- ReadEnd(SetEnd);
        r := Good(ftype);
      case MapBegin(k, v, n) =>
        if ftype != T_MAP {
          return Bad(BadStream);
        }
        var _ :- SkipEntries(k, v, n);
        var _ :- ReadEnd(MapEnd);
        r := Good(ftype);
      case _ => r := Bad(BadStream);
    }

    method SkipElements(e: TType, n: nat) returns (r: Outcome<TType>)
      modifies this
      ensures Agrees(r, SkipItems(e, n, old(tokens)))
      ensures r.Good? ==> SkipItems(e, n, old(tokens)) == Good(tokens)
      decreases |tokens|, 1
    {
      hide Skip;
      ghost var start := tokens;
      var i := 0;
      while i < n
        invariant i <= n && |tokens| <= |start|
        invariant SkipItems(e, n - i, tokens) == SkipItems(e, n, start)
      {
        var _ :- SkipValue(e);
        i := i + 1;
      }
      r := Good(T_LIST);
    }

    method SkipEntries(k: TType, v: TType, n: nat) returns (r: Outcome<TType>)
      modifies this
      ensures Agrees(r, SkipPairs(k, v, n, old(tokens)))
      ensures r.Good? ==> SkipPairs(k, v, n, old(tokens)) == Good(tokens)
      decreases |tokens|, 1
    {
      hide Skip;
      ghost var start := tokens;
      var i := 0;
      while i < n
        invariant i <= n && |tokens| <= |start|
        invariant SkipPairs(k, v, n - i, tokens) == SkipPairs(k, v, n, start)
      {
        var _ :- SkipValue(k);
        var _ :- SkipValue(v);
        i := i + 1;
      }
      r := Good(T_MAP);
    }

    method SkipStruct() returns (r: Outcome<TType>)
      modifies this
      ensures Agrees(r, SkipFields(old(tokens)))
      ensures r.Good? ==> SkipFields(old(tokens)) == Good(tokens)
      decreases |tokens|, 1
    {
      ghost var start := tokens;
      while true
        invariant |tokens| <= |start|
        invariant SkipFields(tokens) == SkipFields(start)
        decreases |tokens|
      {
        var t :- Read();
        if t == FieldStop {
          break;
        }
        if !t.FieldBegin? {
          return Bad(BadStream);
        }
        var _ :- SkipValue(t.ftype);
        var _ :- ReadEnd(FieldEnd);
      }
      var _ :- ReadEnd(StructEnd);
      r := Good(T_STRUCT);
    }

    // ---------- read ----------

    method ReadValue(sh: Shape, prior: Option<Val>) returns (r: Outcome<Val>)
      modifies this
      ensures Agrees(r, ReadVal(sh, prior, old(tokens)))
      ensures r.Good? ==> ReadVal(sh, prior, old(tokens)) == Good((r.value, tokens))
      decreases |tokens|, 0
    {
      var t :- Read();
      match sh
      case Plain(ttype) => r := if t.Scalar? && t.ttype == ttype then Good(VNum(t.n)) else Bad(BadStream);
      case Chars => r := if t.Text? then Good(VText(t.bytes)) else Bad(BadStream);
      case ListOf(e) =>
        if !t.ListBegin? {
          return Bad(BadStream);
        }
        var items :- ReadElements(e, t.size);
        var _ :- ReadEnd(ListEnd);
        r := Good(VList(items));
      case MapOf(e) =>
        if !t.MapBegin? {
          return Bad(BadStream);
        }
        var entries :- ReadMap(e, t.size);
        var _ :- ReadEnd(MapEnd);
        r := Good(VMap(entries));
      case StructOf(fs) =>
        if t != StructBegin {
          return Bad(BadStream);
        }
        r := ReadStruct(fs, SlotsOf(fs, prior));
    }

    method ReadElements(e: Shape, size: nat) returns (r: Outcome<seq<Val>>)
      modifies this
      ensures Agrees(r, ReadItems(e, size, old(tokens)))
      ensures r.Good? ==> ReadItems(e, size, old(tokens)) == Good((r.value, tokens))
      decreases |tokens|, 1
    {
      ghost var start := tokens;
      var items: seq<Val> := [];
      var i := 0;
      PrefixedNothing(ReadItems(e, size, tokens));
      while i < size
        invariant i <= size && |tokens| <= |start|
        invariant ReadItems(e, size, start) == Prefixed(items, ReadItems(e, size - i, tokens))
      {
        PrefixedTwice(items, ReadVal(e, None, tokens), e, size - i, tokens);
        var v :- ReadValue(e, None);
        items := items + [v];
        i := i + 1;
      }
      assert items + [] == items;
      r := Good(items);
    }

    method ReadMap(e: Shape, size: nat) returns (r: Outcome<seq<MapEntry>>)
      modifies this
      ensures Agrees(r, ReadEntries(e, size, [], old(tokens)))
      ensures r.Good? ==> ReadEntries(e, size, [], old(tokens)) == Good((r.value, tokens))
      decreases |tokens|, 1
    {
      ghost var start := tokens;
      var m: seq<MapEntry> := [];
      var i := 0;
      while i < size
        invariant i <= size && |tokens| <= |start|
        invariant ReadEntries(e, size - i, m, tokens) == ReadEntries(e, size, [], start)
      {
        var key :- Read();
        if !key.Text? {
          return Bad(BadStream);
        }
        var v :- ReadValue(e, Find(m, key.bytes));
        m := Insert(m, key.bytes, v);
        i := i + 1;
      }
      r := Good(m);
    }

    // The generated loop: a field with a known number and the declared type is read into its
    // slot, any other is skipped.
    method FillSlots(fs: seq<Field>, slots0: seq<Option<Val>>) returns (r: Outcome<Filled>)
      requires |slots0| == |fs|
      modifies this
      ensures Agrees(r, ReadSlots(fs, slots0, {}, old(tokens)))
      ensures r.Good? ==> ReadSlots(fs, slots0, {}, old(tokens)) == Good((r.value, tokens))
      decreases |tokens|, 1
    {
      ghost var start := tokens;
      var slots, seen: set<nat> := slots0, {};
      while true
        invariant |slots| == |fs| && |tokens| <= |start|
        invariant ReadSlots(fs, slots, seen, tokens) == ReadSlots(fs, slots0, {}, start)
        decreases |tokens|
      {
        var t :- Read();
        if t == FieldStop {
          break;
        }
        if !t.FieldBegin? {
          return Bad(BadStream);
        }
        var i := FieldIndex(fs, t.fid);
        if i < |fs| && t.ftype == WireType(fs[i].shape) {
          var v :- ReadValue(fs[i].shape, slots[i]);
          slots, seen := slots[i := Some(v)], seen + {i};
        } else {
          var _ :- SkipValue(t.ftype);
        }
        var _ :- ReadEnd(FieldEnd);
      }
      var _ :- ReadEnd(StructEnd);
      r := Good(Filled(slots, seen));
    }

    // Missing required fields are noticed at the end.
    method ReadStruct(fs: seq<Field>, slots0: seq<Option<Val>>) returns (r: Outcome<Val>)
      requires |slots0| == |fs|
      modifies this
      ensures Agrees(r, ReadFields(fs, slots0, {}, old(tokens)))
      ensures r.Good? ==> ReadFields(fs, slots0, {}, old(tokens)) == Good((r.value, tokens))
      decreases |tokens|, 2
    {
      hide ReadSlots;
      var filled :- FillSlots(fs, slots0);
      if !AllRequired(fs, filled.isset) {
        return Bad(InvalidData);
      }
      r := Good(VStruct(filled.slots));
    }

    // ---------- write ----------

    method WriteValue(sh: Shape, v: Val)
      requires Typed(sh, v)
      modifies this
      ensures tokens == old(tokens) + Emit(ToWire(sh, v))
      decreases sh, 0
    {
      match sh
      case Plain(t) => Write(Scalar(t, v.n));
      case Chars => Write(Text(v.bytes));
      case ListOf(e) => WriteList(e, v.items);
      case MapOf(e) => WriteMap(e, v.entries);
      case StructOf(fs) => WriteStruct(fs, v.slots);
    }

    method WriteList(e: Shape, items: seq<Val>)
      requires forall i :: 0 <= i < |items| ==> Typed(e, items[i])
      modifies this
      ensures tokens == old(tokens) + Emit(Items(WireType(e), ToItems(e, items)))
      decreases e, 1
    {
      hide ToWire, Emit, Typed;
      ghost var target := tokens + [ListBegin(WireType(e), |items|)] + EmitItems(ToItems(e, items));
      Write(ListBegin(WireType(e), |items|));
      var i := 0;
      assert items[0..] == items;
      while i < |items|
        invariant i <= |items| && tokens + EmitItems(ToItems(e, items[i..])) == target
      {
        ItemsStep(tokens, e, items, i);
        WriteValue(e, items[i]);
        i := i + 1;
      }
      NoItems(tokens, e, items[i..]);
      Write(ListEnd);
      ListClosed(old(tokens), e, items);
    }

    method WriteMap(e: Shape, m: seq<MapEntry>)
      requires forall i :: 0 <= i < |m| ==> Typed(e, m[i].value)
      modifies this
      ensures tokens == old(tokens) + Emit(Pairs(T_STRING, WireType(e), ToPairs(e, m)))
      decreases e, 1
    {
      hide ToWire, Emit, Typed;
      ghost var target := tokens + [MapBegin(T_STRING, WireType(e), |m|)] + EmitPairs(ToPairs(e, m));
      Write(MapBegin(T_STRING, WireType(e), |m|));
      var i := 0;
      assert m[0..] == m;
      while i < |m|
        invariant i <= |m| && tokens + EmitPairs(ToPairs(e, m[i..])) == target
      {
        PairsStep(tokens, e, m, i);
        Write(Text(m[i].key));
        WriteValue(e, m[i].value);
        i := i + 1;
      }
      NoPairs(tokens, e, m[i..]);
      Write(MapEnd);
      MapClosed(old(tokens), e, m);
    }

    method WriteField(f: Field, v: Val)
      requires Typed(f.shape, v)
      modifies this
      ensures tokens == old(tokens) + [FieldBegin(WireType(f.shape), f.fid)] + Emit(ToWire(f.shape, v)) + [FieldEnd]
      decreases f, 0
    {
      hide ToWire, Emit, Typed;
      Write(FieldBegin(WireType(f.shape), f.fid));
      WriteValue(f.shape, v);
      Write(FieldEnd);
    }

    method WriteStruct(fs: seq<Field>, slots: seq<Option<Val>>)
      requires |fs| == |slots|
      requires forall i :: 0 <= i < |fs| && slots[i].Some? ==> Typed(fs[i].shape, slots[i].value)
      modifies this
      ensures tokens == old(tokens) + Emit(Fields(ToFields(fs, slots, 0)))
      decreases fs, 1
    {
      hide ToWire, Emit, Typed;
      ghost var target := tokens + [StructBegin] + EmitFields(ToFields(fs, slots, 0));
      Write(StructBegin);
      var k := 0;
      while k < |fs|
        invariant k <= |fs| && tokens + EmitFields(ToFields(fs, slots, k)) == target
      {
        FieldsStep(tokens, fs, slots, k);
        if slots[k].Some? {
          WriteField(fs[k], slots[k].value);
        }
        k := k + 1;
      }
      NoFields(tokens, fs, slots);
      Write(FieldStop);
      Write(StructEnd);
      StructClosed(old(tokens), fs, slots);
    }
  }

  // A method that throws reports what the specification reports.
  ghost predicate Agrees<T, U>(r: Outcome<T>, spec: Outcome<U>)
  {
    r.Good? == spec.Good? && (r.Bad? ==> spec == Bad(r.err))
  }

  ghost function Prefixed(items: seq<Val>, r: Parsed<seq<Val>>): Parsed<seq<Val>>
  {
    match r
    case Good((vs, rest)) => Good((items + vs, rest))
    case Bad(x) => Bad(x)
  }

  lemma PrefixedNothing(r: Parsed<seq<Val>>)
    ensures Prefixed([], r) == r
  {
    if r.Good? {
      assert [] + r.value.0 == r.value.0;
    }
  }

  lemma PrefixedTwice(items: seq<Val>, v: Parsed<Val>, e: Shape, n: nat, ts: seq<Token>)
    requires n > 0 && v == ReadVal(e, None, ts)
    ensures v.Good? ==>
              Prefixed(items, ReadItems(e, n, ts)) == Prefixed(items + [v.value.0], ReadItems(e, n - 1, v.value.1))
    ensures v.Bad? ==> ReadItems(e, n, ts) == Bad(v.err)
  {
    hide ReadVal;
    if v.Good? {
      var r := ReadItems(e, n - 1, v.value.1);
      if r.Good? {
        assert items + ([v.value.0] + r.value.0) == items + [v.value.0] + r.value.0;
      }
    }
  }

  lemma ItemsStep(done: seq<Token>, e: Shape, items: seq<Val>, i: nat)
    requires i < |items| && forall i :: 0 <= i < |items| ==> Typed(e, items[i])
    ensures done + EmitItems(ToItems(e, items[i..]))
         == done + Emit(ToWire(e, items[i])) + EmitItems(ToItems(e, items[i + 1..]))
  {
    hide ToWire, Emit;
    assert items[i..][1..] == items[i + 1..];
  }

  lemma NoItems(done: seq<Token>, e: Shape, items: seq<Val>)
    requires items == []
    ensures done + EmitItems(ToItems(e, items)) == done
  {
  }

  lemma ListClosed(done: seq<Token>, e: Shape, items: seq<Val>)
    requires forall i :: 0 <= i < |items| ==> Typed(e, items[i])
    ensures done + [ListBegin(WireType(e), |items|)] + EmitItems(ToItems(e, items)) + [ListEnd]
         == done + Emit(Items(WireType(e), ToItems(e, items)))
  {
    hide ToItems, EmitItems;
  }

  lemma PairsStep(done: seq<Token>, e: Shape, m: seq<MapEntry>, i: nat)
    requires i < |m| && forall i :: 0 <= i < |m| ==> Typed(e, m[i].value)
    ensures done + EmitPairs(ToPairs(e, m[i..]))
         == done + [Text(m[i].key)] + Emit(ToWire(e, m[i].value)) + EmitPairs(ToPairs(e, m[i + 1..]))
  {
    hide ToWire;
    assert m[i..][1..] == m[i + 1..];
    assert Emit(Str(m[i].key)) == [Text(m[i].key)];
  }

  lemma NoPairs(done: seq<Token>, e: Shape, m: seq<MapEntry>)
    requires m == []
    ensures done + EmitPairs(ToPairs(e, m)) == done
  {
  }

  lemma MapClosed(done: seq<Token>, e: Shape, m: seq<MapEntry>)
    requires forall i :: 0 <= i < |m| ==> Typed(e, m[i].value)
    ensures done + [MapBegin(T_STRING, WireType(e), |m|)] + EmitPairs(ToPairs(e, m)) + [MapEnd]
         == done + Emit(Pairs(T_STRING, WireType(e), ToPairs(e, m)))
  {
    hide ToPairs, EmitPairs;
  }

  lemma FieldsStep(done: seq<Token>, fs: seq<Field>, slots: seq<Option<Val>>, k: nat)
    requires k < |fs| == |slots|
    requires forall i :: 0 <= i < |fs| && slots[i].Some? ==> Typed(fs[i].shape, slots[i].value)
    ensures done + EmitFields(ToFields(fs, slots, k)) ==
            if slots[k] == None then done + EmitFields(ToFields(fs, slots, k + 1))
            else
              done + [FieldBegin(TypeOf(ToWire(fs[k].shape, slots[k].value)), fs[k].fid)]
              + Emit(ToWire(fs[k].shape, slots[k].value))
              + [FieldEnd] + EmitFields(ToFields(fs, slots, k + 1))
    ensures slots[k].Some? ==> TypeOf(ToWire(fs[k].shape, slots[k].value)) == WireType(fs[k].shape)
  {
    if slots[k].Some? {
      hide Emit, ToFields;
      var w, rest := ToField(fs[k], slots[k].value), ToFields(fs, slots, k + 1);
      assert ToFields(fs, slots, k) == [w] + rest by {
        FieldsUnfold(fs, slots, k);
      }
      assert done + (EmitField(w) + EmitFields(rest)) == done + EmitField(w) + EmitFields(rest);
    }
  }

  lemma FieldsUnfold(fs: seq<Field>, slots: seq<Option<Val>>, k: nat)
    requires k < |fs| == |slots| && slots[k].Some?
    requires forall i :: 0 <= i < |fs| && slots[i].Some? ==> Typed(fs[i].shape, slots[i].value)
    ensures ToFields(fs, slots, k) == [ToField(fs[k], slots[k].value)] + ToFields(fs, slots, k + 1)
  {
  }

  lemma NoFields(done: seq<Token>, fs: seq<Field>, slots: seq<Option<Val>>)
    requires |fs| == |slots|
    requires forall i :: 0 <= i < |fs| && slots[i].Some? ==> Typed(fs[i].shape, slots[i].value)
    ensures done + EmitFields(ToFields(fs, slots, |fs|)) == done
  {
  }

  lemma StructClosed(done: seq<Token>, fs: seq<Field>, slots: seq<Option<Val>>)
    requires |fs| == |slots|
    requires forall i :: 0 <= i < |fs| && slots[i].Some? ==> Typed(fs[i].shape, slots[i].value)
    ensures done + [StructBegin] + EmitFields(ToFields(fs, slots, 0)) + [FieldStop] + [StructEnd]
         == done + Emit(Fields(ToFields(fs, slots, 0)))
  {
    hide ToFields, EmitFields;
  }
}
