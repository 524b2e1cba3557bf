// What the generated structs look like on the wire: the numbers and types of their fields, and
// which fields a reader insists on.
module CassandraNumbers {
  import opened Bytes
  import opened Options
  import opened ThriftWire
  import opened ThriftCodec
  import opened ThriftTolerance
  import opened CassandraTypes

  // The number and the type of a field
  datatype Key = Key(fid: int, ftype: TType)

  // ---------- what is written ----------

  function KeysOf(ws: seq<WireField>): (keys: seq<Key>)
    ensures |keys| == |ws|
  {
    seq(|ws|, i requires 0 <= i < |ws| => Key(ws[i].fid, TypeOf(ws[i].value)))
  }

  // An object of this shape with all its fields set writes these numbers and types, in this order.
  ghost predicate Writes(sh: Shape, keys: seq<Key>)
  {
    && sh.StructOf?
    && forall slots: seq<Option<Val>> ::
         Typed(sh, VStruct(slots)) && (forall i :: 0 <= i < |slots| ==> slots[i].Some?) ==>
           KeysOf(ToWire(sh, VStruct(slots)).fields) == keys
  }

  lemma {:induction false} AllFieldsAreWritten(fs: seq<Field>, slots: seq<Option<Val>>, k: nat)
    requires Sound(StructOf(fs)) && Typed(StructOf(fs), VStruct(slots)) && k <= |fs|
    requires forall i :: 0 <= i < |slots| ==> slots[i].Some?
    ensures var ws := ToFields(fs, slots, k);
            && |ws| == |fs| - k
            && forall i :: 0 <= i < |ws| ==>
                 ws[i].fid == fs[k + i].fid && TypeOf(ws[i].value) == WireType(fs[k + i].shape)
    decreases |fs| - k
  {
    hide WireType, TypeOf;
    if k == |fs| {
    } else {
      AllFieldsAreWritten(fs, slots, k + 1);
      WrittenIsWellTyped(fs[k].shape, slots[k].value);
      var ws, rest := ToFields(fs, slots, k), ToFields(fs, slots, k + 1);
      assert ws == [ToField(fs[k], slots[k].value)] + rest;
      forall i | 0 < i < |ws| ensures ws[i].fid == fs[k + i].fid && TypeOf(ws[i].value) == WireType(fs[k + i].shape) {
        assert ws[i] == rest[i - 1] && k + i == (k + 1) + (i - 1);
      }
    }
  }

  lemma WritesInOrder(fs: seq<Field>, keys: seq<Key>)
    requires Sound(StructOf(fs)) && |keys| == |fs|
    requires forall i :: 0 <= i < |fs| ==> keys[i] == Key(fs[i].fid, WireType(fs[i].shape))
    ensures Writes(StructOf(fs), keys)
  {
    forall slots: seq<Option<Val>> |
        Typed(StructOf(fs), VStruct(slots)) && forall i :: 0 <= i < |slots| ==> slots[i].Some?
      ensures KeysOf(ToWire(StructOf(fs), VStruct(slots)).fields) == keys
    {
      AllFieldsAreWritten(fs, slots, 0);
      hide Sound, WireType, TypeOf;
      assert ToWire(StructOf(fs), VStruct(slots)).fields == ToFields(fs, slots, 0);
    }
  }

  // ---------- what is insisted on ----------

  ghost predicate Has(ws: seq<WireField>, key: Key)
  {
    exists k :: 0 <= k < |ws| && ws[k].fid == key.fid && TypeOf(ws[k].value) == key.ftype
  }

  // Whatever fields come, with readable values: a reader is content exactly if these are among them,
  // and otherwise raises INVALID_DATA.
  ghost predicate Needs(sh: Shape, keys: seq<Key>)
  {
    && sh.StructOf?
    && forall slots: seq<Option<Val>>, ws: seq<WireField> ::
         |slots| == |sh.fields| && NestedGood(sh.fields, ws) ==>
           var r := DecodeFields(sh.fields, slots, {}, ws);
           if forall j :: 0 <= j < |keys| ==> Has(ws, keys[j]) then r.Good? else r == Bad(InvalidData)
  }

  lemma IndexOfNumber(fs: seq<Field>, i: nat)
    requires i < |fs| && DistinctNumbers(fs)
    ensures FieldIndex(fs, fs[i].fid) == i
  {
    assert FieldIndex(fs, fs[i].fid) <= i;
  }

  lemma OccursIsHas(fs: seq<Field>, ws: seq<WireField>, i: nat)
    requires i < |fs| && DistinctNumbers(fs)
    ensures Occurs(fs, ws, i) <==> Has(ws, Key(fs[i].fid, WireType(fs[i].shape)))
  {
    hide TypeOf, WireType, DistinctNumbers, FieldIndex;
    IndexOfNumber(fs, i);
    forall k | 0 <= k < |ws|
      ensures Relevant(fs, ws[k]) && FieldIndex(fs, ws[k].fid) == i
         <==> ws[k].fid == fs[i].fid && TypeOf(ws[k].value) == WireType(fs[i].shape)
    {
    }
  }

  // at lists the indices of the required fields.
  lemma NeedsRequired(fs: seq<Field>, keys: seq<Key>, at: seq<nat>)
    requires DistinctNumbers(fs) && |keys| == |at|
    requires forall j :: 0 <= j < |at| ==> at[j] < |fs| && fs[at[j]].required
    requires forall j :: 0 <= j < |at| ==> keys[j] == Key(fs[at[j]].fid, WireType(fs[at[j]].shape))
    requires forall i :: 0 <= i < |fs| && fs[i].required ==> i in at
    ensures Needs(StructOf(fs), keys)
  {
    forall slots: seq<Option<Val>>, ws: seq<WireField> | |slots| == |fs| && NestedGood(fs, ws)
      ensures var r := DecodeFields(fs, slots, {}, ws);
              if forall j :: 0 <= j < |keys| ==> Has(ws, keys[j]) then r.Good? else r == Bad(InvalidData)
    {
      hide DecodeFields, NestedGood, Has, Occurs, WireType, DistinctNumbers;
      InvalidDataExactly(fs, slots, {}, ws);
      forall i | 0 <= i < |fs| ensures Occurs(fs, ws, i) <==> Has(ws, Key(fs[i].fid, WireType(fs[i].shape))) {
        OccursIsHas(fs, ws, i);
      }
    }
  }

  lemma SoundIsDistinct(fs: seq<Field>)
    requires Sound(StructOf(fs))
    ensures DistinctNumbers(fs)
  {
  }

  // ---------- the structs ----------

  lemma ColumnNumbers()
    ensures Writes(COLUMN, [Key(1, T_STRING), Key(2, T_STRING), Key(3, T_I64), Key(4, T_I32)])
    ensures Needs(COLUMN, [Key(1, T_STRING), Key(2, T_STRING), Key(3, T_I64)])
  {
    hide Writes, Needs, Typed;
    WritesInOrder(COLUMN.fields, [Key(1, T_STRING), Key(2, T_STRING), Key(3, T_I64), Key(4, T_I32)]);
    NeedsRequired(COLUMN.fields, [Key(1, T_STRING), Key(2, T_STRING), Key(3, T_I64)], [0, 1, 2]);
  }

  lemma SuperColumnNumbers()
    ensures Writes(SUPER_COLUMN, [Key(1, T_STRING), Key(2, T_LIST)])
    ensures Needs(SUPER_COLUMN, [Key(1, T_STRING), Key(2, T_LIST)])
  {
    hide Writes, Needs, Typed;
    assert Sound(COLUMN);
    WritesInOrder(SUPER_COLUMN.fields, [Key(1, T_STRING), Key(2, T_LIST)]);
    NeedsRequired(SUPER_COLUMN.fields, [Key(1, T_STRING), Key(2, T_LIST)], [0, 1]);
  }

  lemma ColumnOrSuperColumnNumbers()
    ensures Writes(COLUMN_OR_SUPERCOLUMN, [Key(1, T_STRUCT), Key(2, T_STRUCT)])
    ensures Needs(COLUMN_OR_SUPERCOLUMN, [])
  {
    hide Writes, Needs, Typed;
    ColumnsAreSound();
    WritesInOrder(COLUMN_OR_SUPERCOLUMN.fields, [Key(1, T_STRUCT), Key(2, T_STRUCT)]);
    NeedsRequired(COLUMN_OR_SUPERCOLUMN.fields, [], []);
  }

  lemma ColumnPathNumbers()
    ensures Writes(COLUMN_PATH, [Key(3, T_STRING), Key(4, T_STRING), Key(5, T_STRING)])
    ensures Needs(COLUMN_PATH, [Key(3, T_STRING)])
  {
    hide Writes, Needs, Typed;
    WritesInOrder(COLUMN_PATH.fields, [Key(3, T_STRING), Key(4, T_STRING), Key(5, T_STRING)]);
    NeedsRequired(COLUMN_PATH.fields, [Key(3, T_STRING)], [0]);
  }

  lemma SliceRangeNumbers()
    ensures Writes(SLICE_RANGE, [Key(1, T_STRING), Key(2, T_STRING), Key(3, T_BOOL), Key(4, T_I32)])
    ensures Needs(SLICE_RANGE, [Key(1, T_STRING), Key(2, T_STRING), Key(3, T_BOOL), Key(4, T_I32)])
  {
    hide Writes, Needs, Typed;
    WritesInOrder(SLICE_RANGE.fields, [Key(1, T_STRING), Key(2, T_STRING), Key(3, T_BOOL), Key(4, T_I32)]);
    NeedsRequired(SLICE_RANGE.fields, [Key(1, T_STRING), Key(2, T_STRING), Key(3, T_BOOL), Key(4, T_I32)],
                  [0, 1, 2, 3]);
  }

  lemma SlicePredicateNumbers()
    ensures Writes(SLICE_PREDICATE, [Key(1, T_LIST), Key(2, T_STRUCT)])
    ensures Needs(SLICE_PREDICATE, [])
  {
    hide Writes, Needs, Typed;
    assert Sound(SLICE_RANGE);
    WritesInOrder(SLICE_PREDICATE.fields, [Key(1, T_LIST), Key(2, T_STRUCT)]);
    NeedsRequired(SLICE_PREDICATE.fields, [], []);
  }

  lemma DeletionNumbers()
    ensures Writes(DELETION, [Key(1, T_I64), Key(2, T_STRING), Key(3, T_STRUCT)])
    ensures Needs(DELETION, [Key(1, T_I64)])
  {
    hide Writes, Needs, Typed;
    assert Sound(SLICE_RANGE) && Sound(SLICE_PREDICATE);
    WritesInOrder(DELETION.fields, [Key(1, T_I64), Key(2, T_STRING), Key(3, T_STRUCT)]);
    NeedsRequired(DELETION.fields, [Key(1, T_I64)], [0]);
  }

  lemma MutationNumbers()
    ensures Writes(MUTATION, [Key(1, T_STRUCT), Key(2, T_STRUCT)])
    ensures Needs(MUTATION, [])
  {
    hide Writes, Needs, Typed;
    MutationIsSound();
    WritesInOrder(MUTATION.fields, [Key(1, T_STRUCT), Key(2, T_STRUCT)]);
    NeedsRequired(MUTATION.fields, [], []);
  }

  lemma ColumnDefNumbers()
    ensures Writes(COLUMN_DEF, [Key(1, T_STRING), Key(2, T_STRING), Key(3, T_I32), Key(4, T_STRING)])
    ensures Needs(COLUMN_DEF, [Key(1, T_STRING), Key(2, T_STRING)])
  {
    hide Writes, Needs, Typed;
    WritesInOrder(COLUMN_DEF.fields, [Key(1, T_STRING), Key(2, T_STRING), Key(3, T_I32), Key(4, T_STRING)]);
    NeedsRequired(COLUMN_DEF.fields, [Key(1, T_STRING), Key(2, T_STRING)], [0, 1]);
  }

  lemma CfDefNumbers()
    ensures Writes(CF_DEF, [Key(1, T_STRING), Key(2, T_STRING), Key(3, T_STRING), Key(5, T_STRING), Key(6, T_STRING),
                            Key(8, T_STRING), Key(9, T_DOUBLE), Key(11, T_DOUBLE), Key(12, T_DOUBLE), Key(13, T_LIST),
                            Key(14, T_I32), Key(15, T_STRING), Key(16, T_I32), Key(17, T_I32), Key(18, T_I32),
                            Key(19, T_I32), Key(20, T_I32), Key(21, T_I32), Key(22, T_I32), Key(23, T_DOUBLE)])
  {
    hide Writes, Typed, Sound;
    CfDefIsSound();
    WritesInOrder(CF_DEF.fields, [Key(1, T_STRING), Key(2, T_STRING), Key(3, T_STRING), Key(5, T_STRING),
                                  Key(6, T_STRING), Key(8, T_STRING), Key(9, T_DOUBLE), Key(11, T_DOUBLE),
                                  Key(12, T_DOUBLE), Key(13, T_LIST), Key(14, T_I32), Key(15, T_STRING),
                                  Key(16, T_I32), Key(17, T_I32), Key(18, T_I32), Key(19, T_I32), Key(20, T_I32),
                                  Key(21, T_I32), Key(22, T_I32), Key(23, T_DOUBLE)]);
  }

  lemma CfDefNeeds()
    ensures Needs(CF_DEF, [Key(1, T_STRING), Key(2, T_STRING)])
  {
    hide Needs, Sound;
    SoundIsDistinct(CF_DEF.fields) by {
      CfDefIsSound();
    }
    NeedsRequired(CF_DEF.fields, [Key(1, T_STRING), Key(2, T_STRING)], [0, 1]);
  }

  lemma KsDefNumbers()
    ensures Writes(KS_DEF, [Key(1, T_STRING), Key(2, T_STRING), Key(3, T_MAP), Key(4, T_I32), Key(5, T_LIST)])
    ensures Needs(KS_DEF, [Key(1, T_STRING), Key(2, T_STRING), Key(4, T_I32), Key(5, T_LIST)])
  {
    hide Writes, Needs, Typed;
    KsDefIsSound();
    WritesInOrder(KS_DEF.fields, [Key(1, T_STRING), Key(2, T_STRING), Key(3, T_MAP), Key(4, T_I32), Key(5, T_LIST)]);
    NeedsRequired(KS_DEF.fields, [Key(1, T_STRING), Key(2, T_STRING), Key(4, T_I32), Key(5, T_LIST)], [0, 1, 3, 4]);
  }

  lemma GetArgsNumbers()
    ensures Writes(GET_ARGS, [Key(1, T_STRING), Key(2, T_STRUCT), Key(3, T_I32)])
    ensures Needs(GET_ARGS, [Key(1, T_STRING), Key(2, T_STRUCT), Key(3, T_I32)])
  {
    hide Writes, Needs, Typed;
    assert Sound(COLUMN_PATH);
    WritesInOrder(GET_ARGS.fields, [Key(1, T_STRING), Key(2, T_STRUCT), Key(3, T_I32)]);
    NeedsRequired(GET_ARGS.fields, [Key(1, T_STRING), Key(2, T_STRUCT), Key(3, T_I32)], [0, 1, 2]);
  }

  lemma BatchMutateArgsNumbers()
    ensures Writes(BATCH_MUTATE_ARGS, [Key(1, T_MAP), Key(2, T_I32)])
    ensures Needs(BATCH_MUTATE_ARGS, [Key(1, T_MAP), Key(2, T_I32)])
  {
    hide Writes, Needs, Typed;
    BatchMutateIsSound();
    WritesInOrder(BATCH_MUTATE_ARGS.fields, [Key(1, T_MAP), Key(2, T_I32)]);
    NeedsRequired(BATCH_MUTATE_ARGS.fields, [Key(1, T_MAP), Key(2, T_I32)], [0, 1]);
  }

  // On the token stream, whatever the object holds before
  lemma ReaderInsists(sh: Shape, keys: seq<Key>, prior: Option<Val>, ws: seq<WireField>, rest: seq<Token>)
    requires Needs(sh, keys) && WellTypedFields(ws) && NestedGood(sh.fields, ws)
    ensures var r := ReadVal(sh, prior, Emit(Fields(ws)) + rest);
            if forall j :: 0 <= j < |keys| ==> Has(ws, keys[j]) then r.Good? && r.value.1 == rest
            else r == Bad(InvalidData)
  {
    hide ReadVal, DecodeFields, Emit, Has, NestedGood, SlotsOf;
    ReadDecodes(sh, prior, Fields(ws), rest);
  }

  // ---------- a keyspace without column families ----------

  function Keyspace(name: seq<Byte>, strategy: seq<Byte>, factor: int): Val
  {
    VStruct([Some(VText(name)), Some(VText(strategy)), None, Some(VNum(factor)), Some(VList([]))])
  }

  function KeyspaceFields(name: seq<Byte>, strategy: seq<Byte>, factor: int): seq<WireField>
  {
    [WireField(1, Str(name)), WireField(2, Str(strategy)), WireField(4, Num(T_I32, factor)),
     WireField(5, Items(T_STRUCT, []))]
  }

  lemma KeyspaceIsWritten(name: seq<Byte>, strategy: seq<Byte>, factor: int)
    ensures Typed(KS_DEF, Keyspace(name, strategy, factor))
    ensures ToWire(KS_DEF, Keyspace(name, strategy, factor)) == Fields(KeyspaceFields(name, strategy, factor))
  {
    var fs, slots := KS_DEF.fields, Keyspace(name, strategy, factor).slots;
    assert fs[4] == Field(5, true, ListOf(CF_DEF)) && ToFields(fs, slots, 5) == [];
    assert ToWire(ListOf(CF_DEF), VList([])) == Items(T_STRUCT, []);
    assert ToFields(fs, slots, 4) == [WireField(5, Items(T_STRUCT, []))];
    assert ToFields(fs, slots, 3) == [WireField(4, Num(T_I32, factor))] + ToFields(fs, slots, 4);
    assert ToFields(fs, slots, 2) == ToFields(fs, slots, 3);
    assert ToFields(fs, slots, 1) == [WireField(2, Str(strategy))] + ToFields(fs, slots, 2);
    assert ToFields(fs, slots, 0) == [WireField(1, Str(name))] + ToFields(fs, slots, 1);
  }

  // Fields of the types of a keyspace
  lemma TextIsEmitted(fid: int, bytes: seq<Byte>)
    ensures EmitField(WireField(fid, Str(bytes))) == [FieldBegin(T_STRING, fid), Text(bytes), FieldEnd]
  {
  }

  lemma NumberIsEmitted(fid: int, n: int)
    ensures EmitField(WireField(fid, Num(T_I32, n))) == [FieldBegin(T_I32, fid), Scalar(T_I32, n), FieldEnd]
  {
  }

  lemma NoStructsAreEmitted(fid: int)
    ensures EmitField(WireField(fid, Items(T_STRUCT, [])))
         == [FieldBegin(T_LIST, fid), ListBegin(T_STRUCT, 0), ListEnd, FieldEnd]
  {
    assert EmitItems([]) == [];
  }

  lemma FieldsCons(f: WireField, fs: seq<WireField>)
    ensures EmitFields([f] + fs) == EmitField(f) + EmitFields(fs) && EmitFields([]) == []
  {
    hide EmitField;
    assert ([f] + fs)[1..] == fs;
  }

  lemma FourFieldsAreEmitted(a: WireField, b: WireField, c: WireField, d: WireField)
    ensures Emit(Fields([a, b, c, d]))
         == [StructBegin] + (EmitField(a) + (EmitField(b) + (EmitField(c) + (EmitField(d) + []))))
            + [FieldStop, StructEnd]
  {
    hide EmitField, EmitFields;
    assert [a, b, c, d] == [a] + ([b] + ([c] + ([d] + [])));
    FieldsCons(d, []);
    FieldsCons(c, [d] + []);
    FieldsCons(b, [c] + ([d] + []));
    FieldsCons(a, [b] + ([c] + ([d] + [])));
  }

  lemma KsDefTokens(name: seq<Byte>, strategy: seq<Byte>, factor: int)
    ensures Typed(KS_DEF, Keyspace(name, strategy, factor))
    ensures Emit(ToWire(KS_DEF, Keyspace(name, strategy, factor)))
         == [StructBegin, FieldBegin(T_STRING, 1), Text(name), FieldEnd, FieldBegin(T_STRING, 2), Text(strategy),
             FieldEnd, FieldBegin(T_I32, 4), Scalar(T_I32, factor), FieldEnd, FieldBegin(T_LIST, 5),
             ListBegin(T_STRUCT, 0), ListEnd, FieldEnd, FieldStop, StructEnd]
  {
    hide Typed, ToWire, Emit, EmitField, Keyspace;
    KeyspaceIsWritten(name, strategy, factor);
    var ws := KeyspaceFields(name, strategy, factor);
    FourFieldsAreEmitted(ws[0], ws[1], ws[2], ws[3]);
    TextIsEmitted(1, name);
    TextIsEmitted(2, strategy);
    NumberIsEmitted(4, factor);
    NoStructsAreEmitted(5);
  }

  lemma ReadableFields(text: WireField, text2: WireField, none: WireField)
    requires text.fid == 1 && text.value.Str? && text2.fid == 2 && text2.value.Str?
    requires none.fid == 5 && none.value == Items(T_STRUCT, [])
    ensures var fs := KS_DEF.fields;
            && FieldIndex(fs, 1) == 0 && FieldIndex(fs, 2) == 1 && FieldIndex(fs, 5) == 4
            && DecodeField(fs[0], None, text.value).Good? && DecodeField(fs[1], None, text2.value).Good?
            && DecodeField(fs[4], None, none.value).Good?
  {
    var fs := KS_DEF.fields;
    assert fs[4] == Field(5, true, ListOf(CF_DEF)) && DecodeItems(CF_DEF, []) == Good([]);
    KsDefIsSound();
    IndexOfNumber(fs, 0);
    IndexOfNumber(fs, 1);
    IndexOfNumber(fs, 4);
  }

  lemma ThreeFields(fs: seq<Field>, a: WireField, b: WireField, c: WireField)
    requires WellTyped(a.value) && WellTyped(b.value) && WellTyped(c.value)
    requires forall f :: f in [a, b, c] && Relevant(fs, f) ==>
               DecodeField(fs[FieldIndex(fs, f.fid)], None, f.value).Good?
    ensures WellTypedFields([a, b, c]) && NestedGood(fs, [a, b, c])
  {
    hide WellTyped, DecodeField, Relevant, FieldIndex;
    assert [a, b, c][1..] == [b, c] && [b, c][1..] == [c] && [c][1..] == [];
    assert WellTypedFields([c]) && WellTypedFields([b, c]);
    assert a in [a, b, c] && b in [a, b, c] && c in [a, b, c];
    assert NestedGood(fs, []);
    assert NestedGood(fs, [c]);
    assert NestedGood(fs, [b, c]);
  }

  lemma KeyspaceIsReadable(text: WireField, text2: WireField, none: WireField)
    requires text.fid == 1 && text.value.Str? && text2.fid == 2 && text2.value.Str?
    requires none.fid == 5 && none.value == Items(T_STRUCT, [])
    ensures WellTypedFields([text, text2, none]) && NestedGood(KS_DEF.fields, [text, text2, none])
  {
    hide DecodeField, Relevant, NestedGood, WellTypedFields;
    ReadableFields(text, text2, none);
    ThreeFields(KS_DEF.fields, text, text2, none);
  }

  // The same without its replication factor is refused, though every other field is there.
  lemma MissingReplicationFactor(name: seq<Byte>, strategy: seq<Byte>, prior: Option<Val>, rest: seq<Token>)
    ensures var ws := [WireField(1, Str(name)), WireField(2, Str(strategy)), WireField(5, Items(T_STRUCT, []))];
            ReadVal(KS_DEF, prior, Emit(Fields(ws)) + rest) == Bad(InvalidData)
  {
    hide Needs, ReadVal, Emit, WellTypedFields, NestedGood;
    var ws := [WireField(1, Str(name)), WireField(2, Str(strategy)), WireField(5, Items(T_STRUCT, []))];
    KsDefNumbers();
    var keys: seq<Key> := [Key(1, T_STRING), Key(2, T_STRING), Key(4, T_I32), Key(5, T_LIST)];
    assert !Has(ws, keys[2]);
    hide Has;
    KeyspaceIsReadable(ws[0], ws[1], ws[2]);
    ReaderInsists(KS_DEF, keys, prior, ws, rest);
  }
}
