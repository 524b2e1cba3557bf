// The structs of cassandra_types.cpp and Cassandra.cpp that the codec is used with.
module CassandraTypes {
  import opened Options
  import opened ThriftWire
  import opened ThriftCodec
  import opened CassandraRpc

  const COLUMN := StructOf([
    Field(1, true, Chars), Field(2, true, Chars), Field(3, true, Plain(T_I64)), Field(4, false, Plain(T_I32))])

  const SUPER_COLUMN := StructOf([Field(1, true, Chars), Field(2, true, ListOf(COLUMN))])

  const COLUMN_OR_SUPERCOLUMN := StructOf([Field(1, false, COLUMN), Field(2, false, SUPER_COLUMN)])

  const COLUMN_PATH := StructOf([Field(3, true, Chars), Field(4, false, Chars), Field(5, false, Chars)])

  const SLICE_RANGE := StructOf([
    Field(1, true, Chars), Field(2, true, Chars), Field(3, true, Plain(T_BOOL)), Field(4, true, Plain(T_I32))])

  const SLICE_PREDICATE := StructOf([Field(1, false, ListOf(Chars)), Field(2, false, SLICE_RANGE)])

  const DELETION := StructOf([Field(1, true, Plain(T_I64)), Field(2, false, Chars), Field(3, false, SLICE_PREDICATE)])

  const MUTATION := StructOf([Field(1, false, COLUMN_OR_SUPERCOLUMN), Field(2, false, DELETION)])

  const COLUMN_DEF := StructOf([
    Field(1, true, Chars), Field(2, true, Chars), Field(3, false, Plain(T_I32)), Field(4, false, Chars)])

  const CF_DEF := StructOf([
    Field(1, true, Chars), Field(2, true, Chars), Field(3, false, Chars), Field(5, false, Chars),
    Field(6, false, Chars), Field(8, false, Chars), Field(9, false, Plain(T_DOUBLE)), Field(11, false, Plain(T_DOUBLE)),
    Field(12, false, Plain(T_DOUBLE)), Field(13, false, ListOf(COLUMN_DEF)), Field(14, false, Plain(T_I32)),
    Field(15, false, Chars), Field(16, false, Plain(T_I32)), Field(17, false, Plain(T_I32)),
    Field(18, false, Plain(T_I32)), Field(19, false, Plain(T_I32)), Field(20, false, Plain(T_I32)),
    Field(21, false, Plain(T_I32)), Field(22, false, Plain(T_I32)), Field(23, false, Plain(T_DOUBLE))])

  const KS_DEF := StructOf([
    Field(1, true, Chars), Field(2, true, Chars), Field(3, false, MapOf(Chars)), Field(4, true, Plain(T_I32)),
    Field(5, true, ListOf(CF_DEF))])

  const INVALID_REQUEST := StructOf([Field(1, true, Chars)])
  const NOT_FOUND := StructOf([])
  const UNAVAILABLE := StructOf([])
  const TIMED_OUT := StructOf([])

  const GET_ARGS := StructOf([Field(1, true, Chars), Field(2, true, COLUMN_PATH), Field(3, true, Plain(T_I32))])

  const BATCH_MUTATE_ARGS := StructOf([Field(1, true, MapOf(MapOf(ListOf(MUTATION)))), Field(2, true, Plain(T_I32))])

  lemma ColumnsAreSound()
    ensures Sound(COLUMN_OR_SUPERCOLUMN)
  {
    assert Sound(COLUMN);
    assert Sound(SUPER_COLUMN);
  }

  lemma MutationIsSound()
    ensures Sound(MUTATION)
  {
    ColumnsAreSound();
    assert Sound(SLICE_RANGE);
    assert Sound(SLICE_PREDICATE);
    assert Sound(DELETION);
  }

  lemma BatchMutateIsSound()
    ensures Sound(BATCH_MUTATE_ARGS)
  {
    MutationIsSound();
    assert Sound(ListOf(MUTATION));
    assert Sound(MapOf(ListOf(MUTATION)));
  }

  ghost predicate Growing(fs: seq<Field>)
  {
    forall k :: 0 <= k < |fs| - 1 ==> fs[k].fid < fs[k + 1].fid
  }

  // Field numbers that grow in declaration order are distinct.
  lemma {:induction false} GrowingIsDistinct(fs: seq<Field>, i: nat, j: nat)
    requires i < j < |fs| && Growing(fs)
    ensures fs[i].fid < fs[j].fid
    decreases j
  {
    if j == i + 1 {
    } else {
      GrowingIsDistinct(fs, i, j - 1);
      assert fs[j - 1].fid < fs[j - 1 + 1].fid;
    }
  }

  lemma CfDefGrows()
    ensures Growing(CF_DEF.fields)
  {
  }

  lemma CfDefIsSound()
    ensures Sound(CF_DEF)
  {
    hide Growing;
    var fs := CF_DEF.fields;
    CfDefGrows();
    assert Sound(COLUMN_DEF) && Sound(ListOf(COLUMN_DEF));
    forall i | 0 <= i < |fs| ensures Sound(fs[i].shape) {
    }
    forall i, j | 0 <= i < j < |fs| ensures fs[i].fid != fs[j].fid {
      GrowingIsDistinct(fs, i, j);
    }
  }

  lemma KsDefIsSound()
    ensures Sound(KS_DEF)
  {
    CfDefIsSound();
    assert Sound(ListOf(CF_DEF));
  }

  // A keyspace definition with its column families and their columns survives write and read.
  lemma KsDefRoundTrip(v: Val, rest: seq<Token>)
    requires Typed(KS_DEF, v)
    ensures ReadVal(KS_DEF, None, Emit(ToWire(KS_DEF, v)) + rest) == Good((v, rest))
  {
    KsDefIsSound();
    ReadInvertsWrite(KS_DEF, v, rest);
  }

  // So do the arguments of batch_mutate: a map of maps of lists of mutations.
  lemma BatchMutateRoundTrip(v: Val, rest: seq<Token>)
    requires Typed(BATCH_MUTATE_ARGS, v)
    ensures ReadVal(BATCH_MUTATE_ARGS, None, Emit(ToWire(BATCH_MUTATE_ARGS, v)) + rest) == Good((v, rest))
  {
    BatchMutateIsSound();
    ReadInvertsWrite(BATCH_MUTATE_ARGS, v, rest);
  }

  // get returns a column or super column; batch_mutate returns nothing.
  const GET := MethodSpec(
    GET_ARGS.fields, Some(COLUMN_OR_SUPERCOLUMN), [INVALID_REQUEST, NOT_FOUND, UNAVAILABLE, TIMED_OUT])

  const BATCH_MUTATE := MethodSpec(BATCH_MUTATE_ARGS.fields, None, [INVALID_REQUEST, UNAVAILABLE, TIMED_OUT])

  lemma MethodsAreSound()
    ensures SoundMethod(GET) && SoundMethod(BATCH_MUTATE)
  {
    ColumnsAreSound();
    assert Sound(COLUMN_PATH);
    BatchMutateIsSound();
  }

  // A nested struct is read into the object that is there: an object that already holds a column
  // keeps it when a super column is read into it.
  lemma StaleColumnSurvives(c: Val, sc: Val, rest: seq<Token>)
    requires Typed(COLUMN, c) && Typed(SUPER_COLUMN, sc)
    ensures var sent := VStruct([None, Some(sc)]);
            ReadVal(COLUMN_OR_SUPERCOLUMN, Some(VStruct([Some(c), None])),
                    Emit(ToWire(COLUMN_OR_SUPERCOLUMN, sent)) + rest)
            == Good((VStruct([Some(c), Some(sc)]), rest))
  {
    ColumnsAreSound();
    var v, prior := VStruct([None, Some(sc)]), Some(VStruct([Some(c), None]));
    ReadMerges(COLUMN_OR_SUPERCOLUMN, prior, v, rest);
    MergeIntoFresh(SUPER_COLUMN, sc);
    hide Merge, MergeField;
    MergeOfStruct(COLUMN_OR_SUPERCOLUMN.fields, prior, v);
    assert MergeField(COLUMN_OR_SUPERCOLUMN.fields[1], None, sc) == sc by {
      FieldIntoFresh(COLUMN_OR_SUPERCOLUMN.fields[1], sc);
    }
    assert MergeSlots(COLUMN_OR_SUPERCOLUMN.fields, [Some(c), None], [None, Some(sc)], 2) == [Some(c), Some(sc)];
  }
}
